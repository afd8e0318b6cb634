/** Dotted names and the search for what they mean (types/scopes.go, resolving.go). */
module Scopes {
  import opened Options

  // Dotted strings

  predicate Dotless(s: string) { forall i | 0 <= i < |s| :: s[i] != '.' }

  predicate AllDotless(parts: seq<string>) { forall i | 0 <= i < |parts| :: Dotless(parts[i]) }

  /** strings.Join(parts, ".") */
  function Join(parts: seq<string>): string {
    if parts == [] then ""
    else if |parts| == 1 then parts[0]
    else Join(parts[..|parts| - 1]) + "." + parts[|parts| - 1]
  }

  /** The position of the last dot. */
  function LastDot(s: string): (r: Option<nat>)
    ensures r.None? ==> Dotless(s)
    ensures r.Some? ==> r.value < |s| && s[r.value] == '.' && forall i | r.value < i < |s| :: s[i] != '.'
  {
    if s == "" then None
    else if s[|s| - 1] == '.' then Some(|s| - 1)
    else LastDot(s[..|s| - 1])
  }

  /** strings.Split(s, ".") */
  function Split(s: string): (parts: seq<string>)
    ensures parts != []
  {
    var dot := LastDot(s);
    if dot.None? then [s] else Split(s[..dot.value]) + [s[dot.value + 1..]]
  }

  lemma {:induction false} SplitDotless(s: string)
    ensures AllDotless(Split(s)) && Join(Split(s)) == s
    decreases |s|
  {
    var dot := LastDot(s);
    if dot.Some? {
      var d := dot.value;
      SplitDotless(s[..d]);
      var init, last := Split(s[..d]), s[d + 1..];
      assert Split(s) == init + [last];
      assert (init + [last])[..|init|] == init;
      assert s == s[..d] + "." + last;
      hide LastDot, Split;
    }
  }

  lemma NoDotBehind(a: string, b: string, i: nat)
    requires Dotless(b) && |a| < i < |a| + 1 + |b|
    ensures (a + "." + b)[i] != '.'
  {
    assert (a + "." + b)[i] == b[i - |a| - 1];
  }

  lemma LastDotIs(a: string, b: string)
    requires Dotless(b)
    ensures LastDot(a + "." + b) == Some(|a|)
  {
    hide LastDot, Dotless;
    var s := a + "." + b;
    assert s[|a|] == '.';
    var d := LastDot(s);
    if d.None? { DotInside(s, |a|); }
    if d.Some? && d.value > |a| { NoDotBehind(a, b, d.value); }
  }

  lemma DotInside(s: string, i: nat)
    requires i < |s| && s[i] == '.'
    ensures !Dotless(s)
  {
  }

  lemma {:induction false} SplitJoin(parts: seq<string>)
    requires parts != [] && AllDotless(parts)
    ensures Split(Join(parts)) == parts
  {
    var n := |parts| - 1;
    if n == 0 {
      assert Dotless(parts[0]);
    } else {
      SplitJoin(parts[..n]);
      LastDotIs(Join(parts[..n]), parts[n]);
      var s := Join(parts[..n]) + "." + parts[n];
      assert s[..|Join(parts[..n])|] == Join(parts[..n]) && s[|Join(parts[..n])| + 1..] == parts[n];
      assert parts == parts[..n] + [parts[n]];
      hide LastDot;
    }
  }

  // Scoped names

  datatype ScopedName = ScopedName(name: string, parent: seq<string>, fullPath: string)

  function ParseName(name: string): ScopedName {
    var parts := Split(name);
    if |parts| > 1 then ScopedName(parts[|parts| - 1], parts[..|parts| - 1], name) else ScopedName(name, [], name)
  }

  function Child(s: ScopedName, name: string): ScopedName {
    var path := s.parent + (if s.name != "" then [s.name] else []) + [name];
    ScopedName(name, path[..|path| - 1], Join(path))
  }

  /** The name as if written inside `target`. */
  function ToScope(s: ScopedName, target: ScopedName): ScopedName {
    if target.fullPath == "" then s
    else
      var path := target.parent + (if target.name != "" then [target.name] else []) + s.parent + [s.name];
      ScopedName(s.name, path[..|path| - 1], Join(path))
  }

  function ToParent(s: ScopedName): ScopedName {
    if s.parent == [] then ScopedName("", [], "")
    else ScopedName(s.parent[|s.parent| - 1], s.parent[..|s.parent| - 1], Join(s.parent))
  }

  predicate Equal(s: ScopedName, t: ScopedName) { t.name == s.name && s.fullPath == t.fullPath }

  predicate CanResolveParent(s: ScopedName) { s.fullPath != "" }

  /** The name that a path of parts stands for; the root is the empty path. */
  function NameOf(path: seq<string>): ScopedName {
    if path == [] then ScopedName("", [], "")
    else ScopedName(path[|path| - 1], path[..|path| - 1], Join(path))
  }

  lemma ParseIs(name: string)
    ensures ParseName(name) == NameOf(Split(name)) && AllDotless(Split(name))
  {
    SplitDotless(name);
  }

  /** A last part that is empty is passed over when something is put inside a name. */
  function Trim(path: seq<string>): seq<string> {
    if path != [] && path[|path| - 1] == "" then path[..|path| - 1] else path
  }

  /** The path meant by a written path inside a scope. */
  function Inside(path: seq<string>, written: seq<string>): seq<string> {
    if Join(path) == "" then written else Trim(path) + written
  }

  /** The scopes that count as the root: the empty path, and the lone empty part in front
      of a leading dot. */
  lemma RootIs(path: seq<string>)
    ensures Join(path) == "" <==> path == [] || path == [""]
  {
  }

  lemma ToScopeIs(path: seq<string>, written: seq<string>)
    requires written != []
    ensures ToScope(NameOf(written), NameOf(path)) == NameOf(Inside(path, written))
  {
    RootIs(path);
    if path != [] {
      var n, m := |path| - 1, |written| - 1;
      var outer := path[..n] + (if path[n] != "" then [path[n]] else []);
      assert outer == Trim(path);
      assert outer + written[..m] + [written[m]] == outer + written;
      assert (outer + written)[..|outer| + m] == outer + written[..m];
      hide Join;
    }
  }

  lemma ToParentIs(path: seq<string>)
    ensures CanResolveParent(NameOf(path)) <==> Join(path) != ""
    ensures ToParent(NameOf(path)) == NameOf(if path == [] then [] else path[..|path| - 1])
  {
  }

  lemma ChildIs(path: seq<string>, name: string)
    ensures Child(NameOf(path), name) == NameOf(Trim(path) + [name])
  {
    if path != [] {
      var n := |path| - 1;
      assert path[..n] + (if path[n] != "" then [path[n]] else []) == Trim(path);
    }
    assert (Trim(path) + [name])[..|Trim(path)|] == Trim(path);
  }

  lemma {:induction false} JoinConcat(a: seq<string>, b: seq<string>)
    requires a != [] && b != []
    ensures Join(a + b) == Join(a) + "." + Join(b)
    decreases |b|
  {
    var n := |b| - 1;
    assert (a + b)[..|a + b| - 1] == a + b[..n];
    if n == 0 {
      assert a + b[..n] == a;
    } else {
      JoinConcat(a, b[..n]);
      assert Join(a) + "." + Join(b[..n]) + "." + b[n] == Join(a) + "." + (Join(b[..n]) + "." + b[n]);
    }
  }

  /** The full name of what is written inside a scope: behind the scope's, unless that is
      the root. */
  lemma InsideName(path: seq<string>, written: seq<string>)
    requires written != []
    ensures Inside(path, written) != [] && NameOf(Inside(path, written)).name == written[|written| - 1]
    ensures NameOf(Inside(path, written)).fullPath ==
            if Join(path) == "" then Join(written) else Join(Trim(path)) + "." + Join(written)
  {
    RootIs(path);
    if Join(path) != "" {
      assert Trim(path) != [];
      JoinConcat(Trim(path), written);
    }
  }

  // The enclosing scopes

  /** How many parts the outermost visited scope has. */
  function Root(scope: seq<string>): nat { if scope != [] && scope[0] == "" then 1 else 0 }

  lemma RootPrefix(scope: seq<string>, k: nat)
    requires Root(scope) <= k <= |scope|
    ensures Join(scope[..k]) == "" <==> k == Root(scope)
  {
    RootIs(scope[..k]);
  }

  /** The scopes a search visits, from the inside: the scope and its parents up to the
      root, one part at a time, whatever the parts hold. */
  function Enclosing(scope: seq<string>): (s: seq<seq<string>>)
    ensures |s| == |scope| + 1 - Root(scope) && forall i | 0 <= i < |s| :: s[i] == scope[..|scope| - i]
  {
    seq(|scope| + 1 - Root(scope), i requires 0 <= i < |scope| + 1 - Root(scope) => scope[..|scope| - i])
  }

  function FullNames(scopes: seq<seq<string>>): (names: seq<string>)
    ensures |names| == |scopes| && forall i | 0 <= i < |names| :: names[i] == Join(scopes[i])
  {
    seq(|scopes|, i requires 0 <= i < |scopes| => Join(scopes[i]))
  }

  function Dots(s: string): nat {
    if s == "" then 0 else Dots(s[..|s| - 1]) + (if s[|s| - 1] == '.' then 1 else 0)
  }

  function AllDots(parts: seq<string>): nat {
    if parts == [] then 0 else AllDots(parts[..|parts| - 1]) + Dots(parts[|parts| - 1])
  }

  lemma {:induction false} DotsConcat(a: string, b: string)
    ensures Dots(a + b) == Dots(a) + Dots(b)
    decreases |b|
  {
    if b == "" {
      assert a + b == a;
    } else {
      DotsConcat(a, b[..|b| - 1]);
      assert (a + b)[..|a + b| - 1] == a + b[..|b| - 1];
    }
  }

  lemma {:induction false} NoDots(s: string)
    ensures Dots(s) == 0 <==> Dotless(s)
  {
    if s == "" {
    } else {
      NoDots(s[..|s| - 1]);
    }
  }

  lemma {:induction false} DotsJoin(parts: seq<string>)
    requires parts != []
    ensures Dots(Join(parts)) == AllDots(parts) + |parts| - 1
  {
    var n := |parts| - 1;
    if n == 0 {
      assert AllDots(parts[..0]) == 0;
    } else {
      DotsJoin(parts[..n]);
      DotsConcat(Join(parts[..n]) + ".", parts[n]);
      DotsConcat(Join(parts[..n]), ".");
      assert Dots(".") == 1;
    }
  }

  lemma {:induction false} SplitCount(s: string)
    ensures |Split(s)| == Dots(s) + 1
    decreases |s|
  {
    var dot := LastDot(s);
    if dot.None? {
      NoDots(s);
    } else {
      var d := dot.value;
      SplitCount(s[..d]);
      assert s == s[..d] + "." + s[d + 1..];
      DotsConcat(s[..d] + ".", s[d + 1..]);
      DotsConcat(s[..d], ".");
      NoDots(s[d + 1..]);
      assert Dots(".") == 1;
      hide LastDot;
    }
  }

  lemma {:induction false} AllDotsZero(parts: seq<string>)
    ensures AllDots(parts) == 0 <==> AllDotless(parts)
  {
    if parts == [] {
    } else {
      AllDotsZero(parts[..|parts| - 1]);
      NoDots(parts[|parts| - 1]);
    }
  }

  /** No part holds a dot, but for one in front of the first. */
  predicate Plain(scope: seq<string>) {
    AllDotless(scope) ||
    (scope != [] && scope[0] != "" && scope[0][0] == '.' && Dotless(scope[0][1..]) && AllDotless(scope[1..]))
  }

  /** The first of the split parts is empty exactly behind nothing or a leading dot. */
  lemma {:induction false} SplitHead(s: string)
    ensures Split(s)[0] == "" <==> s == "" || s[0] == '.'
    decreases |s|
  {
    var dot := LastDot(s);
    if dot.None? {
    } else if dot.value == 0 {
      assert Split(s)[0] == Split(s[..0])[0];
    } else {
      SplitHead(s[..dot.value]);
      hide LastDot;
    }
  }

  /** A leading dot splits off an empty part. */
  lemma {:induction false} JoinLeading(first: string, rest: seq<string>)
    ensures Join(["", first] + rest) == Join(["." + first] + rest)
    decreases |rest|
  {
    if rest == [] {
      assert ["", first] + rest == ["", first] && ["." + first] + rest == ["." + first];
      assert ["", first][..1] == [""];
      assert "" + "." + first == "." + first;
    } else {
      var n := |rest| - 1;
      JoinLeading(first, rest[..n]);
      assert (["", first] + rest)[..n + 2] == ["", first] + rest[..n];
      assert (["." + first] + rest)[..n + 1] == ["." + first] + rest[..n];
    }
  }

  lemma JoinHead(scope: seq<string>)
    requires scope != [] && scope[0] != ""
    ensures Join(scope) != "" && Join(scope)[0] == scope[0][0]
  {
    RootIs(scope);
    JoinStarts(scope);
  }

  lemma {:induction false} JoinStarts(scope: seq<string>)
    requires scope != []
    ensures scope[0] <= Join(scope)
  {
    if |scope| == 1 {
    } else {
      JoinStarts(scope[..|scope| - 1]);
    }
  }

  lemma {:induction false} DotsFrom(parts: seq<string>)
    requires parts != []
    ensures AllDots(parts) == Dots(parts[0]) + AllDots(parts[1..])
  {
    var n := |parts| - 1;
    if n == 0 {
      assert AllDots(parts[..0]) == 0 && AllDots(parts[1..]) == 0;
    } else {
      DotsFrom(parts[..n]);
      assert parts[..n][1..] == parts[1..][..n - 1];
    }
  }

  lemma PlainDots(scope: seq<string>)
    ensures Plain(scope) <==>
            AllDots(scope) == 0 || (AllDots(scope) == 1 && scope != [] && scope[0] != "" && scope[0][0] == '.')
  {
    AllDotsZero(scope);
    if scope != [] && scope[0] != "" && scope[0][0] == '.' {
      DotsFrom(scope);
      assert scope[0] == "." + scope[0][1..];
      DotsConcat(".", scope[0][1..]);
      assert Dots(".") == 1;
      NoDots(scope[0][1..]);
      AllDotsZero(scope[1..]);
    }
  }

  /** The scopes a search visits are those that the dots of the full name enclose exactly
      when no part holds a dot, a leading one aside: an extension of a dotted name inside a
      package skips the scopes that the dots in its last part enclose. */
  lemma ScopesAgree(scope: seq<string>)
    ensures FullNames(Enclosing(scope)) == FullNames(Enclosing(Split(Join(scope)))) <==> Plain(scope)
  {
    var split := Split(Join(scope));
    if scope == [] {
      assert split == [""];
      assert FullNames(Enclosing(scope)) == [""] && FullNames(Enclosing(split)) == [""];
    } else {
      PlainDots(scope);
      DotsJoin(scope);
      SplitCount(Join(scope));
      SplitHead(Join(scope));
      RootIs(scope);
      if scope[0] != "" { JoinHead(scope); } else { EmptyHead(scope); }
      if AllDotless(scope) {
        SplitJoin(scope);
      } else if Plain(scope) {
        LeadingSplit(scope);
      } else {
        hide Split, Join, Dots, AllDots, Plain;
        assert |Enclosing(scope)| != |Enclosing(split)|;
        assert |FullNames(Enclosing(scope))| != |FullNames(Enclosing(split))|;
      }
    }
  }

  lemma EmptyHead(scope: seq<string>)
    requires scope != [] && scope[0] == ""
    ensures Join(scope) == "" || Join(scope)[0] == '.'
  {
    if |scope| > 1 {
      JoinConcat(scope[..1], scope[1..]);
      assert scope == scope[..1] + scope[1..];
    }
  }

  lemma LeadingSplit(scope: seq<string>)
    requires Plain(scope) && !AllDotless(scope)
    ensures FullNames(Enclosing(scope)) == FullNames(Enclosing(Split(Join(scope))))
  {
    var first, rest := scope[0][1..], scope[1..];
    assert scope[0] == "." + first;
    assert scope == ["." + first] + rest;
    LeadingNames(first, rest);
    JoinLeading(first, rest);
    assert AllDotless(["", first] + rest);
    SplitJoin(["", first] + rest);
  }

  lemma LeadingNames(first: string, rest: seq<string>)
    ensures FullNames(Enclosing(["." + first] + rest)) == FullNames(Enclosing(["", first] + rest))
  {
    var scope, split := ["." + first] + rest, ["", first] + rest;
    var a, b := FullNames(Enclosing(scope)), FullNames(Enclosing(split));
    assert scope[0] == "." + first && split[0] == "";
    forall i | 0 <= i < |a|
      ensures a[i] == b[i]
    {
      var k := |scope| - i;
      if k == 0 {
        assert scope[..0] == [] && split[..1] == [""];
      } else {
        assert scope[..k] == ["." + first] + rest[..k - 1] && split[..k + 1] == ["", first] + rest[..k - 1];
        JoinLeading(first, rest[..k - 1]);
        hide Join;
      }
    }
  }
}
