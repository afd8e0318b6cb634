/** Resolution of the type names in message fields and of extension sources
    (resolving.go). */
module Resolving {
  import opened Options
  import opened Scopes
  import opened ScopeSearch

  /** A parsed file, as far as names go. Without a package clause its path is empty. */
  datatype File = File(enums: seq<Def>, messages: seq<Def>, package: seq<string>)

  function References(f: File): Defs { Defs(f.enums, f.messages, false) }

  function Sources(f: File): Defs { Defs([], f.messages, true) }

  // Specifications

  /** The first of several names that some enclosing scope holds. */
  function FirstFound(d: Defs, scope: seq<string>, names: seq<seq<string>>): Option<Ref>
    decreases |names|
  {
    if names == [] then None
    else
      var r := Found(d, scope, names[0]);
      if r.Some? then r else FirstFound(d, scope, names[1..])
  }

  /** The first import that holds a name, from its package outwards. */
  function FirstImport(imports: seq<Option<File>>, written: seq<string>, from: nat): Option<(nat, Ref)>
    requires from <= |imports|
    decreases |imports| - from
  {
    if from == |imports| then None
    else
      var r := if imports[from].None? then None
               else Found(References(imports[from].value), imports[from].value.package, written);
      if r.Some? then Some((from, r.value)) else FirstImport(imports, written, from + 1)
  }

  /** The first of several names that some import holds. */
  function FirstImported(imports: seq<Option<File>>, names: seq<seq<string>>): Option<(nat, Ref)>
    decreases |names|
  {
    if names == [] then None
    else
      var r := FirstImport(imports, names[0], 0);
      if r.Some? then r else FirstImported(imports, names[1..])
  }

  // The program

  class Field {
    const typeName: string
    const extraScopes: seq<seq<string>>
    var local: Option<Ref>
    var external: Option<(nat, Ref)>

    constructor (typeName: string, extraScopes: seq<seq<string>>)
      ensures this.typeName == typeName && this.extraScopes == extraScopes && local == None && external == None
    {
      this.typeName, this.extraScopes := typeName, extraScopes;
      local, external := None, None;
    }

    /** Extra scopes are names of messages, which are not empty. */
    ghost predicate Valid() { forall i | 0 <= i < |extraScopes| :: extraScopes[i] != [] }

    /** The names to search for: the written one, then those of the extra scopes. */
    function Names(): (names: seq<seq<string>>)
      ensures |names| == 1 + |extraScopes| && names[0] == Split(typeName)
    {
      [Split(typeName)] + extraScopes
    }

    /** resolveLocalReference */
    method ResolveLocal(file: File, message: ScopedName, ghost scope: seq<string>) returns (found: bool)
      requires Valid() && message == NameOf(scope)
      modifies this`local
      ensures var r := FirstFound(References(file), scope, Names());
              found == r.Some? && local == if r.Some? then r else old(local)
    {
      var names := Names();
      ParseIs(typeName);
      assert names[0..] == names;
      hide NameOf, Split, Found;
      for s := 0 to |names|
        invariant local == old(local)
        invariant FirstFound(References(file), scope, names) == FirstFound(References(file), scope, names[s..])
      {
        assert names[s..][1..] == names[s + 1..];
        var r, visited := SearchScopes(References(file), message, NameOf(names[s]), scope, names[s]);
        if r.Some? {
          local := r;
          return true;
        }
      }
      found := false;
    }

    /** resolveImportedReference */
    method ResolveImported(imports: seq<Option<File>>) returns (found: bool)
      requires Valid()
      modifies this`external
      ensures var r := FirstImported(imports, Names());
              found == r.Some? && external == if r.Some? then r else old(external)
    {
      var names := Names();
      ParseIs(typeName);
      assert names[0..] == names;
      hide NameOf, Split, Found;
      for s := 0 to |names|
        invariant external == old(external)
        invariant FirstImported(imports, names) == FirstImported(imports, names[s..])
      {
        assert names[s..][1..] == names[s + 1..];
        var r := SearchImports(imports, NameOf(names[s]), names[s]);
        if r.Some? {
          external := r;
          return true;
        }
      }
      found := false;
    }
  }

  /** The loop over imports for one name. */
  method SearchImports(imports: seq<Option<File>>, name: ScopedName, ghost written: seq<string>)
    returns (r: Option<(nat, Ref)>)
    requires written != [] && name == NameOf(written)
    ensures r == FirstImport(imports, written, 0)
  {
    hide NameOf, Found;
    for i := 0 to |imports|
      invariant FirstImport(imports, written, 0) == FirstImport(imports, written, i)
    {
      if imports[i].None? { continue; }
      var f := imports[i].value;
      var found, visited := SearchScopes(References(f), NameOf(f.package), name, f.package, written);
      if found.Some? { return Some((i, found.value)); }
    }
    r := None;
  }

  /** resolveLocalExtendSource */
  method ResolveExtendSource(file: File, message: ScopedName, written: string, ghost scope: seq<string>)
    returns (source: Option<nat>)
    requires message == NameOf(scope)
    ensures var r := Found(Sources(file), scope, Split(written));
            (source.None? <==> r.None?) && (source.Some? ==> r == Some(Message(source.value)))
    ensures source.Some? ==> source.value < |file.messages| && !file.messages[source.value].isExtend
  {
    ParseIs(written);
    var r, visited := SearchScopes(Sources(file), message, ParseName(written), scope, Split(written));
    FoundInnermost(Sources(file), scope, Split(written));
    if r.None? { return None; }
    source := Some(r.value.index);
  }

  // What a resolved name is

  function DefOf(d: Defs, r: Ref): Option<Def> {
    var defs := if r.Enum? then d.enums else d.messages;
    if r.index < |defs| then Some(defs[r.index]) else None
  }

  /** The full name of the scope made of the first `k` parts. */
  function ScopeName(scope: seq<string>, k: nat): string
    requires k <= |scope|
  {
    if Join(scope[..k]) == "" then "" else Join(Trim(scope[..k]))
  }

  function Qualified(scope: string, root: bool, written: string): string {
    if root then written else scope + "." + written
  }

  lemma LookupIsEqual(d: Defs, target: ScopedName)
    requires Lookup(d, target).Some?
    ensures DefOf(d, Lookup(d, target).value).Some?
    ensures Equal(DefOf(d, Lookup(d, target).value).value.name, target)
  {
  }

  /** The full name of what is found is the full name of an enclosing scope, followed by
      the written name; its last part is that of the written name. */
  lemma FoundName(d: Defs, scope: seq<string>, written: string, k: nat)
    requires Innermost(d, scope, Split(written), k)
    ensures var r := Found(d, scope, Split(written));
            r.Some? && DefOf(d, r.value).Some? &&
            var name, parts := DefOf(d, r.value).value.name, Split(written);
            name.name == parts[|parts| - 1] &&
            name.fullPath == Qualified(ScopeName(scope, k), k == Root(scope), written)
  {
    FoundInnermost(d, scope, Split(written));
    LookupIsEqual(d, Candidate(scope, Split(written), k));
    CandidateName(scope, Split(written), k);
    SplitDotless(written);
  }

  lemma CandidateName(scope: seq<string>, written: seq<string>, k: nat)
    requires written != [] && Root(scope) <= k <= |scope|
    ensures var c := Candidate(scope, written, k);
            c.name == written[|written| - 1] &&
            c.fullPath == Qualified(ScopeName(scope, k), k == Root(scope), Join(written))
  {
    InsideName(scope[..k], written);
    RootPrefix(scope, k);
  }

  /** A definition is found under one name exactly when it is found under the other, when
      these are equal as names. */
  lemma SameFound(d: Defs, a: ScopedName, b: ScopedName)
    requires Lookup(d, a).Some? && Lookup(d, b).Some?
    ensures Lookup(d, a) == Lookup(d, b) <==> Equal(a, b)
  {
    LookupIsEqual(d, a);
    LookupIsEqual(d, b);
    if Equal(a, b) {
      SameFirst(d.enums, false, a, b);
      SameFirst(d.messages, d.skipExtends, a, b);
    }
  }

  lemma {:induction false} SameFirst(defs: seq<Def>, skipExtends: bool, a: ScopedName, b: ScopedName)
    requires Equal(a, b)
    ensures FirstOf(defs, skipExtends, a) == FirstOf(defs, skipExtends, b)
  {
    if defs == [] {
    } else {
      SameFirst(defs[..|defs| - 1], skipExtends, a, b);
    }
  }

  // Fields copied into an extension

  /** The same name written in two scopes means the same exactly when the scopes have the
      same full name. */
  lemma SameScope(a: seq<string>, i: nat, b: seq<string>, j: nat, written: seq<string>)
    requires written != [] && Root(a) <= i <= |a| && Root(b) <= j <= |b|
    ensures Equal(Candidate(a, written, i), Candidate(b, written, j)) <==>
            (i == Root(a) <==> j == Root(b)) && ScopeName(a, i) == ScopeName(b, j)
  {
    CandidateName(a, written, i);
    CandidateName(b, written, j);
    RootPrefix(a, i);
    RootPrefix(b, j);
    hide Candidate, Join, Root;
    Behind(ScopeName(a, i), ScopeName(b, j), Join(written));
  }

  lemma Behind(a: string, b: string, w: string)
    ensures a + "." + w == b + "." + w <==> a == b
    ensures a + "." + w != w && b + "." + w != w
  {
    assert |a + "." + w| == |a| + 1 + |w| && |b + "." + w| == |b| + 1 + |w|;
    if a + "." + w == b + "." + w {
      assert (a + "." + w)[..|a|] == a && (b + "." + w)[..|b|] == b;
    }
  }

  /** In two scopes a name is held first by scopes of the same full name. */
  ghost predicate HeldAlike(d: Defs, a: seq<string>, b: seq<string>, written: seq<string>) {
    exists i: nat, j: nat :: AlikeAt(d, a, b, written, i, j)
  }

  ghost predicate AlikeAt(d: Defs, a: seq<string>, b: seq<string>, written: seq<string>, i: nat, j: nat) {
    Innermost(d, a, written, i) && Innermost(d, b, written, j) &&
    (i == Root(a) <==> j == Root(b)) && ScopeName(a, i) == ScopeName(b, j)
  }

  /** What the source's own name means in the extension is what the written name means in
      the source. */
  ghost predicate NamesItself(d: Defs, extension: seq<string>, source: seq<string>, written: seq<string>) {
    exists i: nat, j: nat :: ItselfAt(d, extension, source, written, i, j)
  }

  ghost predicate ItselfAt(d: Defs, extension: seq<string>, source: seq<string>, written: seq<string>, i: nat, j: nat) {
    Innermost(d, extension, source, i) && Innermost(d, source, written, j) &&
    Last(source) == Last(written) &&
    Qualified(ScopeName(extension, i), i == Root(extension), Join(source)) ==
    Qualified(ScopeName(source, j), j == Root(source), Join(written))
  }

  function Last(path: seq<string>): string { if path == [] then "" else path[|path| - 1] }

  lemma InnermostFound(d: Defs, scope: seq<string>, written: seq<string>) returns (k: nat)
    requires Found(d, scope, written).Some?
    ensures Innermost(d, scope, written, k)
    ensures forall i: nat | Innermost(d, scope, written, i) :: i == k
    ensures Found(d, scope, written) == Lookup(d, Candidate(scope, written, k))
  {
    FoundInnermost(d, scope, written);
    k :| Innermost(d, scope, written, k);
  }

  lemma AlikeExactly(d: Defs, a: seq<string>, b: seq<string>, written: seq<string>)
    requires written != [] && Found(d, a, written).Some?
    ensures Found(d, a, written) == Found(d, b, written) <==> HeldAlike(d, a, b, written)
  {
    FoundInnermost(d, b, written);
    var i := InnermostFound(d, a, written);
    if Found(d, b, written).Some? {
      var j := InnermostFound(d, b, written);
      SameFound(d, Candidate(a, written, i), Candidate(b, written, j));
      SameScope(a, i, b, j, written);
      hide Innermost, Candidate, Lookup, Found, ScopeName, Root;
      assert AlikeAt(d, a, b, written, i, j) <==> HeldAlike(d, a, b, written);
    } else {
      hide Lookup, Candidate, ScopeName;
      assert forall j: nat :: !Innermost(d, b, written, j);
    }
  }

  lemma ItselfExactly(d: Defs, extension: seq<string>, source: seq<string>, written: seq<string>)
    requires written != [] && source != [] && Found(d, extension, source).Some?
    ensures Found(d, extension, source) == Found(d, source, written) <==> NamesItself(d, extension, source, written)
  {
    FoundInnermost(d, source, written);
    var i := InnermostFound(d, extension, source);
    if Found(d, source, written).Some? {
      var j := InnermostFound(d, source, written);
      SameFound(d, Candidate(extension, source, i), Candidate(source, written, j));
      CandidateName(extension, source, i);
      CandidateName(source, written, j);
      hide Innermost, Candidate, Lookup, Found, ScopeName, Root, Qualified;
      assert ItselfAt(d, extension, source, written, i, j) <==> NamesItself(d, extension, source, written);
    } else {
      hide Lookup, Candidate, ScopeName;
      assert forall j: nat :: !Innermost(d, source, written, j);
    }
  }

  /** A field copied from a source message into an extension gets the definition that its
      written type has in the source exactly when the innermost scopes that hold the type,
      of the extension and of the source, have the same full name; or no scope of the
      extension holds it, and there the name of the source message itself means what the
      written type means in the source, or neither means anything. */
  lemma CopiedField(d: Defs, extension: seq<string>, source: seq<string>, written: seq<string>)
    requires written != [] && source != []
    ensures FirstFound(d, extension, [written, source]) == Found(d, source, written) <==>
            HeldAlike(d, extension, source, written) ||
            (Absent(d, extension, written) &&
             (NamesItself(d, extension, source, written) ||
              (Absent(d, extension, source) && Absent(d, source, written))))
  {
    assert [written, source][1..] == [source] && [source][1..] == [];
    assert FirstFound(d, extension, [source]) == Found(d, extension, source);
    FoundInnermost(d, extension, written);
    FoundInnermost(d, extension, source);
    FoundInnermost(d, source, written);
    hide Found, Absent, HeldAlike, NamesItself, Innermost, Lookup, Candidate;
    if Found(d, extension, written).Some? {
      AlikeExactly(d, extension, source, written);
    } else {
      NotAlike(d, extension, source, written);
      if Found(d, extension, source).Some? {
        ItselfExactly(d, extension, source, written);
      } else {
        NotItself(d, extension, source, written);
      }
    }
  }

  lemma NotAlike(d: Defs, a: seq<string>, b: seq<string>, written: seq<string>)
    requires Absent(d, a, written)
    ensures !HeldAlike(d, a, b, written)
  {
    forall i: nat
      ensures !Innermost(d, a, written, i)
    {
      hide Lookup, Candidate;
    }
    hide Innermost;
  }

  lemma NotItself(d: Defs, extension: seq<string>, source: seq<string>, written: seq<string>)
    requires Absent(d, extension, source)
    ensures !NamesItself(d, extension, source, written)
  {
    forall i: nat
      ensures !Innermost(d, extension, source, i)
    {
      hide Lookup, Candidate;
    }
    hide Innermost;
  }

  /** When the written type and the source message end in different parts, only the first
      case is left: a type that no scope of the extension holds is resolved wrongly. */
  lemma CopiedFieldElsewhere(d: Defs, extension: seq<string>, source: seq<string>, written: seq<string>)
    requires written != [] && source != [] && Last(source) != Last(written)
    ensures FirstFound(d, extension, [written, source]) == Found(d, source, written) <==>
            HeldAlike(d, extension, source, written) ||
            (Absent(d, extension, written) && Absent(d, extension, source) && Absent(d, source, written))
  {
    CopiedField(d, extension, source, written);
    assert !NamesItself(d, extension, source, written);
    hide HeldAlike, Absent, Found;
  }

  // A run

  /** Messages p.Foo and p.Foo.Bar, and `extend p.Foo` in the same package p. */
  function ExtendedFile(): File {
    File([], [Def(NameOf(["p", "Foo"]), false), Def(NameOf(["p", "Foo", "Bar"]), false),
              Def(NameOf(["p", "p.Foo"]), true)], ["p"])
  }

  lemma Joined()
    ensures Join(["p"]) == "p" && Join(["p", "Foo"]) == "p.Foo" && Join(["p", "p.Foo"]) == "p.p.Foo"
    ensures Join(["p", "Foo", "Bar"]) == "p.Foo.Bar" && Join(["Bar"]) == "Bar" && Split("Bar") == ["Bar"]
  {
    assert ["p", "Foo"][..1] == ["p"] && ["p", "p.Foo"][..1] == ["p"];
    assert ["p", "Foo", "Bar"][..2] == ["p", "Foo"];
    assert "p" + "." + "Foo" == "p.Foo" && "p" + "." + "p.Foo" == "p.p.Foo" && "p.Foo" + "." + "Bar" == "p.Foo.Bar";
    assert Dotless("Bar");
  }

  /** The definitions of the file under a last part and a full name. */
  lemma LookupThere(target: ScopedName)
    ensures var d := References(ExtendedFile());
            Lookup(d, target) ==
            if target.name == "Foo" && target.fullPath == "p.Foo" then Some(Message(0))
            else if target.name == "Bar" && target.fullPath == "p.Foo.Bar" then Some(Message(1))
            else if target.name == "p.Foo" && target.fullPath == "p.p.Foo" then Some(Message(2))
            else None
  {
    Joined();
    var m := ExtendedFile().messages;
    hide Join;
    assert m[..2][..1] == m[..1] && m[..1][..0] == [] && m[..3] == m;
    assert FirstOf(m[..0], false, target) == None;
    assert FirstOf(m[..1], false, target) == if Takes(m[0], false, target) then Some(0) else None;
    assert FirstOf(m[..2], false, target) ==
           if Takes(m[0], false, target) then Some(0) else if Takes(m[1], false, target) then Some(1) else None;
  }

  lemma CandidateThere(scope: seq<string>, written: seq<string>, k: nat)
    requires written != [] && k <= |scope| && (scope == ["p", "p.Foo"] || scope == ["p", "Foo"])
    ensures var c := Candidate(scope, written, k);
            Root(scope) == 0 && c.name == Last(written) &&
            c.fullPath == Qualified(if k == 2 then Join(scope) else "p", k == 0, Join(written))
  {
    hide Join, ScopeName, Root, Qualified, Candidate;
    ScopeNamesThere(scope, k);
    CandidateName(scope, written, k);
    Unrooted(scope, k, written);
  }

  lemma Unrooted(scope: seq<string>, k: nat, written: seq<string>)
    requires k <= |scope| && Root(scope) == 0
    requires k > 0 ==> ScopeName(scope, k) == if k == 1 then "p" else Join(scope)
    requires k <= 2
    ensures Qualified(ScopeName(scope, k), k == Root(scope), Join(written)) ==
            Qualified(if k == 2 then Join(scope) else "p", k == 0, Join(written))
  {
    hide Join, ScopeName, Root;
  }

  lemma ScopeNamesThere(scope: seq<string>, k: nat)
    requires k <= |scope| && (scope == ["p", "p.Foo"] || scope == ["p", "Foo"])
    ensures Root(scope) == 0 && (k > 0 ==> ScopeName(scope, k) == if k == 1 then "p" else Join(scope))
  {
    hide Join, ScopeName;
    Joined();
    if k > 0 {
      PlainScopeName(scope, k);
      assert k == 1 ==> scope[..k] == ["p"];
      assert k == 2 ==> scope[..k] == scope;
    }
  }

  lemma PlainScopeName(scope: seq<string>, k: nat)
    requires 0 < k <= |scope| && scope[k - 1] != ""
    ensures ScopeName(scope, k) == Join(scope[..k])
  {
    RootIs(scope[..k]);
  }

  /** A field `Bar` of Foo, copied into the extension, resolves to p.Foo; in Foo itself it
      resolves to p.Foo.Bar. */
  method CopiedFieldRun() returns (f: Field)
    ensures f.local == Some(Message(0)) && f.typeName == "Bar" && f.extraScopes == [["p", "Foo"]]
    ensures Found(References(ExtendedFile()), ["p", "Foo"], Split("Bar")) == Some(Message(1))
  {
    f := new Field("Bar", [["p", "Foo"]]);
    var found := f.ResolveLocal(ExtendedFile(), NameOf(["p", "p.Foo"]), ["p", "p.Foo"]);
    CopiedFieldSearches();
    assert f.Names() == [["Bar"], ["p", "Foo"]] by { Joined(); }
    assert f.Names()[1..] == [["p", "Foo"]];
    hide Found, Split, Join;
  }

  lemma CopiedFieldSearches()
    ensures var d := References(ExtendedFile());
            Found(d, ["p", "p.Foo"], Split("Bar")) == None &&
            Found(d, ["p", "p.Foo"], ["p", "Foo"]) == Some(Message(0)) &&
            Found(d, ["p", "Foo"], Split("Bar")) == Some(Message(1))
  {
    var d, e, s := References(ExtendedFile()), ["p", "p.Foo"], ["p", "Foo"];
    Joined();
    hide Join, Lookup, Candidate;
    forall k: nat | k <= 2
      ensures Root(e) == 0 && Root(s) == 0
      ensures Lookup(d, Candidate(e, ["Bar"], k)) == None
      ensures Lookup(d, Candidate(e, s, k)) == if k == 0 then Some(Message(0)) else None
      ensures k == 2 ==> Lookup(d, Candidate(s, ["Bar"], k)) == Some(Message(1))
    {
      CandidateThere(e, ["Bar"], k);
      CandidateThere(e, s, k);
      CandidateThere(s, ["Bar"], k);
      LookupThere(Candidate(e, ["Bar"], k));
      LookupThere(Candidate(e, s, k));
      LookupThere(Candidate(s, ["Bar"], k));
    }
    assert Innermost(d, e, s, 0) && Innermost(d, s, ["Bar"], 2);
    FoundInnermost(d, e, ["Bar"]);
    FoundInnermost(d, e, s);
    FoundInnermost(d, s, ["Bar"]);
  }
}
