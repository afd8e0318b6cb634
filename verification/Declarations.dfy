/** The names that the parser gives to the definitions of a file (parser.go), and what
    they mean for the search. */
module Declarations {
  import opened Options
  import opened Scopes
  import opened ScopeSearch
  import opened Resolving

  /** A message or enum by the chain of identifiers around it, outermost first; or an
      extension inside such a chain, of a type as written. */
  datatype Decl = Plain(chain: seq<string>) | Extend(inside: seq<string>, target: string)

  function Chain(d: Decl): seq<string> {
    match d
    case Plain(chain) => chain
    case Extend(inside, target) => inside + [target]
  }

  /** buildScopedName, with the package record known when the definition is met. There is
      one after a package clause or a Go package option; after the option alone its name
      is empty. */
  function BuildName(package: Option<seq<string>>, chain: seq<string>): ScopedName
    requires chain != []
  {
    var n := |chain| - 1;
    if n > 0 then Child(BuildName(package, chain[..n]), chain[n])
    else if package.None? then ParseName(chain[0])
    else Child(NameOf(package.value), chain[0])
  }

  /** The path behind the built name: the parts of the package and of the chain, where the
      head of a chain outside any package is split at its dots. */
  function BuiltPath(package: Option<seq<string>>, chain: seq<string>): seq<string>
    requires chain != []
  {
    (if package.None? then Split(chain[0]) else package.value + [chain[0]]) + chain[1..]
  }

  predicate IsIdentifier(s: string) { s != "" && Dotless(s) }

  predicate AllIdentifiers(parts: seq<string>) { forall i | 0 <= i < |parts| :: IsIdentifier(parts[i]) }

  /** A type as it may be written: identifiers between dots, and perhaps a dot in front. */
  predicate IsTypeName(s: string) {
    s != "" && s[|s| - 1] != '.' && forall i | 0 < i < |s| && s[i] == '.' :: s[i - 1] != '.'
  }

  /** What the grammar of proto files admits. */
  predicate WellWritten(package: Option<seq<string>>, d: Decl) {
    (package.Some? ==> AllIdentifiers(package.value)) &&
    match d
    case Plain(chain) => chain != [] && AllIdentifiers(chain)
    case Extend(inside, target) => AllIdentifiers(inside) && IsTypeName(target)
  }

  lemma IdentifierPath(parts: seq<string>)
    requires AllIdentifiers(parts)
    ensures Trim(parts) == parts && AllDotless(parts)
  {
  }

  lemma BuiltOne(package: Option<seq<string>>, head: string)
    requires package.Some? ==> AllIdentifiers(package.value)
    ensures BuildName(package, [head]) == NameOf(BuiltPath(package, [head]))
  {
    if package.None? {
      ParseIs(head);
      assert BuiltPath(package, [head]) == Split(head);
    } else {
      IdentifierPath(package.value);
      ChildIs(package.value, head);
      assert BuiltPath(package, [head]) == package.value + [head];
    }
  }

  lemma BuiltPathMore(package: Option<seq<string>>, outer: seq<string>, last: string)
    requires outer != []
    ensures BuiltPath(package, outer + [last]) == BuiltPath(package, outer) + [last]
  {
    assert (outer + [last])[1..] == outer[1..] + [last];
  }

  lemma BuiltEnds(package: Option<seq<string>>, chain: seq<string>)
    requires chain != [] && IsIdentifier(chain[|chain| - 1])
    ensures Trim(BuiltPath(package, chain)) == BuiltPath(package, chain)
  {
    if |chain| == 1 {
      assert Dotless(chain[0]);
      assert package.None? ==> Split(chain[0]) == [chain[0]];
    }
  }

  /** Built names are names of paths: the search laws apply to every file. */
  lemma {:induction false} BuiltIs(package: Option<seq<string>>, chain: seq<string>)
    requires package.Some? ==> AllIdentifiers(package.value)
    requires chain != [] && AllIdentifiers(chain[..|chain| - 1])
    ensures BuildName(package, chain) == NameOf(BuiltPath(package, chain))
  {
    hide BuiltPath, NameOf, Child, IsIdentifier;
    var n := |chain| - 1;
    if n == 0 {
      assert chain == [chain[0]];
      BuiltOne(package, chain[0]);
    } else {
      var outer := chain[..n];
      assert outer[..|outer| - 1] == chain[..n][..n - 1];
      BuiltIs(package, outer);
      assert IsIdentifier(outer[|outer| - 1]);
      BuiltEnds(package, outer);
      ChildIs(BuiltPath(package, outer), chain[n]);
      assert chain == outer + [chain[n]];
      BuiltPathMore(package, outer, chain[n]);
    }
  }

  // Names with a leading dot

  /** A name has a dot behind nothing or behind another dot. */
  predicate BareDot(s: string, i: nat) { i < |s| && s[i] == '.' && (i == 0 || s[i - 1] == '.') }

  ghost predicate Clean(s: string) { forall i: nat :: !BareDot(s, i) }

  lemma {:induction false} JoinClean(parts: seq<string>)
    requires parts != [] && AllIdentifiers(parts)
    ensures Clean(Join(parts)) && Join(parts) != "" && Join(parts)[|Join(parts)| - 1] != '.'
  {
    var n := |parts| - 1;
    if n == 0 {
      assert IsIdentifier(parts[0]);
    } else {
      JoinClean(parts[..n]);
      assert IsIdentifier(parts[n]);
      CleanMore(Join(parts[..n]), parts[n]);
    }
  }

  lemma CleanMore(a: string, b: string)
    requires Clean(a) && a != "" && a[|a| - 1] != '.' && IsIdentifier(b)
    ensures var s := a + "." + b; Clean(s) && s[|s| - 1] != '.'
  {
    var s := a + "." + b;
    forall i: nat | i < |s|
      ensures !BareDot(s, i)
    {
      assert s[i] == if i < |a| then a[i] else if i == |a| then '.' else b[i - |a| - 1];
      assert i > 0 ==> s[i - 1] == if i <= |a| then a[i - 1] else if i == |a| + 1 then '.' else b[i - |a| - 2];
      assert !BareDot(a, i);
    }
  }

  /** The names a leading dot gives have a bare dot wherever they are looked for. */
  lemma CandidateBare(scope: seq<string>, written: string, k: nat)
    requires IsTypeName(written) && written[0] == '.' && Root(scope) <= k <= |scope|
    ensures var c := Candidate(scope, Split(written), k);
            !Clean(c.fullPath) && IsIdentifier(c.name) &&
            (k == Root(scope) ==> c.fullPath == written) &&
            (k > Root(scope) ==> exists i: nat :: i > 0 && BareDot(c.fullPath, i))
  {
    CandidateName(scope, Split(written), k);
    SplitDotless(written);
    SplitLast(written);
    assert BareDot(written, 0);
    hide Candidate, ScopeName, Split, IsIdentifier, BareDot;
    BareBehind(ScopeName(scope, k), written);
  }

  lemma BareBehind(a: string, w: string)
    requires w != "" && w[0] == '.'
    ensures BareDot(a + "." + w, |a| + 1)
  {
    var s := a + "." + w;
    assert s[|a| + 1] == w[0] && s[|a|] == '.';
  }

  lemma SplitLast(s: string)
    requires s != "" && s[|s| - 1] != '.'
    ensures IsIdentifier(Split(s)[|Split(s)| - 1])
  {
    SplitDotless(s);
  }

  /** The definition a declaration makes. */
  function DefOfDecl(package: Option<seq<string>>, d: Decl): Def
    requires Chain(d) != []
  {
    Def(BuildName(package, Chain(d)), d.Extend?)
  }

  lemma BuiltLast(package: Option<seq<string>>, chain: seq<string>)
    requires chain != [] && (package.Some? || |chain| > 1)
    ensures BuiltPath(package, chain) != [] && Last(BuiltPath(package, chain)) == chain[|chain| - 1]
  {
  }

  lemma BuiltIdentifiers(package: Option<seq<string>>, chain: seq<string>)
    requires chain != [] && AllIdentifiers(chain) && (package.Some? ==> AllIdentifiers(package.value))
    ensures BuiltPath(package, chain) != [] && AllIdentifiers(BuiltPath(package, chain))
  {
    assert IsIdentifier(chain[0]);
    assert package.None? ==> Split(chain[0]) == [chain[0]];
  }

  lemma SelfName(path: seq<string>)
    requires path != []
    ensures NameOf(path).name == Last(path) && NameOf(path).fullPath == Join(path)
  {
  }

  /** A declaration is found under a name with a leading dot exactly when it is an
      extension of that very name, outside of any message, in a file without a package,
      and the search has come to the root. */
  lemma DeclTaken(package: Option<seq<string>>, d: Decl, scope: seq<string>, written: string, k: nat)
    requires WellWritten(package, d) && IsTypeName(written) && written[0] == '.' && Root(scope) <= k <= |scope|
    ensures Chain(d) != []
    ensures Equal(DefOfDecl(package, d).name, Candidate(scope, Split(written), k)) <==>
            package.None? && d == Extend([], written) && k == Root(scope)
  {
    var chain, c := Chain(d), Candidate(scope, Split(written), k);
    CandidateBare(scope, written, k);
    CandidateLast(scope, written, k);
    assert AllIdentifiers(chain[..|chain| - 1]);
    BuiltIs(package, chain);
    hide Candidate, Split, Join, BuildName, NameOf, BuiltPath, IsIdentifier, AllIdentifiers, IsTypeName, Clean, BareDot;
    if package.None? && d.Extend? && d.inside == [] {
      TargetName(d.target);
      BareInside(c, written, k > Root(scope), d.target);
    } else if d.Extend? && !IsIdentifier(d.target) {
      BuiltLast(package, chain);
      SelfName(BuiltPath(package, chain));
    } else {
      IdentifierChain(d);
      CleanNotTaken(package, chain, c);
    }
  }

  lemma IdentifierChain(d: Decl)
    requires WellWritten(None, d) && (d.Extend? ==> IsIdentifier(d.target))
    ensures AllIdentifiers(Chain(d))
  {
    hide IsIdentifier;
  }

  /** Deeper than the root the name looked for has a second bare dot, which no type name
      has. */
  lemma BareInside(c: ScopedName, written: string, inside: bool, target: string)
    requires IsTypeName(target) && (inside ==> exists i: nat :: i > 0 && BareDot(c.fullPath, i))
    requires !inside ==> c.fullPath == written
    ensures c.fullPath == target <==> !inside && written == target
  {
    if inside {
      var i: nat :| i > 0 && BareDot(c.fullPath, i);
      assert !BareDot(target, i);
    }
  }

  lemma CleanNotTaken(package: Option<seq<string>>, chain: seq<string>, c: ScopedName)
    requires chain != [] && AllIdentifiers(chain) && (package.Some? ==> AllIdentifiers(package.value))
    requires !Clean(c.fullPath) && BuildName(package, chain) == NameOf(BuiltPath(package, chain))
    ensures !Equal(BuildName(package, chain), c)
  {
    hide BuildName, NameOf, BuiltPath, AllIdentifiers, Clean, Join;
    BuiltIdentifiers(package, chain);
    SelfName(BuiltPath(package, chain));
    JoinClean(BuiltPath(package, chain));
  }

  lemma CandidateLast(scope: seq<string>, written: string, k: nat)
    requires Root(scope) <= k <= |scope|
    ensures Candidate(scope, Split(written), k).name == Last(Split(written))
  {
    CandidateName(scope, Split(written), k);
  }

  lemma TargetName(target: string)
    ensures BuiltPath(None, [target]) == Split(target)
    ensures NameOf(Split(target)).name == Last(Split(target)) && NameOf(Split(target)).fullPath == target
  {
    SplitDotless(target);
    assert BuiltPath(None, [target]) == Split(target);
  }

  // A whole file

  /** What the parser meets on its walk through a file, nested definitions behind the ones
      they stand in. */
  datatype Statement =
    | PackageClause(name: string)
    | GoPackage
    | EnumDecl(chain: seq<string>)
    | MessageDecl(decl: Decl)

  /** The package record that a statement leaves: a clause replaces the name, the option
      keeps it. */
  function Record(package: Option<seq<string>>, st: Statement): Option<seq<string>> {
    match st
    case PackageClause(name) => Some(Split(name))
    case GoPackage => if package.Some? then package else Some([])
    case _ => package
  }

  /** The package record known after some statements. */
  function PackageAfter(s: seq<Statement>): Option<seq<string>> {
    if s == [] then None else Record(PackageAfter(s[..|s| - 1]), s[|s| - 1])
  }

  predicate WellWrittenStatement(st: Statement) {
    match st
    case PackageClause(name) => AllIdentifiers(Split(name))
    case GoPackage => true
    case EnumDecl(chain) => WellWritten(None, Plain(chain))
    case MessageDecl(d) => WellWritten(None, d)
  }

  predicate WellWrittenFile(s: seq<Statement>) { forall i | 0 <= i < |s| :: WellWrittenStatement(s[i]) }

  function EnumsOf(package: Option<seq<string>>, st: Statement): seq<Def>
    requires WellWrittenStatement(st)
  {
    if st.EnumDecl? then [DefOfDecl(package, Plain(st.chain))] else []
  }

  function MessagesOf(package: Option<seq<string>>, st: Statement): seq<Def>
    requires WellWrittenStatement(st)
  {
    if st.MessageDecl? then [DefOfDecl(package, st.decl)] else []
  }

  /** The definitions of a file: each gets the package record in force where it stands. */
  function FileOf(s: seq<Statement>): File
    requires WellWrittenFile(s)
  {
    if s == [] then File([], [], [])
    else
      var g, st := s[..|s| - 1], s[|s| - 1];
      File(FileOf(g).enums + EnumsOf(PackageAfter(g), st), FileOf(g).messages + MessagesOf(PackageAfter(g), st),
           PathOf(PackageAfter(s)))
  }

  function PathOf(package: Option<seq<string>>): seq<string> {
    if package.Some? then package.value else []
  }

  /** One statement more. */
  lemma Met(met: seq<Statement>, st: Statement)
    requires WellWrittenFile(met + [st])
    ensures WellWrittenFile(met) && WellWrittenStatement(st)
    ensures PackageAfter(met + [st]) == Record(PackageAfter(met), st)
    ensures var was, f := FileOf(met), FileOf(met + [st]);
            f.enums == was.enums + EnumsOf(PackageAfter(met), st) &&
            f.messages == was.messages + MessagesOf(PackageAfter(met), st)
  {
    hide WellWrittenStatement, EnumsOf, MessagesOf;
    var s := met + [st];
    assert s[..|met|] == met && s[|met|] == st;
    forall i | 0 <= i < |met|
      ensures met[i] == s[i]
    {
    }
  }

  /** What a statement adds. */
  lemma Adds(package: Option<seq<string>>, st: Statement)
    requires WellWrittenStatement(st)
    ensures Record(package, st) ==
            if st.PackageClause? then Some(Split(st.name))
            else if st.GoPackage? && package.None? then Some([])
            else package
    ensures !st.EnumDecl? ==> EnumsOf(package, st) == []
    ensures !st.MessageDecl? ==> MessagesOf(package, st) == []
    ensures st.EnumDecl? ==> st.chain != [] && EnumsOf(package, st) == [Def(BuildName(package, st.chain), false)]
    ensures st.MessageDecl? ==>
              Chain(st.decl) != [] &&
              MessagesOf(package, st) == [Def(BuildName(package, Chain(st.decl)), st.decl.Extend?)]
  {
    hide Split, BuildName, IsTypeName;
  }

  /** A file while the parser walks through it. */
  class ProtoFile {
    var package: Option<ScopedName>
    var enums: seq<Def>
    var messages: seq<Def>

    constructor ()
      ensures Holds([])
    {
      package, enums, messages := None, [], [];
    }

    /** The statements have been met. */
    ghost predicate Holds(s: seq<Statement>)
      reads this
    {
      WellWrittenFile(s) &&
      package == (match PackageAfter(s)
                  case None => None
                  case Some(path) => Some(NameOf(path))) &&
      enums == FileOf(s).enums && messages == FileOf(s).messages
    }

    /** walkHandler */
    method Visit(st: Statement, ghost met: seq<Statement>)
      requires Holds(met) && WellWrittenFile(met + [st])
      modifies this
      ensures Holds(met + [st])
    {
      hide NameOf, ParseName, Split, WellWrittenFile, FileOf, PackageAfter, WellWrittenStatement, BuildName, EnumsOf,
        MessagesOf, Record, Chain;
      Met(met, st);
      Adds(PackageAfter(met), st);
      match st
      case PackageClause(name) =>
        ParseIs(name);
        package := Some(ParseName(name));
      case GoPackage =>
        if package == None {
          NoName();
          package := Some(ScopedName("", [], ""));
        }
      case EnumDecl(chain) =>
        var name := ScopedNameOf(chain, met);
        enums := enums + [Def(name, false)];
      case MessageDecl(d) =>
        var name := ScopedNameOf(Chain(d), met);
        messages := messages + [Def(name, d.Extend?)];
    }

    /** buildScopedName, along the chain of enclosing messages. */
    method ScopedNameOf(chain: seq<string>, ghost met: seq<Statement>) returns (name: ScopedName)
      requires Holds(met) && chain != []
      ensures name == BuildName(PackageAfter(met), chain)
    {
      hide NameOf, ParseName, Child, FileOf, WellWrittenFile;
      var n := |chain| - 1;
      if n > 0 {
        var outer := ScopedNameOf(chain[..n], met);
        name := Child(outer, chain[n]);
      } else if package == None {
        name := ParseName(chain[0]);
      } else {
        name := Child(package.value, chain[0]);
      }
    }
  }

  lemma NoName()
    ensures NameOf([]) == ScopedName("", [], "")
  {
  }

  /** The walk through a file. */
  method ExtractProtoStruct(s: seq<Statement>) returns (file: ProtoFile)
    requires WellWrittenFile(s)
    ensures fresh(file) && file.Holds(s)
  {
    file := new ProtoFile();
    assert s[..0] == [];
    for i := 0 to |s|
      invariant fresh(file) && file.Holds(s[..i])
    {
      assert s[..i] + [s[i]] == s[..i + 1];
      file.Visit(s[i], s[..i]);
    }
    assert s[..|s|] == s;
  }

  /** Ahead of statement `i` there is no package clause and no Go package option. */
  predicate Ahead(s: seq<Statement>, i: nat) {
    i < |s| && forall j | 0 <= j < i :: !s[j].PackageClause? && !s[j].GoPackage?
  }

  lemma {:induction false} AheadIs(s: seq<Statement>, i: nat)
    requires i < |s|
    ensures Ahead(s, i) <==> PackageAfter(s[..i]) == None
  {
    if i == 0 {
    } else {
      AheadIs(s, i - 1);
      assert s[..i][..i - 1] == s[..i - 1];
    }
  }

  lemma {:induction false} PackageWritten(s: seq<Statement>)
    requires WellWrittenFile(s)
    ensures PackageAfter(s).Some? ==> AllIdentifiers(PackageAfter(s).value)
  {
    hide AllIdentifiers, IsIdentifier, Split, IsTypeName;
    if s == [] {
    } else {
      PackageWritten(s[..|s| - 1]);
      NoIdentifiers();
    }
  }

  lemma NoIdentifiers()
    ensures AllIdentifiers([])
  {
  }

  /** The definitions that may be taken under a name. */
  predicate TakesAny(defs: seq<Def>, skipExtends: bool, target: ScopedName) {
    exists i | 0 <= i < |defs| :: Takes(defs[i], skipExtends, target)
  }

  lemma TakesMore(defs: seq<Def>, more: seq<Def>, skipExtends: bool, target: ScopedName)
    ensures TakesAny(defs + more, skipExtends, target) <==>
            TakesAny(defs, skipExtends, target) || TakesAny(more, skipExtends, target)
  {
    hide Takes;
    var all := defs + more;
    if i :| 0 <= i < |defs| && Takes(defs[i], skipExtends, target) { assert all[i] == defs[i]; }
    if i :| 0 <= i < |more| && Takes(more[i], skipExtends, target) { assert all[|defs| + i] == more[i]; }
  }

  lemma LookupAny(d: Defs, target: ScopedName)
    ensures Lookup(d, target).Some? <==>
            TakesAny(d.enums, false, target) || TakesAny(d.messages, d.skipExtends, target)
  {
    hide Takes;
  }

  /** The extension of the name stands ahead of any package record. */
  predicate ExtendsAt(s: seq<Statement>, written: string, i: nat) {
    Ahead(s, i) && s[i] == MessageDecl(Extend([], written))
  }

  lemma ExtendsMore(g: seq<Statement>, st: Statement, written: string)
    ensures (exists i: nat :: ExtendsAt(g + [st], written, i)) <==>
            (exists i: nat :: ExtendsAt(g, written, i)) ||
            (PackageAfter(g) == None && st == MessageDecl(Extend([], written)))
  {
    var s := g + [st];
    AheadIs(s, |g|);
    assert s[..|g|] == g && s[|g|] == st;
    forall i: nat | i < |g|
      ensures ExtendsAt(s, written, i) <==> ExtendsAt(g, written, i)
    {
      assert forall j | 0 <= j <= i :: s[j] == g[j];
    }
    hide Ahead, PackageAfter;
    if i: nat :| ExtendsAt(g, written, i) { assert ExtendsAt(s, written, i); }
    if PackageAfter(g) == None && st == MessageDecl(Extend([], written)) { assert ExtendsAt(s, written, |g|); }
  }

  /** A name written with a leading dot is found, from any scope, exactly when an extension
      of that very name stands outside of any message and ahead of any package record of
      the file, and extensions are not passed over. */
  lemma LeadingDot(s: seq<Statement>, skipExtends: bool, scope: seq<string>, written: string)
    requires WellWrittenFile(s) && IsTypeName(written) && written[0] == '.'
    ensures var d := Defs(FileOf(s).enums, FileOf(s).messages, skipExtends);
            Found(d, scope, Split(written)).Some? <==> !skipExtends && exists i: nat :: ExtendsAt(s, written, i)
  {
    hide *;
    var d := Defs(FileOf(s).enums, FileOf(s).messages, skipExtends);
    var held := !skipExtends && exists i: nat :: ExtendsAt(s, written, i);
    forall k | Root(scope) <= k <= |scope|
      ensures Lookup(d, Candidate(scope, Split(written), k)).Some? <==> k == Root(scope) && held
    {
      LeadingDotAt(s, skipExtends, scope, written, k);
      LookupAny(d, Candidate(scope, Split(written), k));
    }
    OnlyAtRoot(d, scope, Split(written), held);
  }

  /** A file with a package clause behind its definitions: the extension gets its name
      before the package is known. */
  lemma PackageBehind()
    ensures var s := [MessageDecl(Plain(["M"])), MessageDecl(Extend([], ".a.B")), PackageClause("p")];
            WellWrittenFile(s) && FileOf(s).package == ["p"] &&
            Found(References(FileOf(s)), ["M"], Split(".a.B")).Some?
  {
    var s := [MessageDecl(Plain(["M"])), MessageDecl(Extend([], ".a.B")), PackageClause("p")];
    assert Dotless("p") && Split("p") == ["p"];
    assert IsIdentifier("M") && IsTypeName(".a.B");
    assert ExtendsAt(s, ".a.B", 1);
    LeadingDot(s, false, ["M"], ".a.B");
    hide Found;
  }

  lemma OnlyAtRoot(d: Defs, scope: seq<string>, written: seq<string>, held: bool)
    requires forall k | Root(scope) <= k <= |scope| ::
               Lookup(d, Candidate(scope, written, k)).Some? <==> k == Root(scope) && held
    ensures Found(d, scope, written).Some? <==> held
  {
    FoundInnermost(d, scope, written);
    hide Lookup, Candidate, Found;
    assert Lookup(d, Candidate(scope, written, Root(scope))).Some? <==> held;
  }

  /** An extension whose name has dots in its last part, as inside a package, is never what
      a written name means. */
  lemma DottedNeverMeant(path: seq<string>, scope: seq<string>, written: string, k: nat)
    requires path != [] && !Dotless(Last(path)) && Root(scope) <= k <= |scope|
    ensures !Equal(NameOf(path), Candidate(scope, Split(written), k))
  {
    CandidateLast(scope, written, k);
    SplitDotless(written);
    hide Candidate;
  }

  ghost predicate Means(path: seq<string>, scope: seq<string>, written: string, k: nat) {
    Root(scope) <= k <= |scope| && Equal(NameOf(path), Candidate(scope, Split(written), k))
  }

  /** A definition is what some written name means, from some scope, exactly when the last
      part of its name has no dot: then its own full name, from the root, means it. */
  lemma MeantExactly(path: seq<string>)
    requires path != []
    ensures (exists scope: seq<string>, written: string, k: nat :: Means(path, scope, written, k)) <==>
            Dotless(Last(path))
    ensures Dotless(Last(path)) ==> Means(path, [], Join(path), 0)
  {
    if Dotless(Last(path)) {
      SplitEnds(path);
      CandidateName([], Split(Join(path)), 0);
      SplitDotless(Join(path));
      SelfName(path);
      hide Candidate, Split, Join, NameOf;
      assert Means(path, [], Join(path), 0);
    } else {
      forall scope: seq<string>, written: string, k: nat
        ensures !Means(path, scope, written, k)
      {
        if Root(scope) <= k <= |scope| { DottedNeverMeant(path, scope, written, k); }
      }
    }
  }

  lemma SplitEnds(path: seq<string>)
    requires path != [] && Dotless(Last(path))
    ensures Last(Split(Join(path))) == Last(path)
  {
    var n := |path| - 1;
    if n == 0 {
      assert Join(path) == path[0];
    } else {
      assert path == path[..n] + [path[n]];
      JoinConcat(path[..n], [path[n]]);
      LastDotIs(Join(path[..n]), path[n]);
    }
  }

  lemma {:induction false} LeadingDotAt(s: seq<Statement>, skipExtends: bool, scope: seq<string>, written: string,
                                        k: nat)
    requires WellWrittenFile(s) && IsTypeName(written) && written[0] == '.' && Root(scope) <= k <= |scope|
    ensures var c := Candidate(scope, Split(written), k);
            !TakesAny(FileOf(s).enums, false, c) &&
            (TakesAny(FileOf(s).messages, skipExtends, c) <==>
               k == Root(scope) && !skipExtends && exists i: nat :: ExtendsAt(s, written, i))
  {
    var c := Candidate(scope, Split(written), k);
    if s == [] {
    } else {
      var g, st := s[..|s| - 1], s[|s| - 1];
      assert s == g + [st];
      hide *;
      Met(g, st);
      LeadingDotAt(g, skipExtends, scope, written, k);
      ExtendsMore(g, st, written);
      PackageWritten(g);
      StatementTaken(PackageAfter(g), st, skipExtends, scope, written, k);
      TakesMore(FileOf(g).enums, EnumsOf(PackageAfter(g), st), false, c);
      TakesMore(FileOf(g).messages, MessagesOf(PackageAfter(g), st), skipExtends, c);
    }
  }

  lemma StatementTaken(package: Option<seq<string>>, st: Statement, skipExtends: bool, scope: seq<string>,
                       written: string, k: nat)
    requires WellWrittenStatement(st) && (package.Some? ==> AllIdentifiers(package.value))
    requires IsTypeName(written) && written[0] == '.' && Root(scope) <= k <= |scope|
    ensures var c := Candidate(scope, Split(written), k);
            !TakesAny(EnumsOf(package, st), false, c) &&
            (TakesAny(MessagesOf(package, st), skipExtends, c) <==>
               k == Root(scope) && !skipExtends && package == None && st == MessageDecl(Extend([], written)))
  {
    hide Candidate, Split, BuildName, IsTypeName, IsIdentifier, AllIdentifiers, Equal;
    match st
    case EnumDecl(chain) => DeclTaken(package, Plain(chain), scope, written, k);
    case MessageDecl(d) =>
      DeclTaken(package, d, scope, written, k);
      assert MessagesOf(package, st)[0] == DefOfDecl(package, d);
    case _ =>
  }
}
