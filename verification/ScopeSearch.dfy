/** The search for a name through enclosing scopes (resolving.go). Names are as the
    parser builds them, with dots anywhere in their parts. */
module ScopeSearch {
  import opened Options
  import opened Scopes

  /** A message or an enum of a file, under its full name. */
  datatype Def = Def(name: ScopedName, isExtend: bool)

  datatype Ref = Enum(index: nat) | Message(index: nat)

  /** The definitions of a file. Looking for the source of an extension passes over other
      extensions, and over enums. */
  datatype Defs = Defs(enums: seq<Def>, messages: seq<Def>, skipExtends: bool)

  predicate Takes(d: Def, skipExtends: bool, target: ScopedName) {
    Equal(d.name, target) && !(skipExtends && d.isExtend)
  }

  /** The first definition that may be taken under a name. */
  function FirstOf(defs: seq<Def>, skipExtends: bool, target: ScopedName): (r: Option<nat>)
    ensures r.Some? ==> r.value < |defs| && Takes(defs[r.value], skipExtends, target) &&
                        forall i | 0 <= i < r.value :: !Takes(defs[i], skipExtends, target)
    ensures r.None? ==> forall i | 0 <= i < |defs| :: !Takes(defs[i], skipExtends, target)
  {
    if defs == [] then None
    else
      var r := FirstOf(defs[..|defs| - 1], skipExtends, target);
      if r.Some? then r else if Takes(defs[|defs| - 1], skipExtends, target) then Some(|defs| - 1) else None
  }

  /** What is found under a name: an enum before a message. */
  function Lookup(d: Defs, target: ScopedName): Option<Ref> {
    var e := FirstOf(d.enums, false, target);
    if e.Some? then Some(Enum(e.value))
    else
      var m := FirstOf(d.messages, d.skipExtends, target);
      if m.Some? then Some(Message(m.value)) else None
  }

  /** The name looked for in the first `k` parts of a scope. */
  function Candidate(scope: seq<string>, written: seq<string>, k: nat): ScopedName
    requires k <= |scope|
  {
    NameOf(Inside(scope[..k], written))
  }

  /** The search from the first `k` parts of a scope outwards. */
  function Search(d: Defs, scope: seq<string>, written: seq<string>, k: nat): Option<Ref>
    requires Root(scope) <= k <= |scope|
  {
    var r := Lookup(d, Candidate(scope, written, k));
    if r.Some? then r else if k == Root(scope) then None else Search(d, scope, written, k - 1)
  }

  function Found(d: Defs, scope: seq<string>, written: seq<string>): Option<Ref> {
    Search(d, scope, written, |scope|)
  }

  /** The scope made of the first `k` parts holds the name, and no deeper one does. */
  predicate Innermost(d: Defs, scope: seq<string>, written: seq<string>, k: nat) {
    Root(scope) <= k <= |scope| && Lookup(d, Candidate(scope, written, k)).Some? &&
    forall j | k < j <= |scope| :: Lookup(d, Candidate(scope, written, j)) == None
  }

  /** No enclosing scope holds the name. */
  predicate Absent(d: Defs, scope: seq<string>, written: seq<string>) {
    forall k | Root(scope) <= k <= |scope| :: Lookup(d, Candidate(scope, written, k)) == None
  }

  lemma {:induction false} SearchFrom(d: Defs, scope: seq<string>, written: seq<string>, k: nat)
    requires Root(scope) <= k <= |scope|
    requires forall j | k < j <= |scope| :: Lookup(d, Candidate(scope, written, j)) == None
    ensures Search(d, scope, written, k).None? <==> Absent(d, scope, written)
    ensures forall j: nat | Innermost(d, scope, written, j) ::
              Search(d, scope, written, k) == Lookup(d, Candidate(scope, written, j))
    ensures Search(d, scope, written, k).Some? ==> exists j: nat :: Innermost(d, scope, written, j)
  {
    hide Lookup, Candidate;
    if Lookup(d, Candidate(scope, written, k)).Some? {
      assert Innermost(d, scope, written, k);
    } else if k == Root(scope) {
    } else {
      SearchFrom(d, scope, written, k - 1);
    }
  }

  /** The search finds what the innermost enclosing scope that holds the name holds, and
      nothing exactly when none does. */
  lemma FoundInnermost(d: Defs, scope: seq<string>, written: seq<string>)
    ensures Found(d, scope, written).None? <==> Absent(d, scope, written)
    ensures forall k: nat | Innermost(d, scope, written, k) ::
              Found(d, scope, written) == Lookup(d, Candidate(scope, written, k))
    ensures Found(d, scope, written).Some? ==> exists k: nat :: Innermost(d, scope, written, k)
  {
    hide Lookup, Candidate, Innermost, Absent, Search;
    SearchFrom(d, scope, written, |scope|);
  }

  // The program

  /** One pass over the definitions of a file. */
  method FindDef(defs: seq<Def>, skipExtends: bool, name: ScopedName) returns (r: Option<nat>)
    ensures r == FirstOf(defs, skipExtends, name)
  {
    for i := 0 to |defs|
      invariant FirstOf(defs[..i], skipExtends, name) == None
    {
      assert defs[..i + 1][..i] == defs[..i];
      if Equal(defs[i].name, name) && !(skipExtends && defs[i].isExtend) {
        FirstIs(defs, skipExtends, name, i);
        return Some(i);
      }
    }
    assert defs[..|defs|] == defs;
    return None;
  }

  lemma FirstIs(defs: seq<Def>, skipExtends: bool, name: ScopedName, i: nat)
    requires i < |defs| && Takes(defs[i], skipExtends, name) && FirstOf(defs[..i], skipExtends, name) == None
    ensures FirstOf(defs, skipExtends, name) == Some(i)
  {
    var r := FirstOf(defs, skipExtends, name);
    assert forall j | 0 <= j < i :: defs[..i][j] == defs[j];
    hide Takes;
  }

  /** The loop over enclosing scopes, shared by local references, imported references and
      extend sources: it visits the enclosing scopes from the inside, once each, and stops
      at the first that holds the name. */
  method SearchScopes(d: Defs, start: ScopedName, name: ScopedName, ghost scope: seq<string>,
                       ghost written: seq<string>)
    returns (r: Option<Ref>, ghost visited: seq<seq<string>>)
    requires start == NameOf(scope) && written != [] && name == NameOf(written)
    ensures r == Found(d, scope, written)
    ensures visited <= Enclosing(scope) && (r.None? ==> visited == Enclosing(scope))
    ensures r.Some? ==> 0 < |visited| <= |scope| + 1 && Innermost(d, scope, written, |scope| + 1 - |visited|)
  {
    hide *;
    var searchPath := start;
    var search := true;
    ghost var k: nat := |scope|;
    visited := [];
    SearchStarts(d, scope, written);
    while search
      invariant search ==> Reached(d, scope, written, k, visited) && searchPath == NameOf(scope[..k])
      invariant !search ==> Found(d, scope, written) == None && visited == Enclosing(scope)
      decreases if search then k + 1 else 0
    {
      ScopeStep(scope, written, k) by { ReachedIn(d, scope, written, k, visited); }
      var inner := ToScope(name, searchPath);
      ReachedMore(d, scope, written, k, visited);
      visited := visited + [scope[..k]];
      var e := FindDef(d.enums, false, inner);
      var m := None;
      if e.None? { m := FindDef(d.messages, d.skipExtends, inner); }
      LookupIs(d, inner, e, m);
      if e.Some? { return Some(Enum(e.value)), visited; }
      if m.Some? { return Some(Message(m.value)), visited; }
      search := CanResolveParent(searchPath);
      searchPath := ToParent(searchPath);
      if search { k := k - 1; }
    }
    r := None;
  }

  /** The search has come to the first `k` parts without finding the name. */
  ghost predicate Reached(d: Defs, scope: seq<string>, written: seq<string>, k: nat, visited: seq<seq<string>>) {
    Root(scope) <= k <= |scope| && visited == Enclosing(scope)[..|scope| - k] &&
    Found(d, scope, written) == Search(d, scope, written, k) &&
    forall j | k < j <= |scope| :: Lookup(d, Candidate(scope, written, j)) == None
  }

  lemma SearchStarts(d: Defs, scope: seq<string>, written: seq<string>)
    ensures scope[..|scope|] == scope && Reached(d, scope, written, |scope|, [])
  {
  }

  lemma ReachedIn(d: Defs, scope: seq<string>, written: seq<string>, k: nat, visited: seq<seq<string>>)
    requires Reached(d, scope, written, k, visited)
    ensures Root(scope) <= k <= |scope|
  {
  }

  lemma ReachedMore(d: Defs, scope: seq<string>, written: seq<string>, k: nat, visited: seq<seq<string>>)
    requires Reached(d, scope, written, k, visited)
    ensures var now, r := visited + [scope[..k]], Lookup(d, Candidate(scope, written, k));
            now <= Enclosing(scope) && |now| == |scope| + 1 - k &&
            if r.Some? then Found(d, scope, written) == r && Innermost(d, scope, written, k)
            else if k > Root(scope) then Reached(d, scope, written, k - 1, now)
            else Found(d, scope, written) == None && now == Enclosing(scope)
  {
    hide Lookup, Candidate;
    assert Enclosing(scope)[..|scope| + 1 - k] == visited + [scope[..k]];
  }

  lemma LookupIs(d: Defs, target: ScopedName, e: Option<nat>, m: Option<nat>)
    requires e == FirstOf(d.enums, false, target) && (e.None? ==> m == FirstOf(d.messages, d.skipExtends, target))
    ensures Lookup(d, target) ==
            if e.Some? then Some(Enum(e.value)) else if m.Some? then Some(Message(m.value)) else None
  {
  }

  lemma ScopeStep(scope: seq<string>, written: seq<string>, k: nat)
    requires written != [] && Root(scope) <= k <= |scope|
    ensures ToScope(NameOf(written), NameOf(scope[..k])) == Candidate(scope, written, k)
    ensures CanResolveParent(NameOf(scope[..k])) <==> k > Root(scope)
    ensures k > Root(scope) ==> ToParent(NameOf(scope[..k])) == NameOf(scope[..k - 1])
  {
    ToScopeIs(scope[..k], written);
    ToParentIs(scope[..k]);
    RootPrefix(scope, k);
    if k > 0 { assert scope[..k][..k - 1] == scope[..k - 1]; }
    hide ToScope, NameOf, ToParent, CanResolveParent, Join;
  }
}
