/** Which of several names, in which import and in which enclosing scope, a reference is
    resolved by (resolving.go). */
module FirstNames {
  import opened Options
  import opened Scopes
  import opened ScopeSearch
  import opened Resolving

  // In a file

  /** The first `s` names are in no enclosing scope; the next is, innermost in the first `k`
      parts. */
  ghost predicate LocalAt(d: Defs, scope: seq<string>, names: seq<seq<string>>, s: nat, k: nat) {
    s < |names| && Innermost(d, scope, names[s], k) && forall i | 0 <= i < s :: Absent(d, scope, names[i])
  }

  lemma Shift(d: Defs, scope: seq<string>, names: seq<seq<string>>, s: nat, k: nat)
    requires names != [] && Absent(d, scope, names[0])
    ensures LocalAt(d, scope, names[1..], s, k) <==> LocalAt(d, scope, names, s + 1, k)
    ensures !LocalAt(d, scope, names, 0, k)
  {
    hide Absent;
    assert !Innermost(d, scope, names[0], k) by { NotInside(d, scope, names[0], k); }
    hide Innermost;
    assert forall i | 0 <= i < s && s < |names| - 1 :: names[1..][i] == names[i + 1];
    if LocalAt(d, scope, names[1..], s, k) {
      forall i | 0 <= i < s + 1
        ensures Absent(d, scope, names[i])
      {
        if i > 0 { assert names[i] == names[1..][i - 1]; }
      }
    }
  }

  lemma NotInside(d: Defs, scope: seq<string>, name: seq<string>, k: nat)
    requires Absent(d, scope, name)
    ensures !Innermost(d, scope, name, k)
  {
    hide Lookup, Candidate;
  }

  /** A local reference: nothing exactly when no name is in any enclosing scope, and else what
      the innermost scope that holds the first name held at all has under it. */
  lemma {:induction false} FirstLocal(d: Defs, scope: seq<string>, names: seq<seq<string>>)
    ensures FirstFound(d, scope, names).None? <==> forall s | 0 <= s < |names| :: Absent(d, scope, names[s])
    ensures forall s: nat, k: nat | LocalAt(d, scope, names, s, k) ::
              FirstFound(d, scope, names) == Lookup(d, Candidate(scope, names[s], k))
    ensures FirstFound(d, scope, names).Some? ==> exists s: nat, k: nat :: LocalAt(d, scope, names, s, k)
    decreases |names|
  {
    hide Found, Absent, Innermost, Lookup, Candidate;
    if names == [] {
    } else {
      FoundInnermost(d, scope, names[0]);
      if Found(d, scope, names[0]).Some? {
        var k: nat :| Innermost(d, scope, names[0], k);
        assert LocalAt(d, scope, names, 0, k);
      } else {
        var rest := names[1..];
        FirstLocal(d, scope, rest);
        forall s: nat, k: nat
          ensures LocalAt(d, scope, rest, s, k) <==> LocalAt(d, scope, names, s + 1, k)
          ensures !LocalAt(d, scope, names, 0, k)
        {
          Shift(d, scope, names, s, k);
        }
        assert forall s | 0 < s < |names| :: names[s] == rest[s - 1];
        assert forall s | 0 <= s < |rest| :: rest[s] == names[s + 1];
        forall s: nat, k: nat | LocalAt(d, scope, names, s, k)
          ensures s > 0 && LocalAt(d, scope, rest, s - 1, k) && names[s] == rest[s - 1] && k <= |scope|
        {
          AtName(d, scope, names, s, k);
          Shift(d, scope, names, s, k);
        }
        if FirstFound(d, scope, rest).Some? {
          var s: nat, k: nat :| LocalAt(d, scope, rest, s, k);
          assert LocalAt(d, scope, names, s + 1, k);
        }
        hide LocalAt;
      }
    }
  }

  lemma AtName(d: Defs, scope: seq<string>, names: seq<seq<string>>, s: nat, k: nat)
    requires LocalAt(d, scope, names, s, k)
    ensures s < |names| && Root(scope) <= k <= |scope|
  {
  }

  // In the imports

  predicate Holds(f: Option<File>, name: seq<string>, k: nat) {
    f.Some? && Innermost(References(f.value), f.value.package, name, k)
  }

  predicate Lacks(f: Option<File>, name: seq<string>) {
    f.None? || Absent(References(f.value), f.value.package, name)
  }

  /** What the first `k` parts of an import's package hold under a name. */
  function HeldBy(f: Option<File>, name: seq<string>, k: nat): Option<Ref>
    requires f.Some? && k <= |f.value.package|
  {
    Lookup(References(f.value), Candidate(f.value.package, name, k))
  }

  lemma HoldsOrLacks(f: Option<File>, name: seq<string>)
    ensures Lacks(f, name) <==> f.None? || Found(References(f.value), f.value.package, name).None?
    ensures Lacks(f, name) <==> forall k: nat :: !Holds(f, name, k)
    ensures forall k: nat | Holds(f, name, k) ::
              k <= |f.value.package| && HeldBy(f, name, k).Some? &&
              Found(References(f.value), f.value.package, name) == HeldBy(f, name, k)
  {
    if f.Some? {
      var d := References(f.value);
      FoundInnermost(d, f.value.package, name);
      hide Lookup, Candidate, Found;
      if k: nat :| Innermost(d, f.value.package, name, k) { assert Holds(f, name, k); }
    }
  }

  /** Import `i` holds the name, and none of the ones before, from `from` on. */
  predicate FirstIn(imports: seq<Option<File>>, name: seq<string>, from: nat, i: nat, k: nat) {
    from <= i < |imports| && Holds(imports[i], name, k) && forall j | from <= j < i :: Lacks(imports[j], name)
  }

  lemma {:induction false} ImportsInOrder(imports: seq<Option<File>>, name: seq<string>, from: nat)
    requires from <= |imports|
    ensures FirstImport(imports, name, from).None? <==> forall i | from <= i < |imports| :: Lacks(imports[i], name)
    ensures forall i: nat, k: nat | FirstIn(imports, name, from, i, k) ::
              FirstImport(imports, name, from) == Some((i, HeldIn(imports, i, name, k)))
    ensures FirstImport(imports, name, from).Some? ==> exists i: nat, k: nat :: FirstIn(imports, name, from, i, k)
    decreases |imports| - from
  {
    if from < |imports| {
      HoldsOrLacks(imports[from], name);
      ImportsInOrder(imports, name, from + 1);
      hide Holds, Lacks, Found, Lookup, Candidate;
      if k: nat :| Holds(imports[from], name, k) {
        assert FirstIn(imports, name, from, from, k);
      } else if FirstImport(imports, name, from + 1).Some? {
        var i: nat, k: nat :| FirstIn(imports, name, from + 1, i, k);
        assert FirstIn(imports, name, from, i, k);
      }
    }
  }

  /** The definition, when there is one. */
  function HeldIn(imports: seq<Option<File>>, i: nat, name: seq<string>, k: nat): Ref
    requires i < |imports| && Holds(imports[i], name, k)
  {
    HeldBy(imports[i], name, k).value
  }

  /** An imported reference: the first name that any import holds, in the first import that
      holds it, in the innermost scope of its package. */
  ghost predicate ImportedAt(imports: seq<Option<File>>, names: seq<seq<string>>, s: nat, i: nat, k: nat) {
    s < |names| && FirstIn(imports, names[s], 0, i, k) &&
    forall n | 0 <= n < s :: InNone(imports, names[n])
  }

  predicate InNone(imports: seq<Option<File>>, name: seq<string>) {
    forall j | 0 <= j < |imports| :: Lacks(imports[j], name)
  }

  lemma ShiftImported(imports: seq<Option<File>>, names: seq<seq<string>>, s: nat, i: nat, k: nat)
    requires names != [] && InNone(imports, names[0])
    ensures ImportedAt(imports, names[1..], s, i, k) <==> ImportedAt(imports, names, s + 1, i, k)
    ensures !ImportedAt(imports, names, 0, i, k)
  {
    NotFirst(imports, names[0], i, k);
    hide FirstIn, InNone;
    var rest := names[1..];
    if s < |rest| {
      assert rest[s] == names[s + 1];
      forall n | 0 <= n < s
        ensures rest[n] == names[n + 1]
      {
      }
      forall n | 0 < n < s + 1
        ensures names[n] == rest[n - 1]
      {
      }
    }
  }

  lemma NotFirst(imports: seq<Option<File>>, name: seq<string>, i: nat, k: nat)
    requires InNone(imports, name)
    ensures !FirstIn(imports, name, 0, i, k)
  {
    if i < |imports| { HoldsOrLacks(imports[i], name); }
    hide Lacks, Holds;
  }

  lemma {:induction false} FirstInImports(imports: seq<Option<File>>, names: seq<seq<string>>)
    ensures FirstImported(imports, names).None? <==> forall s | 0 <= s < |names| :: InNone(imports, names[s])
    ensures forall s: nat, i: nat, k: nat | ImportedAt(imports, names, s, i, k) ::
              FirstImported(imports, names) == Some((i, HeldIn(imports, i, names[s], k)))
    ensures FirstImported(imports, names).Some? ==>
              exists s: nat, i: nat, k: nat :: ImportedAt(imports, names, s, i, k)
    decreases |names|
  {
    hide Holds, Lacks, FirstImport, HeldIn;
    if names == [] {
    } else {
      ImportsInOrder(imports, names[0], 0);
      if FirstImport(imports, names[0], 0).Some? {
        var i: nat, k: nat :| FirstIn(imports, names[0], 0, i, k);
        assert ImportedAt(imports, names, 0, i, k);
      } else {
        var rest := names[1..];
        assert InNone(imports, names[0]);
        FirstInImports(imports, rest);
        hide FirstIn, InNone;
        assert forall s | 0 < s < |names| :: names[s] == rest[s - 1];
        assert forall s | 0 <= s < |rest| :: rest[s] == names[s + 1];
        forall s: nat, i: nat, k: nat | ImportedAt(imports, names, s, i, k)
          ensures s > 0 && ImportedAt(imports, rest, s - 1, i, k) && names[s] == rest[s - 1]
        {
          ShiftImported(imports, names, s, i, k);
          if s > 0 { ShiftImported(imports, names, s - 1, i, k); }
        }
        if FirstImported(imports, rest).Some? {
          var s: nat, i: nat, k: nat :| ImportedAt(imports, rest, s, i, k);
          ShiftImported(imports, names, s, i, k);
        }
      }
    }
  }
}
