/** Lists kept as finite maps: entries with distinct keys. */
module Keyed {
  import opened Options

  ghost predicate Distinct<T, K>(s: seq<T>, key: T -> K) {
    forall i, j | 0 <= i < j < |s| :: key(s[i]) != key(s[j])
  }

  /** The map that a list with distinct keys stands for. */
  function MapOf<T, K, V>(s: seq<T>, key: T -> K, view: T -> V): map<K, V> {
    if s == [] then map[] else MapOf(s[..|s| - 1], key, view)[key(s[|s| - 1]) := view(s[|s| - 1])]
  }

  /** `find` */
  function Find<T, K(==)>(s: seq<T>, key: T -> K, k: K): (r: Option<nat>)
    ensures r.Some? ==> r.value < |s| && key(s[r.value]) == k
    ensures r.None? ==> forall i | 0 <= i < |s| :: key(s[i]) != k
  {
    if s == [] then None
    else
      var r := Find(s[..|s| - 1], key, k);
      if r.Some? then r else if key(s[|s| - 1]) == k then Some(|s| - 1) else None
  }

  /** `retain` of the entries with another key. */
  function Without<T, K(==)>(s: seq<T>, key: T -> K, k: K): seq<T> {
    if s == [] then []
    else Without(s[..|s| - 1], key, k) + (if key(s[|s| - 1]) == k then [] else [s[|s| - 1]])
  }

  lemma {:induction false} MapOfKeys<T, K, V>(s: seq<T>, key: T -> K, view: T -> V, k: K)
    ensures k in MapOf(s, key, view) <==> exists i :: 0 <= i < |s| && key(s[i]) == k
  {
    if s == [] {
    } else {
      var n := |s| - 1;
      MapOfKeys(s[..n], key, view, k);
      if i :| 0 <= i < |s| && key(s[i]) == k {
        assert i < n ==> s[..n][i] == s[i];
      }
      if j :| 0 <= j < n && key(s[..n][j]) == k {
        assert key(s[j]) == k;
      }
    }
  }

  lemma {:induction false} MapOfAt<T, K, V>(s: seq<T>, key: T -> K, view: T -> V, i: nat)
    requires Distinct(s, key) && i < |s|
    ensures key(s[i]) in MapOf(s, key, view) && MapOf(s, key, view)[key(s[i])] == view(s[i])
  {
    var n := |s| - 1;
    if i == n {
    } else {
      assert s[..n][i] == s[i];
      MapOfAt(s[..n], key, view, i);
    }
  }

  /** Replacing an entry, keeping its key. */
  lemma {:induction false} MapOfUpdate<T, K, V>(s: seq<T>, key: T -> K, view: T -> V, i: nat, t: T)
    requires Distinct(s, key) && i < |s| && key(t) == key(s[i])
    ensures Distinct(s[i := t], key)
    ensures MapOf(s[i := t], key, view) == MapOf(s, key, view)[key(t) := view(t)]
  {
    var n, s' := |s| - 1, s[i := t];
    if i < n {
      assert s'[..n] == s[..n][i := t] && s[..n][i] == s[i];
      MapOfUpdate(s[..n], key, view, i, t);
      assert key(s[n]) != key(t);
    } else {
      assert s'[..n] == s[..n];
    }
  }

  lemma MapOfAppend<T, K, V>(s: seq<T>, key: T -> K, view: T -> V, t: T)
    requires Distinct(s, key) && forall i | 0 <= i < |s| :: key(s[i]) != key(t)
    ensures Distinct(s + [t], key)
    ensures MapOf(s + [t], key, view) == MapOf(s, key, view)[key(t) := view(t)]
  {
    hide MapOf;
    var all := s + [t];
    assert all[..|s|] == s && all[|s|] == t;
    forall i, j | 0 <= i < j < |all|
      ensures key(all[i]) != key(all[j])
    {
      assert all[i] == s[i];
    }
    MapOfLast(all, key, view);
  }

  lemma MapOfLast<T, K, V>(s: seq<T>, key: T -> K, view: T -> V)
    requires s != []
    ensures var n := |s| - 1; MapOf(s, key, view) == MapOf(s[..n], key, view)[key(s[n]) := view(s[n])]
  {
  }

  lemma {:induction false} WithoutIn<T, K>(s: seq<T>, key: T -> K, k: K, t: T)
    ensures t in Without(s, key, k) <==> t in s && key(t) != k
  {
    if s == [] {
    } else {
      var n := |s| - 1;
      WithoutIn(s[..n], key, k, t);
      assert s == s[..n] + [s[n]];
    }
  }

  lemma UpdateMinus<K, V>(m: map<K, V>, k: K, k': K, v: V)
    ensures m[k' := v] - {k} == if k' == k then m - {k} else (m - {k})[k' := v]
  {
  }

  /** Removing the entry of a key. */
  lemma {:induction false} MapOfWithout<T, K, V>(s: seq<T>, key: T -> K, view: T -> V, k: K)
    requires Distinct(s, key)
    ensures Distinct(Without(s, key, k), key)
    ensures MapOf(Without(s, key, k), key, view) == MapOf(s, key, view) - {k}
  {
    if s == [] {
    } else {
      var n := |s| - 1;
      var g, w, last := s[..n], Without(s[..n], key, k), s[n];
      MapOfWithout(g, key, view, k);
      UpdateMinus(MapOf(g, key, view), k, key(last), view(last));
      if key(last) == k {
        assert Without(s, key, k) == w;
      } else {
        AllOther(s, key, k);
        hide Distinct;
        MapOfAppend(w, key, view, last);
        assert Without(s, key, k) == w + [last];
      }
    }
  }

  lemma AllOther<T, K>(s: seq<T>, key: T -> K, k: K)
    requires Distinct(s, key) && s != []
    ensures var n := |s| - 1;
            Distinct(s[..n], key) &&
            forall i | 0 <= i < |Without(s[..n], key, k)| :: key(Without(s[..n], key, k)[i]) != key(s[n])
  {
    var n := |s| - 1;
    var w := Without(s[..n], key, k);
    forall i | 0 <= i < |w|
      ensures key(w[i]) != key(s[n])
    {
      WithoutIn(s[..n], key, k, w[i]);
      var j :| 0 <= j < n && s[..n][j] == w[i];
      assert s[j] == w[i];
    }
  }
}
