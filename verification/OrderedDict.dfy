/** Python's `dict`, which iterates in insertion order. */
module OrderedDict {
  import opened Bytes

  type Dict<K, V> = seq<(K, V)>

  function Get<K(==), V>(d: Dict<K, V>, k: K): (r: Option<V>) {
    if d == [] then None else if d[0].0 == k then Some(d[0].1) else Get(d[1..], k)
  }

  /** `d[k] = v`: an existing key keeps its place. */
  function Put<K(==), V>(d: Dict<K, V>, k: K, v: V): (r: Dict<K, V>) {
    if d == [] then [(k, v)] else if d[0].0 == k then [(k, v)] + d[1..] else [d[0]] + Put(d[1..], k, v)
  }

  /** `d.pop(k, None)` */
  function Remove<K(==), V>(d: Dict<K, V>, k: K): (r: Dict<K, V>) {
    if d == [] then [] else if d[0].0 == k then Remove(d[1..], k) else [d[0]] + Remove(d[1..], k)
  }

  ghost predicate UniqueKeys<K, V>(d: Dict<K, V>) {
    forall i, j | 0 <= i < j < |d| :: d[i].0 != d[j].0
  }

  ghost predicate HasKey<K, V>(d: Dict<K, V>, k: K) {
    exists i | 0 <= i < |d| :: d[i].0 == k
  }

  lemma {:induction false} GetSome<K, V>(d: Dict<K, V>, k: K)
    ensures Get(d, k).Some? <==> HasKey(d, k)
    ensures Get(d, k).Some? ==> (k, Get(d, k).value) in d
  {
    if d != [] {
      GetSome(d[1..], k);
      if d[0].0 != k {
        if HasKey(d, k) {
          var i :| 0 <= i < |d| && d[i].0 == k;
          assert d[1..][i - 1].0 == k;
        }
      }
    }
  }

  lemma {:induction false} GetPut<K, V>(d: Dict<K, V>, k: K, v: V, j: K)
    ensures Get(Put(d, k, v), j) == if j == k then Some(v) else Get(d, j)
  {
    if d != [] {
      GetPut(d[1..], k, v, j);
      assert d[0].0 != k ==> Put(d, k, v)[1..] == Put(d[1..], k, v);
    }
  }

  /** A new key goes to the end. */
  lemma {:induction false} PutNew<K, V>(d: Dict<K, V>, k: K, v: V)
    requires !HasKey(d, k)
    ensures Put(d, k, v) == d + [(k, v)]
  {
    if d != [] {
      assert d[0].0 != k;
      assert forall i | 0 <= i < |d[1..]| :: d[1..][i] == d[i + 1];
      PutNew(d[1..], k, v);
    }
  }

  lemma {:induction false} PutKeys<K, V>(d: Dict<K, V>, k: K, v: V)
    requires UniqueKeys(d)
    ensures UniqueKeys(Put(d, k, v))
    ensures forall e | e in Put(d, k, v) :: e == (k, v) || (e in d && e.0 != k)
    ensures |d| <= |Put(d, k, v)| <= |d| + 1
  {
    if d != [] {
      var t := d[1..];
      assert forall i | 0 <= i < |t| :: t[i] == d[i + 1];
      PutKeys(t, k, v);
      if d[0].0 != k {
        var p := Put(t, k, v);
        assert forall i | 0 <= i < |p| :: p[i] in p;
      }
    }
  }

  lemma {:induction false} RemoveKeys<K, V>(d: Dict<K, V>, k: K)
    ensures !HasKey(Remove(d, k), k)
    ensures forall i | 0 <= i < |Remove(d, k)| :: Remove(d, k)[i] in d
    ensures UniqueKeys(d) ==> UniqueKeys(Remove(d, k))
  {
    if d != [] {
      var t := d[1..];
      assert forall i | 0 <= i < |t| :: t[i] == d[i + 1];
      RemoveKeys(t, k);
      var p := Remove(t, k);
      forall i | 0 <= i < |p|
        ensures p[i] in d
        ensures UniqueKeys(d) ==> p[i].0 != d[0].0
      {
        assert p[i] in t;
        var j :| 0 <= j < |t| && t[j] == p[i];
        assert d[j + 1] == p[i];
      }
      assert UniqueKeys(d) ==> UniqueKeys(t);
    }
  }

  /** Removing keeps the order of what is left. */
  lemma {:induction false} RemoveSplit<K, V>(d: Dict<K, V>, e: Dict<K, V>, k: K)
    ensures Remove(d + e, k) == Remove(d, k) + Remove(e, k)
  {
    if d == [] {
      assert d + e == e;
    } else {
      assert (d + e)[1..] == d[1..] + e;
      RemoveSplit(d[1..], e, k);
    }
  }

  lemma {:induction false} RemoveTwice<K, V>(d: Dict<K, V>, k: K)
    ensures Remove(Remove(d, k), k) == Remove(d, k)
  {
    if d != [] {
      RemoveTwice(d[1..], k);
      assert d[0].0 != k ==> Remove(d, k)[1..] == Remove(d[1..], k);
    }
  }

  /** What is filed under a key is no longer there when the key is removed; other keys do not notice. */
  lemma {:induction false} RemovePut<K, V>(d: Dict<K, V>, k: K, v: V, j: K)
    ensures Remove(Put(d, k, v), j) == if j == k then Remove(d, j) else Put(Remove(d, j), k, v)
  {
    if d == [] {
      assert [(k, v)][1..] == [];
    } else {
      RemovePut(d[1..], k, v, j);
      assert d[0].0 != k ==> Put(d, k, v)[1..] == Put(d[1..], k, v);
      assert d[0].0 == k ==> Put(d, k, v)[1..] == d[1..];
      assert d[0].0 != j ==> Remove(d, j)[1..] == Remove(d[1..], j);
    }
  }

  lemma {:induction false} GetRemove<K, V>(d: Dict<K, V>, k: K, j: K)
    ensures Get(Remove(d, k), j) == if j == k then None else Get(d, j)
  {
    if d != [] {
      GetRemove(d[1..], k, j);
      assert d[0].0 != k ==> Remove(d, k)[1..] == Remove(d[1..], k);
    }
  }

  lemma {:induction false} RemoveAbsent<K, V>(d: Dict<K, V>, k: K)
    requires forall i | 0 <= i < |d| :: d[i].0 != k
    ensures Remove(d, k) == d
  {
    if d != [] {
      assert forall i | 0 <= i < |d[1..]| :: d[1..][i] == d[i + 1];
      RemoveAbsent(d[1..], k);
    }
  }
}
