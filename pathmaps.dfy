/** std::map keyed by std::filesystem::path, as the staging index holds its
    entries and Index::toTree its pending trees: the pairs in strictly
    ascending key order. `ToMap` is the mathematical map such a sequence
    stands for; every update below is stated against it. */
module PathMaps {
  import opened Wrappers
  import opened Paths

  type PathMap<V> = seq<(Path, V)>

  /** Keys strictly ascend: in-order iteration of the std::map. */
  predicate Ordered<V>(m: PathMap<V>) {
    forall i, j | 0 <= i < j < |m| :: PathLess(m[i].0, m[j].0)
  }

  /** Every key of `m` comes after `x`. */
  predicate Above<V>(x: Path, m: PathMap<V>) {
    forall i | 0 <= i < |m| :: PathLess(x, m[i].0)
  }

  /** The key-to-value map the pairs stand for. */
  function ToMap<V>(m: PathMap<V>): map<Path, V> {
    if m == [] then map[] else ToMap(m[1..])[m[0].0 := m[0].1]
  }

  /** map::find. */
  function Find<V>(m: PathMap<V>, k: Path): (r: Option<V>) {
    if m == [] then None
    else if m[0].0 == k then Some(m[0].1)
    else Find(m[1..], k)
  }

  /** `m[k] = v`: replace the value under `k`, or insert `(k, v)` at its
      place in the order. */
  function Assign<V>(m: PathMap<V>, k: Path, v: V): (r: PathMap<V>) {
    if m == [] then [(k, v)]
    else if m[0].0 == k then [(k, v)] + m[1..]
    else if PathLess(k, m[0].0) then [(k, v)] + m
    else [m[0]] + Assign(m[1..], k, v)
  }

  /** map::insert: an existing key keeps its value. With `v` the default
      value this is also `m[k];` with the result unused. */
  function Insert<V>(m: PathMap<V>, k: Path, v: V): (r: PathMap<V>) {
    if Find(m, k).Some? then m else Assign(m, k, v)
  }

  /** map::erase(k): nothing happens when `k` is absent. */
  function Erase<V>(m: PathMap<V>, k: Path): (r: PathMap<V>) {
    if m == [] then []
    else if m[0].0 == k then m[1..]
    else [m[0]] + Erase(m[1..], k)
  }

  lemma OrderedTail<V>(m: PathMap<V>)
    requires m != [] && Ordered(m)
    ensures Ordered(m[1..]) && Above(m[0].0, m[1..])
  {
    forall i | 0 <= i < |m[1..]|
      ensures PathLess(m[0].0, m[1..][i].0)
    {
      assert m[1..][i] == m[i + 1];
    }
  }

  lemma OrderedCons<V>(x: (Path, V), m: PathMap<V>)
    requires Ordered(m) && Above(x.0, m)
    ensures Ordered([x] + m)
  {
    var r := [x] + m;
    forall i, j | 0 <= i < j < |r|
      ensures PathLess(r[i].0, r[j].0)
    {
      if i > 0 {
        assert r[i] == m[i - 1] && r[j] == m[j - 1];
      } else {
        assert r[j] == m[j - 1];
      }
    }
  }

  /** find agrees with the map. */
  lemma {:induction false} FindIsLookup<V>(m: PathMap<V>, k: Path)
    ensures Find(m, k) == if k in ToMap(m) then Some(ToMap(m)[k]) else None
  {
    if m != [] {
      FindIsLookup(m[1..], k);
    }
  }

  /** The keys of the map are the keys of the pairs. */
  lemma {:induction false} ToMapKeys<V>(m: PathMap<V>, k: Path)
    ensures k in ToMap(m) <==> exists i | 0 <= i < |m| :: m[i].0 == k
  {
    if m != [] {
      ToMapKeys(m[1..], k);
      if exists i | 0 <= i < |m[1..]| :: m[1..][i].0 == k {
        var i :| 0 <= i < |m[1..]| && m[1..][i].0 == k;
        assert m[i + 1].0 == k;
      }
      if exists i | 0 <= i < |m| :: m[i].0 == k {
        var i :| 0 <= i < |m| && m[i].0 == k;
        if i > 0 {
          assert m[1..][i - 1].0 == k;
        }
      }
    }
  }

  /** Every pair of `m[k] = v` is the new pair or one of the pairs of `m`. */
  lemma {:induction false} AssignPairs<V>(m: PathMap<V>, k: Path, v: V)
    ensures forall x | x in Assign(m, k, v) :: x == (k, v) || x in m
  {
    if m != [] && m[0].0 != k && !PathLess(k, m[0].0) {
      AssignPairs(m[1..], k, v);
    }
  }

  /** map::erase keeps only pairs that were there. */
  lemma {:induction false} ErasePairs<V>(m: PathMap<V>, k: Path)
    ensures forall x | x in Erase(m, k) :: x in m
  {
    if m != [] && m[0].0 != k {
      ErasePairs(m[1..], k);
    }
  }

  /** A key below every key of `m` is not in it. */
  lemma AboveAbsent<V>(x: Path, m: PathMap<V>)
    requires Above(x, m)
    ensures x !in ToMap(m)
  {
    ToMapKeys(m, x);
    if exists i | 0 <= i < |m| :: m[i].0 == x {
      var i :| 0 <= i < |m| && m[i].0 == x;
      PathLessIrreflexive(x);
    }
  }

  lemma {:induction false} AboveAssign<V>(x: Path, m: PathMap<V>, k: Path, v: V)
    requires Above(x, m) && PathLess(x, k)
    ensures Above(x, Assign(m, k, v))
  {
    if m != [] && m[0].0 != k && !PathLess(k, m[0].0) {
      assert Above(x, m[1..]) by {
        forall i | 0 <= i < |m[1..]|
          ensures PathLess(x, m[1..][i].0)
        {
          assert m[1..][i] == m[i + 1];
        }
      }
      AboveAssign(x, m[1..], k, v);
      var r := Assign(m, k, v);
      assert r == [m[0]] + Assign(m[1..], k, v);
      forall i | 0 <= i < |r|
        ensures PathLess(x, r[i].0)
      {
        if i > 0 {
          assert r[i] == Assign(m[1..], k, v)[i - 1];
        }
      }
    }
  }

  lemma AboveTransitive<V>(x: Path, y: Path, m: PathMap<V>)
    requires PathLess(x, y) && Above(y, m)
    ensures Above(x, m)
  {
    forall i | 0 <= i < |m|
      ensures PathLess(x, m[i].0)
    {
      PathLessTransitive(x, y, m[i].0);
    }
  }

  /** `m[k] = v` keeps the order and updates the map at `k` only. */
  lemma {:induction false} AssignSpec<V>(m: PathMap<V>, k: Path, v: V)
    requires Ordered(m)
    ensures Ordered(Assign(m, k, v))
    ensures ToMap(Assign(m, k, v)) == ToMap(m)[k := v]
  {
    if m == [] {
    } else if m[0].0 == k {
      OrderedTail(m);
      OrderedCons((k, v), m[1..]);
      AboveAbsent(k, m[1..]);
      assert ([(k, v)] + m[1..])[1..] == m[1..];
    } else if PathLess(k, m[0].0) {
      OrderedTail(m);
      AboveTransitive(k, m[0].0, m[1..]);
      assert Above(k, m) by {
        forall i | 0 <= i < |m|
          ensures PathLess(k, m[i].0)
        {
          if i > 0 {
            assert m[i] == m[1..][i - 1];
          }
        }
      }
      OrderedCons((k, v), m);
      assert ([(k, v)] + m)[1..] == m;
    } else {
      OrderedTail(m);
      PathLessTotal(k, m[0].0);
      AssignSpec(m[1..], k, v);
      AboveAssign(m[0].0, m[1..], k, v);
      OrderedCons(m[0], Assign(m[1..], k, v));
      assert ([m[0]] + Assign(m[1..], k, v))[1..] == Assign(m[1..], k, v);
    }
  }

  /** map::insert keeps the order and adds `k` only when it was absent. */
  lemma InsertSpec<V>(m: PathMap<V>, k: Path, v: V)
    requires Ordered(m)
    ensures Ordered(Insert(m, k, v))
    ensures ToMap(Insert(m, k, v)) == if k in ToMap(m) then ToMap(m) else ToMap(m)[k := v]
  {
    FindIsLookup(m, k);
    AssignSpec(m, k, v);
  }

  lemma {:induction false} AboveErase<V>(x: Path, m: PathMap<V>, k: Path)
    requires Above(x, m)
    ensures Above(x, Erase(m, k))
  {
    if m != [] && m[0].0 != k {
      assert Above(x, m[1..]) by {
        forall i | 0 <= i < |m[1..]|
          ensures PathLess(x, m[1..][i].0)
        {
          assert m[1..][i] == m[i + 1];
        }
      }
      AboveErase(x, m[1..], k);
      var r := Erase(m, k);
      forall i | 0 <= i < |r|
        ensures PathLess(x, r[i].0)
      {
        if i > 0 {
          assert r[i] == Erase(m[1..], k)[i - 1];
        }
      }
    } else if m != [] {
      forall i | 0 <= i < |m[1..]|
        ensures PathLess(x, m[1..][i].0)
      {
        assert m[1..][i] == m[i + 1];
      }
    }
  }

  /** map::erase(k) keeps the order and removes `k` only. */
  lemma {:induction false} EraseSpec<V>(m: PathMap<V>, k: Path)
    requires Ordered(m)
    ensures Ordered(Erase(m, k))
    ensures ToMap(Erase(m, k)) == ToMap(m) - {k}
  {
    if m != [] {
      OrderedTail(m);
      if m[0].0 == k {
        AboveAbsent(k, m[1..]);
      } else {
        EraseSpec(m[1..], k);
        AboveErase(m[0].0, m[1..], k);
        OrderedCons(m[0], Erase(m[1..], k));
        assert ([m[0]] + Erase(m[1..], k))[1..] == Erase(m[1..], k);
      }
    }
  }

  /** The last pair holds the greatest key, and dropping it erases that
      key: `pendingTrees.erase(--pendingTrees.end())`. */
  lemma {:induction false} DropLast<V>(m: PathMap<V>)
    requires m != [] && Ordered(m)
    ensures Ordered(m[..|m| - 1])
    ensures ToMap(m[..|m| - 1]) == ToMap(m) - {m[|m| - 1].0}
    ensures forall k | k in ToMap(m) :: k == m[|m| - 1].0 || PathLess(k, m[|m| - 1].0)
  {
    var last := m[|m| - 1];
    forall k | k in ToMap(m)
      ensures k == last.0 || PathLess(k, last.0)
    {
      ToMapKeys(m, k);
      var i :| 0 <= i < |m| && m[i].0 == k;
      if i < |m| - 1 {
        assert PathLess(m[i].0, m[|m| - 1].0);
      }
    }
    if |m| == 1 {
      assert m[..0] == [];
    } else {
      OrderedTail(m);
      DropLast(m[1..]);
      var init := m[..|m| - 1];
      var t := init[1..];
      assert m[1..][..|m[1..]| - 1] == t;
      assert Above(m[0].0, t) by {
        forall i | 0 <= i < |t|
          ensures PathLess(m[0].0, t[i].0)
        {
          assert t[i] == m[1..][i];
        }
      }
      OrderedCons(m[0], t);
      assert [m[0]] + t == init;
      assert last.0 != m[0].0 by {
        assert PathLess(m[0].0, last.0);
        PathLessIrreflexive(m[0].0);
      }
    }
  }
}
