/**
 * The stable sort by byte key that both the map encoder and the frontier rely on.
 * The standard library's sort is foreign code: `Sort` is its specification, pinned down by
 * the lemmas below (sorted, a permutation, and the only strictly sorted arrangement).
 */
module KeyedSort {
  import opened Bytes

  datatype Keyed<+T> = Keyed(key: seq<byte>, item: T)

  predicate Ascending<T>(xs: seq<Keyed<T>>) {
    forall i, j :: 0 <= i < j < |xs| ==> !LexLess(xs[j].key, xs[i].key)
  }

  predicate StrictlyAscending<T>(xs: seq<Keyed<T>>) {
    forall i, j :: 0 <= i < j < |xs| ==> LexLess(xs[i].key, xs[j].key)
  }

  predicate DistinctKeys<T>(xs: seq<Keyed<T>>) {
    forall i, j :: 0 <= i < j < |xs| ==> xs[i].key != xs[j].key
  }

  /** Places `x` before the first entry whose key is not smaller than its own. */
  function Insert<T>(x: Keyed<T>, xs: seq<Keyed<T>>): (r: seq<Keyed<T>>)
    ensures |r| == |xs| + 1
  {
    if xs == [] || !LexLess(xs[0].key, x.key) then [x] + xs else [xs[0]] + Insert(x, xs[1..])
  }

  function Sort<T>(xs: seq<Keyed<T>>): (r: seq<Keyed<T>>)
    ensures |r| == |xs|
  {
    if xs == [] then [] else Insert(xs[0], Sort(xs[1..]))
  }

  lemma {:induction false} InsertElements<T>(x: Keyed<T>, xs: seq<Keyed<T>>)
    ensures multiset(Insert(x, xs)) == multiset{x} + multiset(xs)
  {
    if xs != [] && LexLess(xs[0].key, x.key) {
      InsertElements(x, xs[1..]);
      assert xs == [xs[0]] + xs[1..];
    }
  }

  lemma {:induction false} InsertAscending<T>(x: Keyed<T>, xs: seq<Keyed<T>>)
    requires Ascending(xs)
    ensures Ascending(Insert(x, xs))
  {
    if xs == [] {
    } else if LexLess(xs[0].key, x.key) {
      var rest := Insert(x, xs[1..]);
      InsertAscending(x, xs[1..]);
      InsertElements(x, xs[1..]);
      forall j | 0 <= j < |rest| ensures !LexLess(rest[j].key, xs[0].key) {
        assert rest[j] in multiset(rest);
        if rest[j] == x {
          LexAsymmetric(xs[0].key, x.key);
        } else {
          assert rest[j] in xs[1..];
        }
      }
    } else {
      forall j | 0 <= j < |xs| ensures !LexLess(xs[j].key, x.key) {
        if LexLess(xs[j].key, x.key) {
          LexTotal(xs[0].key, x.key);
          if j > 0 {
            if xs[0].key == x.key {
            } else {
              LexTransitive(xs[j].key, x.key, xs[0].key);
            }
            assert false;
          }
        }
      }
    }
  }

  /** Sorting permutes its input and orders it. */
  lemma {:induction false} SortSorts<T>(xs: seq<Keyed<T>>)
    ensures multiset(Sort(xs)) == multiset(xs)
    ensures Ascending(Sort(xs))
  {
    if xs != [] {
      SortSorts(xs[1..]);
      InsertElements(xs[0], Sort(xs[1..]));
      InsertAscending(xs[0], Sort(xs[1..]));
      assert xs == [xs[0]] + xs[1..];
    }
  }

  /** The entries whose key is `key`, in order. */
  function WithKey<T>(xs: seq<Keyed<T>>, key: seq<byte>): seq<Keyed<T>> {
    if xs == [] then []
    else (if xs[0].key == key then [xs[0]] else []) + WithKey(xs[1..], key)
  }

  lemma {:induction false} InsertStable<T>(x: Keyed<T>, xs: seq<Keyed<T>>, key: seq<byte>)
    ensures WithKey(Insert(x, xs), key) == (if x.key == key then [x] else []) + WithKey(xs, key)
  {
    hide LexLess;
    if xs == [] || !LexLess(xs[0].key, x.key) {
      assert ([x] + xs)[1..] == xs;
    } else {
      var rest := Insert(x, xs[1..]);
      InsertStable(x, xs[1..], key);
      LexIrreflexive(x.key);
      assert ([xs[0]] + rest)[1..] == rest;
      assert WithKey([xs[0]] + rest, key) == (if xs[0].key == key then [xs[0]] else []) + WithKey(rest, key);
    }
  }

  /** Sorting is stable: entries with equal keys keep their relative order. */
  lemma {:induction false} SortStable<T>(xs: seq<Keyed<T>>, key: seq<byte>)
    ensures WithKey(Sort(xs), key) == WithKey(xs, key)
  {
    if xs != [] {
      SortStable(xs[1..], key);
      InsertStable(xs[0], Sort(xs[1..]), key);
    }
  }

  lemma {:induction false} SortMembers<T>(xs: seq<Keyed<T>>)
    ensures forall x :: x in Sort(xs) <==> x in xs
  {
    SortSorts(xs);
    assert forall x :: x in Sort(xs) <==> x in multiset(Sort(xs));
    assert forall x :: x in xs <==> x in multiset(xs);
  }

  lemma {:induction false} InsertDistinct<T>(x: Keyed<T>, xs: seq<Keyed<T>>)
    ensures DistinctKeys(Insert(x, xs)) <==> DistinctKeys(xs) && KeyFree(xs, x.key)
  {
    var r := Insert(x, xs);
    if xs == [] || !LexLess(xs[0].key, x.key) {
      DistinctCons(x, xs);
    } else {
      var rest := Insert(x, xs[1..]);
      InsertDistinct(x, xs[1..]);
      InsertElements(x, xs[1..]);
      assert r == [xs[0]] + rest;
      LexIrreflexive(x.key);
      DistinctCons(xs[0], rest);
      DistinctCons(xs[0], xs[1..]);
      assert xs == [xs[0]] + xs[1..];
      assert forall y :: y in rest <==> y in multiset(rest);
      assert forall y :: y in xs[1..] <==> y in multiset(xs[1..]);
      assert KeyFree(rest, xs[0].key) <==> KeyFree(xs[1..], xs[0].key) by {
        assert forall y :: y in rest <==> y == x || y in xs[1..];
        KeyFreeMembers(rest, xs[0].key);
        KeyFreeMembers(xs[1..], xs[0].key);
      }
    }
  }

  predicate KeyFree<T>(xs: seq<Keyed<T>>, key: seq<byte>) {
    forall i :: 0 <= i < |xs| ==> xs[i].key != key
  }

  lemma {:induction false} KeyFreeMembers<T>(xs: seq<Keyed<T>>, key: seq<byte>)
    ensures KeyFree(xs, key) <==> forall x :: x in xs ==> x.key != key
  {
  }

  lemma {:induction false} DistinctCons<T>(x: Keyed<T>, xs: seq<Keyed<T>>)
    ensures DistinctKeys([x] + xs) <==> KeyFree(xs, x.key) && DistinctKeys(xs)
  {
    var r := [x] + xs;
    assert forall i :: 0 <= i < |xs| ==> r[i + 1] == xs[i];
    if DistinctKeys(r) {
      forall i | 0 <= i < |xs| ensures xs[i].key != x.key {
        assert r[0].key != r[i + 1].key;
      }
      forall i, j | 0 <= i < j < |xs| ensures xs[i].key != xs[j].key {
        assert r[i + 1].key != r[j + 1].key;
      }
    }
  }

  /** Sorting neither creates nor hides a duplicate key. */
  lemma {:induction false} SortDistinct<T>(xs: seq<Keyed<T>>)
    ensures DistinctKeys(Sort(xs)) <==> DistinctKeys(xs)
  {
    if xs != [] {
      SortDistinct(xs[1..]);
      InsertDistinct(xs[0], Sort(xs[1..]));
      DistinctCons(xs[0], xs[1..]);
      assert xs == [xs[0]] + xs[1..];
      assert KeyFree(xs[1..], xs[0].key) <==> KeyFree(Sort(xs[1..]), xs[0].key) by {
        SortMembers(xs[1..]);
        KeyFreeMembers(xs[1..], xs[0].key);
        KeyFreeMembers(Sort(xs[1..]), xs[0].key);
      }
    }
  }

  /** Over distinct keys the sorted arrangement is strictly ascending. */
  lemma {:induction false} SortStrict<T>(xs: seq<Keyed<T>>)
    ensures StrictlyAscending(Sort(xs)) <==> DistinctKeys(xs)
  {
    SortSorts(xs);
    SortDistinct(xs);
    var s := Sort(xs);
    if DistinctKeys(xs) {
      forall i, j | 0 <= i < j < |s| ensures LexLess(s[i].key, s[j].key) {
        LexTotal(s[i].key, s[j].key);
      }
    }
    if StrictlyAscending(s) {
      forall i, j | 0 <= i < j < |s| ensures s[i].key != s[j].key {
        LexAsymmetric(s[i].key, s[j].key);
      }
    }
  }

  /** A strictly ascending list is already sorted. */
  lemma {:induction false} SortFixesStrict<T>(xs: seq<Keyed<T>>)
    requires StrictlyAscending(xs)
    ensures Sort(xs) == xs
  {
    if xs != [] {
      SortFixesStrict(xs[1..]);
      if |xs| > 1 {
        LexAsymmetric(xs[0].key, xs[1].key);
      }
    }
  }

  /** Two strictly ascending lists with the same members are the same list. */
  lemma {:induction false} StrictUnique<T>(xs: seq<Keyed<T>>, ys: seq<Keyed<T>>)
    requires StrictlyAscending(xs) && StrictlyAscending(ys)
    requires forall x :: x in xs <==> x in ys
    ensures xs == ys
  {
    assert ys != [] ==> ys[0] in ys;
    if xs == [] {
    } else {
      assert xs[0] in ys;
      var k :| 0 <= k < |ys| && ys[k] == xs[0];
      assert ys[0] in xs;
      var m :| 0 <= m < |xs| && xs[m] == ys[0];
      if k > 0 && m > 0 {
        LexAsymmetric(xs[0].key, xs[m].key);
      }
      assert xs[0] == ys[0];
      forall x ensures x in xs[1..] <==> x in ys[1..] {
        LexIrreflexive(xs[0].key);
        if x in xs[1..] {
          var i :| 1 <= i < |xs| && xs[i] == x;
          assert LexLess(xs[0].key, xs[i].key);
          assert x in ys;
          var n :| 0 <= n < |ys| && ys[n] == x;
          assert ys[1..][n - 1] == x;
        }
        if x in ys[1..] {
          var i :| 1 <= i < |ys| && ys[i] == x;
          assert LexLess(ys[0].key, ys[i].key);
          assert x in xs;
          var n :| 0 <= n < |xs| && xs[n] == x;
          assert xs[1..][n - 1] == x;
        }
      }
      StrictUnique(xs[1..], ys[1..]);
    }
  }

  lemma {:induction false} LeastFirst<T>(xs: seq<Keyed<T>>, ys: seq<Keyed<T>>)
    requires Ascending(xs) && StrictlyAscending(ys) && multiset(xs) == multiset(ys) && xs != []
    ensures ys != [] && xs[0] == ys[0]
  {
    hide LexLess;
    assert xs[0] in multiset(xs);
    var m :| 0 <= m < |ys| && ys[m] == xs[0];
    assert ys[0] in multiset(ys);
    var k :| 0 <= k < |xs| && xs[k] == ys[0];
    LexIrreflexive(xs[0].key);
  }

  lemma {:induction false} RestsMatch<T>(xs: seq<Keyed<T>>, ys: seq<Keyed<T>>)
    requires multiset(xs) == multiset(ys) && xs != [] && ys != [] && xs[0] == ys[0]
    ensures multiset(xs[1..]) == multiset(ys[1..])
  {
    assert xs == [xs[0]] + xs[1..] && ys == [ys[0]] + ys[1..];
    assert multiset(xs[1..]) == multiset(xs) - multiset{xs[0]};
    assert multiset(ys[1..]) == multiset(ys) - multiset{ys[0]};
  }

  /** A sorted permutation of a strictly sorted sequence is that sequence. */
  lemma {:induction false} AscendingUnique<T>(xs: seq<Keyed<T>>, ys: seq<Keyed<T>>)
    requires Ascending(xs) && StrictlyAscending(ys) && multiset(xs) == multiset(ys)
    ensures xs == ys
  {
    hide LexLess;
    assert |multiset(xs)| == |xs| && |multiset(ys)| == |ys|;
    if xs != [] {
      LeastFirst(xs, ys);
      RestsMatch(xs, ys);
      AscendingUnique(xs[1..], ys[1..]);
      assert xs == [xs[0]] + xs[1..] && ys == [ys[0]] + ys[1..];
    }
  }

  /** Inputs with the same members and distinct keys sort to the same list. */
  lemma {:induction false} SortIgnoresOrder<T>(xs: seq<Keyed<T>>, ys: seq<Keyed<T>>)
    requires DistinctKeys(xs) && DistinctKeys(ys)
    requires forall x :: x in xs <==> x in ys
    ensures Sort(xs) == Sort(ys)
  {
    SortStrict(xs);
    SortStrict(ys);
    SortMembers(xs);
    SortMembers(ys);
    StrictUnique(Sort(xs), Sort(ys));
  }
}
