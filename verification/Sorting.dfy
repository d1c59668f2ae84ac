/** Python's sorted(..., key=...): stable, by a numeric key. */
module Sorting {
  type Keyed<T> = (nat, T)

  function Insert<T>(x: Keyed<T>, s: seq<Keyed<T>>): (r: seq<Keyed<T>>)
    ensures |r| == |s| + 1
  {
    if s == [] || x.0 <= s[0].0 then [x] + s else [s[0]] + Insert(x, s[1..])
  }

  function SortByKey<T>(s: seq<Keyed<T>>): (r: seq<Keyed<T>>)
    ensures |r| == |s|
  {
    if s == [] then [] else Insert(s[0], SortByKey(s[1..]))
  }

  ghost predicate AtLeast<T>(s: seq<Keyed<T>>, k: nat) {
    forall i :: 0 <= i < |s| ==> k <= s[i].0
  }

  ghost predicate Sorted<T>(s: seq<Keyed<T>>) {
    s == [] || (AtLeast(s[1..], s[0].0) && Sorted(s[1..]))
  }

  lemma {:induction false} InsertAtLeast<T>(x: Keyed<T>, s: seq<Keyed<T>>, k: nat)
    requires AtLeast(s, k) && k <= x.0
    ensures AtLeast(Insert(x, s), k)
  {
    if s != [] && s[0].0 < x.0 {
      assert AtLeast(s[1..], k);
      InsertAtLeast(x, s[1..], k);
    }
  }

  lemma {:induction false} InsertSorts<T>(x: Keyed<T>, s: seq<Keyed<T>>)
    requires Sorted(s)
    ensures Sorted(Insert(x, s))
  {
    if s == [] {
      assert [x][1..] == [];
    } else if x.0 <= s[0].0 {
      assert ([x] + s)[1..] == s;
    } else {
      InsertSorts(x, s[1..]);
      InsertAtLeast(x, s[1..], s[0].0);
      assert ([s[0]] + Insert(x, s[1..]))[1..] == Insert(x, s[1..]);
    }
  }

  lemma {:induction false} InsertBag<T>(x: Keyed<T>, s: seq<Keyed<T>>)
    ensures multiset(Insert(x, s)) == multiset(s) + multiset{x}
  {
    if s != [] && s[0].0 < x.0 {
      InsertBag(x, s[1..]);
      assert s == [s[0]] + s[1..];
    }
  }

  /** The result is sorted and has the same elements. */
  lemma {:induction false} SortSorts<T>(s: seq<Keyed<T>>)
    ensures Sorted(SortByKey(s)) && multiset(SortByKey(s)) == multiset(s)
  {
    if s != [] {
      SortSorts(s[1..]);
      InsertSorts(s[0], SortByKey(s[1..]));
      InsertBag(s[0], SortByKey(s[1..]));
      assert s == [s[0]] + s[1..];
    }
  }

  lemma {:induction false} SortedAt<T>(s: seq<Keyed<T>>, i: nat, j: nat)
    requires Sorted(s) && i < j < |s|
    ensures s[i].0 <= s[j].0
  {
    if i == 0 {
      assert s[j] == s[1..][j - 1];
    } else {
      SortedAt(s[1..], i - 1, j - 1);
    }
  }

  lemma SortHolds<T>(s: seq<Keyed<T>>, e: Keyed<T>)
    ensures e in SortByKey(s) <==> e in s
  {
    SortSorts(s);
    assert e in SortByKey(s) <==> e in multiset(SortByKey(s));
    assert e in s <==> e in multiset(s);
  }

  lemma InsertHas<T>(x: Keyed<T>, s: seq<Keyed<T>>, y: Keyed<T>)
    ensures y in Insert(x, s) <==> y == x || y in s
  {
    InsertBag(x, s);
    assert y in Insert(x, s) <==> y in multiset(Insert(x, s));
    assert y in s <==> y in multiset(s);
  }

  ghost predicate DistinctKeys<T>(s: seq<Keyed<T>>) {
    forall i, j :: 0 <= i < j < |s| ==> s[i].0 != s[j].0
  }

  /** How often a key appears. */
  function KeyCount<T>(s: seq<Keyed<T>>, k: nat): nat {
    if s == [] then 0 else (if s[0].0 == k then 1 else 0) + KeyCount(s[1..], k)
  }

  lemma {:induction false} KeyCounted<T>(s: seq<Keyed<T>>, k: nat)
    ensures KeyCount(s, k) > 0 <==> exists i :: 0 <= i < |s| && s[i].0 == k
  {
    if s != [] {
      KeyCounted(s[1..], k);
      assert forall i :: 1 <= i < |s| ==> s[i] == s[1..][i - 1];
    }
  }

  lemma {:induction false} InsertCount<T>(x: Keyed<T>, s: seq<Keyed<T>>, k: nat)
    ensures KeyCount(Insert(x, s), k) == (if x.0 == k then 1 else 0) + KeyCount(s, k)
  {
    if s != [] && s[0].0 < x.0 {
      InsertCount(x, s[1..], k);
      assert ([s[0]] + Insert(x, s[1..]))[1..] == Insert(x, s[1..]);
    } else {
      assert ([x] + s)[1..] == s;
    }
  }

  /** Sorting keeps how often each key appears. */
  lemma {:induction false} SortCount<T>(s: seq<Keyed<T>>, k: nat)
    ensures KeyCount(SortByKey(s), k) == KeyCount(s, k)
  {
    hide Insert;
    if s != [] {
      SortCount(s[1..], k);
      InsertCount(s[0], SortByKey(s[1..]), k);
    }
  }

  ghost predicate AtMostOnce<T>(s: seq<Keyed<T>>) {
    forall k: nat :: KeyCount(s, k) <= 1
  }

  /** Keys are distinct just when none appears twice. */
  lemma {:induction false} DistinctByCount<T>(s: seq<Keyed<T>>)
    ensures DistinctKeys(s) <==> AtMostOnce(s)
  {
    if s != [] {
      DistinctByCount(s[1..]);
      DistinctCons(s);
      KeyCounted(s[1..], s[0].0);
      if DistinctKeys(s) {
        forall k: nat ensures KeyCount(s, k) <= 1 {
          assert KeyCount(s[1..], k) <= 1;
        }
      }
      if AtMostOnce(s) {
        assert KeyCount(s, s[0].0) <= 1;
        forall k: nat ensures KeyCount(s[1..], k) <= 1 {
          assert KeyCount(s, k) <= 1;
        }
      }
    }
  }

  lemma DistinctCons<T>(s: seq<Keyed<T>>)
    requires s != []
    ensures DistinctKeys(s) <==> DistinctKeys(s[1..]) && !exists i :: 0 <= i < |s[1..]| && s[1..][i].0 == s[0].0
  {
    var rest := s[1..];
    assert forall i :: 1 <= i < |s| ==> s[i] == rest[i - 1];
    if DistinctKeys(s) {
      forall i, j | 0 <= i < j < |rest| ensures rest[i].0 != rest[j].0 {
        assert s[i + 1].0 != s[j + 1].0;
      }
      forall i | 0 <= i < |rest| ensures rest[i].0 != s[0].0 {
        assert s[i + 1].0 != s[0].0;
      }
    }
  }

  /** Sorting neither makes nor hides a repeated key. */
  lemma SortDistinct<T>(s: seq<Keyed<T>>)
    ensures DistinctKeys(SortByKey(s)) <==> DistinctKeys(s)
  {
    DistinctByCount(s);
    DistinctByCount(SortByKey(s));
    if AtMostOnce(s) {
      forall k: nat ensures KeyCount(SortByKey(s), k) <= 1 {
        SortCount(s, k);
      }
    }
    if AtMostOnce(SortByKey(s)) {
      forall k: nat ensures KeyCount(s, k) <= 1 {
        SortCount(s, k);
      }
    }
  }

  /** The elements with key `k`, in their order. */
  function WithKey<T>(s: seq<Keyed<T>>, k: nat): seq<Keyed<T>> {
    if s == [] then [] else (if s[0].0 == k then [s[0]] else []) + WithKey(s[1..], k)
  }

  lemma {:induction false} InsertStable<T>(x: Keyed<T>, s: seq<Keyed<T>>, k: nat)
    ensures WithKey(Insert(x, s), k) == WithKey([x], k) + WithKey(s, k)
  {
    if s != [] && s[0].0 < x.0 {
      InsertStable(x, s[1..], k);
    } else {
      assert ([x] + s)[1..] == s;
    }
  }

  /** The sort is stable: elements with the same key keep their order. */
  lemma {:induction false} SortStable<T>(s: seq<Keyed<T>>, k: nat)
    ensures WithKey(SortByKey(s), k) == WithKey(s, k)
  {
    if s != [] {
      SortStable(s[1..], k);
      InsertStable(s[0], SortByKey(s[1..]), k);
    }
  }
}
