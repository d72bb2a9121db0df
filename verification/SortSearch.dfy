/** A sort and a search that meet what the optimizer assumes of qsort and bsearch. */
module SortSearch {
  import opened Script

  function Insert(cmp: (string, string) -> int, x: string, a: seq<string>): seq<string> {
    if a == [] || cmp(x, a[0]) <= 0 then [x] + a else [a[0]] + Insert(cmp, x, a[1..])
  }

  /** Insertion sort. */
  function Sort(cmp: (string, string) -> int, a: seq<string>): seq<string> {
    if a == [] then [] else Insert(cmp, a[0], Sort(cmp, a[1..]))
  }

  lemma {:induction false} InsertMultiset(cmp: (string, string) -> int, x: string, a: seq<string>)
    ensures multiset(Insert(cmp, x, a)) == multiset(a) + multiset{x}
  {
    if a != [] && cmp(x, a[0]) > 0 {
      InsertMultiset(cmp, x, a[1..]);
      assert a == [a[0]] + a[1..];
    }
  }

  lemma InsertMembers(cmp: (string, string) -> int, x: string, a: seq<string>, y: string)
    ensures y in Insert(cmp, x, a) <==> y == x || y in a
  {
    InsertMultiset(cmp, x, a);
    assert y in Insert(cmp, x, a) <==> y in multiset(Insert(cmp, x, a));
    assert y in a <==> y in multiset(a);
  }

  lemma {:induction false} InsertSorted(cmp: (string, string) -> int, x: string, a: seq<string>)
    requires TotalOrder(cmp) && Sorted(cmp, a)
    ensures Sorted(cmp, Insert(cmp, x, a))
  {
    var r := Insert(cmp, x, a);
    if a == [] || cmp(x, a[0]) <= 0 {
      assert r[1..] == a;
      forall y | y in a ensures cmp(x, y) <= 0 {
        assert y == a[0] || y in a[1..];
        assert Transitive(cmp, x, a[0], y);
      }
    } else {
      assert r[1..] == Insert(cmp, x, a[1..]);
      InsertSorted(cmp, x, a[1..]);
      forall y | y in r[1..] ensures cmp(a[0], y) <= 0 {
        InsertMembers(cmp, x, a[1..], y);
      }
    }
  }

  lemma {:induction false} SortMultiset(cmp: (string, string) -> int, a: seq<string>)
    ensures multiset(Sort(cmp, a)) == multiset(a)
  {
    if a != [] {
      SortMultiset(cmp, a[1..]);
      InsertMultiset(cmp, a[0], Sort(cmp, a[1..]));
      assert a == [a[0]] + a[1..];
      assert multiset(a) == multiset{a[0]} + multiset(a[1..]);
    }
  }

  lemma {:induction false} SortSorted(cmp: (string, string) -> int, a: seq<string>)
    requires TotalOrder(cmp)
    ensures Sorted(cmp, Sort(cmp, a))
  {
    if a != [] {
      SortSorted(cmp, a[1..]);
      InsertSorted(cmp, a[0], Sort(cmp, a[1..]));
    }
  }

  /** Sorting yields a sorted permutation. */
  lemma SortCorrect(cmp: (string, string) -> int, a: seq<string>)
    requires TotalOrder(cmp)
    ensures Sorted(cmp, Sort(cmp, a))
    ensures multiset(Sort(cmp, a)) == multiset(a)
  {
    SortSorted(cmp, a);
    SortMultiset(cmp, a);
  }

  lemma {:induction false} SortedAt(cmp: (string, string) -> int, a: seq<string>, i: nat, j: nat)
    requires Sorted(cmp, a) && i < j < |a|
    ensures cmp(a[i], a[j]) <= 0
  {
    if i == 0 {
      assert a[j] == a[1..][j - 1];
    } else {
      SortedAt(cmp, a[1..], i - 1, j - 1);
    }
  }

  /** Binary search in the part lo..hi of the array. */
  predicate Bsearch(cmp: (string, string) -> int, a: seq<string>, key: string, lo: nat, hi: nat)
    requires lo <= hi <= |a|
    decreases hi - lo
  {
    lo < hi &&
    var mid := (lo + hi) / 2;
    var c := cmp(key, a[mid]);
    if c == 0 then true
    else if c < 0 then Bsearch(cmp, a, key, lo, mid)
    else Bsearch(cmp, a, key, mid + 1, hi)
  }

  ghost predicate Occurs(a: seq<string>, key: string, lo: nat, hi: nat)
    requires lo <= hi <= |a|
  {
    exists k :: lo <= k < hi && a[k] == key
  }

  /** On a sorted array binary search decides membership. */
  lemma {:induction false} BsearchOccurs(cmp: (string, string) -> int, a: seq<string>, key: string, lo: nat, hi: nat)
    requires TotalOrder(cmp) && Sorted(cmp, a) && lo <= hi <= |a|
    ensures Bsearch(cmp, a, key, lo, hi) <==> Occurs(a, key, lo, hi)
    decreases hi - lo
  {
    if lo < hi {
      var mid := (lo + hi) / 2;
      var c := cmp(key, a[mid]);
      if c < 0 {
        BsearchOccurs(cmp, a, key, lo, mid);
        forall k | mid < k < hi ensures a[k] != key { SortedAt(cmp, a, mid, k); }
      } else if c > 0 {
        BsearchOccurs(cmp, a, key, mid + 1, hi);
        forall k | lo <= k < mid ensures a[k] != key { SortedAt(cmp, a, k, mid); }
      }
    }
  }

  lemma BsearchCorrect(cmp: (string, string) -> int, a: seq<string>, key: string)
    requires TotalOrder(cmp) && Sorted(cmp, a)
    ensures Bsearch(cmp, a, key, 0, |a|) <==> key in a
  {
    BsearchOccurs(cmp, a, key, 0, |a|);
  }

  // ----- arrays that are not sorted -----

  predicate Distinct(a: seq<string>) { forall i, j :: 0 <= i < j < |a| ==> a[i] != a[j] }

  predicate Ascending(cmp: (string, string) -> int, a: seq<string>, lo: nat, hi: nat)
    requires hi <= |a|
  {
    forall i, j :: lo <= i < j < hi ==> cmp(a[i], a[j]) < 0
  }

  /** What the search reports is there, sorted or not. */
  lemma {:induction false} BsearchSound(cmp: (string, string) -> int, a: seq<string>, key: string, lo: nat, hi: nat)
    requires TotalOrder(cmp) && lo <= hi <= |a| && Bsearch(cmp, a, key, lo, hi)
    ensures Occurs(a, key, lo, hi)
    decreases hi - lo
  {
    var mid := (lo + hi) / 2;
    var c := cmp(key, a[mid]);
    if c < 0 {
      BsearchSound(cmp, a, key, lo, mid);
    } else if c > 0 {
      BsearchSound(cmp, a, key, mid + 1, hi);
    }
  }

  /** The element at j lies on its side of every element that the search looks at before it. */
  predicate InPlace(cmp: (string, string) -> int, a: seq<string>, j: nat, lo: nat, hi: nat)
    requires lo <= j < hi <= |a|
    decreases hi - lo
  {
    var mid := (lo + hi) / 2;
    if j < mid then cmp(a[j], a[mid]) < 0 && InPlace(cmp, a, j, lo, mid)
    else if j > mid then cmp(a[j], a[mid]) > 0 && InPlace(cmp, a, j, mid + 1, hi)
    else true
  }

  ghost predicate Placed(cmp: (string, string) -> int, a: seq<string>, key: string, lo: nat, hi: nat)
    requires lo <= hi <= |a|
  {
    exists j :: lo <= j < hi && a[j] == key && InPlace(cmp, a, j, lo, hi)
  }

  /** On any array the search finds a key exactly when it occurs in place. */
  lemma {:induction false} BsearchExactly(cmp: (string, string) -> int, a: seq<string>, key: string, lo: nat, hi: nat)
    requires TotalOrder(cmp) && lo <= hi <= |a|
    ensures Bsearch(cmp, a, key, lo, hi) <==> Placed(cmp, a, key, lo, hi)
    decreases hi - lo
  {
    if lo < hi {
      var mid := (lo + hi) / 2;
      BsearchExactly(cmp, a, key, lo, mid);
      BsearchExactly(cmp, a, key, mid + 1, hi);
      if Bsearch(cmp, a, key, lo, hi) {
        var j := FoundAt(cmp, a, key, lo, hi);
        assert InPlace(cmp, a, j, lo, hi);
      }
      if Placed(cmp, a, key, lo, hi) {
        var j :| lo <= j < hi && a[j] == key && InPlace(cmp, a, j, lo, hi);
        assert j < mid ==> Placed(cmp, a, key, lo, mid);
        assert j > mid ==> Placed(cmp, a, key, mid + 1, hi);
      }
    }
  }

  /** Where a successful search ends, given where it ends in the two halves. */
  lemma FoundAt(cmp: (string, string) -> int, a: seq<string>, key: string, lo: nat, hi: nat) returns (j: nat)
    requires TotalOrder(cmp) && lo < hi <= |a| && Bsearch(cmp, a, key, lo, hi)
    requires var mid := (lo + hi) / 2;
             && (Bsearch(cmp, a, key, lo, mid) ==> Placed(cmp, a, key, lo, mid))
             && (Bsearch(cmp, a, key, mid + 1, hi) ==> Placed(cmp, a, key, mid + 1, hi))
    ensures lo <= j < hi && a[j] == key && InPlace(cmp, a, j, lo, hi)
  {
    var mid := (lo + hi) / 2;
    var c := cmp(key, a[mid]);
    if c == 0 {
      j := mid;
    } else if c < 0 {
      j :| lo <= j < mid && a[j] == key && InPlace(cmp, a, j, lo, mid);
    } else {
      j :| mid + 1 <= j < hi && a[j] == key && InPlace(cmp, a, j, mid + 1, hi);
    }
  }

  /** A search that finds every element goes left for those before the middle and right for those behind it. */
  lemma FoundOnItsSide(cmp: (string, string) -> int, a: seq<string>, lo: nat, hi: nat, k: nat)
    requires TotalOrder(cmp) && Distinct(a) && lo <= k < hi <= |a| && Bsearch(cmp, a, a[k], lo, hi)
    ensures var mid := (lo + hi) / 2;
            && (k < mid ==> cmp(a[k], a[mid]) < 0 && Bsearch(cmp, a, a[k], lo, mid))
            && (k > mid ==> cmp(a[k], a[mid]) > 0 && Bsearch(cmp, a, a[k], mid + 1, hi))
  {
    var mid := (lo + hi) / 2;
    var c := cmp(a[k], a[mid]);
    if k < mid && c > 0 {
      BsearchSound(cmp, a, a[k], mid + 1, hi);
    } else if k > mid && c < 0 {
      BsearchSound(cmp, a, a[k], lo, mid);
    }
  }

  /** If the search finds every element of an array without repeats, the array is ascending. */
  lemma {:induction false} FindsAllAscends(cmp: (string, string) -> int, a: seq<string>, lo: nat, hi: nat)
    requires TotalOrder(cmp) && Distinct(a) && lo <= hi <= |a|
    requires forall k :: lo <= k < hi ==> Bsearch(cmp, a, a[k], lo, hi)
    ensures Ascending(cmp, a, lo, hi)
    decreases hi - lo
  {
    if lo < hi {
      var mid := (lo + hi) / 2;
      forall k | lo <= k < hi
        ensures k < mid ==> cmp(a[k], a[mid]) < 0 && Bsearch(cmp, a, a[k], lo, mid)
        ensures k > mid ==> cmp(a[k], a[mid]) > 0 && Bsearch(cmp, a, a[k], mid + 1, hi)
      {
        FoundOnItsSide(cmp, a, lo, hi, k);
      }
      FindsAllAscends(cmp, a, lo, mid);
      FindsAllAscends(cmp, a, mid + 1, hi);
      JoinAscends(cmp, a, lo, mid, hi);
    }
  }

  lemma JoinAscends(cmp: (string, string) -> int, a: seq<string>, lo: nat, mid: nat, hi: nat)
    requires TotalOrder(cmp) && lo <= mid < hi <= |a| && Ascending(cmp, a, lo, mid) && Ascending(cmp, a, mid + 1, hi)
    requires forall k :: lo <= k < mid ==> cmp(a[k], a[mid]) < 0
    requires forall k :: mid < k < hi ==> cmp(a[k], a[mid]) > 0
    ensures Ascending(cmp, a, lo, hi)
  {
    forall i, j | lo <= i < j < hi ensures cmp(a[i], a[j]) < 0 {
      if i < mid < j {
        assert Transitive(cmp, a[i], a[mid], a[j]);
        assert Transitive(cmp, a[mid], a[j], a[i]);
      }
    }
  }

  lemma {:induction false} AscendingSorted(cmp: (string, string) -> int, a: seq<string>, i: nat)
    requires i <= |a| && Ascending(cmp, a, i, |a|)
    ensures Sorted(cmp, a[i..])
    decreases |a| - i
  {
    if i < |a| {
      assert a[i..][1..] == a[i + 1..];
      AscendingSorted(cmp, a, i + 1);
    }
  }

  /** Insertion sort and binary search are an instance of the assumptions on qsort and bsearch. */
  lemma SearchAssumptionsHold(lib: Lib)
    requires TotalOrder(lib.cmp)
    ensures ValidSearch(lib.(sort := a => Sort(lib.cmp, a), find := (a, key) => Bsearch(lib.cmp, a, key, 0, |a|)))
  {
    var cmp := lib.cmp;
    forall a ensures Sorted(cmp, Sort(cmp, a)) && multiset(Sort(cmp, a)) == multiset(a) {
      SortCorrect(cmp, a);
    }
    forall a, key | Sorted(cmp, a) ensures Bsearch(cmp, a, key, 0, |a|) <==> key in a {
      BsearchCorrect(cmp, a, key);
    }
  }
}
