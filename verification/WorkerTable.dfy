/** The table of worker instances of an action (runtime/action.c). */
module WorkerTable {

  /** A worker's private data; 0 is the null pointer. */
  type Worker = nat

  function Bit(b: bool): nat { if b then 1 else 0 }

  /** Slots in use among the first k. */
  function Used(table: seq<Worker>, k: nat): nat
    requires k <= |table|
  {
    if k == 0 then 0 else Used(table, k - 1) + Bit(table[k - 1] != 0)
  }

  function One(w: Worker): multiset<Worker> { if w != 0 then multiset{w} else multiset{} }

  /** The workers in the table, each as often as it is there. */
  function Live(table: seq<Worker>, k: nat): multiset<Worker>
    requires k <= |table|
  {
    if k == 0 then multiset{}
    else Live(table, k - 1) + One(table[k - 1])
  }

  lemma {:induction false} UsedCountsLive(table: seq<Worker>, k: nat)
    requires k <= |table|
    ensures |Live(table, k)| == Used(table, k) <= k
  {
    if k > 0 {
      UsedCountsLive(table, k - 1);
    }
  }

  /** A table is full exactly when no slot is free. */
  lemma {:induction false} FullMeansNoFree(table: seq<Worker>, k: nat)
    requires k <= |table|
    ensures Used(table, k) <= k
    ensures Used(table, k) == k <==> forall i :: 0 <= i < k ==> table[i] != 0
  {
    if k > 0 {
      FullMeansNoFree(table, k - 1);
    }
  }

  lemma {:induction false} Prefix(a: seq<Worker>, b: seq<Worker>, k: nat)
    requires k <= |a| && k <= |b| && forall i :: 0 <= i < k ==> a[i] == b[i]
    ensures Used(a, k) == Used(b, k) && Live(a, k) == Live(b, k)
  {
    if k > 0 {
      Prefix(a, b, k - 1);
    }
  }

  /** Writing one slot: the count. */
  lemma {:induction false} WriteUsed(table: seq<Worker>, i: nat, w: Worker, k: nat)
    requires i < k <= |table|
    ensures Used(table[i := w], k) + Bit(table[i] != 0) == Used(table, k) + Bit(w != 0)
  {
    if i == k - 1 {
      Prefix(table, table[i := w], k - 1);
    } else {
      WriteUsed(table, i, w, k - 1);
    }
  }

  /** Writing one slot: how often each worker is there. */
  lemma {:induction false} WriteCount(table: seq<Worker>, i: nat, w: Worker, k: nat, x: Worker)
    requires i < k <= |table|
    ensures Live(table[i := w], k)[x] + One(table[i])[x] == Live(table, k)[x] + One(w)[x]
  {
    if i == k - 1 {
      Prefix(table, table[i := w], k - 1);
    } else {
      WriteCount(table, i, w, k - 1, x);
    }
  }

  lemma Write(table: seq<Worker>, i: nat, w: Worker, k: nat)
    requires i < k <= |table|
    ensures Used(table[i := w], k) + Bit(table[i] != 0) == Used(table, k) + Bit(w != 0)
    ensures Live(table[i := w], k) + One(table[i]) == Live(table, k) + One(w)
  {
    WriteUsed(table, i, w, k);
    var a, b, c, d := Live(table[i := w], k), One(table[i]), Live(table, k), One(w);
    forall x ensures a[x] + b[x] == c[x] + d[x] {
      WriteCount(table, i, w, k, x);
    }
    SameCounts(a, b, c, d);
  }

  lemma SameCounts(a: multiset<Worker>, b: multiset<Worker>, c: multiset<Worker>, d: multiset<Worker>)
    requires forall x :: a[x] + b[x] == c[x] + d[x]
    ensures a + b == c + d
  {
    forall x ensures (a + b)[x] == (c + d)[x] {
      assert a[x] + b[x] == c[x] + d[x];
    }
  }

  /** The table with a new worker in the given slot, or in a slot of its own past the end. */
  function Placed(table: seq<Worker>, spot: nat, w: Worker): seq<Worker>
    requires spot <= |table|
  {
    if spot == |table| then table + [w] else table[spot := w]
  }

  lemma PlacedCounts(table: seq<Worker>, spot: nat, w: Worker)
    requires spot <= |table| && w != 0 && (spot < |table| ==> table[spot] == 0)
    ensures var now := Placed(table, spot, w);
            Used(now, |now|) == Used(table, |table|) + 1 && Live(now, |now|) == Live(table, |table|) + multiset{w}
  {
    if spot == |table| {
      Prefix(table, table + [w], |table|);
    } else {
      Write(table, spot, w, |table|);
    }
  }

  class Table {
    var slots: array<Worker>
    var nWrkr: int

    /** The count is the number of slots in use. */
    ghost predicate Valid()
      reads this, slots
    {
      nWrkr == Used(slots[..], slots.Length)
    }

    ghost function Workers(): multiset<Worker>
      reads this, slots
    {
      Live(slots[..], slots.Length)
    }

    constructor ()
      ensures Valid() && fresh(slots) && slots.Length == 0
    {
      slots := new Worker[0];
      nWrkr := 0;
    }

    /** realloc: one more slot, whose content is whatever the allocator leaves there. */
    method Grow(junk: Worker)
      modifies `slots
      ensures fresh(slots) && slots[..] == old(slots[..]) + [junk]
    {
      var bigger := new Worker[slots.Length + 1](_ => junk);
      for i := 0 to slots.Length
        invariant slots == old(slots) && slots[..] == old(slots[..])
        invariant bigger.Length == slots.Length + 1 && bigger[slots.Length] == junk
        invariant forall j :: 0 <= j < i ==> bigger[j] == slots[j]
      {
        bigger[i] := slots[i];
      }
      assert bigger[..] == slots[..] + [junk];
      slots := bigger;
    }

    /** The scan for a free slot in actionCheckAndCreateWrkrInstance. */
    method FreeSpot() returns (spot: nat)
      ensures spot <= slots.Length
      ensures forall i :: 0 <= i < spot ==> slots[i] != 0
      ensures spot < slots.Length ==> slots[spot] == 0
    {
      spot := 0;
      while spot < slots.Length
        invariant spot <= slots.Length && forall i :: 0 <= i < spot ==> slots[i] != 0
      {
        if slots[spot] == 0 { break; }
        spot := spot + 1;
      }
    }

    /**
     * actionCheckAndCreateWrkrInstance: the new worker goes into a slot of its own, in range, and the others stay
     * where they were; only a failed allocation leaves the table as it was.
     */
    method Register(w: Worker, allocOk: bool, junk: Worker) returns (ok: bool, ghost spot: nat)
      requires Valid() && w != 0
      modifies this, slots
      ensures Valid()
      ensures !ok ==> !allocOk && slots == old(slots) && slots[..] == old(slots[..])
      ensures ok ==> spot <= old(slots.Length) && slots[..] == Placed(old(slots[..]), spot, w)
      ensures ok && spot < old(slots.Length) ==> old(slots[spot]) == 0
      ensures ok ==> Workers() == old(Workers()) + multiset{w}
    {
      var free := FreeSpot();
      spot := free;
      ghost var was := slots[..];
      assert free == |was| <==> nWrkr == |was| by { FullMeansNoFree(was, |was|); }
      PlacedCounts(was, free, w);
      ok := true;
      if nWrkr == slots.Length {
        if allocOk {
          Grow(junk);
        } else {
          ok := false;
        }
      }
      if ok {
        slots[free] := w;
        assert slots[..] == Placed(was, free, w);
        nWrkr := nWrkr + 1;
      }
    }

    /** The scan of actionRemoveWorker; clears the first slot that holds the worker. */
    method ClearFirst(w: Worker) returns (ghost at: nat)
      modifies slots
      ensures at <= slots.Length
      ensures at == slots.Length <==> w !in old(slots[..])
      ensures at == slots.Length ==> slots[..] == old(slots[..])
      ensures at < slots.Length ==> old(slots[at]) == w && slots[..] == old(slots[..])[at := 0]
    {
      var i := 0;
      while i < slots.Length
        invariant i <= slots.Length && slots[..] == old(slots[..])
        invariant forall j :: 0 <= j < i ==> slots[j] != w
      {
        if slots[i] == w {
          slots[i] := 0;
          return i;
        }
        i := i + 1;
      }
      at := i;
    }

    /** actionRemoveWorker: keeps the count right exactly when the worker was registered. */
    method Remove(w: Worker)
      requires Valid()
      modifies `nWrkr, slots
      ensures Valid() <==> w != 0 && w in old(slots[..])
      ensures Valid() ==> old(Workers()) == Workers() + multiset{w}
      ensures nWrkr == old(nWrkr) - 1
    {
      ghost var was := slots[..];
      nWrkr := nWrkr - 1;
      ghost var at := ClearFirst(w);
      if at < slots.Length {
        Write(was, at, 0, |was|);
      }
    }
  }
}
