/** The counters of a dynamic statistics bucket: hash tables and doubly linked lists (runtime/dynstats.c). */
module Dynstats {
  import opened CounterSpec

  class Ctr {
    const metric: string
    var ctr: nat
    var next: Ctr?
    var prev: Ctr?

    constructor (metric: string)
      ensures this.metric == metric && ctr == 0 && next == null && prev == null
    {
      this.metric := metric;
      ctr := 0;
      next := null;
      prev := null;
    }
  }

  // ----- doubly linked lists -----

  function At(s: seq<Ctr>, i: int): Ctr? { if 0 <= i < |s| then s[i] else null }

  /** The list starting at head is the sequence, linked both ways. */
  ghost predicate Chain(head: Ctr?, s: seq<Ctr>)
    reads (set c | c in s)`next, (set c | c in s)`prev
  {
    && head == At(s, 0)
    && (forall i {:trigger s[i].next} :: 0 <= i < |s| ==> s[i].next == At(s, i + 1))
    && (forall i {:trigger s[i].prev} :: 0 <= i < |s| ==> s[i].prev == At(s, i - 1))
  }

  ghost predicate Distinct(s: seq<Ctr>) { forall i, j :: 0 <= i < j < |s| ==> s[i] != s[j] }

  function Without(s: seq<Ctr>, k: nat): seq<Ctr>
    requires k < |s|
  {
    s[..k] + s[k + 1..]
  }

  /** The list starting at head is the sequence without its k-th element. */
  ghost predicate SkipChain(head: Ctr?, s: seq<Ctr>, k: nat)
    requires k < |s|
    reads (set c | c in s)`next, (set c | c in s)`prev
  {
    && head == (if k == 0 then At(s, 1) else s[0])
    && (forall i {:trigger s[i].next} :: 0 <= i < |s| && i != k ==>
          s[i].next == (if i + 1 == k then At(s, k + 1) else At(s, i + 1)))
    && (forall i {:trigger s[i].prev} :: 0 <= i < |s| && i != k ==>
          s[i].prev == (if i - 1 == k then At(s, k - 1) else At(s, i - 1)))
  }

  lemma SkipIsWithout(head: Ctr?, s: seq<Ctr>, k: nat)
    requires k < |s| && SkipChain(head, s, k)
    ensures Chain(head, Without(s, k))
  {
    var t := Without(s, k);
    forall i | 0 <= i < |t|
      ensures t[i].next == At(t, i + 1) && t[i].prev == At(t, i - 1)
    {
      assert t[i] == s[if i < k then i else i + 1];
    }
  }

  // ----- tables against lists -----

  type Table = map<string, Ctr>

  /** Every counter of the list is in the table. */
  ghost predicate Listed(s: seq<Ctr>, t: Table) {
    forall i {:trigger s[i].metric} :: 0 <= i < |s| ==> s[i].metric in t && t[s[i].metric] == s[i]
  }

  /** Every entry of the table is a counter of the list. */
  ghost predicate Covered(t: Table, s: seq<Ctr>) {
    forall m {:trigger t[m].metric} :: m in t ==> t[m].metric == m && t[m] in s
  }

  /** No counter of the list is in the table. */
  ghost predicate Outside(s: seq<Ctr>, t: Table) {
    forall i {:trigger s[i].metric} :: 0 <= i < |s| ==> s[i].metric !in t
  }

  /** An entry of the survivor table is in the survivor list, or it was revived and is the live one. */
  ghost predicate Explained(st: Table, surv: seq<Ctr>, t: Table) {
    forall m {:trigger st[m].metric} :: m in st ==>
      st[m].metric == m && (st[m] in surv || (m in t && t[m] == st[m]))
  }

  ghost predicate DistinctMetrics(s: seq<Ctr>) {
    forall i, j {:trigger s[i].metric, s[j].metric} :: 0 <= i < j < |s| ==> s[i].metric != s[j].metric
  }

  ghost predicate Indexed(t: Table, st: Table, live: seq<Ctr>, surv: seq<Ctr>) {
    && Listed(live, t) && Covered(t, live) && DistinctMetrics(live)
    && Listed(surv, st) && Outside(surv, t) && DistinctMetrics(surv)
    && Explained(st, surv, t)
  }

  lemma MetricsTellApart(s: seq<Ctr>)
    requires DistinctMetrics(s)
    ensures Distinct(s)
  {
    forall i, j | 0 <= i < j < |s| ensures s[i] != s[j] {
      assert s[i].metric != s[j].metric;
    }
  }

  ghost predicate Disjoint(a: seq<Ctr>, b: seq<Ctr>) {
    forall i, j :: 0 <= i < |a| && 0 <= j < |b| ==> a[i] != b[j]
  }

  lemma Apart(t: Table, st: Table, live: seq<Ctr>, surv: seq<Ctr>)
    requires Indexed(t, st, live, surv)
    ensures Disjoint(live, surv)
  {
    forall i, j | 0 <= i < |live| && 0 <= j < |surv| ensures live[i] != surv[j] {
      assert live[i].metric in t && surv[j].metric !in t;
    }
  }

  lemma CreateIndexed(t: Table, st: Table, live: seq<Ctr>, surv: seq<Ctr>, c: Ctr)
    requires Indexed(t, st, live, surv) && c.metric !in t && c.metric !in st
    ensures Indexed(t[c.metric := c], st, [c] + live, surv)
  {
    PushListed(t, live, c);
    var t' := t[c.metric := c];
    forall i | 0 <= i < |surv| ensures surv[i].metric !in t' {
      assert surv[i].metric in st;
    }
  }

  lemma PushListed(t: Table, live: seq<Ctr>, c: Ctr)
    requires Listed(live, t) && Covered(t, live) && DistinctMetrics(live) && c.metric !in t
    ensures Listed([c] + live, t[c.metric := c])
    ensures Covered(t[c.metric := c], [c] + live)
    ensures DistinctMetrics([c] + live)
  {
    var t', live' := t[c.metric := c], [c] + live;
    forall i | 0 <= i < |live'| ensures live'[i].metric in t' && t'[live'[i].metric] == live'[i] {
      if i > 0 { assert live[i - 1].metric in t; }
    }
    forall m | m in t' ensures t'[m].metric == m && t'[m] in live' {
      if m != c.metric { assert t[m].metric == m; }
    }
    forall i, j | 0 <= i < j < |live'| ensures live'[i].metric != live'[j].metric {
      assert live[j - 1].metric in t;
      if i > 0 { assert live[i - 1].metric != live[j - 1].metric; }
    }
  }

  lemma DropListed(st: Table, surv: seq<Ctr>, k: nat)
    requires Listed(surv, st) && DistinctMetrics(surv) && k < |surv|
    ensures Listed(Without(surv, k), st) && DistinctMetrics(Without(surv, k))
    ensures forall i :: 0 <= i < |surv| - 1 ==> Without(surv, k)[i].metric != surv[k].metric
  {
    var surv' := Without(surv, k);
    forall i | 0 <= i < |surv'|
      ensures surv'[i] == surv[if i < k then i else i + 1] && surv'[i].metric != surv[k].metric
      ensures surv'[i].metric in st && st[surv'[i].metric] == surv'[i]
    {
      var j := if i < k then i else i + 1;
      assert surv[j].metric in st && surv[j].metric != surv[k].metric;
    }
  }

  lemma ReviveIndexed(t: Table, st: Table, live: seq<Ctr>, surv: seq<Ctr>, k: nat)
    requires Indexed(t, st, live, surv) && k < |surv|
    ensures Indexed(t[surv[k].metric := surv[k]], st, [surv[k]] + live, Without(surv, k))
  {
    var c := surv[k];
    var t', surv' := t[c.metric := c], Without(surv, k);
    assert c.metric !in t;
    PushListed(t, live, c);
    DropListed(st, surv, k);
    forall i | 0 <= i < |surv'| ensures surv'[i].metric !in t' {
      assert surv[if i < k then i else i + 1].metric !in t;
    }
    forall m | m in st ensures st[m].metric == m && (st[m] in surv' || (m in t' && t'[m] == st[m])) {
      assert st[m].metric == m;
      if m != c.metric && st[m] in surv {
        var j :| 0 <= j < |surv| && surv[j] == st[m];
        assert j != k;
        assert surv'[if j < k then j else j - 1] == st[m];
      }
    }
  }

  lemma ResetIndexed(t: Table, live: seq<Ctr>)
    requires Listed(live, t) && Covered(t, live) && DistinctMetrics(live)
    ensures Indexed(map[], t, [], live)
  {}

  // ----- counting metrics -----

  ghost function Metrics(s: seq<Ctr>): set<string> { set c | c in s :: c.metric }

  lemma {:induction false} CountMetrics(s: seq<Ctr>)
    requires DistinctMetrics(s)
    ensures |Metrics(s)| == |s|
  {
    if s != [] {
      var k := |s| - 1;
      CountMetrics(s[..k]);
      assert s[..k] + [s[k]] == s;
      assert Metrics(s) == Metrics(s[..k]) + {s[k].metric};
      forall i | 0 <= i < k ensures s[i].metric != s[k].metric {}
      assert s[k].metric !in Metrics(s[..k]);
    }
  }

  lemma AllDistinct(t: Table, st: Table, live: seq<Ctr>, surv: seq<Ctr>)
    requires Indexed(t, st, live, surv)
    ensures DistinctMetrics(live + surv)
  {
    var all := live + surv;
    forall i, j | 0 <= i < j < |all|
      ensures all[i].metric != all[j].metric
    {
      if j < |live| {
        assert live[i].metric != live[j].metric;
      } else if i >= |live| {
        assert surv[i - |live|].metric != surv[j - |live|].metric;
      } else {
        assert live[i].metric in t && surv[j - |live|].metric !in t;
      }
    }
  }

  lemma KnownMetrics(t: Table, st: Table, live: seq<Ctr>, surv: seq<Ctr>)
    requires Indexed(t, st, live, surv)
    ensures t.Keys + st.Keys == Metrics(live + surv)
  {
    var all := live + surv;
    forall m | m in t.Keys + st.Keys ensures m in Metrics(all) {
      var c := if m in t then t[m] else st[m];
      assert c.metric == m && c in all;
    }
    forall i | 0 <= i < |all| ensures all[i].metric in t.Keys + st.Keys {
      if i < |live| {
        assert live[i].metric in t;
      } else {
        assert surv[i - |live|].metric in st;
      }
    }
  }

  /** The tables know as many metrics as the lists have counters. */
  lemma CountKeys(t: Table, st: Table, live: seq<Ctr>, surv: seq<Ctr>)
    requires Indexed(t, st, live, surv)
    ensures |t.Keys + st.Keys| == |live| + |surv|
  {
    AllDistinct(t, st, live, surv);
    CountMetrics(live + surv);
    KnownMetrics(t, st, live, surv);
  }

  // ----- the bucket -----

  /** The abstract map reads the counters through the tables. */
  ghost predicate Represents(c: Counters, t: Table, st: Table)
    reads t.Values`ctr, st.Values`ctr
  {
    && (forall m :: m in c <==> m in t || m in st)
    && (forall m :: m in t ==> m in c && c[m] == Live(t[m].ctr))
    && (forall m :: m in st && m !in t ==> m in c && c[m] == Survivor(st[m].ctr))
  }

  /** The same, with one metric left open. */
  ghost predicate RepresentsBut(c: Counters, t: Table, st: Table, x: string)
    reads t.Values`ctr, st.Values`ctr
  {
    && (forall m :: m != x ==> (m in c <==> m in t || m in st))
    && (forall m :: m in t && m != x ==> m in c && c[m] == Live(t[m].ctr))
    && (forall m :: m in st && m !in t && m != x ==> m in c && c[m] == Survivor(st[m].ctr))
  }

  /** Counters are stored under their own metric. */
  ghost predicate Keyed(t: Table) { forall m :: m in t ==> t[m].metric == m }

  lemma KeysAre(c: Counters, t: Table, st: Table)
    requires Represents(c, t, st)
    ensures c.Keys == t.Keys + st.Keys
  {}

  lemma Insert(c: Counters, t: Table, st: Table, x: Ctr)
    requires Represents(c, t, st) && x.metric !in t
    ensures RepresentsBut(c, t[x.metric := x], st, x.metric)
    ensures t[x.metric := x] - {x.metric} == t
  {}

  lemma ResetRepresents(c: Counters, t: Table, st: Table)
    requires Represents(c, t, st)
    ensures Represents(Reset(c), map[], t)
  {}

  class Bucket {
    const maxCardinality: nat
    var table: Table
    var survivorTable: Table
    var ctrs: Ctr?
    var survivorCtrs: Ctr?
    var metricCount: int
    ghost var live: seq<Ctr>
    ghost var surv: seq<Ctr>
    /** What the bucket stands for. */
    ghost var contents: Counters

    ghost predicate Valid()
      reads this, live, surv, table.Values, survivorTable.Values
    {
      && Chain(ctrs, live) && Chain(survivorCtrs, surv)
      && Indexed(table, survivorTable, live, surv)
      && Represents(contents, table, survivorTable)
      && metricCount == |live| + |surv| <= maxCardinality
    }

    lemma Sizes()
      requires Valid()
      ensures |contents| == metricCount
    {
      CountKeys(table, survivorTable, live, surv);
      KeysAre(contents, table, survivorTable);
    }

    constructor (max: nat)
      ensures Valid() && contents == map[] && maxCardinality == max
    {
      maxCardinality := max;
      table, survivorTable := map[], map[];
      ctrs, survivorCtrs := null, null;
      metricCount := 0;
      live, surv, contents := [], [], map[];
    }

    // ----- list surgery -----

    /** Takes a counter out of the survivor list; its own links stay. */
    method Unlink(c: Ctr, ghost k: nat)
      requires Chain(survivorCtrs, surv) && Distinct(surv) && k < |surv| && surv[k] == c
      requires Chain(ctrs, live) && Disjoint(live, surv)
      modifies `survivorCtrs, (set x | x in surv)`next, (set x | x in surv)`prev
      ensures SkipChain(survivorCtrs, surv, k) && Chain(ctrs, live)
      ensures c.next == At(surv, k + 1) && c.prev == At(surv, k - 1)
    {
      if c.prev != null { c.prev.next := c.next; }
      if c.next != null { c.next.prev := c.prev; }
      if c == survivorCtrs { survivorCtrs := c.next; }
    }

    /** Puts it back. */
    method Relink(c: Ctr, ghost k: nat)
      requires k < |surv| && surv[k] == c && Distinct(surv) && SkipChain(survivorCtrs, surv, k)
      requires c.next == At(surv, k + 1) && c.prev == At(surv, k - 1)
      requires Chain(ctrs, live) && Disjoint(live, surv)
      modifies `survivorCtrs, (set x | x in surv)`next, (set x | x in surv)`prev
      ensures Chain(survivorCtrs, surv) && Chain(ctrs, live)
    {
      if c.prev != null { c.prev.next := c; }
      if c.next != null { c.next.prev := c; }
      if survivorCtrs == c.next { survivorCtrs := c; }
    }

    /** Puts a counter at the head of the live list. */
    method PushLive(c: Ctr)
      requires Chain(ctrs, live) && Distinct(live) && c !in live
      requires Chain(survivorCtrs, surv) && c !in surv && Disjoint(live, surv)
      modifies `ctrs, `live, c`next, c`prev, (set x | x in live)`prev
      ensures live == [c] + old(live) && Chain(ctrs, live) && Chain(survivorCtrs, surv)
    {
      if ctrs != null { ctrs.prev := c; }
      c.prev := null;
      c.next := ctrs;
      ctrs := c;
      live := [c] + live;
      assert forall i :: 0 < i < |live| ==> live[i] == old(live)[i - 1];
    }

    // ----- reset -----

    /** The walk of dynstats_destroyCountersIn. */
    method CountList(head: Ctr?, ghost s: seq<Ctr>) returns (n: nat)
      requires Chain(head, s)
      ensures n == |s|
    {
      var c := head;
      n := 0;
      while c != null
        invariant n <= |s| && c == At(s, n)
        decreases |s| - n
      {
        c := c.next;
        n := n + 1;
      }
    }

    /** The live generation becomes the surviving one. */
    method AgeGeneration(purged: nat, ghost aged: Counters)
      requires Chain(ctrs, live) && Indexed(map[], table, [], live) && Represents(aged, map[], table)
      requires metricCount - purged == |live| <= maxCardinality
      modifies this
      ensures Valid() && contents == aged
      ensures live == [] && surv == old(live) && table == map[] && survivorTable == old(table)
    {
      metricCount := metricCount - purged;
      survivorTable := table;
      survivorCtrs := ctrs;
      table := map[];
      ctrs := null;
      live, surv, contents := [], live, aged;
    }

    /** dynstats_resetBucket with dynstats_rebuildSurvivorTable; no list or table refers to a freed counter. */
    method Reset()
      requires Valid()
      modifies this
      ensures Valid() && contents == CounterSpec.Reset(old(contents))
      ensures live == [] && surv == old(live) && table == map[] && survivorTable == old(table)
      ensures Disjoint(surv, old(surv)) && metricCount == old(metricCount) - |old(surv)|
    {
      Apart(table, survivorTable, live, surv);
      ResetIndexed(table, live);
      ResetRepresents(contents, table, survivorTable);
      var purged := CountList(survivorCtrs, surv);
      AgeGeneration(purged, CounterSpec.Reset(contents));
    }

    // ----- increment -----

    /** Adds to a counter of the live table. */
    method AddValue(c: Ctr, amount: nat, ghost target: Counters)
      requires target == contents[c.metric := Live(c.ctr + amount)]
      requires c.metric in table && table[c.metric] == c && Keyed(table) && Keyed(survivorTable)
      requires RepresentsBut(contents, table, survivorTable, c.metric)
      modifies c`ctr, `contents
      ensures Represents(contents, table, survivorTable)
      ensures c.ctr == old(c.ctr) + amount && contents == target
    {
      c.ctr := c.ctr + amount;
      contents := target;
    }

    /** A metric the live table knows. */
    method Bump(c: Ctr, amount: nat)
      requires Valid() && c.metric in table && table[c.metric] == c
      modifies c`ctr, `contents
      ensures Valid() && contents == Bumped(old(contents), c.metric, amount)
    {
      AddValue(c, amount, Bumped(contents, c.metric, amount));
    }

    /** A counter that just joined the live list gets its first value. */
    method Finish(c: Ctr, isNew: bool, amount: nat, ghost target: Counters)
      requires target == contents[c.metric := Live(c.ctr + amount)]
      requires Chain(ctrs, live) && Chain(survivorCtrs, surv)
      requires Indexed(table, survivorTable, live, surv)
      requires c.metric in table && table[c.metric] == c
      requires RepresentsBut(contents, table, survivorTable, c.metric)
      requires |live| + |surv| == metricCount + (if isNew then 1 else 0) <= maxCardinality
      modifies `contents, `metricCount, c`ctr
      ensures Valid() && contents == target
    {
      if isNew { metricCount := metricCount + 1; }
      AddValue(c, amount, target);
    }

    /** The tail of dynstats_addNewCtr: a counter already in the live table joins the live list. */
    method Adopt(c: Ctr, isNew: bool, amount: nat, ghost target: Counters)
      requires target == contents[c.metric := Live(c.ctr + amount)]
      requires Chain(ctrs, live) && Chain(survivorCtrs, surv)
      requires Distinct(live) && Disjoint(live, surv) && c !in live && c !in surv
      requires Indexed(table, survivorTable, [c] + live, surv)
      requires c.metric in table && table[c.metric] == c
      requires RepresentsBut(contents, table, survivorTable, c.metric)
      requires |live| + 1 + |surv| == metricCount + (if isNew then 1 else 0) <= maxCardinality
      modifies `ctrs, `live, `contents, `metricCount, c, (set x | x in live)`prev
      ensures Valid() && live == [c] + old(live) && contents == target
    {
      PushLive(c);
      Finish(c, isNew, amount, target);
    }

    /** Everything Adopt needs once the counter is in the live table. */
    ghost predicate Adoptable(c: Ctr, t: Table, survivors: seq<Ctr>)
      reads *
    {
      && Chain(ctrs, live)
      && Distinct(live) && Disjoint(live, survivors) && c !in live && c !in survivors
      && Indexed(t, survivorTable, [c] + live, survivors)
      && c.metric in t && t[c.metric] == c
      && RepresentsBut(contents, t, survivorTable, c.metric)
    }

    lemma NewIsAdoptable(c: Ctr)
      requires Valid() && c !in live && c !in surv && c.metric !in table && c.metric !in survivorTable
      ensures Adoptable(c, table[c.metric := c], surv)
    {
      MetricsTellApart(live);
      Apart(table, survivorTable, live, surv);
      CreateIndexed(table, survivorTable, live, surv, c);
      Insert(contents, table, survivorTable, c);
    }

    lemma SurvivorIsAdoptable(k: nat)
      requires Valid() && k < |surv|
      ensures surv[k].metric !in table
      ensures Adoptable(surv[k], table[surv[k].metric := surv[k]], Without(surv, k))
    {
      var c := surv[k];
      assert c.metric !in table;
      MetricsTellApart(live);
      MetricsTellApart(surv);
      Apart(table, survivorTable, live, surv);
      ReviveIndexed(table, survivorTable, live, surv, k);
      Insert(contents, table, survivorTable, c);
      assert forall i :: 0 <= i < |Without(surv, k)| ==> Without(surv, k)[i] == surv[if i < k then i else i + 1];
    }

    /** A metric neither table knows; a refused statistics counter undoes the insert. */
    method Create(metric: string, amount: nat, addOk: bool) returns (ok: bool)
      requires Valid() && metric !in table && metric !in survivorTable && metricCount < maxCardinality
      modifies this, (set x | x in live)`prev
      ensures Valid() && ok == addOk
      ensures ok ==> contents == Bumped(old(contents), metric, amount)
      ensures !ok ==> Same(old(table), old(survivorTable), old(ctrs), old(live), old(surv), old(contents))
    {
      ghost var target := Bumped(contents, metric, amount);
      var c := new Ctr(metric);
      NewIsAdoptable(c);
      Insert(contents, table, survivorTable, c);
      table := table[metric := c];
      if addOk {
        Adopt(c, true, amount, target);
      } else {
        table := table - {metric};
      }
      ok := addOk;
    }

    /** The fields are as given. */
    ghost predicate Same(t: Table, st: Table, head: Ctr?, l: seq<Ctr>, s: seq<Ctr>, c: Counters)
      reads this
    {
      table == t && survivorTable == st && ctrs == head && live == l && surv == s && contents == c
    }

    /** The survivor is out of its list and in the live table. */
    ghost predicate Detached(c: Ctr, k: nat)
      requires k < |surv|
      reads *
    {
      && surv[k] == c && SkipChain(survivorCtrs, surv, k)
      && c.next == At(surv, k + 1) && c.prev == At(surv, k - 1)
      && c.metric in table && table[c.metric] == c
    }

    method Detach(c: Ctr, ghost k: nat)
      requires Chain(survivorCtrs, surv) && Distinct(surv) && k < |surv| && surv[k] == c
      requires Chain(ctrs, live) && Disjoint(live, surv)
      requires Adoptable(c, table[c.metric := c], Without(surv, k))
      modifies `survivorCtrs, `table, (set x | x in surv)`next, (set x | x in surv)`prev
      ensures Detached(c, k) && Chain(ctrs, live) && table == old(table)[c.metric := c]
      ensures Adoptable(c, table, Without(surv, k)) && c.ctr == old(c.ctr)
    {
      Unlink(c, k);
      table := table[c.metric := c];
    }

    method Reattach(c: Ctr, ghost k: nat, ghost t: Table)
      requires k < |surv| && Detached(c, k) && Chain(ctrs, live) && Distinct(surv) && Disjoint(live, surv)
      requires table - {c.metric} == t && Indexed(t, survivorTable, live, surv)
      requires Represents(contents, t, survivorTable) && metricCount == |live| + |surv| <= maxCardinality
      modifies `survivorCtrs, `table, (set x | x in surv)`next, (set x | x in surv)`prev
      ensures Valid() && table == t
    {
      table := table - {c.metric};
      Relink(c, k);
    }

    method Transfer(c: Ctr, ghost k: nat, amount: nat, ghost target: Counters)
      requires target == contents[c.metric := Live(c.ctr + amount)]
      requires k < |surv| && Detached(c, k) && Adoptable(c, table, Without(surv, k))
      requires metricCount == |live| + |surv| <= maxCardinality
      modifies `ctrs, `live, `surv, `contents, `metricCount, c, (set x | x in live)`prev
      ensures Valid() && contents == target
    {
      SkipIsWithout(survivorCtrs, surv, k);
      surv := Without(surv, k);
      Adopt(c, false, amount, target);
    }

    /** What the revival of a survivor relies on. */
    ghost predicate Revivable(c: Ctr, k: nat)
      reads *
    {
      && k < |surv| && surv[k] == c && Distinct(surv) && Disjoint(live, surv)
      && table[c.metric := c] - {c.metric} == table
      && Adoptable(c, table[c.metric := c], Without(surv, k))
    }

    lemma SurvivorAt(m: string) returns (k: nat)
      requires Valid() && m !in table && m in survivorTable
      ensures Revivable(survivorTable[m], k) && surv[k].metric == m
      ensures Value(contents, m) == surv[k].ctr
    {
      var c := survivorTable[m];
      assert c.metric == m && c in surv;
      k :| 0 <= k < |surv| && surv[k] == c;
      SurvivorIsAdoptable(k);
      Insert(contents, table, survivorTable, c);
      MetricsTellApart(surv);
      Apart(table, survivorTable, live, surv);
    }

    /** A metric only the survivor table knows; a refused statistics counter undoes insert and unlink. */
    method Revive(metric: string, amount: nat, addOk: bool) returns (ok: bool)
      requires Valid() && metric !in table && metric in survivorTable
      modifies this, live, surv
      ensures Valid() && ok == addOk
      ensures ok ==> contents == Bumped(old(contents), metric, amount)
      ensures !ok ==> Same(old(table), old(survivorTable), old(ctrs), old(live), old(surv), old(contents))
      ensures !ok ==> survivorCtrs == old(survivorCtrs)
                      && forall i :: 0 <= i < |surv| ==> unchanged(surv[i])
    {
      var c := survivorTable[metric];
      ghost var k := SurvivorAt(metric);
      ghost var t, target := table, Bumped(contents, metric, amount);
      Detach(c, k);
      if addOk {
        Transfer(c, k, amount, target);
      } else {
        Reattach(c, k, t);
      }
      ok := addOk;
    }

    /** dynstats_addNewCtr, with allocations that succeed; `addOk` is the outcome of AddPreCreatedCtr. */
    method AddNewCtr(metric: string, doInc: bool, offset: nat, addOk: bool) returns (ok: bool)
      requires Valid()
      modifies this, live, surv
      ensures Valid()
      ensures ok <==> old(metricCount) < maxCardinality && (metric in old(table) || addOk)
      ensures ok ==> contents == Bumped(old(contents), metric,
                                        (if doInc then 1 else 0) + (if metric in old(table) then 0 else offset))
      ensures !ok ==> Same(old(table), old(survivorTable), old(ctrs), old(live), old(surv), old(contents))
    {
      var amount := if doInc then 1 else 0;
      if metricCount >= maxCardinality {
        ok := false;
      } else if metric in table {
        assert table[metric].metric == metric;
        Bump(table[metric], amount);
        ok := true;
      } else if metric in survivorTable {
        ok := Revive(metric, amount + offset, addOk);
      } else {
        ok := Create(metric, amount + offset, addOk);
      }
    }

    lemma LiveIsInTable(m: string)
      requires Valid()
      ensures m in table <==> m in contents && contents[m].Live?
      ensures Refused(contents, m, maxCardinality) <==> m !in table && metricCount >= maxCardinality
    {
      Sizes();
    }

    /**
     * dynstats_inc without persistence. `lockFree` is the outcome of the lock attempt. An increment is refused
     * exactly when the abstract map refuses it or AddPreCreatedCtr failed; refused or ignored, it changes nothing.
     */
    method Inc(metric: string, gather: bool, lockFree: bool, addOk: bool) returns (ret: IncResult)
      requires Valid()
      modifies this, live, surv
      ensures Valid()
      ensures ret == IncIgnored <==> gather && metric != "" && !lockFree
      ensures ret == IncOverflow <==>
                gather && metric != "" && lockFree
                && (Refused(old(contents), metric, maxCardinality) || (!addOk && metric !in old(table)))
      ensures contents == if gather && metric != "" && ret == IncOk then Bumped(old(contents), metric, 1) else old(contents)
      ensures gather && lockFree && addOk ==> contents == Step(old(contents), Op.Inc(metric), maxCardinality)
    {
      ret := IncOk;
      if gather && metric != "" {
        LiveIsInTable(metric);
        if !lockFree {
          ret := IncIgnored;
        } else if metric in table {
          assert table[metric].metric == metric;
          Bump(table[metric], 1);
        } else {
          var ok := AddNewCtr(metric, true, 0, addOk);
          if !ok { ret := IncOverflow; }
        }
      }
    }
  }

  datatype IncResult = IncOk | IncIgnored | IncOverflow
}
