/** The variable cache of an else-if chain: slot assignment (grammar/rainerscript.c:
    collect_if_cache_vars, assign_if_cache_slots, cnfstmt_optimize_if_cache) and the cached
    evaluation of the chain (evalVar; runtime/ruleset.c: execIf). */
module SelectorCache {
  import opened Values
  import opened PriMask
  import opened Script
  import MessageProps

  const USHRT_MAX: nat := 65535

  /** A property read in the chain, and how often; the counter is an unsigned short. */
  datatype Use = Use(prop: Prop, count: nat)

  function CountUse(prop: Prop, uses: seq<Use>): seq<Use> {
    if uses == [] then [Use(prop, 1)]
    else if SameProp(uses[0].prop, prop) then [uses[0].(count := (uses[0].count + 1) % (USHRT_MAX + 1))] + uses[1..]
    else [uses[0]] + CountUse(prop, uses[1..])
  }

  /** collect_if_cache_vars. */
  function Collect(e: Expr, uses: seq<Use>): seq<Use>
    decreases e, 1
  {
    match e
    case Var(_, prop, _) => CountUse(prop, uses)
    case Func(_, args) => CollectAll(args, uses)
    case Neg(r) => Collect(r, uses)
    case Not(r) => Collect(r, uses)
    case And(l, r) => Collect(r, Collect(l, uses))
    case Or(l, r) => Collect(r, Collect(l, uses))
    case Cmp(_, l, r) => Collect(r, Collect(l, uses))
    case Text(_, l, r) => Collect(r, Collect(l, uses))
    case Arith(_, l, r) => Collect(r, Collect(l, uses))
    case Concat(l, r) => Collect(r, Collect(l, uses))
    case _ => uses
  }

  function CollectAll(es: seq<Expr>, uses: seq<Use>): seq<Use>
    decreases es, 0
  {
    if es == [] then uses else CollectAll(es[1..], Collect(es[0], uses))
  }

  /** The properties that get a slot, in slot order. */
  function Owners(uses: seq<Use>): (o: seq<Prop>)
    ensures |o| <= |uses| && |o| <= USHRT_MAX
  {
    if uses == [] then []
    else
      var last := uses[|uses| - 1];
      var o := Owners(uses[..|uses| - 1]);
      if last.count >= 2 && |o| < USHRT_MAX then o + [last.prop] else o
  }

  /** The slot of the i-th use; -1 stands for none. */
  function SlotOf(uses: seq<Use>, i: nat): int
    requires i < |uses|
  {
    var before := |Owners(uses[..i])|;
    if uses[i].count >= 2 && before < USHRT_MAX then before else -1
  }

  /** The slot loop of cnfstmt_optimize_if_cache. */
  method AssignSlots(uses: seq<Use>) returns (slots: seq<int>, cacheSlots: nat)
    ensures |slots| == |uses| && forall i :: 0 <= i < |uses| ==> slots[i] == SlotOf(uses, i)
    ensures cacheSlots == |Owners(uses)|
  {
    slots, cacheSlots := [], 0;
    var i := 0;
    while i < |uses|
      invariant i == |slots| <= |uses|
      invariant forall k :: 0 <= k < i ==> slots[k] == SlotOf(uses, k)
      invariant cacheSlots == |Owners(uses[..i])|
    {
      assert uses[..i + 1][..i] == uses[..i];
      if uses[i].count >= 2 && cacheSlots < USHRT_MAX {
        slots := slots + [cacheSlots];
        cacheSlots := cacheSlots + 1;
      } else {
        slots := slots + [-1];
      }
      i := i + 1;
    }
    assert uses[..i] == uses;
  }

  /** The search loop of assign_if_cache_slots. */
  function FindSlot(uses: seq<Use>, prop: Prop, i: nat): int
    requires i <= |uses|
    decreases |uses| - i
  {
    if i == |uses| then -1
    else if SlotOf(uses, i) >= 0 && SameProp(uses[i].prop, prop) then SlotOf(uses, i)
    else FindSlot(uses, prop, i + 1)
  }

  /** assign_if_cache_slots. Collecting has reset every slot to -1 before. */
  function Assign(e: Expr, uses: seq<Use>): Expr
    decreases e, 1
  {
    match e
    case Var(name, prop, _) => Var(name, prop, FindSlot(uses, prop, 0))
    case Func(f, args) => Func(f, AssignAll(args, uses))
    case Neg(r) => Neg(Assign(r, uses))
    case Not(r) => Not(Assign(r, uses))
    case And(l, r) => And(Assign(l, uses), Assign(r, uses))
    case Or(l, r) => Or(Assign(l, uses), Assign(r, uses))
    case Cmp(op, l, r) => Cmp(op, Assign(l, uses), Assign(r, uses))
    case Text(op, l, r) => Text(op, Assign(l, uses), Assign(r, uses))
    case Arith(op, l, r) => Arith(op, Assign(l, uses), Assign(r, uses))
    case Concat(l, r) => Concat(Assign(l, uses), Assign(r, uses))
    case _ => e
  }

  function AssignAll(es: seq<Expr>, uses: seq<Use>): (r: seq<Expr>)
    ensures |r| == |es|
    decreases es, 0
  {
    if es == [] then [] else [Assign(es[0], uses)] + AssignAll(es[1..], uses)
  }

  /** The conditions of a chain after cnfstmt_optimize_if_cache. */
  function SlottedChain(conds: seq<Expr>): seq<Expr> { AssignAll(conds, CollectAll(conds, [])) }

  function CacheSlots(conds: seq<Expr>): nat { |Owners(CollectAll(conds, []))| }

  // ----- what the slots mean -----

  /** No two entries stand for the same property. */
  ghost predicate Distinct(uses: seq<Use>) {
    forall i, j :: 0 <= i < j < |uses| ==> !SameProp(uses[i].prop, uses[j].prop)
  }

  ghost predicate Lists(uses: seq<Use>, prop: Prop) {
    exists i :: 0 <= i < |uses| && SameProp(uses[i].prop, prop)
  }

  lemma {:induction false} CountUseKeeps(prop: Prop, uses: seq<Use>)
    requires Distinct(uses)
    ensures Distinct(CountUse(prop, uses))
    ensures |uses| <= |CountUse(prop, uses)|
    ensures forall i :: 0 <= i < |uses| ==> CountUse(prop, uses)[i].prop == uses[i].prop
    ensures |CountUse(prop, uses)| > |uses| ==>
              |CountUse(prop, uses)| == |uses| + 1 && CountUse(prop, uses)[|uses|].prop == prop && !Lists(uses, prop)
  {
    if uses == [] {
      assert CountUse(prop, uses)[0] == Use(prop, 1);
    } else if !SameProp(uses[0].prop, prop) {
      var tail := uses[1..];
      CountUseKeeps(prop, tail);
      assert forall i :: 1 <= i < |uses| ==> uses[i] == tail[i - 1];
    }
  }

  lemma {:induction false} CollectDistinct(e: Expr, uses: seq<Use>)
    requires Distinct(uses)
    ensures Distinct(Collect(e, uses))
    decreases e, 1
  {
    match e
    case Var(_, prop, _) => CountUseKeeps(prop, uses);
    case Func(_, args) => CollectAllDistinct(args, uses);
    case Neg(r) => CollectDistinct(r, uses);
    case Not(r) => CollectDistinct(r, uses);
    case And(l, r) => CollectDistinct(l, uses); CollectDistinct(r, Collect(l, uses));
    case Or(l, r) => CollectDistinct(l, uses); CollectDistinct(r, Collect(l, uses));
    case Cmp(_, l, r) => CollectDistinct(l, uses); CollectDistinct(r, Collect(l, uses));
    case Text(_, l, r) => CollectDistinct(l, uses); CollectDistinct(r, Collect(l, uses));
    case Arith(_, l, r) => CollectDistinct(l, uses); CollectDistinct(r, Collect(l, uses));
    case Concat(l, r) => CollectDistinct(l, uses); CollectDistinct(r, Collect(l, uses));
    case _ =>
  }

  lemma {:induction false} CollectAllDistinct(es: seq<Expr>, uses: seq<Use>)
    requires Distinct(uses)
    ensures Distinct(CollectAll(es, uses))
    decreases es, 0
  {
    if es != [] {
      CollectDistinct(es[0], uses);
      CollectAllDistinct(es[1..], Collect(es[0], uses));
    }
  }

  /** Every owner is the property of a use with that slot, and every slot has that owner. */
  lemma {:induction false} SlotOwner(uses: seq<Use>, i: nat)
    requires i < |uses| && SlotOf(uses, i) >= 0
    ensures SlotOf(uses, i) < |Owners(uses)| && Owners(uses)[SlotOf(uses, i)] == uses[i].prop
  {
    assert uses[..i + 1][..i] == uses[..i];
    assert Owners(uses[..i + 1]) == Owners(uses[..i]) + [uses[i].prop];
    OwnersPrefix(uses, i + 1);
  }

  lemma {:induction false} OwnersPrefix(uses: seq<Use>, i: nat)
    requires i <= |uses|
    ensures Owners(uses[..i]) <= Owners(uses)
  {
    if i == |uses| {
      assert uses[..i] == uses;
    } else {
      OwnersPrefix(uses[..|uses| - 1], i);
      assert uses[..|uses| - 1][..i] == uses[..i];
    }
  }

  lemma {:induction false} OwnerSlot(uses: seq<Use>, s: nat) returns (i: nat)
    requires s < |Owners(uses)|
    ensures i < |uses| && SlotOf(uses, i) == s && Owners(uses)[s] == uses[i].prop
  {
    var k := |uses| - 1;
    var o := Owners(uses[..k]);
    if s < |o| {
      i := OwnerSlot(uses[..k], s);
      assert uses[..k][..i] == uses[..i];
      SlotOwner(uses, i);
    } else {
      i := k;
    }
  }

  lemma {:induction false} FindSlotOwner(uses: seq<Use>, prop: Prop, i: nat)
    requires i <= |uses|
    ensures var s := FindSlot(uses, prop, i);
            && (s >= 0 ==> s < |Owners(uses)| && SameProp(Owners(uses)[s], prop))
            && (s < 0 ==> s == -1 && forall k :: i <= k < |uses| && SlotOf(uses, k) >= 0 ==> !SameProp(uses[k].prop, prop))
    decreases |uses| - i
  {
    if i < |uses| {
      if SlotOf(uses, i) >= 0 && SameProp(uses[i].prop, prop) {
        SlotOwner(uses, i);
      } else {
        FindSlotOwner(uses, prop, i + 1);
      }
    }
  }

  /** Distinct uses give distinct owners. */
  lemma OwnersDistinct(uses: seq<Use>, s: nat, t: nat)
    requires Distinct(uses) && s < t < |Owners(uses)|
    ensures !SameProp(Owners(uses)[s], Owners(uses)[t])
  {
    var i := OwnerSlot(uses, s);
    var j := OwnerSlot(uses, t);
    assert i != j;
  }

  /** A variable has the slot of its property, and none if its property owns no slot. */
  predicate SlotFits(prop: Prop, slot: int, owners: seq<Prop>) {
    if 0 <= slot < |owners| then SameProp(owners[slot], prop)
    else slot == -1 && forall s :: 0 <= s < |owners| ==> !SameProp(owners[s], prop)
  }

  ghost predicate WellSlotted(e: Expr, owners: seq<Prop>) {
    match e
    case Var(_, prop, slot) => SlotFits(prop, slot, owners)
    case Func(_, args) => forall a :: a in args ==> WellSlotted(a, owners)
    case Neg(r) => WellSlotted(r, owners)
    case Not(r) => WellSlotted(r, owners)
    case And(l, r) => WellSlotted(l, owners) && WellSlotted(r, owners)
    case Or(l, r) => WellSlotted(l, owners) && WellSlotted(r, owners)
    case Cmp(_, l, r) => WellSlotted(l, owners) && WellSlotted(r, owners)
    case Text(_, l, r) => WellSlotted(l, owners) && WellSlotted(r, owners)
    case Arith(_, l, r) => WellSlotted(l, owners) && WellSlotted(r, owners)
    case Concat(l, r) => WellSlotted(l, owners) && WellSlotted(r, owners)
    case _ => true
  }

  lemma FindSlotFits(uses: seq<Use>, prop: Prop)
    ensures SlotFits(prop, FindSlot(uses, prop, 0), Owners(uses))
  {
    FindSlotOwner(uses, prop, 0);
    if FindSlot(uses, prop, 0) < 0 {
      forall s | 0 <= s < |Owners(uses)| ensures !SameProp(Owners(uses)[s], prop) {
        var i := OwnerSlot(uses, s);
      }
    }
  }

  lemma {:induction false} AssignWellSlotted(e: Expr, uses: seq<Use>)
    ensures WellSlotted(Assign(e, uses), Owners(uses))
    decreases e, 1
  {
    match e
    case Var(_, prop, _) => FindSlotFits(uses, prop);
    case Func(_, args) => AssignAllWellSlotted(args, uses);
    case Neg(r) => AssignWellSlotted(r, uses);
    case Not(r) => AssignWellSlotted(r, uses);
    case And(l, r) => AssignWellSlotted(l, uses); AssignWellSlotted(r, uses);
    case Or(l, r) => AssignWellSlotted(l, uses); AssignWellSlotted(r, uses);
    case Cmp(_, l, r) => AssignWellSlotted(l, uses); AssignWellSlotted(r, uses);
    case Text(_, l, r) => AssignWellSlotted(l, uses); AssignWellSlotted(r, uses);
    case Arith(_, l, r) => AssignWellSlotted(l, uses); AssignWellSlotted(r, uses);
    case Concat(l, r) => AssignWellSlotted(l, uses); AssignWellSlotted(r, uses);
    case _ =>
  }

  lemma {:induction false} AssignAllWellSlotted(es: seq<Expr>, uses: seq<Use>)
    ensures forall a :: a in AssignAll(es, uses) ==> WellSlotted(a, Owners(uses))
    decreases es, 0
  {
    if es != [] {
      AssignWellSlotted(es[0], uses);
      AssignAllWellSlotted(es[1..], uses);
    }
  }

  /** Slots share exactly: two variables of a chain with slots have the same slot if and only if
      they read the same from every message, and every slot lies below cache_slots. */
  lemma SlotsShareExactly(conds: seq<Expr>, p: Prop, q: Prop)
    ensures var uses := CollectAll(conds, []);
            var s, t := FindSlot(uses, p, 0), FindSlot(uses, q, 0);
            && s < CacheSlots(conds) && t < CacheSlots(conds)
            && (s >= 0 && t >= 0 ==> (s == t <==> SameProp(p, q)) && (s == t <==> MessageProps.SameReadings(p, q)))
  {
    MessageProps.SamePropMeans(p, q);
    var uses := CollectAll(conds, []);
    CollectAllDistinct(conds, []);
    FindSlotFits(uses, p);
    FindSlotFits(uses, q);
    var s, t := FindSlot(uses, p, 0), FindSlot(uses, q, 0);
    if 0 <= s < t { OwnersDistinct(uses, s, t); }
    if 0 <= t < s { OwnersDistinct(uses, t, s); }
  }

  // ----- which properties get a slot -----

  /** How often an expression mentions a property. */
  function Mentions(e: Expr, p: Prop): nat
    decreases e, 1
  {
    match e
    case Var(_, prop, _) => if SameProp(prop, p) then 1 else 0
    case Func(_, args) => MentionsAll(args, p)
    case Neg(r) => Mentions(r, p)
    case Not(r) => Mentions(r, p)
    case And(l, r) => Mentions(l, p) + Mentions(r, p)
    case Or(l, r) => Mentions(l, p) + Mentions(r, p)
    case Cmp(_, l, r) => Mentions(l, p) + Mentions(r, p)
    case Text(_, l, r) => Mentions(l, p) + Mentions(r, p)
    case Arith(_, l, r) => Mentions(l, p) + Mentions(r, p)
    case Concat(l, r) => Mentions(l, p) + Mentions(r, p)
    case _ => 0
  }

  function MentionsAll(es: seq<Expr>, p: Prop): nat
    decreases es, 0
  {
    if es == [] then 0 else Mentions(es[0], p) + MentionsAll(es[1..], p)
  }

  function UseCount(uses: seq<Use>, p: Prop): nat {
    if uses == [] then 0 else if SameProp(uses[0].prop, p) then uses[0].count else UseCount(uses[1..], p)
  }

  /** The counter has advanced by n, as an unsigned short. */
  predicate Advanced(before: seq<Use>, after: seq<Use>, p: Prop, n: nat) {
    UseCount(after, p) % (USHRT_MAX + 1) == (UseCount(before, p) + n) % (USHRT_MAX + 1)
  }

  lemma {:induction false} CountUseAdvances(prop: Prop, uses: seq<Use>, p: Prop)
    ensures Advanced(uses, CountUse(prop, uses), p, if SameProp(prop, p) then 1 else 0)
  {
    if uses != [] && !SameProp(uses[0].prop, prop) {
      CountUseAdvances(prop, uses[1..], p);
      assert CountUse(prop, uses)[1..] == CountUse(prop, uses[1..]);
    }
  }

  lemma AdvancedTwice(a: seq<Use>, b: seq<Use>, c: seq<Use>, p: Prop, n: nat, k: nat)
    requires Advanced(a, b, p, n) && Advanced(b, c, p, k)
    ensures Advanced(a, c, p, n + k)
  {
    var x, y, z := UseCount(a, p), UseCount(b, p), UseCount(c, p);
    WrapTwice(x, n, k, y, z);
  }

  lemma WrapTwice(x: int, n: int, k: int, y: int, z: int)
    requires y % (USHRT_MAX + 1) == (x + n) % (USHRT_MAX + 1) && z % (USHRT_MAX + 1) == (y + k) % (USHRT_MAX + 1)
    ensures z % (USHRT_MAX + 1) == (x + (n + k)) % (USHRT_MAX + 1)
  {}

  lemma {:induction false} BothAdvance(l: Expr, r: Expr, uses: seq<Use>, p: Prop)
    requires forall u :: Advanced(u, Collect(l, u), p, Mentions(l, p))
    requires forall u :: Advanced(u, Collect(r, u), p, Mentions(r, p))
    ensures Advanced(uses, Collect(r, Collect(l, uses)), p, Mentions(l, p) + Mentions(r, p))
  {
    AdvancedTwice(uses, Collect(l, uses), Collect(r, Collect(l, uses)), p, Mentions(l, p), Mentions(r, p));
  }

  lemma {:induction false} CollectCounts(e: Expr, p: Prop)
    ensures forall u :: Advanced(u, Collect(e, u), p, Mentions(e, p))
    decreases e, 1
  {
    match e
    case Var(_, prop, _) => forall u ensures Advanced(u, Collect(e, u), p, Mentions(e, p)) { CountUseAdvances(prop, u, p); }
    case Func(_, args) => CollectAllCounts(args, p);
    case Neg(r) => CollectCounts(r, p);
    case Not(r) => CollectCounts(r, p);
    case And(l, r) => CollectCounts(l, p); CollectCounts(r, p); forall u { BothAdvance(l, r, u, p); }
    case Or(l, r) => CollectCounts(l, p); CollectCounts(r, p); forall u { BothAdvance(l, r, u, p); }
    case Cmp(_, l, r) => CollectCounts(l, p); CollectCounts(r, p); forall u { BothAdvance(l, r, u, p); }
    case Text(_, l, r) => CollectCounts(l, p); CollectCounts(r, p); forall u { BothAdvance(l, r, u, p); }
    case Arith(_, l, r) => CollectCounts(l, p); CollectCounts(r, p); forall u { BothAdvance(l, r, u, p); }
    case Concat(l, r) => CollectCounts(l, p); CollectCounts(r, p); forall u { BothAdvance(l, r, u, p); }
    case _ =>
  }

  lemma {:induction false} CollectAllCounts(es: seq<Expr>, p: Prop)
    ensures forall u :: Advanced(u, CollectAll(es, u), p, MentionsAll(es, p))
    decreases es, 0
  {
    if es != [] {
      CollectCounts(es[0], p);
      CollectAllCounts(es[1..], p);
      forall u ensures Advanced(u, CollectAll(es, u), p, MentionsAll(es, p)) {
        AdvancedTwice(u, Collect(es[0], u), CollectAll(es[1..], Collect(es[0], u)), p, Mentions(es[0], p), MentionsAll(es[1..], p));
      }
    }
  }

  ghost predicate Bounded(uses: seq<Use>) { forall i :: 0 <= i < |uses| ==> uses[i].count <= USHRT_MAX }

  lemma {:induction false} CountUseBounded(prop: Prop, uses: seq<Use>)
    requires Bounded(uses)
    ensures Bounded(CountUse(prop, uses))
  {
    if uses != [] && !SameProp(uses[0].prop, prop) {
      CountUseBounded(prop, uses[1..]);
    }
  }

  lemma {:induction false} CollectBounded(e: Expr, uses: seq<Use>)
    requires Bounded(uses)
    ensures Bounded(Collect(e, uses))
    decreases e, 1
  {
    match e
    case Var(_, prop, _) => CountUseBounded(prop, uses);
    case Func(_, args) => CollectAllBounded(args, uses);
    case Neg(r) => CollectBounded(r, uses);
    case Not(r) => CollectBounded(r, uses);
    case And(l, r) => CollectBounded(l, uses); CollectBounded(r, Collect(l, uses));
    case Or(l, r) => CollectBounded(l, uses); CollectBounded(r, Collect(l, uses));
    case Cmp(_, l, r) => CollectBounded(l, uses); CollectBounded(r, Collect(l, uses));
    case Text(_, l, r) => CollectBounded(l, uses); CollectBounded(r, Collect(l, uses));
    case Arith(_, l, r) => CollectBounded(l, uses); CollectBounded(r, Collect(l, uses));
    case Concat(l, r) => CollectBounded(l, uses); CollectBounded(r, Collect(l, uses));
    case _ =>
  }

  lemma {:induction false} CollectAllBounded(es: seq<Expr>, uses: seq<Use>)
    requires Bounded(uses)
    ensures Bounded(CollectAll(es, uses))
    decreases es, 0
  {
    if es != [] {
      CollectBounded(es[0], uses);
      CollectAllBounded(es[1..], Collect(es[0], uses));
    }
  }

  lemma {:induction false} UseCountAt(uses: seq<Use>, p: Prop)
    requires Distinct(uses)
    ensures UseCount(uses, p) >= 2 <==> exists i :: 0 <= i < |uses| && SameProp(uses[i].prop, p) && uses[i].count >= 2
  {
    if uses != [] {
      var tail := uses[1..];
      assert forall i :: 1 <= i < |uses| ==> uses[i] == tail[i - 1];
      assert forall i :: 0 <= i < |tail| ==> tail[i] == uses[i + 1];
      UseCountAt(tail, p);
    }
  }

  /** Uses that count as repeated. */
  function Repeated(uses: seq<Use>): nat {
    if uses == [] then 0
    else Repeated(uses[..|uses| - 1]) + (if uses[|uses| - 1].count >= 2 then 1 else 0)
  }

  lemma {:induction false} OwnersCount(uses: seq<Use>)
    ensures |Owners(uses)| == if Repeated(uses) < USHRT_MAX then Repeated(uses) else USHRT_MAX
  {
    if uses != [] {
      OwnersCount(uses[..|uses| - 1]);
    }
  }

  /** Where the property is listed, or the length of the list. */
  function IndexOf(uses: seq<Use>, p: Prop, i: nat): (k: nat)
    requires i <= |uses|
    ensures i <= k <= |uses| && (k < |uses| ==> SameProp(uses[k].prop, p))
    ensures forall j :: i <= j < k ==> !SameProp(uses[j].prop, p)
    decreases |uses| - i
  {
    if i == |uses| || SameProp(uses[i].prop, p) then i else IndexOf(uses, p, i + 1)
  }

  /** A property gets a slot exactly when the chain mentions it at least twice, counted as an unsigned short, and
      fewer than USHRT_MAX repeated properties are listed before it; their number is then its slot. */
  lemma SlotIffRepeated(conds: seq<Expr>, p: Prop)
    ensures var uses := CollectAll(conds, []);
            var ahead := Repeated(uses[..IndexOf(uses, p, 0)]);
            var slot := FindSlot(uses, p, 0);
            && (slot >= 0 <==> MentionsAll(conds, p) % (USHRT_MAX + 1) >= 2 && ahead < USHRT_MAX)
            && (slot >= 0 ==> slot == ahead)
  {
    var uses := CollectAll(conds, []);
    CollectAllDistinct(conds, []);
    CollectAllBounded(conds, []);
    CollectAllCounts(conds, p);
    assert Advanced([], uses, p, MentionsAll(conds, p));
    UseCountBounded(uses, p);
    assert UseCount(uses, p) == MentionsAll(conds, p) % (USHRT_MAX + 1);
    SlotIffCounted(uses, p);
  }

  lemma SlotIffCounted(uses: seq<Use>, p: Prop)
    requires Distinct(uses)
    ensures var ahead := Repeated(uses[..IndexOf(uses, p, 0)]);
            && (FindSlot(uses, p, 0) >= 0 <==> UseCount(uses, p) >= 2 && ahead < USHRT_MAX)
            && (FindSlot(uses, p, 0) >= 0 ==> FindSlot(uses, p, 0) == ahead)
  {
    var k := IndexOf(uses, p, 0);
    OwnersCount(uses[..k]);
    UseCountAt(uses, p);
    FindSlotFits(uses, p);
    FindSlotOwner(uses, p, 0);
    if FindSlot(uses, p, 0) >= 0 {
      var i := OwnerSlot(uses, FindSlot(uses, p, 0));
      assert SameProp(uses[i].prop, p) && i == k;
    }
    forall i | 0 <= i < |uses| && SameProp(uses[i].prop, p) && uses[i].count >= 2
      ensures i == k && (|Owners(uses[..k])| < USHRT_MAX ==> FindSlot(uses, p, 0) >= 0)
    {
      assert i == k;
    }
  }

  lemma {:induction false} UseCountBounded(uses: seq<Use>, p: Prop)
    requires Bounded(uses)
    ensures UseCount(uses, p) <= USHRT_MAX
  {
    if uses != [] && !SameProp(uses[0].prop, p) {
      UseCountBounded(uses[1..], p);
    }
  }

  // ----- evaluation with the cache -----

  lemma {:induction false} AssignEval(mode: Mode, e: Expr, uses: seq<Use>, lib: Lib, env: Env)
    requires env.fac < ENTRIES
    ensures Eval(mode, Assign(e, uses), lib, env) == Eval(mode, e, lib, env)
    decreases e, 1
  {
    match e
    case Func(_, args) => AssignAllEval(mode, args, uses, lib, env);
    case Neg(r) => AssignEval(mode, r, uses, lib, env);
    case Not(r) => AssignEval(mode, r, uses, lib, env);
    case And(l, r) => AssignBoth(mode, e, uses, lib, env);
    case Or(l, r) => AssignBoth(mode, e, uses, lib, env);
    case Arith(_, l, r) => AssignBoth(mode, e, uses, lib, env);
    case Concat(l, r) => AssignBoth(mode, e, uses, lib, env);
    case Cmp(_, l, r) => AssignCompared(mode, e, uses, lib, env);
    case Text(_, l, r) => AssignCompared(mode, e, uses, lib, env);
    case _ =>
  }

  lemma {:induction false} AssignBoth(mode: Mode, e: Expr, uses: seq<Use>, lib: Lib, env: Env)
    requires env.fac < ENTRIES && (e.And? || e.Or? || e.Arith? || e.Concat?)
    ensures Eval(mode, Assign(e, uses), lib, env) == Eval(mode, e, lib, env)
    decreases e, 0
  {
    AssignEval(mode, e.l, uses, lib, env);
    AssignEval(mode, e.r, uses, lib, env);
  }

  lemma {:induction false} AssignCompared(mode: Mode, e: Expr, uses: seq<Use>, lib: Lib, env: Env)
    requires env.fac < ENTRIES && (e.Cmp? || e.Text?)
    ensures Eval(mode, Assign(e, uses), lib, env) == Eval(mode, e, lib, env)
    decreases e, 0
  {
    AssignEval(mode, e.l, uses, lib, env);
    AssignEval(mode, e.r, uses, lib, env);
    if e.Cmp? {
      CmpEval(mode, e.cop, e.l, e.r, Assign(e.l, uses), Assign(e.r, uses), lib, env);
    } else {
      TextEval(mode, e.top, e.l, e.r, Assign(e.l, uses), Assign(e.r, uses), lib, env);
    }
  }

  lemma {:induction false} TextEval(mode: Mode, op: TextOp, l: Expr, r: Expr, l': Expr, r': Expr, lib: Lib, env: Env)
    requires env.fac < ENTRIES
    requires Eval(mode, l', lib, env) == Eval(mode, l, lib, env) && Eval(mode, r', lib, env) == Eval(mode, r, lib, env)
    requires if r.ArrLit? then r' == r else !r'.ArrLit?
    ensures Eval(mode, Text(op, l', r'), lib, env) == Eval(mode, Text(op, l, r), lib, env)
  {}

  lemma {:induction false} CmpEval(mode: Mode, op: CmpOp, l: Expr, r: Expr, l': Expr, r': Expr, lib: Lib, env: Env)
    requires env.fac < ENTRIES
    requires Eval(mode, l', lib, env) == Eval(mode, l, lib, env) && Eval(mode, r', lib, env) == Eval(mode, r, lib, env)
    requires if l.ArrLit? then l' == l else !l'.ArrLit?
    requires if r.ArrLit? then r' == r else !r'.ArrLit?
    ensures Eval(mode, Cmp(op, l', r'), lib, env) == Eval(mode, Cmp(op, l, r), lib, env)
  {}

  lemma {:induction false} AssignAllEval(mode: Mode, es: seq<Expr>, uses: seq<Use>, lib: Lib, env: Env)
    requires env.fac < ENTRIES
    ensures EvalAll(mode, AssignAll(es, uses), lib, env) == EvalAll(mode, es, lib, env)
    decreases es, 0
  {
    if es != [] {
      AssignEval(mode, es[0], uses, lib, env);
      AssignAllEval(mode, es[1..], uses, lib, env);
      assert AssignAll(es, uses)[1..] == AssignAll(es[1..], uses);
    }
  }

  /** A condition holds when evaluated without a cache. */
  predicate IsTrue(c: Expr, lib: Lib, env: Env)
    requires env.fac < ENTRIES
  {
    Condition(Eval(Run, c, lib, env))
  }

  /** The branch an else-if chain selects: the first condition from an index on that holds, or none. */
  function FirstTrue(conds: seq<Expr>, from: nat, lib: Lib, env: Env): (k: nat)
    requires env.fac < ENTRIES && from <= |conds|
    ensures from <= k <= |conds| && (k < |conds| ==> IsTrue(conds[k], lib, env))
    ensures forall i :: from <= i < k ==> !IsTrue(conds[i], lib, env)
    decreases |conds| - from
  {
    if from == |conds| || IsTrue(conds[from], lib, env) then from else FirstTrue(conds, from + 1, lib, env)
  }

  datatype Entry = Empty | Filled(value: Value)

  function Reads(log: seq<Prop>, p: Prop): nat {
    if log == [] then 0 else Reads(log[..|log| - 1], p) + if SameProp(log[|log| - 1], p) then 1 else 0
  }

  // ----- the reads of an evaluation -----

  /** The properties plain evaluation reads, in order; operators short-circuit. */
  function Visits(e: Expr, lib: Lib, env: Env): seq<Prop>
    requires env.fac < ENTRIES
    decreases e, 1
  {
    match e
    case Var(_, prop, _) => [prop]
    case Func(_, args) => VisitsAll(args, lib, env)
    case Neg(x) => Visits(x, lib, env)
    case Not(x) => Visits(x, lib, env)
    case And(x, y) => Visits(x, lib, env) + (if Truthy(Eval(Run, x, lib, env)) then Visits(y, lib, env) else [])
    case Or(x, y) => Visits(x, lib, env) + (if Truthy(Eval(Run, x, lib, env)) then [] else Visits(y, lib, env))
    case Cmp(op, x, y) =>
      Visits(x, lib, env)
      + (if IsEqOp(op) && y.ArrLit? && !Eval(Run, x, lib, env).Num? then [] else Visits(y, lib, env))
    case Text(_, x, y) => Visits(x, lib, env) + (if y.ArrLit? then [] else Visits(y, lib, env))
    case Arith(_, x, y) => Visits(x, lib, env) + Visits(y, lib, env)
    case Concat(x, y) => Visits(x, lib, env) + Visits(y, lib, env)
    case _ => []
  }

  function VisitsAll(es: seq<Expr>, lib: Lib, env: Env): seq<Prop>
    requires env.fac < ENTRIES
    decreases es, 0
  {
    if es == [] then [] else Visits(es[0], lib, env) + VisitsAll(es[1..], lib, env)
  }

  ghost predicate Owned(p: Prop, owners: seq<Prop>) { exists s :: 0 <= s < |owners| && SameProp(owners[s], p) }

  /** The reads that reach the message when repeats of owned properties come from the cache. */
  ghost function Misses(log: seq<Prop>, ps: seq<Prop>, owners: seq<Prop>): seq<Prop>
    decreases |ps|
  {
    if ps == [] then log
    else Misses(if Owned(ps[0], owners) && Reads(log, ps[0]) > 0 then log else log + [ps[0]], ps[1..], owners)
  }

  lemma {:induction false} MissesAppend(log: seq<Prop>, a: seq<Prop>, b: seq<Prop>, owners: seq<Prop>)
    ensures Misses(log, a + b, owners) == Misses(Misses(log, a, owners), b, owners)
    decreases |a|
  {
    if a == [] {
      assert a + b == b;
    } else {
      assert (a + b)[1..] == a[1..] + b;
      MissesAppend(if Owned(a[0], owners) && Reads(log, a[0]) > 0 then log else log + [a[0]], a[1..], b, owners);
    }
  }

  lemma ReadsNext(log: seq<Prop>, x: Prop, p: Prop)
    ensures Reads(log + [x], p) == Reads(log, p) + if SameProp(x, p) then 1 else 0
  {
    assert (log + [x])[..|log|] == log;
  }

  lemma {:induction false} ReadsFront(ps: seq<Prop>, p: Prop)
    requires ps != []
    ensures Reads(ps, p) == (if SameProp(ps[0], p) then 1 else 0) + Reads(ps[1..], p)
  {
    if |ps| > 1 {
      ReadsFront(ps[..|ps| - 1], p);
      assert ps[..|ps| - 1][1..] == ps[1..][..|ps| - 2];
    } else {
      assert ps[..0] == [] && ps[1..] == [];
    }
  }

  lemma OwnedSame(p: Prop, q: Prop, owners: seq<Prop>)
    requires SameProp(p, q)
    ensures Owned(p, owners) <==> Owned(q, owners)
  {
    if Owned(p, owners) {
      var s :| 0 <= s < |owners| && SameProp(owners[s], p);
      assert SameProp(owners[s], q);
    }
    if Owned(q, owners) {
      var s :| 0 <= s < |owners| && SameProp(owners[s], q);
      assert SameProp(owners[s], p);
    }
  }

  /** An owned property is read once if it is read at all, any other as often as without a cache. */
  lemma {:induction false} MissesReads(log: seq<Prop>, ps: seq<Prop>, owners: seq<Prop>, p: Prop)
    requires Owned(p, owners) ==> Reads(log, p) <= 1
    ensures Reads(Misses(log, ps, owners), p)
         == if Owned(p, owners) then (if Reads(log, p) + Reads(ps, p) > 0 then 1 else 0) else Reads(log, p) + Reads(ps, p)
    decreases |ps|
  {
    if ps != [] {
      var x := ps[0];
      var next := if Owned(x, owners) && Reads(log, x) > 0 then log else log + [x];
      ReadsFront(ps, p);
      ReadsNext(log, x, p);
      if SameProp(x, p) {
        OwnedSame(x, p, owners);
        ReadsSame(log, x, p);
      }
      MissesReads(next, ps[1..], owners, p);
    }
  }

  /** The cache of one selector, with the log of the property reads that went to the message. */
  class VarCache {
    const entries: array<Entry>
    ghost const owners: seq<Prop>
    ghost var log: seq<Prop>

    ghost predicate Valid(env: Env)
      reads this, entries
    {
      && entries.Length == |owners|
      && (forall s, t :: 0 <= s < t < |owners| ==> !SameProp(owners[s], owners[t]))
      && (forall s :: 0 <= s < |owners| ==>
            match entries[s]
            case Empty => Reads(log, owners[s]) == 0
            case Filled(v) => v == env.read(owners[s]) && Reads(log, owners[s]) == 1)
    }

    /** calloc of the entries in execIf. */
    constructor (n: nat, ghost owners: seq<Prop>, ghost env: Env)
      requires n == |owners|
      requires forall s, t :: 0 <= s < t < |owners| ==> !SameProp(owners[s], owners[t])
      ensures Valid(env) && fresh(entries) && this.owners == owners && log == []
    {
      this.entries := new Entry[n](_ => Empty);
      this.owners := owners;
      this.log := [];
    }

    /** What one variable adds to the log. */
    lemma OneMiss(v: Expr, env: Env)
      requires v.Var? && Valid(env) && SlotFits(v.prop, v.slot, owners)
      ensures Misses(log, [v.prop], owners)
           == if 0 <= v.slot < entries.Length && entries[v.slot].Filled? then log else log + [v.prop]
    {
      assert [v.prop][1..] == [];
      if 0 <= v.slot < entries.Length {
        assert SameProp(owners[v.slot], v.prop);
        ReadsSame(log, owners[v.slot], v.prop);
      }
    }

    /** evalVar. */
    method EvalVar(v: Expr, env: Env) returns (r: Value)
      requires v.Var? && Valid(env) && SlotFits(v.prop, v.slot, owners)
      requires forall p, q :: SameProp(p, q) ==> env.read(p) == env.read(q)
      modifies this`log, entries
      ensures Valid(env) && r == env.read(v.prop) && log == Misses(old(log), [v.prop], owners)
    {
      OneMiss(v, env);
      if v.slot < 0 || v.slot >= entries.Length {
        r := env.read(v.prop);
        log := log + [v.prop];
        assert log[..|log| - 1] == old(log);
        return;
      }
      if entries[v.slot].Empty? {
        r := env.read(v.prop);
        entries[v.slot] := Filled(r);
        log := log + [v.prop];
        assert log[..|log| - 1] == old(log);
        forall s | 0 <= s < |owners| && s != v.slot ensures !SameProp(v.prop, owners[s]) {
          if s < v.slot { assert !SameProp(owners[s], owners[v.slot]); } else { assert !SameProp(owners[v.slot], owners[s]); }
        }
      }
      r := entries[v.slot].value;
    }

    /** cnfexprEval while the cache is active: the operators short-circuit, variables go through evalVar. */
    method EvalExpr(e: Expr, lib: Lib, env: Env) returns (r: Value)
      requires ValidEnv(lib, env) && Valid(env) && WellSlotted(e, owners)
      modifies this`log, entries
      ensures Valid(env) && r == Eval(Run, e, lib, env) && log == Misses(old(log), Visits(e, lib, env), owners)
      decreases e, 1
    {
      match e
      case Var(_, _, _) => r := EvalVar(e, env);
      case Func(f, args) =>
        var vs := EvalArgs(args, lib, env);
        r := env.call(f, vs);
      case Neg(x) =>
        var v := EvalExpr(x, lib, env);
        r := Num(-ToNum(v));
      case Not(x) =>
        var v := EvalExpr(x, lib, env);
        r := Bit(!Truthy(v));
      case And(x, y) => r := EvalLogic(e, true, x, y, lib, env);
      case Or(x, y) => r := EvalLogic(e, false, x, y, lib, env);
      case Cmp(op, x, y) => r := EvalCmp(e, lib, env);
      case Text(op, x, y) => r := EvalText(e, lib, env);
      case Arith(op, x, y) =>
        var a, b := EvalBoth(e, x, y, lib, env);
        r := Num(ArithVals(op, ToNum(a), ToNum(b)));
      case Concat(x, y) =>
        var a, b := EvalBoth(e, x, y, lib, env);
        r := Str(ToText(a) + ToText(b));
      case NumLit(n) => r := Num(n);
      case StrLit(t) => r := Str(t);
      case ArrLit(a) => r := Str(First(a));
      case Prifilt(m) => r := Bit(Passes(m, env.fac, env.sev));
      case Exists(v) => r := Bit(env.present(v));
      case Freed => r := Num(0);
    }

    /** Both operands of an operator. */
    method EvalBoth(ghost e: Expr, x: Expr, y: Expr, lib: Lib, env: Env) returns (a: Value, b: Value)
      requires x < e && y < e
      requires ValidEnv(lib, env) && Valid(env) && WellSlotted(x, owners) && WellSlotted(y, owners)
      modifies this`log, entries
      ensures Valid(env) && a == Eval(Run, x, lib, env) && b == Eval(Run, y, lib, env)
      ensures log == Misses(old(log), Visits(x, lib, env) + Visits(y, lib, env), owners)
      decreases e, 0
    {
      a := EvalExpr(x, lib, env);
      b := EvalExpr(y, lib, env);
      MissesAppend(old(log), Visits(x, lib, env), Visits(y, lib, env), owners);
    }

    /** AND evaluates its right operand only after a true left one, OR only after a false one. */
    method EvalLogic(ghost e: Expr, conj: bool, x: Expr, y: Expr, lib: Lib, env: Env) returns (r: Value)
      requires x < e && y < e
      requires ValidEnv(lib, env) && Valid(env) && WellSlotted(x, owners) && WellSlotted(y, owners)
      modifies this`log, entries
      ensures Valid(env)
      ensures r == if Truthy(Eval(Run, x, lib, env)) == conj then Bit(Truthy(Eval(Run, y, lib, env))) else Bit(!conj)
      ensures log == Misses(old(log), Visits(x, lib, env)
                            + (if Truthy(Eval(Run, x, lib, env)) == conj then Visits(y, lib, env) else []), owners)
      decreases e, 0
    {
      r := EvalExpr(x, lib, env);
      var more := Truthy(r) == conj;
      MissesAppend(old(log), Visits(x, lib, env), if more then Visits(y, lib, env) else [], owners);
      if more {
        r := EvalExpr(y, lib, env);
      }
      r := Bit(Truthy(r));
    }

    method EvalCmp(e: Expr, lib: Lib, env: Env) returns (r: Value)
      requires e.Cmp? && ValidEnv(lib, env) && Valid(env) && WellSlotted(e, owners)
      modifies this`log, entries
      ensures Valid(env) && r == Eval(Run, e, lib, env) && log == Misses(old(log), Visits(e, lib, env), owners)
      decreases e, 0
    {
      var a := EvalExpr(e.l, lib, env);
      var member := IsEqOp(e.cop) && e.r.ArrLit? && !a.Num?;
      if member {
        r := ArrayCmp(Run, lib, e.cop, a, e.r.elems);
      } else {
        var b := EvalExpr(e.r, lib, env);
        r := CmpVals(lib, e.cop, a, b);
      }
      MissesAppend(old(log), Visits(e.l, lib, env), if member then [] else Visits(e.r, lib, env), owners);
    }

    method EvalText(e: Expr, lib: Lib, env: Env) returns (r: Value)
      requires e.Text? && ValidEnv(lib, env) && Valid(env) && WellSlotted(e, owners)
      modifies this`log, entries
      ensures Valid(env) && r == Eval(Run, e, lib, env) && log == Misses(old(log), Visits(e, lib, env), owners)
      decreases e, 0
    {
      var a := EvalExpr(e.l, lib, env);
      if e.r.ArrLit? {
        r := Bit(exists i :: 0 <= i < |e.r.elems| && lib.test(e.top, ToText(a), e.r.elems[i]));
      } else {
        var b := EvalExpr(e.r, lib, env);
        r := Bit(lib.test(e.top, ToText(a), ToText(b)));
      }
      MissesAppend(old(log), Visits(e.l, lib, env), if e.r.ArrLit? then [] else Visits(e.r, lib, env), owners);
    }

    method EvalArgs(es: seq<Expr>, lib: Lib, env: Env) returns (vs: seq<Value>)
      requires ValidEnv(lib, env) && Valid(env) && forall a :: a in es ==> WellSlotted(a, owners)
      modifies this`log, entries
      ensures Valid(env) && vs == EvalAll(Run, es, lib, env) && log == Misses(old(log), VisitsAll(es, lib, env), owners)
      decreases es, 0
    {
      if es == [] {
        return [];
      }
      var v := EvalExpr(es[0], lib, env);
      var rest := EvalArgs(es[1..], lib, env);
      vs := [v] + rest;
      MissesAppend(old(log), Visits(es[0], lib, env), VisitsAll(es[1..], lib, env), owners);
    }
  }

  /** The right operand of a connective that the left one decides is not read. */
  lemma ShortCircuit(x: Expr, y: Expr, lib: Lib, env: Env)
    requires env.fac < ENTRIES
    ensures ToNum(Eval(Run, x, lib, env)) == 0 ==> Visits(And(x, y), lib, env) == Visits(x, lib, env)
    ensures ToNum(Eval(Run, x, lib, env)) != 0 ==> Visits(Or(x, y), lib, env) == Visits(x, lib, env)
  {}

  /** Two messages that an expression cannot tell apart by the properties it reads. */
  ghost predicate AgreeOn(ps: seq<Prop>, a: Env, b: Env) { forall p :: p in ps ==> a.read(p) == b.read(p) }

  ghost predicate SameRest(a: Env, b: Env) { b == a.(read := b.read) }

  /** What an expression reads decides its value, and what it reads. */
  lemma {:induction false} VisitsDecide(e: Expr, lib: Lib, a: Env, b: Env)
    requires a.fac < ENTRIES && SameRest(a, b) && AgreeOn(Visits(e, lib, a), a, b)
    ensures Eval(Run, e, lib, a) == Eval(Run, e, lib, b) && Visits(e, lib, a) == Visits(e, lib, b)
    decreases e, 1
  {
    match e
    case Func(_, args) => VisitsAllDecide(args, lib, a, b);
    case Neg(x) => VisitsDecide(x, lib, a, b);
    case Not(x) => VisitsDecide(x, lib, a, b);
    case And(x, y) =>
      VisitsDecide(x, lib, a, b);
      if Truthy(Eval(Run, x, lib, a)) { VisitsDecide(y, lib, a, b); }
    case Or(x, y) =>
      VisitsDecide(x, lib, a, b);
      if !Truthy(Eval(Run, x, lib, a)) { VisitsDecide(y, lib, a, b); }
    case Cmp(op, x, y) =>
      VisitsDecide(x, lib, a, b);
      if !(IsEqOp(op) && y.ArrLit? && !Eval(Run, x, lib, a).Num?) { VisitsDecide(y, lib, a, b); }
    case Text(_, x, y) =>
      VisitsDecide(x, lib, a, b);
      if !y.ArrLit? { VisitsDecide(y, lib, a, b); }
    case Arith(_, x, y) => VisitsDecide(x, lib, a, b); VisitsDecide(y, lib, a, b);
    case Concat(x, y) => VisitsDecide(x, lib, a, b); VisitsDecide(y, lib, a, b);
    case _ =>
  }

  lemma {:induction false} VisitsAllDecide(es: seq<Expr>, lib: Lib, a: Env, b: Env)
    requires a.fac < ENTRIES && SameRest(a, b) && AgreeOn(VisitsAll(es, lib, a), a, b)
    ensures EvalAll(Run, es, lib, a) == EvalAll(Run, es, lib, b) && VisitsAll(es, lib, a) == VisitsAll(es, lib, b)
    decreases es, 0
  {
    if es != [] {
      VisitsDecide(es[0], lib, a, b);
      VisitsAllDecide(es[1..], lib, a, b);
    }
  }

  /** Slots do not change which properties an evaluation reads. */
  lemma {:induction false} AssignVisits(e: Expr, uses: seq<Use>, lib: Lib, env: Env)
    requires env.fac < ENTRIES
    ensures Visits(Assign(e, uses), lib, env) == Visits(e, lib, env)
    decreases e, 1
  {
    match e
    case Func(_, args) => AssignAllVisits(args, uses, lib, env);
    case Neg(x) => AssignVisits(x, uses, lib, env);
    case Not(x) => AssignVisits(x, uses, lib, env);
    case And(x, y) => BothVisits(x, y, uses, lib, env);
    case Or(x, y) => BothVisits(x, y, uses, lib, env);
    case Cmp(_, x, y) => BothVisits(x, y, uses, lib, env);
    case Text(_, x, y) => BothVisits(x, y, uses, lib, env);
    case Arith(_, x, y) => BothVisits(x, y, uses, lib, env);
    case Concat(x, y) => BothVisits(x, y, uses, lib, env);
    case _ =>
  }

  lemma {:induction false} BothVisits(x: Expr, y: Expr, uses: seq<Use>, lib: Lib, env: Env)
    requires env.fac < ENTRIES
    ensures Visits(Assign(x, uses), lib, env) == Visits(x, lib, env)
    ensures Visits(Assign(y, uses), lib, env) == Visits(y, lib, env)
    ensures Eval(Run, Assign(x, uses), lib, env) == Eval(Run, x, lib, env)
    ensures Assign(y, uses).ArrLit? <==> y.ArrLit?
    decreases if x < y then y else x, 2
  {
    AssignVisits(x, uses, lib, env);
    AssignVisits(y, uses, lib, env);
    AssignEval(Run, x, uses, lib, env);
  }

  lemma {:induction false} AssignAllVisits(es: seq<Expr>, uses: seq<Use>, lib: Lib, env: Env)
    requires env.fac < ENTRIES
    ensures VisitsAll(AssignAll(es, uses), lib, env) == VisitsAll(es, lib, env)
    decreases es, 0
  {
    if es != [] {
      AssignVisits(es[0], uses, lib, env);
      AssignAllVisits(es[1..], uses, lib, env);
      assert AssignAll(es, uses)[1..] == AssignAll(es[1..], uses);
    }
  }

  /** The reads of the first n conditions. */
  function ChainVisits(conds: seq<Expr>, n: nat, lib: Lib, env: Env): seq<Prop>
    requires env.fac < ENTRIES && n <= |conds|
  {
    if n == 0 then [] else ChainVisits(conds, n - 1, lib, env) + Visits(conds[n - 1], lib, env)
  }

  /** The selection loop of execIf: with the cache the chain selects the branch that plain evaluation of the
      original conditions selects. Of the reads of plain evaluation, a property with a slot is read once if at all,
      any other as often as before. */
  method SelectBranch(conds: seq<Expr>, lib: Lib, env: Env) returns (k: nat, ghost log: seq<Prop>)
    requires ValidEnv(lib, env)
    ensures k == FirstTrue(conds, 0, lib, env)
    ensures var plain := ChainVisits(conds, if k < |conds| then k + 1 else |conds|, lib, env);
            forall p :: Reads(log, p) ==
              if FindSlot(CollectAll(conds, []), p, 0) >= 0 then (if Reads(plain, p) > 0 then 1 else 0)
              else Reads(plain, p)
  {
    ghost var uses := CollectAll(conds, []);
    CollectAllDistinct(conds, []);
    forall s, t | 0 <= s < t < |Owners(uses)| ensures !SameProp(Owners(uses)[s], Owners(uses)[t]) {
      OwnersDistinct(uses, s, t);
    }
    var cache := new VarCache(CacheSlots(conds), Owners(uses), env);
    k := FindBranch(conds, SlottedChain(conds), cache, uses, lib, env);
    log := cache.log;
    CachedReads(uses, ChainVisits(conds, if k < |conds| then k + 1 else |conds|, lib, env));
  }

  /** One condition of the chain. */
  method TestCondition(conds: seq<Expr>, chain: seq<Expr>, k: nat, cache: VarCache, ghost uses: seq<Use>, lib: Lib, env: Env)
    returns (t: bool)
    requires ValidEnv(lib, env) && cache.Valid(env) && cache.owners == Owners(uses)
    requires chain == AssignAll(conds, uses) && k < |conds|
    requires cache.log == Misses([], ChainVisits(conds, k, lib, env), Owners(uses))
    modifies cache`log, cache.entries
    ensures cache.Valid(env) && t == IsTrue(conds[k], lib, env)
    ensures cache.log == Misses([], ChainVisits(conds, k + 1, lib, env), Owners(uses))
  {
    AssignAllAt(conds, uses, k);
    AssignWellSlotted(conds[k], uses);
    AssignEval(Run, conds[k], uses, lib, env);
    AssignVisits(conds[k], uses, lib, env);
    MissesAppend([], ChainVisits(conds, k, lib, env), Visits(conds[k], lib, env), Owners(uses));
    var v := cache.EvalExpr(chain[k], lib, env);
    t := Condition(v);
  }

  /** The loop over the chain. */
  method FindBranch(conds: seq<Expr>, chain: seq<Expr>, cache: VarCache, ghost uses: seq<Use>, lib: Lib, env: Env)
    returns (k: nat)
    requires ValidEnv(lib, env) && cache.Valid(env) && cache.owners == Owners(uses) && cache.log == []
    requires chain == AssignAll(conds, uses)
    modifies cache`log, cache.entries
    ensures k == FirstTrue(conds, 0, lib, env)
    ensures cache.log == Misses([], ChainVisits(conds, if k < |conds| then k + 1 else |conds|, lib, env), Owners(uses))
  {
    k := 0;
    var found := false;
    while k < |chain| && !found
      invariant k <= |chain| == |conds| && (found ==> k < |conds| && IsTrue(conds[k], lib, env))
      invariant cache.Valid(env)
      invariant cache.log == Misses([], ChainVisits(conds, if found then k + 1 else k, lib, env), Owners(uses))
      invariant FirstTrue(conds, 0, lib, env) == FirstTrue(conds, k, lib, env)
      decreases |chain| - k, !found
    {
      found := TestCondition(conds, chain, k, cache, uses, lib, env);
      if !found { k := k + 1; }
    }
  }

  lemma CachedReads(uses: seq<Use>, plain: seq<Prop>)
    ensures forall p :: Reads(Misses([], plain, Owners(uses)), p) ==
              if FindSlot(uses, p, 0) >= 0 then (if Reads(plain, p) > 0 then 1 else 0) else Reads(plain, p)
  {
    forall p: Prop
      ensures Reads(Misses([], plain, Owners(uses)), p) ==
              if FindSlot(uses, p, 0) >= 0 then (if Reads(plain, p) > 0 then 1 else 0) else Reads(plain, p)
    {
      FindSlotFits(uses, p);
      assert FindSlot(uses, p, 0) >= 0 <==> Owned(p, Owners(uses));
      MissesReads([], plain, Owners(uses), p);
    }
  }

  lemma {:induction false} ReadsSame(log: seq<Prop>, p: Prop, q: Prop)
    requires SameProp(p, q)
    ensures Reads(log, p) == Reads(log, q)
  {
    if log != [] {
      ReadsSame(log[..|log| - 1], p, q);
    }
  }

  lemma {:induction false} AssignAllAt(es: seq<Expr>, uses: seq<Use>, i: nat)
    requires i < |es|
    ensures AssignAll(es, uses)[i] == Assign(es[i], uses)
  {
    if i > 0 {
      AssignAllAt(es[1..], uses, i - 1);
    }
  }
}
