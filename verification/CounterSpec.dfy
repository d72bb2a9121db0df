/**
 * What a dynamic statistics bucket means (runtime/dynstats.c): a bounded map from metric to a value and an age.
 * Dynstats.dfy proves that the hash tables and counter lists refine it.
 */
module CounterSpec {

  /** A metric touched since the last reset, or one that survived it untouched. */
  datatype Entry = Live(value: nat) | Survivor(value: nat)

  type Counters = map<string, Entry>

  /** An insert or a revival is refused exactly when the map is full. */
  predicate Refused(c: Counters, m: string, max: nat) { !(m in c && c[m].Live?) && |c| >= max }

  function Value(c: Counters, m: string): nat { if m in c then c[m].value else 0 }

  /** Adding to a metric makes it live. */
  function Bumped(c: Counters, m: string, n: nat): Counters { c[m := Live(Value(c, m) + n)] }

  function Add(c: Counters, m: string, n: nat, max: nat): Counters {
    if Refused(c, m, max) then c else Bumped(c, m, n)
  }

  /** A reset drops survivors and ages the rest. */
  function Reset(c: Counters): Counters { map m | m in c && c[m].Live? :: Survivor(c[m].value) }

  datatype Op = Inc(metric: string) | ResetAll

  function Step(c: Counters, op: Op, max: nat): Counters {
    match op
    case Inc(m) => if m == "" then c else Add(c, m, 1, max)
    case ResetAll => Reset(c)
  }

  /** A run of increments and resets, the latest first. */
  datatype Run = Begin | After(before: Run, op: Op)

  function State(run: Run, max: nat): Counters {
    match run
    case Begin => map[]
    case After(before, op) => Step(State(before, max), op, max)
  }

  /** No increment of this metric was refused. */
  predicate Unrefused(run: Run, max: nat, m: string) {
    match run
    case Begin => true
    case After(before, Inc(n)) => Unrefused(before, max, m) && (n == m ==> !Refused(State(before, max), m, max))
    case After(before, ResetAll) => Unrefused(before, max, m)
  }

  lemma ResetShrinks(c: Counters)
    ensures |Reset(c)| <= |c|
  {
    assert Reset(c).Keys <= c.Keys;
    Subset(Reset(c).Keys, c.Keys);
  }

  lemma {:induction false} Subset(a: set<string>, b: set<string>)
    requires a <= b
    ensures |a| <= |b|
    decreases |a|
  {
    if a != {} {
      var x :| x in a;
      Subset(a - {x}, b - {x});
    }
  }

  /** The bound holds over every run. */
  lemma {:induction false} Bounded(run: Run, max: nat)
    ensures |State(run, max)| <= max
  {
    match run
    case Begin =>
    case After(before, op) =>
      Bounded(before, max);
      match op
      case Inc(m) =>
        if m in State(before, max) {
          assert Bumped(State(before, max), m, 1).Keys == State(before, max).Keys;
        }
      case ResetAll => ResetShrinks(State(before, max));
  }

  // ----- one metric at a time -----

  /** Increments of one metric since it was last absent, looking only at that metric's increments and the resets. */
  function Tally(run: Run, m: string): nat {
    match run
    case Begin => 0
    case After(before, Inc(n)) => if n == m then (if Gone(before, m) then 0 else Tally(before, m)) + 1 else Tally(before, m)
    case After(before, ResetAll) => Tally(before, m)
  }

  /** Resets since the metric's last increment; two when it never had one. */
  function Age(run: Run, m: string): nat {
    match run
    case Begin => 2
    case After(before, Inc(n)) => if n == m then 0 else Age(before, m)
    case After(before, ResetAll) => Age(before, m) + 1
  }

  predicate Gone(run: Run, m: string) { Age(run, m) >= 2 }

  /** A metric that is not refused is not disturbed by others, refused or not: it is there for up to two resets with
      every increment counted. */
  lemma {:induction false} PerMetric(run: Run, max: nat, m: string)
    requires Unrefused(run, max, m) && m != ""
    ensures m in State(run, max) <==> !Gone(run, m)
    ensures !Gone(run, m) ==>
              State(run, max)[m] == if Age(run, m) == 0 then Live(Tally(run, m)) else Survivor(Tally(run, m))
  {
    match run
    case Begin =>
    case After(before, op) => PerMetric(before, max, m);
  }
}
