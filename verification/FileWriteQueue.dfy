/** The queue of state-file writes and its single writer thread (runtime/dynstats.c). */
module FileWriteQueue {

  datatype Task = Task(bucket: nat, name: string, content: string)

  // ----- the queue as a value -----

  /** The first queued task of a bucket, or the length of the queue. */
  function Find(q: seq<Task>, b: nat, from: nat): (k: nat)
    requires from <= |q|
    ensures from <= k <= |q|
    ensures k < |q| ==> q[k].bucket == b
    ensures forall i :: from <= i < k ==> q[i].bucket != b
    decreases |q| - from
  {
    if from == |q| || q[from].bucket == b then from else Find(q, b, from + 1)
  }

  /** A bucket that is already queued only gets its content replaced. */
  function Put(q: seq<Task>, t: Task): seq<Task> {
    var k := Find(q, t.bucket, 0);
    if k < |q| then q[k := q[k].(content := t.content)] else q + [t]
  }

  /** At most one task per bucket. */
  predicate Distinct(q: seq<Task>) { forall i, j :: 0 <= i < j < |q| ==> q[i].bucket != q[j].bucket }

  lemma PutDistinct(q: seq<Task>, t: Task)
    requires Distinct(q)
    ensures Distinct(Put(q, t))
  {}

  /** What waits for a bucket. */
  function Queued(q: seq<Task>, b: nat): seq<string> {
    if q == [] then [] else (if q[0].bucket == b then [q[0].content] else []) + Queued(q[1..], b)
  }

  lemma {:induction false} QueuedAppend(q: seq<Task>, t: Task, b: nat)
    ensures Queued(q + [t], b) == Queued(q, b) + (if t.bucket == b then [t.content] else [])
  {
    if q != [] {
      assert (q + [t])[1..] == q[1..] + [t];
      QueuedAppend(q[1..], t, b);
    }
  }

  lemma {:induction false} QueuedNone(q: seq<Task>, b: nat)
    requires forall i :: 0 <= i < |q| ==> q[i].bucket != b
    ensures Queued(q, b) == []
  {
    if q != [] {
      QueuedNone(q[1..], b);
    }
  }

  lemma {:induction false} QueuedReplace(q: seq<Task>, k: nat, c: string, b: nat)
    requires Distinct(q) && k < |q|
    ensures Queued(q[k := q[k].(content := c)], b) == if q[k].bucket == b then [c] else Queued(q, b)
    ensures q[k].bucket == b ==> Queued(q, b) == [q[k].content]
  {
    var r := q[k := q[k].(content := c)];
    if k == 0 {
      assert r[1..] == q[1..];
      if q[0].bucket == b { QueuedNone(q[1..], b); }
    } else {
      assert r[1..] == q[1..][k - 1 := q[1..][k - 1].(content := c)];
      QueuedReplace(q[1..], k - 1, c, b);
    }
  }

  /** A put leaves its content as the only one waiting for its bucket, and other buckets alone. */
  lemma PutQueued(q: seq<Task>, t: Task, b: nat)
    requires Distinct(q)
    ensures Queued(Put(q, t), b) == if t.bucket == b then [t.content] else Queued(q, b)
    ensures |Queued(q, t.bucket)| <= 1
  {
    var k := Find(q, t.bucket, 0);
    if k < |q| {
      QueuedReplace(q, k, t.content, b);
      QueuedReplace(q, k, t.content, t.bucket);
    } else {
      QueuedNone(q, t.bucket);
      QueuedAppend(q, t, b);
    }
  }

  // ----- the queue as it is kept in memory -----

  class WorkQueue {
    var tasks: seq<Task>
    var size: int

    ghost predicate Valid()
      reads this
    {
      size == |tasks| && Distinct(tasks)
    }

    constructor ()
      ensures Valid() && tasks == []
    {
      tasks, size := [], 0;
    }

    /** enqueueFileWriteTask; `allocOk` is whether its allocations succeed. */
    method Enqueue(t: Task, allocOk: bool) returns (ok: bool)
      requires Valid()
      modifies this
      ensures Valid() && ok == allocOk
      ensures tasks == if ok then Put(old(tasks), t) else old(tasks)
    {
      PutDistinct(tasks, t);
      ok := allocOk;
      var i := 0;
      while i < |tasks|
        invariant 0 <= i <= |tasks| && Find(tasks, t.bucket, 0) == Find(tasks, t.bucket, i)
      {
        if tasks[i].bucket == t.bucket {
          if allocOk { tasks := tasks[i := tasks[i].(content := t.content)]; }
          return;
        }
        i := i + 1;
      }
      if allocOk {
        tasks := tasks + [t];
        size := size + 1;
      }
    }

    /** The part of fileWriteWorker under the lock. */
    method Take() returns (got: bool, t: Task)
      requires Valid()
      modifies this
      ensures Valid() && got == (old(tasks) != [])
      ensures got ==> old(tasks) == [t] + tasks
      ensures !got ==> tasks == []
    {
      got, t := size > 0, Task(0, "", "");
      if got {
        t := tasks[0];
        tasks := tasks[1..];
        size := size - 1;
      }
    }
  }

  // ----- all interleavings of enqueuers and the writer -----

  datatype Held = Nothing | Holding(task: Task)

  datatype Sys = Sys(queue: seq<Task>, held: Held, enqueued: seq<Task>, written: seq<Task>)

  datatype Move = Enq(task: Task) | TakeTask | WriteTask

  /** One critical section of some thread, or the writer's write outside the lock. */
  function Step(s: Sys, m: Move): Sys {
    match m
    case Enq(t) => s.(queue := Put(s.queue, t), enqueued := s.enqueued + [t])
    case TakeTask => if s.held.Nothing? && s.queue != [] then s.(queue := s.queue[1..], held := Holding(s.queue[0])) else s
    case WriteTask => if s.held.Holding? then s.(held := Nothing, written := s.written + [s.held.task]) else s
  }

  datatype Run = Begin | After(before: Run, move: Move)

  function State(run: Run): Sys {
    match run
    case Begin => Sys([], Nothing, [], [])
    case After(before, m) => Step(State(before), m)
  }

  // ----- in-order subsequences -----

  predicate Sub(a: seq<string>, b: seq<string>)
    decreases |b|
  {
    a == [] || (b != [] && (Sub(a, b[..|b| - 1]) || (a[|a| - 1] == b[|b| - 1] && Sub(a[..|a| - 1], b[..|b| - 1]))))
  }

  lemma SubSkip(a: seq<string>, b: seq<string>, x: string)
    requires Sub(a, b)
    ensures Sub(a, b + [x])
  {
    assert (b + [x])[..|b|] == b;
  }

  lemma SubBoth(a: seq<string>, b: seq<string>, x: string)
    requires Sub(a, b)
    ensures Sub(a + [x], b + [x])
  {
    assert (b + [x])[..|b|] == b && (a + [x])[..|a|] == a;
  }

  lemma {:induction false} SubInit(a: seq<string>, b: seq<string>)
    requires Sub(a, b) && a != []
    ensures Sub(a[..|a| - 1], b)
    decreases |b|
  {
    var init := b[..|b| - 1];
    if Sub(a, init) {
      SubInit(a, init);
    }
    SubSkip(a[..|a| - 1], init, b[|b| - 1]);
    assert init + [b[|b| - 1]] == b;
  }

  // ----- what is on its way for a bucket -----

  function HeldFor(h: Held, b: nat): seq<string> {
    if h.Holding? && h.task.bucket == b then [h.task.content] else []
  }

  /** Written, then held by the writer, then queued. */
  function Pipeline(s: Sys, b: nat): seq<string> {
    Queued(s.written, b) + HeldFor(s.held, b) + Queued(s.queue, b)
  }

  /** The pipeline is an in-order subsequence of what was enqueued, up to and including the latest. */
  predicate InOrder(s: Sys, b: nat) {
    var p, e := Pipeline(s, b), Queued(s.enqueued, b);
    Sub(p, e) && (p == [] <==> e == []) && (p != [] ==> p[|p| - 1] == e[|e| - 1])
  }

  lemma EnqueueKeeps(s: Sys, t: Task, b: nat)
    requires Distinct(s.queue) && InOrder(s, b)
    ensures InOrder(Step(s, Enq(t)), b)
  {
    var p, e := Pipeline(s, b), Queued(s.enqueued, b);
    var s' := Step(s, Enq(t));
    PutQueued(s.queue, t, b);
    QueuedAppend(s.enqueued, t, b);
    if t.bucket == b {
      var front := Queued(s.written, b) + HeldFor(s.held, b);
      var q := Queued(s.queue, b);
      assert Sub(front, e) by {
        if q != [] {
          SubInit(p, e);
          assert p[..|p| - 1] == front;
        } else {
          assert p == front;
        }
      }
      SubBoth(front, e, t.content);
      assert Pipeline(s', b) == front + [t.content];
    } else {
      assert Pipeline(s', b) == p && Queued(s'.enqueued, b) == e;
    }
  }

  lemma {:induction false} TakeKeeps(s: Sys, b: nat)
    ensures Pipeline(Step(s, TakeTask), b) == Pipeline(s, b)
  {}

  lemma {:induction false} WriteKeeps(s: Sys, b: nat)
    ensures Pipeline(Step(s, WriteTask), b) == Pipeline(s, b)
  {
    if s.held.Holding? {
      QueuedAppend(s.written, s.held.task, b);
    }
  }

  lemma {:induction false} StepKeeps(s: Sys, m: Move, b: nat)
    requires Distinct(s.queue) && InOrder(s, b)
    ensures Distinct(Step(s, m).queue) && InOrder(Step(s, m), b)
  {
    match m
    case Enq(t) =>
      PutDistinct(s.queue, t);
      EnqueueKeeps(s, t, b);
    case TakeTask => TakeKeeps(s, b);
    case WriteTask => WriteKeeps(s, b);
  }

  /** Over every interleaving there is at most one task per bucket, and writes follow the enqueued order. */
  lemma {:induction false} EveryRun(run: Run, b: nat)
    ensures Distinct(State(run).queue) && InOrder(State(run), b)
  {
    match run
    case Begin =>
    case After(before, m) =>
      EveryRun(before, b);
      StepKeeps(State(before), m, b);
  }

  /** Contents written for a bucket are an in-order subsequence of those enqueued. */
  lemma WrittenInOrder(run: Run, b: nat)
    ensures Sub(Queued(State(run).written, b), Queued(State(run).enqueued, b))
  {
    EveryRun(run, b);
    var s := State(run);
    assert Pipeline(s, b) == Queued(s.written, b) + (HeldFor(s.held, b) + Queued(s.queue, b));
    PrefixSub(Queued(s.written, b), HeldFor(s.held, b) + Queued(s.queue, b), Queued(s.enqueued, b));
  }

  lemma {:induction false} PrefixSub(a: seq<string>, rest: seq<string>, b: seq<string>)
    requires Sub(a + rest, b)
    ensures Sub(a, b)
    decreases |rest|
  {
    if rest == [] {
      assert a + rest == a;
    } else {
      var init := rest[..|rest| - 1];
      SubInit(a + rest, b);
      assert (a + rest)[..|a + rest| - 1] == a + init;
      PrefixSub(a, init, b);
    }
  }

  /** After a drain the last content written for a bucket is the last one enqueued for it. */
  lemma DrainedIsUpToDate(run: Run, b: nat)
    requires State(run).queue == [] && State(run).held == Nothing
    ensures var w, e := Queued(State(run).written, b), Queued(State(run).enqueued, b);
            (w == [] <==> e == []) && (e != [] ==> w[|w| - 1] == e[|e| - 1])
  {
    EveryRun(run, b);
    assert Pipeline(State(run), b) == Queued(State(run).written, b);
  }
}
