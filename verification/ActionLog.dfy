/**
 * What one worker does with one action (runtime/action.c), as a log of module calls and engine decisions,
 * and the laws such a log obeys. The engine itself is in ActionEngine.dfy.
 */
module ActionLog {

  /** The parameters of one message: one string per template. */
  type Msg = seq<string>

  datatype Ret =
    | RetOk | RetDefer | RetPrevious | RetSuspended | RetDisable | RetDataFail | RetFailed | RetForceTerm
    | RetOther(code: int)

  /** The answers that say a message was taken. */
  predicate Taken(r: Ret) { r.RetOk? || r.RetDefer? || r.RetPrevious? }

  /** The states of an action, for one worker. */
  datatype State = Rdy | Itx | Rtry | Susp | DataFail | Disabled

  datatype Call = TryResume | Begin | DoAction | CommitTx | EndTx

  datatype Event =
    | Called(call: Call, at: int, msgs: seq<Msg>, answer: Ret)
    | Suspend(at: int, delay: int)   // retry not before at + delay
    | Resume
    | Attempt(msg: Msg, ret: Ret)    // actionProcessMessage returned this result for the message
    | Skip(msg: Msg)                 // reported as taken without a doAction call
    | Ack(msgs: seq<Msg>)            // actionTryCommit returned OK for these messages
    | ErrorFile(msgs: seq<Msg>)
    | Tried(msg: Msg, ret: Ret)      // a message of a split batch was tried alone, with this result
    | Outcome(msg: Msg, ret: Ret)    // processMsgMain returned this result for the message
    | CommitEnded(ret: Ret)          // actionTryCommit returned
    | LoopStart                      // the retry loop of actionCommit begins
    | Round(commit: Ret, ret: Ret, state: State, disabled: bool)   // a round of it: how its commit, and then it, ended

  datatype Log = Start | Then(before: Log, event: Event)

  datatype Config = Config(interval: int, intervalMax: int, retryCount: int, transactional: bool, hasCommit: bool,
                           autoCommit: bool)

  function Min(a: int, b: int): int { if a < b then a else b }

  function Max(a: int, b: int): int { if a < b then b else a }

  // ----- back-off -----

  /** actionSuspend: the delay after n earlier suspensions in a row. */
  function Delay(cfg: Config, n: int): int {
    var d := cfg.interval * (n / 10 + 1);
    if cfg.intervalMax > 0 && d > cfg.intervalMax then cfg.intervalMax else d
  }

  /** Suspensions since the last successful resume. */
  function Retries(log: Log): nat {
    match log
    case Start => 0
    case Then(before, Suspend(_, _)) => Retries(before) + 1
    case Then(before, Resume) => 0
    case Then(before, _) => Retries(before)
  }

  /** The latest retry time set so far. */
  function Deadline(log: Log): int {
    match log
    case Start => 0
    case Then(before, Suspend(at, delay)) => Max(Deadline(before), at + delay)
    case Then(before, _) => Deadline(before)
  }

  // ----- books -----

  /** What a log says about the messages. */
  datatype Books = Books(
    given: seq<Msg>,            // handed to commitTransaction, or reported as taken by doAction or a skip, in order
    claimed: nat,               // how many of them lie before the latest acknowledgement
    attempts: seq<(Msg, Ret)>,  // messages of actionProcessMessage, with its results
    acked: seq<Msg>,
    filed: seq<Msg>,
    trials: seq<(Msg, Ret)>,    // messages tried alone, with their results
    results: seq<(Msg, Ret)>,   // messages of processMsgMain, with its results
    commits: seq<Ret>,          // results of actionTryCommit
    loops: nat,                 // retry loops begun
    rounds: nat,                // their rounds
    open: bool)                 // the retry loop of actionCommit may have another round

  function BooksOf(log: Log): (b: Books)
    ensures b.claimed <= |b.given|
  {
    match log
    case Start => Books([], 0, [], [], [], [], [], [], 0, 0, false)
    case Then(before, e) => Entered(BooksOf(before), e)
  }

  /**
   * Does the retry loop of actionCommit have another round after one that ended like this? It does if the commit was
   * suspended and the retry then worked, or if it ended with none of the final results and did not leave the action
   * ready, suspended or disabled.
   */
  predicate GoesOn(commit: Ret, ret: Ret, state: State, disabled: bool) {
    if commit.RetSuspended? then ret.RetOk?
    else
      && !ret.RetOk? && !ret.RetFailed? && !ret.RetDisable? && !ret.RetForceTerm?
      && !state.Rdy? && !state.Susp? && !state.Disabled? && !disabled
  }

  function Entered(b: Books, e: Event): Books {
    match e
    case Called(CommitTx, _, msgs, _) => b.(given := b.given + msgs)
    case Called(DoAction, _, msgs, answer) => b.(given := b.given + (if Taken(answer) then msgs else []))
    case Skip(msg) => b.(given := b.given + [msg])
    case Attempt(msg, ret) => b.(attempts := b.attempts + [(msg, ret)])
    case Ack(msgs) => b.(acked := b.acked + msgs, claimed := |b.given|)
    case ErrorFile(msgs) => b.(filed := b.filed + msgs)
    case Tried(msg, ret) => b.(trials := b.trials + [(msg, ret)])
    case Outcome(msg, ret) => b.(results := b.results + [(msg, ret)])
    case CommitEnded(ret) => b.(commits := b.commits + [ret])
    case LoopStart => b.(loops := b.loops + 1, open := true)
    case Round(commit, ret, state, disabled) => b.(rounds := b.rounds + 1, open := GoesOn(commit, ret, state, disabled))
    case _ => b
  }

  function Given(log: Log): seq<Msg> { BooksOf(log).given }

  function Claimed(log: Log): nat { BooksOf(log).claimed }

  function Attempts(log: Log): seq<(Msg, Ret)> { BooksOf(log).attempts }

  function Acked(log: Log): seq<Msg> { BooksOf(log).acked }

  function Filed(log: Log): seq<Msg> { BooksOf(log).filed }

  function Trials(log: Log): seq<(Msg, Ret)> { BooksOf(log).trials }

  function Results(log: Log): seq<(Msg, Ret)> { BooksOf(log).results }

  function Commits(log: Log): seq<Ret> { BooksOf(log).commits }

  function Loops(log: Log): nat { BooksOf(log).loops }

  function Rounds(log: Log): nat { BooksOf(log).rounds }

  predicate Open(log: Log) { BooksOf(log).open }

  // ----- module calls -----

  /** What a log says about the module. */
  datatype Talk = Talk(
    calls: nat,
    answer: Ret,                // to the latest call
    resumes: nat,               // calls of tryResume
    oddResumes: nat,            // those answered neither OK nor SUSPENDED nor DISABLE_ACTION
    misused: bool,              // a tryResume or beginTransaction answered with a code meant for doAction
    banned: bool)               // some call was answered DISABLE_ACTION

  function TalkOf(log: Log): Talk {
    match log
    case Start => Talk(0, RetOk, 0, 0, false, false)
    case Then(before, Called(call, _, _, answer)) => Heard(TalkOf(before), call, answer)
    case Then(before, _) => TalkOf(before)
  }

  function Heard(t: Talk, call: Call, answer: Ret): Talk {
    var odd := !answer.RetOk? && !answer.RetSuspended? && !answer.RetDisable?;
    Talk(t.calls + 1, answer,
         t.resumes + (if call.TryResume? then 1 else 0),
         t.oddResumes + (if call.TryResume? && odd then 1 else 0),
         t.misused || ((call.TryResume? || call.Begin?) && (answer.RetDefer? || answer.RetPrevious?)),
         t.banned || answer.RetDisable?)
  }

  function Calls(log: Log): nat { TalkOf(log).calls }

  function Answer(log: Log): Ret { TalkOf(log).answer }

  function Resumes(log: Log): nat { TalkOf(log).resumes }

  function OddResumes(log: Log): nat { TalkOf(log).oddResumes }

  /** The second log has at least the calls of the first. */
  predicate Later(a: Log, b: Log) { Calls(a) <= Calls(b) && Resumes(a) <= Resumes(b) }

  predicate Misused(log: Log) { TalkOf(log).misused }

  predicate Banned(log: Log) { TalkOf(log).banned }

  /** The module's latest answer says a message was taken. */
  predicate LastTaken(log: Log) { Calls(log) > 0 && Taken(Answer(log)) }

  function Skips(log: Log): nat {
    match log
    case Start => 0
    case Then(before, Skip(_)) => Skips(before) + 1
    case Then(before, _) => Skips(before)
  }

  // ----- laws -----

  /** The messages are the latest given ones, and none of them was acknowledged before. */
  predicate JustGiven(log: Log, msgs: seq<Msg>) {
    var given := Given(log);
    Claimed(log) + |msgs| <= |given| && given[|given| - |msgs|..] == msgs
  }

  predicate Allowed(log: Log, e: Event, cfg: Config) {
    match e
    case Called(_, at, _, _) => Deadline(log) <= at
    case Suspend(_, delay) => delay == Delay(cfg, Min(Retries(log), 20))
    case Ack(msgs) => JustGiven(log, msgs) && LastTaken(log)
    case Skip(_) => Misused(log)
    case Round(commit, ret, _, _) =>
      && Open(log) && Commits(log) != [] && commit == Commits(log)[|Commits(log)| - 1]
      && (!commit.RetSuspended? ==> ret == commit)
    case _ => true
  }

  predicate Lawful(log: Log, cfg: Config) {
    match log
    case Start => true
    case Then(before, e) => Lawful(before, cfg) && Allowed(before, e, cfg)
  }

  /** `early` is where the log `late` once stood. */
  predicate Precedes(early: Log, late: Log) { early == late || (late.Then? && Precedes(early, late.before)) }

  lemma {:induction false} DeadlineGrows(early: Log, late: Log)
    requires Precedes(early, late)
    ensures Deadline(early) <= Deadline(late)
  {
    if early != late {
      DeadlineGrows(early, late.before);
    }
  }

  /** Once suspended, no module call happens before the retry time. */
  lemma {:induction false} NoCallBeforeRetryTime(log: Log, cfg: Config, susp: Log, call: Log)
    requires Lawful(log, cfg) && Precedes(call, log)
    requires call.Then? && call.event.Called?
    requires Precedes(susp, call.before) && susp.Then? && susp.event.Suspend?
    ensures call.event.at >= susp.event.at + susp.event.delay
  {
    if call == log {
      DeadlineGrows(susp, call.before);
    } else {
      NoCallBeforeRetryTime(log.before, cfg, susp, call);
    }
  }

  lemma {:induction false} LawfulBefore(log: Log, cfg: Config, early: Log)
    requires Lawful(log, cfg) && Precedes(early, log)
    ensures Lawful(early, cfg)
  {
    if early != log {
      LawfulBefore(log.before, cfg, early);
    }
  }

  /** No resume succeeded between two points of a log. */
  predicate NoResume(early: Log, late: Log)
    requires Precedes(early, late)
  {
    early == late || (!late.event.Resume? && NoResume(early, late.before))
  }

  lemma {:induction false} RetriesGrow(early: Log, late: Log)
    requires Precedes(early, late) && NoResume(early, late)
    ensures Retries(early) <= Retries(late)
  {
    if early != late {
      RetriesGrow(early, late.before);
    }
  }

  lemma DelayGrows(cfg: Config, m: int, n: int)
    requires cfg.interval >= 0 && 0 <= m <= n <= 20
    ensures Delay(cfg, m) <= Delay(cfg, n)
    ensures Delay(cfg, m) <= 3 * cfg.interval
    ensures cfg.interval <= Delay(cfg, m) || Delay(cfg, m) == cfg.intervalMax
    ensures cfg.intervalMax > 0 ==> Delay(cfg, m) <= cfg.intervalMax
  {
    assert m / 10 == 0 || m / 10 == 1 || m / 10 == 2;
    assert n / 10 == 0 || n / 10 == 1 || n / 10 == 2;
  }

  /** Delays lie between one and three intervals, capped, and never shrink until a resume succeeds. */
  lemma BackOff(log: Log, cfg: Config, one: Log, two: Log)
    requires Lawful(log, cfg) && Precedes(two, log) && cfg.interval >= 0
    requires one.Then? && one.event.Suspend? && two.Then? && two.event.Suspend?
    requires Precedes(one, two.before) && NoResume(one, two.before)
    ensures one.event.delay <= two.event.delay <= 3 * cfg.interval
    ensures cfg.interval <= one.event.delay || one.event.delay == cfg.intervalMax
    ensures cfg.intervalMax > 0 ==> two.event.delay <= cfg.intervalMax
  {
    LawfulBefore(log, cfg, two);
    LawfulBefore(two.before, cfg, one);
    RetriesGrow(one, two.before);
    DelayGrows(cfg, Min(Retries(one.before), 20), Min(Retries(two.before), 20));
    DelayGrows(cfg, Min(Retries(two.before), 20), 20);
  }

  /** Suspensions between two points of a log. */
  function Suspensions(early: Log, late: Log): nat
    requires Precedes(early, late)
  {
    if early == late then 0 else Suspensions(early, late.before) + if late.event.Suspend? then 1 else 0
  }

  lemma {:induction false} RetriesCount(since: Log, late: Log)
    requires Precedes(since, late) && NoResume(since, late) && (since.Start? || since.event.Resume?)
    ensures Retries(late) == Suspensions(since, late)
  {
    if since != late {
      RetriesCount(since, late.before);
    }
  }

  /**
   * The ladder of delays: since the start or the last successful resume, the first ten suspensions wait one interval,
   * the next ten two, and every later one three, none longer than a positive maximum.
   */
  lemma DelayLadder(log: Log, cfg: Config, since: Log, susp: Log)
    requires Lawful(log, cfg) && Precedes(susp, log) && susp.Then? && susp.event.Suspend?
    requires Precedes(since, susp.before) && NoResume(since, susp.before) && (since.Start? || since.event.Resume?)
    ensures var n := Suspensions(since, susp.before);
            var wait := if n < 10 then cfg.interval else if n < 20 then 2 * cfg.interval else 3 * cfg.interval;
            susp.event.delay == if 0 < cfg.intervalMax < wait then cfg.intervalMax else wait
  {
    LawfulBefore(log, cfg, susp);
    RetriesCount(since, susp.before);
    DelayAfter(cfg, Retries(susp.before));
  }

  lemma DelayAfter(cfg: Config, n: nat)
    ensures var wait := if n < 10 then cfg.interval else if n < 20 then 2 * cfg.interval else 3 * cfg.interval;
            Delay(cfg, Min(n, 20)) == if 0 < cfg.intervalMax < wait then cfg.intervalMax else wait
  {
    assert Min(n, 20) / 10 == if n < 10 then 0 else if n < 20 then 1 else 2;
  }

  /** No new retry loop begins between two points of a log. */
  predicate SameLoop(early: Log, late: Log)
    requires Precedes(early, late)
  {
    early == late || (!late.event.LoopStart? && SameLoop(early, late.before))
  }

  lemma {:induction false} OpenMeans(late: Log, cfg: Config, one: Log)
    requires Lawful(late, cfg) && Precedes(one, late) && SameLoop(one, late) && Open(late)
    requires one.Then? && one.event.Round?
    ensures GoesOn(one.event.commit, one.event.ret, one.event.state, one.event.disabled)
  {
    if one != late {
      OpenMeans(late.before, cfg, one);
    }
  }

  /**
   * The retry loop of actionCommit ends when it should: a round that another one of the same loop follows had a
   * suspended commit whose retry worked, or it ended neither with OK, FAILED, DISABLE_ACTION nor FORCE_TERM and left the
   * action in its transaction, in retry or with a data failure, and not disabled.
   */
  lemma NoRoundAfterTheLast(log: Log, cfg: Config, one: Log, two: Log)
    requires Lawful(log, cfg) && Precedes(two, log)
    requires one.Then? && one.event.Round? && two.Then? && two.event.Round?
    requires Precedes(one, two.before) && SameLoop(one, two.before)
    ensures var e := one.event;
            if e.commit == RetSuspended then e.ret == RetOk
            else e.ret == e.commit && e.ret !in {RetOk, RetFailed, RetDisable, RetForceTerm}
                 && e.state in {Itx, Rtry, DataFail} && !e.disabled
  {
    LawfulBefore(log, cfg, two);
    LawfulBefore(two.before, cfg, one);
    OpenMeans(two.before, cfg, one);
  }

  /** Without a misused answer nothing is skipped: every taken message went through doAction. */
  lemma {:induction false} SkipNeedsMisuse(log: Log, cfg: Config)
    requires Lawful(log, cfg)
    ensures Skips(log) > 0 ==> Misused(log)
  {
    if log.Then? {
      SkipNeedsMisuse(log.before, cfg);
    }
  }

  /** The acknowledged messages are among those given before the latest acknowledgement, each delivery counted once. */
  predicate Covered(b: Books)
    requires b.claimed <= |b.given|
  {
    multiset(b.acked) <= multiset(b.given[..b.claimed])
  }

  lemma EnteredCovered(b: Books, e: Event)
    requires b.claimed <= |b.given| && Covered(b)
    requires e.Ack? ==> b.claimed + |e.msgs| <= |b.given| && b.given[|b.given| - |e.msgs|..] == e.msgs
    ensures Entered(b, e).claimed <= |Entered(b, e).given| && Covered(Entered(b, e))
  {
    if e.Ack? {
      Claim(b.acked, b.given, b.claimed, e.msgs);
      assert b.given[..|b.given|] == b.given;
    } else {
      assert Entered(b, e).given[..b.claimed] == b.given[..b.claimed];
    }
  }

  lemma Claim(acked: seq<Msg>, given: seq<Msg>, claimed: nat, msgs: seq<Msg>)
    requires claimed + |msgs| <= |given| && given[|given| - |msgs|..] == msgs
    requires multiset(acked) <= multiset(given[..claimed])
    ensures multiset(acked + msgs) <= multiset(given)
  {
    var rest := given[claimed..|given| - |msgs|];
    assert given == given[..claimed] + (rest + msgs);
    assert multiset(given) == multiset(given[..claimed]) + multiset(rest + msgs);
    assert multiset(rest + msgs) == multiset(rest) + multiset(msgs);
  }

  lemma {:induction false} AlwaysCovered(log: Log, cfg: Config)
    requires Lawful(log, cfg)
    ensures Covered(BooksOf(log))
  {
    if log.Then? {
      AlwaysCovered(log.before, cfg);
      EnteredCovered(BooksOf(log.before), log.event);
    }
  }

  /** Every acknowledgement has a hand-over of its own: no delivery is acknowledged twice. */
  lemma AckedWasGiven(log: Log, cfg: Config)
    requires Lawful(log, cfg)
    ensures multiset(Acked(log)) <= multiset(Given(log))
  {
    AlwaysCovered(log, cfg);
    PrefixCovers(multiset(Acked(log)), Given(log), Claimed(log));
  }

  lemma PrefixCovers(some: multiset<Msg>, all: seq<Msg>, n: nat)
    requires n <= |all| && some <= multiset(all[..n])
    ensures some <= multiset(all)
  {
    assert all == all[..n] + all[n..];
  }

  // ----- sorting the messages of a batch -----

  /** What splitting a batch did with one message, and whether the module was given it. */
  datatype Fate = Committed | Kept(given: bool) | Failed(given: bool)

  datatype Column = InCommitted | InKept | InFailed | InGiven

  predicate Belongs(f: Fate, c: Column) {
    match c
    case InCommitted => f.Committed?
    case InKept => f.Kept?
    case InFailed => f.Failed?
    case InGiven => f.Committed? || f.given
  }

  /** The messages of one column, in batch order; messages without a fate are left out. */
  function Pick(msgs: seq<Msg>, fates: seq<Fate>, c: Column): seq<Msg>
    requires |fates| <= |msgs|
    decreases |fates|
  {
    if fates == [] then []
    else
      var k := |fates| - 1;
      Pick(msgs, fates[..k], c) + (if Belongs(fates[k], c) then [msgs[k]] else [])
  }

  lemma PickNext(msgs: seq<Msg>, fates: seq<Fate>, f: Fate, c: Column)
    requires |fates| < |msgs|
    ensures Pick(msgs, fates + [f], c) == Pick(msgs, fates, c) + (if Belongs(f, c) then [msgs[|fates|]] else [])
  {
    assert (fates + [f])[..|fates|] == fates;
  }

  /** The same, behind earlier messages. */
  lemma PickAfter(base: seq<Msg>, msgs: seq<Msg>, fates: seq<Fate>, f: Fate, c: Column)
    requires |fates| < |msgs|
    ensures base + Pick(msgs, fates + [f], c) == base + Pick(msgs, fates, c) + (if Belongs(f, c) then [msgs[|fates|]] else [])
  {
    PickNext(msgs, fates, f, c);
    assert forall x, y: seq<Msg> :: base + (x + y) == base + x + y;
  }

  function Plus(x: multiset<Msg>, m: Msg, b: bool): multiset<Msg> { if b then x + multiset{m} else x }

  lemma PickCounts(msgs: seq<Msg>, fates: seq<Fate>, c: Column)
    requires |fates| < |msgs|
    ensures forall f :: multiset(Pick(msgs, fates + [f], c))
                     == Plus(multiset(Pick(msgs, fates, c)), msgs[|fates|], Belongs(f, c))
  {
    forall f
      ensures multiset(Pick(msgs, fates + [f], c))
           == Plus(multiset(Pick(msgs, fates, c)), msgs[|fates|], Belongs(f, c))
    {
      PickNext(msgs, fates, f, c);
    }
  }

  lemma PlusOne(x: multiset<Msg>, y: multiset<Msg>, z: multiset<Msg>, m: Msg, f: Fate)
    ensures Plus(x, m, f.Committed?) + Plus(y, m, f.Kept?) + Plus(z, m, f.Failed?) == Plus(x + y + z, m, true)
  {}

  /** Sorting a batch loses and duplicates no message. */
  lemma {:induction false} SortingConserves(msgs: seq<Msg>, fates: seq<Fate>)
    requires |fates| <= |msgs|
    ensures multiset(Pick(msgs, fates, InCommitted)) + multiset(Pick(msgs, fates, InKept))
            + multiset(Pick(msgs, fates, InFailed)) == multiset(msgs[..|fates|])
    decreases |fates|
  {
    if fates != [] {
      var k := |fates| - 1;
      var init, f := fates[..k], fates[k];
      assert fates == init + [f];
      SortingConserves(msgs, init);
      PickCounts(msgs, init, InCommitted);
      PickCounts(msgs, init, InKept);
      PickCounts(msgs, init, InFailed);
      PlusOne(multiset(Pick(msgs, init, InCommitted)), multiset(Pick(msgs, init, InKept)),
              multiset(Pick(msgs, init, InFailed)), msgs[k], f);
      TakeOne(msgs, k);
    }
  }

  lemma TakeOne(msgs: seq<Msg>, k: nat)
    requires k < |msgs|
    ensures multiset(msgs[..k + 1]) == Plus(multiset(msgs[..k]), msgs[k], true)
  {
    assert msgs[..k + 1] == msgs[..k] + [msgs[k]];
  }

  /** The first messages of a batch with their results. */
  function Judged(msgs: seq<Msg>, rets: seq<Ret>): (r: seq<(Msg, Ret)>)
    requires |rets| <= |msgs|
    ensures |r| == |rets|
    decreases |rets|
  {
    if rets == [] then []
    else
      var k := |rets| - 1;
      Judged(msgs, rets[..k]) + [(msgs[k], rets[k])]
  }

  lemma JudgedNext(base: seq<(Msg, Ret)>, msgs: seq<Msg>, rets: seq<Ret>, r: Ret)
    requires |rets| < |msgs|
    ensures base + Judged(msgs, rets) + [(msgs[|rets|], r)] == base + Judged(msgs, rets + [r])
  {
    assert (rets + [r])[..|rets|] == rets;
  }

  /** Committed on OK, kept on SUSPENDED, failed on anything else but a forced termination, which leaves no fate. */
  predicate Fits(f: Fate, r: Ret) {
    if r.RetOk? then f.Committed? else if r.RetSuspended? then f.Kept? else f.Failed? && !r.RetForceTerm?
  }

  /** Tried messages have the fate their result asks for; untried ones are kept. */
  predicate Judges(fates: seq<Fate>, rets: seq<Ret>) {
    forall k :: 0 <= k < |fates| ==> if k < |rets| then Fits(fates[k], rets[k]) else fates[k] == Kept(false)
  }

  lemma JudgesNext(fates: seq<Fate>, rets: seq<Ret>, r: Ret)
    requires |fates| == |rets| && Judges(fates, rets)
    ensures Judges(fates, rets + [r])
    ensures forall f :: Fits(f, r) ==> Judges(fates + [f], rets + [r])
  {}

  lemma JudgesRest(fates: seq<Fate>, all: seq<Fate>, rets: seq<Ret>, r: Ret)
    requires |fates| == |rets| < |all| && Judges(fates, rets) && r.RetSuspended?
    requires fates <= all && forall k :: |fates| <= k < |all| ==> all[k] == Kept(false)
    ensures Judges(all, rets + [r])
  {}

  predicate Fails(r: Ret) { !r.RetOk? && !r.RetSuspended? && !r.RetForceTerm? }

  /** The messages of the trials behind the first n that failed. */
  function FailedSince(n: nat, trials: seq<(Msg, Ret)>): seq<Msg>
    decreases |trials|
  {
    if |trials| <= n then []
    else
      var k := |trials| - 1;
      FailedSince(n, trials[..k]) + (if Fails(trials[k].1) then [trials[k].0] else [])
  }

  lemma {:induction false} FailedNext(n: nat, trials: seq<(Msg, Ret)>, t: (Msg, Ret))
    requires n <= |trials|
    ensures FailedSince(n, trials + [t]) == FailedSince(n, trials) + (if Fails(t.1) then [t.0] else [])
  {
    assert (trials + [t])[..|trials|] == trials;
  }

  lemma {:induction false} FailedFit(base: seq<(Msg, Ret)>, msgs: seq<Msg>, fates: seq<Fate>, rets: seq<Ret>)
    requires |fates| == |rets| <= |msgs| && Judges(fates, rets)
    ensures FailedSince(|base|, base + Judged(msgs, rets)) == Pick(msgs, fates, InFailed)
    decreases |fates|
  {
    if fates != [] {
      var k := |fates| - 1;
      FailedFit(base, msgs, fates[..k], rets[..k]);
      FailedNext(|base|, base + Judged(msgs, rets[..k]), (msgs[k], rets[k]));
      assert base + Judged(msgs, rets) == base + Judged(msgs, rets[..k]) + [(msgs[k], rets[k])];
    }
  }

  lemma {:induction false} KeptNotFailed(msgs: seq<Msg>, fates: seq<Fate>, k: nat)
    requires k <= |fates| <= |msgs| && forall i :: k <= i < |fates| ==> fates[i] == Kept(false)
    ensures Pick(msgs, fates, InFailed) == Pick(msgs, fates[..k], InFailed)
    decreases |fates|
  {
    if k == |fates| {
      assert fates[..k] == fates;
    } else {
      var init := fates[..|fates| - 1];
      KeptNotFailed(msgs, init, k);
      assert init[..k] == fates[..k];
    }
  }

  /** The failed messages of a split are exactly those whose trial failed. */
  lemma FailedWereTried(base: seq<(Msg, Ret)>, msgs: seq<Msg>, fates: seq<Fate>, rets: seq<Ret>)
    requires |fates| <= |msgs| && |rets| <= |msgs| && Judges(fates, rets)
    requires |rets| <= |fates| || (|rets| == |fates| + 1 && rets[|fates|].RetForceTerm?)
    ensures Pick(msgs, fates, InFailed) == FailedSince(|base|, base + Judged(msgs, rets))
  {
    if |rets| <= |fates| {
      FailedFit(base, msgs, fates[..|rets|], rets);
      KeptNotFailed(msgs, fates, |rets|);
    } else {
      var k := |fates|;
      FailedFit(base, msgs, fates, rets[..k]);
      FailedNext(|base|, base + Judged(msgs, rets[..k]), (msgs[k], rets[k]));
      assert base + Judged(msgs, rets) == base + Judged(msgs, rets[..k]) + [(msgs[k], rets[k])];
    }
  }

  // ----- attempts of the legacy transaction loop -----

  /** What became of one message: its last result, and whether a suspended attempt came before. */
  datatype Try = Try(twice: bool, ret: Ret)

  /** The first messages of a batch in order, each once, or twice in a row where the first attempt was suspended. */
  function Attempted(msgs: seq<Msg>, tries: seq<Try>): seq<(Msg, Ret)>
    requires |tries| <= |msgs|
    decreases |tries|
  {
    if tries == [] then []
    else
      var k := |tries| - 1;
      Attempted(msgs, tries[..k])
      + ((if tries[k].twice then [(msgs[k], RetSuspended)] else []) + [(msgs[k], tries[k].ret)])
  }

  /** One more attempt, in the books. */
  lemma AttemptedNext(base: seq<(Msg, Ret)>, msgs: seq<Msg>, tries: seq<Try>, t: Try)
    requires |tries| < |msgs|
    ensures base + Attempted(msgs, tries) + (if t.twice then [(msgs[|tries|], RetSuspended)] else []) + [(msgs[|tries|], t.ret)]
         == base + Attempted(msgs, tries + [t])
  {
    var first := if t.twice then [(msgs[|tries|], RetSuspended)] else [];
    assert (tries + [t])[..|tries|] == tries;
    Regroup(base, Attempted(msgs, tries), first, [(msgs[|tries|], t.ret)]);
  }

  lemma Regroup(a: seq<(Msg, Ret)>, b: seq<(Msg, Ret)>, c: seq<(Msg, Ret)>, d: seq<(Msg, Ret)>)
    ensures a + b + c + d == a + (b + (c + d))
  {}

  /** All taken, except perhaps the last, which was attempted twice if it ended suspended. */
  predicate TakenInTurn(tries: seq<Try>, taken: nat, ret: Ret) {
    && taken <= |tries| <= taken + 1
    && (forall k :: 0 <= k < taken ==> Taken(tries[k].ret))
    && (taken < |tries| ==>
          && tries[taken].ret == ret && !Taken(ret) && (ret == RetSuspended ==> tries[taken].twice))
  }

  /** One more message, in the books. */
  lemma TakenNext(base: seq<Msg>, msgs: seq<Msg>, i: nat)
    requires i < |msgs|
    ensures base + msgs[..i] + [msgs[i]] == base + msgs[..i + 1]
  {
    assert msgs[..i + 1] == msgs[..i] + [msgs[i]];
  }

  lemma AllGiven(base: seq<Msg>, msgs: seq<Msg>)
    ensures base + msgs[..|msgs|] == base + msgs && base + msgs[..0] == base
  {
    assert msgs[..|msgs|] == msgs;
  }
}
