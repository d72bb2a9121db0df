/**
 * The action engine of one worker (runtime/action.c). The output module, the clock, the shutdown flag and other
 * workers' use of the disable flag are an environment that may answer anything at every step.
 */
module ActionEngine {
  import opened ActionLog

  /**
   * What the engine reads from outside, indexed by a step counter: module answers, the clock, the shutdown flag
   * and a disable by another worker. Shutdown is requested at the latest at the horizon.
   */
  datatype Env = Env(answer: nat -> Ret, now: nat -> nat, down: nat -> bool, disable: nat -> bool, horizon: nat)

  ghost predicate Monotone(now: nat -> nat) { forall s: nat, t: nat :: s <= t ==> now(s) <= now(t) }

  ghost predicate ValidEnv(env: Env) {
    && Monotone(env.now)
    && forall t: nat :: t >= env.horizon ==> env.down(t)
  }

  /** The message books read the same. */
  predicate SameBooks(a: Log, b: Log) {
    BooksOf(a) == BooksOf(b)
  }

  predicate SameAcks(a: Log, b: Log) { Acked(a) == Acked(b) && Claimed(a) == Claimed(b) }

  predicate SameFiles(a: Log, b: Log) { KeptFiles(a, b) && Commits(a) == Commits(b) }

  predicate KeptFiles(a: Log, b: Log) { Filed(a) == Filed(b) && SameTrials(a, b) && SameLoops(a, b) }

  predicate SameLoops(a: Log, b: Log) { Loops(a) == Loops(b) && Rounds(a) == Rounds(b) && Open(a) == Open(b) }

  /** One round for every commit. */
  predicate RoundPerCommit(a: Log, b: Log) { Rounds(b) - Rounds(a) == |Commits(b)| - |Commits(a)| }

  predicate SameTrials(a: Log, b: Log) { Trials(a) == Trials(b) && Results(a) == Results(b) }

  /** They read the same but for the results of processMsgMain. */
  predicate SameButResults(a: Log, b: Log) { BooksOf(a) == BooksOf(b).(results := Results(a)) }

  /** How a round of the retry loop ends: the loop is over, goes on at once, goes on after a sleep, leaves the sleep to
      the caller, or is ended by a shutdown seen after the sleep. */
  datatype Turn = Over | Again | Slept | Deferred | Killed

  class Engine {
    const cfg: Config
    const env: Env
    var state: State
    var resumeInRow: nat
    var nbrResRtry: int
    var hadAutoCommit: bool
    var disabled: bool
    var resumeAt: int
    var pending: seq<Msg>
    var tick: nat
    ghost var log: Log
    ghost var lastDown: int    // the step of the latest test that saw the shutdown flag set
    ghost var disabledAt: int  // the step of the latest test that saw another worker's disable

    ghost predicate Base()
      reads this
    {
      && ValidEnv(env)
      && lastDown < tick && (lastDown >= 0 ==> env.down(lastDown))
      && Lawful(log, cfg)
      && disabledAt < tick && (disabledAt >= 0 ==> env.disable(disabledAt))
      && (state.Disabled? ==> disabled) && (disabled ==> disabledAt >= 0 || Banned(log))
      && (!state.Susp? && !state.Disabled? ==> Deadline(log) <= env.now(tick))
      && (state.Susp? ==> Deadline(log) <= Max(env.now(tick), resumeAt))
      && (state.Rdy? || state.Itx? || state.DataFail? ==> Retries(log) == 0)
      && resumeInRow <= (if state.Rtry? || state.Disabled? then 10 else 9)
    }

    ghost predicate Valid()
      reads this
    {
      Base() && nbrResRtry == Min(Retries(log), 20)
    }

    /** A test since step `from` saw the shutdown flag set. */
    ghost predicate SawDown(from: nat)
      reads `lastDown
    {
      from <= lastDown
    }

    /** A result read off the action's state, or the module's own answer to a call after the first `calls`; an answer
        that suspends or disables the action shows in its state. */
    ghost predicate Reason(ret: Ret, calls: nat)
      reads `log, `state
    {
      || (Calls(log) > calls && Answer(log) == ret && !ret.RetSuspended? && !ret.RetDisable?)
      || (ret.RetSuspended? && (state.Rtry? || state.Susp? || (state.Disabled? && Calls(log) > calls && Answer(log) == ret)))
      || (ret.RetFailed? && state.Susp?)
      || (ret.RetDisable? && state.Disabled?)
      || (ret.RetDataFail? && state.DataFail?)
      || ((ret.RetDefer? || ret.RetPrevious?) && state.Itx?)
    }

    /** Why a result is not OK: such a reason, or a shutdown seen since `from`. */
    ghost predicate Explained(ret: Ret, from: nat, calls: nat)
      reads `log, `state, `lastDown
    {
      Reason(ret, calls) || (ret.RetForceTerm? && SawDown(from))
    }

    constructor (cfg: Config, env: Env)
      requires ValidEnv(env)
      ensures Valid() && fresh(this) && log == Start && pending == [] && this.cfg == cfg && this.env == env
    {
      this.cfg := cfg;
      this.env := env;
      state := Rdy;
      resumeInRow := 0;
      nbrResRtry := 0;
      hadAutoCommit := false;
      disabled := false;
      resumeAt := 0;
      pending := [];
      tick := 0;
      log := Start;
      lastDown := -1;
      disabledAt := -1;
    }

    // ----- steps of the environment -----

    /** Any entry point of the output module. */
    method Ask(call: Call, msgs: seq<Msg>) returns (answer: Ret)
      requires Base() && !state.Susp? && !state.Disabled?
      modifies `tick, `log
      ensures Base() && tick == old(tick) + 1
      ensures answer == env.answer(old(tick))
      ensures log == Then(old(log), Called(call, env.now(old(tick)), msgs, answer))
    {
      answer := env.answer(tick);
      log := Then(log, Called(call, env.now(tick), msgs, answer));
      tick := tick + 1;
    }

    /** wtiIsShutdownImmediate */
    method IsShutdown() returns (down: bool)
      requires Base()
      modifies `tick, `lastDown
      ensures Base() && tick == old(tick) + 1
      ensures down == env.down(old(tick)) && lastDown == if down then old(tick) else old(lastDown)
      ensures !down ==> old(tick) < env.horizon
    {
      down := env.down(tick);
      if down { lastDown := tick; }
      tick := tick + 1;
    }

    /** actionIsDisabled */
    method IsDisabled() returns (d: bool)
      requires Base()
      modifies `tick, `disabled, `disabledAt
      ensures Base() && tick == old(tick) + 1
      ensures d == disabled == (old(disabled) || env.disable(old(tick)))
    {
      if env.disable(tick) { disabled, disabledAt := true, tick; }
      tick := tick + 1;
      d := disabled;
    }

    // ----- state changes -----

    /** actionDisableForWorker: only for an action that another worker has disabled or whose module asked for it. */
    method DisableForWorker()
      requires Base() && (disabled || Banned(log))
      modifies `state, `disabled
      ensures Base() && state == Disabled && disabled
    {
      disabled := true;
      state := Disabled;
    }

    /** actionRetry */
    method Retry()
      requires Base() && !state.Susp? && !state.Disabled? && !state.Rtry?
      modifies `tick, `state, `disabled, `disabledAt, `resumeInRow
      ensures Base() && tick > old(tick) && (old(disabled) ==> disabled)
      ensures if disabled then state == Disabled else state == Rtry && resumeInRow == old(resumeInRow) + 1
    {
      var d := IsDisabled();
      if d {
        DisableForWorker();
        return;
      }
      state := Rtry;
      resumeInRow := (resumeInRow + 1) % 0x1_0000;
    }

    /** actionSuspend, with the retry count its two callers advance. */
    method Suspend()
      requires Valid() && state == Rtry && resumeInRow <= 9
      modifies `tick, `log, `state, `resumeAt, `nbrResRtry
      ensures Valid() && state == Susp && tick > old(tick)
      ensures log == Then(old(log), Event.Suspend(env.now(old(tick)), Delay(cfg, old(nbrResRtry))))
      ensures resumeAt == env.now(old(tick)) + Delay(cfg, old(nbrResRtry))
      ensures SameBooks(log, old(log)) && TalkOf(log) == old(TalkOf(log))
    {
      var now := env.now(tick);
      tick := tick + 1;
      var duration := cfg.interval * (nbrResRtry / 10 + 1);
      if cfg.intervalMax > 0 && duration > cfg.intervalMax {
        duration := cfg.intervalMax;
      }
      resumeAt := now + duration;
      state := Susp;
      log := Then(log, Event.Suspend(now, duration));
      if nbrResRtry < 20 { nbrResRtry := nbrResRtry + 1; }
    }

    /** getReturnCode */
    method ReturnCode() returns (ret: Ret)
      modifies `hadAutoCommit
      ensures state.Itx? ==> ret == if old(hadAutoCommit) then RetPrevious else RetDefer
      ensures state.Itx? ==> !hadAutoCommit
      ensures state.Rdy? <==> ret == RetOk
      ensures state.Rtry? <==> ret == RetSuspended
      ensures state.Susp? <==> ret == RetFailed
      ensures state.DataFail? <==> ret == RetDataFail
      ensures state.Disabled? <==> ret == RetDisable
    {
      match state
      case Rdy => ret := RetOk;
      case Itx =>
        ret := if hadAutoCommit then RetPrevious else RetDefer;
        hadAutoCommit := false;
      case Rtry => ret := RetSuspended;
      case Susp => ret := RetFailed;
      case DataFail => ret := RetDataFail;
      case Disabled => ret := RetDisable;
    }

    // ----- retry -----

    /** The module's tryResume, read as SUSPENDED after every ten resumes in a row without a success. */
    method AskResume() returns (ret: Ret)
      requires Valid() && state == Rtry
      modifies `tick, `log, `resumeInRow
      ensures Valid() && tick == old(tick) + 1
      ensures SameBooks(log, old(log)) && Resumes(log) == old(Resumes(log)) + 1
      ensures OddResumes(log) == old(OddResumes(log))
              || (OddResumes(log) == old(OddResumes(log)) + 1 && !ret.RetOk? && !ret.RetDisable?)
      ensures !ret.RetOk? && !ret.RetSuspended? && !ret.RetDisable? ==> OddResumes(log) == old(OddResumes(log)) + 1
      ensures ret.RetDisable? ==> Banned(log)
      ensures ret.RetDefer? || ret.RetPrevious? ==> Misused(log) && LastTaken(log)
      ensures Calls(log) == old(Calls(log)) + 1 && Answer(log) == env.answer(old(tick))
      ensures if old(resumeInRow) == 10 then ret == RetSuspended && resumeInRow == 0
              else ret == Answer(log) && resumeInRow == old(resumeInRow)
    {
      ret := Ask(TryResume, []);
      if resumeInRow > 9 && resumeInRow % 10 == 0 {
        resumeInRow := 0;
        ret := RetSuspended;
      }
    }

    /** The action is ready again. Nothing reads the retry count before the original clears it, after the loop. */
    method Resumed()
      requires Valid() && state == Rtry && resumeInRow <= 9
      modifies `log, `state, `nbrResRtry
      ensures Valid() && state == Rdy
      ensures SameBooks(log, old(log)) && TalkOf(log) == old(TalkOf(log))
    {
      state := Rdy;
      nbrResRtry := 0;
      log := Then(log, Resume);
    }

    /** What the end of a retry round says about the action; the round began at step `from` after this many sleeps. */
    ghost predicate TurnFits(turn: Turn, ret: Ret, retries: nat, permitSleep: bool, from: nat)
      reads this
    {
      var more := cfg.retryCount == -1 || retries < cfg.retryCount;
      match turn
      case Again => state == Rtry
      case Slept => state == Rtry && permitSleep && more
      case Deferred => state == Rtry && !permitSleep && ret == RetSuspended
      case Killed => state == Rtry && permitSleep && more && ret == RetForceTerm && SawDown(from)
      case Over =>
        || (state == Rdy && ret == RetOk)
        || (state == Susp && ret == RetSuspended && !more)
        || (state == Disabled && ret == RetDisable)
    }

    /** The part of a round after a refusal: give up for now, leave the sleep to the caller, or sleep. */
    method Refused(retries: nat, permitSleep: bool) returns (ret: Ret, turn: Turn)
      requires Valid() && state == Rtry && resumeInRow <= 9
      modifies `tick, `lastDown, `log, `state, `resumeAt, `nbrResRtry
      ensures Valid() && tick >= old(tick) && lastDown >= old(lastDown)
      ensures SameBooks(log, old(log)) && TalkOf(log) == old(TalkOf(log))
      ensures turn != Again && TurnFits(turn, ret, retries, permitSleep, old(tick))
      ensures ret == if turn == Killed then RetForceTerm else RetSuspended
    {
      ret, turn := RetSuspended, Over;
      if cfg.retryCount != -1 && retries >= cfg.retryCount {
        Suspend();
      } else if !permitSleep {
        turn := Deferred;
      } else {
        tick := tick + 1;   // srSleep
        var down := IsShutdown();
        turn := Slept;
        if down { ret, turn := RetForceTerm, Killed; }
      }
    }

    /** One round of the retry loop: asks the module and acts on the answer. */
    method RetryRound(retries: nat, permitSleep: bool) returns (ret: Ret, turn: Turn)
      requires Valid() && state == Rtry
      modifies `tick, `lastDown, `log, `state, `disabled, `disabledAt, `resumeInRow, `resumeAt, `nbrResRtry
      ensures Valid() && tick > old(tick) && lastDown >= old(lastDown) && (old(disabled) ==> disabled)
      ensures SameBooks(log, old(log))
      ensures Resumes(log) == old(Resumes(log)) + 1 && Calls(log) == old(Calls(log)) + 1
      ensures OddResumes(log) >= old(OddResumes(log)) + (if turn == Again then 1 else 0)
      ensures TurnFits(turn, ret, retries, permitSleep, old(tick))
      ensures ret.RetDefer? || ret.RetPrevious? ==> Misused(log) && LastTaken(log)
      ensures ret != RetOk && turn != Killed ==> Reason(ret, old(Calls(log)))
    {
      turn := Over;
      ret := AskResume();
      if ret == RetOk {
        Resumed();
      } else if ret == RetSuspended {
        ret, turn := Refused(retries, permitSleep);
      } else if ret == RetDisable {
        DisableForWorker();
      } else {
        turn := Again;
      }
    }

    /** Why a retry did not work out: it was tried often enough, or the action was disabled, or shutdown was seen. */
    ghost predicate GaveUp(start: Log, from: nat)
      reads `log, `disabled, `lastDown
    {
      || (cfg.retryCount != -1 && Resumes(log) - Resumes(start) > Max(cfg.retryCount, 0))
      || disabled || SawDown(from)
    }

    /** The tests that open each round of the retry loop. */
    method MayRetry() returns (go: bool)
      requires Valid()
      modifies `tick, `lastDown, `disabled, `disabledAt
      ensures Valid() && tick > old(tick) && lastDown >= old(lastDown) && (old(disabled) ==> disabled)
      ensures go ==> state == Rtry && old(tick) < env.horizon
      ensures !go ==> state != Rtry || disabled || SawDown(old(tick))
    {
      var down := IsShutdown();
      go := false;
      if !down && state == Rtry {
        var d := IsDisabled();
        go := !d;
      }
    }

    /** The books of a retry run: each round is a sleep or an odd answer, except one that ends it. */
    ghost predicate RetryBooks(start: Log, retries: nat, last: nat)
      reads this
    {
      && SameBooks(log, start)
      && retries + last <= Resumes(log) - Resumes(start) <= retries + last + OddResumes(log) - OddResumes(start)
      && Calls(log) - Calls(start) >= Resumes(log) - Resumes(start)
    }

    /** A retry run sleeps after every refusal that it does not end with, and not after other answers. */
    ghost predicate SleptIf(start: Log, slept: bool)
      reads `log, `state
    {
      if slept then state == Rtry || Resumes(log) - Resumes(start) >= 2
      else Resumes(log) - Resumes(start) <= 1 + OddResumes(log) - OddResumes(start)
    }

    /** The loop of actionDoRetryInternal. */
    method RetryRun(permitSleep: bool) returns (ret: Ret, slept: bool, deferred: bool)
      requires Valid() && state == Rtry
      modifies `tick, `lastDown, `log, `state, `disabled, `disabledAt, `resumeInRow, `resumeAt, `nbrResRtry
      ensures Valid() && tick > old(tick) && lastDown >= old(lastDown) && (old(disabled) ==> disabled)
      ensures SameBooks(log, old(log))
      ensures cfg.retryCount != -1 ==>
                Resumes(log) - old(Resumes(log))
                <= Max(cfg.retryCount, 0) + 1 + OddResumes(log) - old(OddResumes(log))
      ensures state == Susp ==> cfg.retryCount != -1 && Resumes(log) - old(Resumes(log)) > Max(cfg.retryCount, 0)
      ensures SleptIf(old(log), slept)
      ensures state == Rtry ==> deferred || disabled || SawDown(old(tick))
      ensures Resumes(log) > old(Resumes(log)) || disabled || SawDown(old(tick))
      ensures deferred ==> !permitSleep && ret == RetSuspended && state == Rtry && Resumes(log) > old(Resumes(log))
      ensures ret != RetOk ==> deferred || GaveUp(old(log), old(tick))
      ensures ret.RetDefer? || ret.RetPrevious? ==> Misused(log) && LastTaken(log)
      ensures Calls(log) - old(Calls(log)) >= Resumes(log) - old(Resumes(log)) >= 0
      ensures ret != RetOk ==> Explained(ret, old(tick), old(Calls(log)))
    {
      ret := RetOk;
      var retries: nat, turn := 0, Again;
      while turn == Again || turn == Slept
        invariant tick >= old(tick) && (turn == Over || turn == Killed || turn == Deferred ==> tick > old(tick))
        invariant lastDown >= old(lastDown) && (old(disabled) ==> disabled)
        invariant Running(old(log), old(tick), ret, turn, retries, permitSleep)
        decreases turn == Again || turn == Slept, env.horizon - tick
      {
        ret, turn, retries := RetryStep(ret, turn, retries, permitSleep, old(log), old(tick));
      }
      slept, deferred := retries > 0, turn == Deferred;
    }

    /** What holds between the rounds of a retry run that began with the log `start` at step `from`. */
    ghost predicate Running(start: Log, from: nat, ret: Ret, turn: Turn, retries: nat, permitSleep: bool)
      reads this
    {
      && Valid()
      && RetryBooks(start, retries, if (turn == Over && state != Rtry) || turn == Deferred then 1 else 0)
      && (cfg.retryCount != -1 ==> retries <= Max(cfg.retryCount, 0))
      && (state == Susp ==> cfg.retryCount != -1 && retries >= cfg.retryCount)
      && (state == Rdy ==> ret == RetOk) && state != Itx && state != DataFail
      && (if turn == Over then state != Rtry || disabled || SawDown(from) else state == Rtry)
      && (turn == Deferred ==> !permitSleep && ret == RetSuspended)
      && (turn == Killed ==> ret == RetForceTerm && SawDown(from))
      && (ret.RetDefer? || ret.RetPrevious? ==> Misused(log) && LastTaken(log))
      && (ret != RetOk && turn != Killed ==> Reason(ret, Calls(start)))
    }

    /** The body of the loop. */
    method RetryStep(ret0: Ret, turn0: Turn, retries0: nat, permitSleep: bool, ghost start: Log, ghost from: nat)
        returns (ret: Ret, turn: Turn, retries: nat)
      requires (turn0 == Again || turn0 == Slept) && from <= tick
      requires Running(start, from, ret0, turn0, retries0, permitSleep)
      modifies `tick, `lastDown, `log, `state, `disabled, `disabledAt, `resumeInRow, `resumeAt, `nbrResRtry
      ensures tick > old(tick) && lastDown >= old(lastDown) && (old(disabled) ==> disabled)
      ensures turn == Again || turn == Slept ==> old(tick) < env.horizon
      ensures Running(start, from, ret, turn, retries, permitSleep)
    {
      ret, turn, retries := ret0, Over, retries0;
      var go := MayRetry();
      if go { ret, turn, retries := RetryOnce(retries0, permitSleep, start, from); }
    }

    method RetryOnce(retries0: nat, permitSleep: bool, ghost start: Log, ghost from: nat)
        returns (ret: Ret, turn: Turn, retries: nat)
      requires Valid() && state == Rtry && from <= tick && RetryBooks(start, retries0, 0)
      requires cfg.retryCount != -1 ==> retries0 <= Max(cfg.retryCount, 0)
      modifies `tick, `lastDown, `log, `state, `disabled, `disabledAt, `resumeInRow, `resumeAt, `nbrResRtry
      ensures tick > old(tick) && lastDown >= old(lastDown) && (old(disabled) ==> disabled)
      ensures Running(start, from, ret, turn, retries, permitSleep)
    {
      ret, turn := RetryRound(retries0, permitSleep);
      retries := if turn == Slept || turn == Killed then retries0 + 1 else retries0;
    }

    /** actionDoRetryInternal */
    method DoRetry(permitSleep: bool) returns (ret: Ret, slept: bool, deferred: bool)
      requires Valid()
      modifies `tick, `lastDown, `log, `state, `disabled, `disabledAt, `resumeInRow, `resumeAt, `nbrResRtry
      ensures Valid() && tick > old(tick) && lastDown >= old(lastDown) && (old(disabled) ==> disabled)
      ensures SameBooks(log, old(log))
      ensures old(state) == Rtry && cfg.retryCount != -1 ==>
                Resumes(log) - old(Resumes(log))
                <= Max(cfg.retryCount, 0) + 1 + OddResumes(log) - old(OddResumes(log))
      ensures state == Susp && old(state) == Rtry ==>
                cfg.retryCount != -1 && Resumes(log) - old(Resumes(log)) > Max(cfg.retryCount, 0)
      ensures SleptIf(old(log), slept)
      ensures state == Rtry ==> deferred || disabled || SawDown(old(tick))
      ensures old(state) == Rtry ==> Resumes(log) > old(Resumes(log)) || disabled || SawDown(old(tick))
      ensures deferred ==> !permitSleep && ret == RetSuspended && state == Rtry && Resumes(log) > old(Resumes(log))
      ensures ret != RetOk ==> deferred || GaveUp(old(log), old(tick))
      ensures ret.RetDefer? || ret.RetPrevious? ==> Misused(log) && LastTaken(log)
      ensures old(state) != Rtry ==> ret == RetOk && log == old(log) && state == old(state)
      ensures Calls(log) - old(Calls(log)) >= Resumes(log) - old(Resumes(log)) >= 0
                && (ret != RetOk ==> Explained(ret, old(tick), old(Calls(log))))
    {
      ret, slept, deferred := RetOk, false, false;
      if state == Rtry {
        ret, slept, deferred := RetryRun(permitSleep);
      } else {
        var down := IsShutdown();
      }
    }

    // ----- preparing and executing -----

    /** actionTryResumeInternal */
    method TryResumeAction(permitSleep: bool, before: bool) returns (ret: Ret, slept: bool, deferred: bool)
      requires Valid()
      modifies `tick, `lastDown, `log, `state, `disabled, `disabledAt, `resumeInRow, `resumeAt, `nbrResRtry
      ensures Valid() && tick > old(tick) && lastDown >= old(lastDown) && (old(disabled) ==> disabled)
      ensures SameBooks(log, old(log))
      ensures deferred ==> !permitSleep && ret == RetSuspended && Resumes(log) > old(Resumes(log))
      ensures ret.RetDefer? || ret.RetPrevious? ==> Misused(log) && LastTaken(log)
      ensures old(disabled) ==> ret == RetDisable
      ensures old(state) == Susp && Resumes(log) == old(Resumes(log)) ==>
                disabled || SawDown(old(tick)) || env.now(old(tick)) < old(resumeAt)
      ensures old(state) == Rtry ==> Resumes(log) > old(Resumes(log)) || disabled || SawDown(old(tick))
      ensures old(state) != Susp && old(state) != Rtry ==> (ret == RetOk && log == old(log) && state == old(state)) || disabled
      ensures Calls(log) - old(Calls(log)) >= Resumes(log) - old(Resumes(log)) >= 0
                && (ret != RetOk ==> Explained(ret, old(tick), old(Calls(log))))
    {
      slept, deferred := before, false;
      var d := IsDisabled();
      if d {
        DisableForWorker();
        return RetDisable, slept, false;
      }
      if state == Susp {
        var now := env.now(tick);
        tick := tick + 1;
        if now >= resumeAt {
          state := Rtry;
        }
      }
      ret := RetOk;
      if state == Rtry {
        ret, slept, deferred := DoRetry(permitSleep);
      }
    }

    /** actionPrepareInternal, for an action without an external state file whose worker instance exists. */
    method Prepare(permitSleep: bool, before: bool) returns (ret: Ret, slept: bool, deferred: bool)
      requires Valid()
      modifies `tick, `lastDown, `log, `state, `disabled, `disabledAt, `resumeInRow, `resumeAt, `nbrResRtry
      ensures Valid() && tick > old(tick) && lastDown >= old(lastDown) && (old(disabled) ==> disabled)
      ensures SameBooks(log, old(log))
      ensures deferred ==> !permitSleep && ret == RetSuspended && Resumes(log) > old(Resumes(log))
      ensures ret.RetDefer? || ret.RetPrevious? ==> Misused(log) && LastTaken(log)
      ensures ret == RetOk ==> state != Rdy
      ensures old(state) == Itx || old(state) == DataFail ==>
                (ret == RetOk && log == old(log) && state == old(state)) || disabled
      ensures old(state) == Rdy || old(state) == Rtry ==> Calls(log) > old(Calls(log)) || disabled || SawDown(old(tick))
      ensures Later(old(log), log) && (ret != RetOk ==> Explained(ret, old(tick), old(Calls(log))))
    {
      slept, deferred := before, false;
      var d := IsDisabled();
      if d {
        DisableForWorker();
        return RetDisable, slept, false;
      }
      ret, slept, deferred := TryResumeAction(permitSleep, before);
      if ret == RetOk && state == Rdy {
        ret := BeginTransaction();
      }
    }

    /** The part of actionPrepareInternal that opens a transaction. */
    method BeginTransaction() returns (ret: Ret)
      requires Valid() && state == Rdy
      modifies `tick, `log, `state, `disabled, `disabledAt, `resumeInRow
      ensures Valid() && tick > old(tick) && (old(disabled) ==> disabled)
      ensures SameBooks(log, old(log))
      ensures ret.RetDefer? || ret.RetPrevious? ==> Misused(log) && LastTaken(log)
      ensures ret == RetOk ==> state == Itx
      ensures Calls(log) == old(Calls(log)) + 1 && (ret != RetOk ==> Explained(ret, old(tick), old(Calls(log))))
      ensures Resumes(log) == old(Resumes(log))
    {
      ret := Ask(Begin, []);
      match ret
      case RetOk => state := Itx;
      case RetSuspended => Retry();
      case RetDisable => DisableForWorker();
      case _ =>
    }

    /** handleActionExecResult */
    method HandleExecResult(answer: Ret) returns (ret: Ret)
      requires Valid() && (state == Itx || state == DataFail) && (answer == RetDisable ==> Banned(log))
      modifies `tick, `state, `disabled, `disabledAt, `resumeInRow, `hadAutoCommit
      ensures Valid() && tick >= old(tick) && (old(disabled) ==> disabled)
      ensures ret == RetOk <==> answer == RetOk
      ensures ret == RetOk <==> state == Rdy
      ensures Taken(answer) ==> resumeInRow == 0
      ensures answer == RetSuspended ==> state == Rtry || state == Disabled
      ensures answer == RetDisable ==> state == Disabled
      ensures !Taken(answer) && answer != RetSuspended && answer != RetDisable ==> state == DataFail && ret == RetDataFail
      ensures Taken(ret) ==> Taken(answer)
      ensures old(state) == Itx && Taken(answer) ==>
                ret == if answer == RetDefer && old(hadAutoCommit) then RetPrevious else answer
      ensures Taken(answer) && answer != RetOk ==> state == old(state)
      ensures ret != RetOk ==> forall calls :: Reason(ret, calls)
    {
      match answer {
        case RetOk =>
          state := Rdy;
          resumeInRow := 0;
        case RetDefer =>
          resumeInRow := 0;
        case RetPrevious =>
          hadAutoCommit := true;
          resumeInRow := 0;
        case RetDisable => DisableForWorker();
        case RetSuspended => Retry();
        case _ => state := DataFail;
      }
      ret := ReturnCode();
    }

    /** actionCallDoAction */
    method CallDoAction(msg: Msg) returns (ret: Ret)
      requires Valid() && state == Itx
      modifies `tick, `log, `state, `disabled, `disabledAt, `resumeInRow, `hadAutoCommit
      ensures Valid() && tick > old(tick) && (old(disabled) ==> disabled)
      ensures Given(log) == old(Given(log)) + (if Taken(ret) then [msg] else [])
      ensures Attempts(log) == old(Attempts(log)) && SameAcks(log, old(log)) && SameFiles(log, old(log))
      ensures ret == RetOk <==> state == Rdy
      ensures Taken(ret) ==> LastTaken(log) && ret == Answer(log)
      ensures Later(old(log), log) && Calls(log) > old(Calls(log)) && (ret != RetOk ==> Reason(ret, old(Calls(log))))
    {
      hadAutoCommit := false;
      var answer := Ask(DoAction, [msg]);
      ret := HandleExecResult(answer);
    }

    ghost method NoteAttempt(msg: Msg, ret: Ret)
      requires Valid()
      modifies `log
      ensures Valid() && Attempts(log) == old(Attempts(log)) + [(msg, ret)] && Given(log) == old(Given(log))
      ensures SameAcks(log, old(log)) && SameFiles(log, old(log)) && TalkOf(log) == old(TalkOf(log))
    {
      log := Then(log, Attempt(msg, ret));
    }

    ghost method NoteSkip(msg: Msg)
      requires Valid() && Misused(log) && LastTaken(log)
      modifies `log
      ensures Valid() && Attempts(log) == old(Attempts(log)) && Given(log) == old(Given(log)) + [msg]
      ensures SameAcks(log, old(log)) && SameFiles(log, old(log))
      ensures LastTaken(log) && TalkOf(log) == old(TalkOf(log))
    {
      log := Then(log, Skip(msg));
    }

    /** actionProcessMessage. After a data failure nothing leads back: the module is not called again. */
    method ProcessMessage(msg: Msg) returns (ret: Ret)
      requires Valid()
      modifies `tick, `lastDown, `log, `state, `disabled, `disabledAt, `resumeInRow,
               `resumeAt, `nbrResRtry, `hadAutoCommit
      ensures Valid() && tick > old(tick) && lastDown >= old(lastDown) && (old(disabled) ==> disabled)
      ensures Attempts(log) == old(Attempts(log)) + [(msg, ret)]
      ensures Given(log) == old(Given(log)) + (if Taken(ret) then [msg] else [])
      ensures SameAcks(log, old(log)) && SameFiles(log, old(log))
      ensures Taken(ret) ==> LastTaken(log)
      ensures Later(old(log), log) && (ret != RetOk ==> Explained(ret, old(tick), old(Calls(log))))
      ensures old(state) != Susp && old(state) != DataFail ==>
                Calls(log) > old(Calls(log)) || disabled || SawDown(old(tick))
      ensures old(state) == DataFail ==>
                (ret == RetDataFail && state == DataFail && Calls(log) == old(Calls(log))) || disabled
    {
      ret := ProcessOnce(msg);
      NoteAttempt(msg, ret);
    }

    /** The same, before its result is noted. */
    method ProcessOnce(msg: Msg) returns (ret: Ret)
      requires Valid()
      modifies `tick, `lastDown, `log, `state, `disabled, `disabledAt, `resumeInRow,
               `resumeAt, `nbrResRtry, `hadAutoCommit
      ensures Valid() && tick > old(tick) && lastDown >= old(lastDown) && (old(disabled) ==> disabled)
      ensures Attempts(log) == old(Attempts(log))
      ensures Given(log) == old(Given(log)) + (if Taken(ret) then [msg] else [])
      ensures SameAcks(log, old(log)) && SameFiles(log, old(log))
      ensures Taken(ret) ==> LastTaken(log)
      ensures Later(old(log), log) && (ret != RetOk ==> Explained(ret, old(tick), old(Calls(log))))
      ensures old(state) != Susp && old(state) != DataFail ==>
                Calls(log) > old(Calls(log)) || disabled || SawDown(old(tick))
      ensures old(state) == DataFail ==>
                (ret == RetDataFail && state == DataFail && Calls(log) == old(Calls(log))) || disabled
    {
      var slept, deferred;
      ret, slept, deferred := Prepare(true, false);
      if ret != RetOk {
        if Taken(ret) { NoteSkip(msg); }
      } else {
        ret := Deliver(msg);
      }
    }

    /** The part of actionProcessMessage after a successful preparation. */
    method Deliver(msg: Msg) returns (ret: Ret)
      requires Valid() && state != Rdy
      modifies `tick, `log, `state, `disabled, `disabledAt, `resumeInRow, `hadAutoCommit
      ensures Valid() && tick >= old(tick) && (old(disabled) ==> disabled)
      ensures Attempts(log) == old(Attempts(log)) && Given(log) == old(Given(log)) + (if Taken(ret) then [msg] else [])
      ensures SameAcks(log, old(log)) && SameFiles(log, old(log))
      ensures Taken(ret) ==> LastTaken(log)
      ensures Later(old(log), log) && (ret != RetOk ==> Reason(ret, old(Calls(log))))
      ensures old(state) == Itx ==> Calls(log) > old(Calls(log))
      ensures old(state) == DataFail ==> ret == RetDataFail && state == DataFail && Calls(log) == old(Calls(log))
    {
      if state == Itx {
        ret := CallDoAction(msg);
        if ret == RetOk { ret := ReturnCode(); }
      } else {
        ret := ReturnCode();
      }
    }

    // ----- transactions -----

    /**
     * doTransaction for modules without commitTransaction. Messages are attempted in order, each once, or twice
     * where the first attempt was suspended; those taken are a prefix of the batch, the whole batch exactly when the
     * result is OK.
     */
    method LegacyTransaction(msgs: seq<Msg>) returns (ret: Ret, ghost tries: seq<Try>, ghost taken: nat)
      requires Valid()
      modifies `tick, `lastDown, `log, `state, `disabled, `disabledAt, `resumeInRow,
               `resumeAt, `nbrResRtry, `hadAutoCommit
      ensures Valid() && tick >= old(tick) && lastDown >= old(lastDown) && (old(disabled) ==> disabled)
      ensures |tries| <= |msgs| && TakenInTurn(tries, taken, ret)
      ensures Attempts(log) == old(Attempts(log)) + Attempted(msgs, tries)
      ensures Given(log) == old(Given(log)) + msgs[..taken]
      ensures (ret == RetOk <==> taken == |msgs|) && (Taken(ret) ==> ret == RetOk)
      ensures ret == RetOk && msgs != [] ==> LastTaken(log)
      ensures msgs == [] ==> state == old(state)
      ensures Later(old(log), log) && (ret != RetOk ==> Explained(ret, old(tick), old(Calls(log))))
      ensures msgs != [] && old(state) != Susp && old(state) != DataFail ==>
                Calls(log) > old(Calls(log)) || disabled || SawDown(old(tick))
      ensures SameAcks(log, old(log)) && SameFiles(log, old(log))
    {
      var failed;
      ret, tries, taken, failed := LegacyLoop(msgs);
      if !failed { ret := RetOk; }
    }

    /** The loop of doTransaction: it ends behind the last message or with the first one that is not taken. */
    method LegacyLoop(msgs: seq<Msg>) returns (ret: Ret, ghost tries: seq<Try>, ghost taken: nat, failed: bool)
      requires Valid()
      modifies `tick, `lastDown, `log, `state, `disabled, `disabledAt, `resumeInRow,
               `resumeAt, `nbrResRtry, `hadAutoCommit
      ensures Valid() && tick >= old(tick) && lastDown >= old(lastDown) && (old(disabled) ==> disabled)
      ensures taken <= |msgs| && (failed <==> taken < |msgs|)
      ensures |tries| == (if failed then taken + 1 else taken) && TakenInTurn(tries, taken, ret)
      ensures LegacyBooks(old(log), msgs, taken, tries, false)
      ensures LegacyEvents(old(state), old(tick), old(log), ret, taken > 0, false, failed)
    {
      ret, tries, taken, failed := RetOk, [], 0, false;
      var i, suspended := 0, false;
      while i < |msgs| && !failed
        invariant Valid() && tick >= old(tick) && lastDown >= old(lastDown) && (old(disabled) ==> disabled)
        invariant 0 <= i == taken <= |msgs| && (suspended || failed ==> i < |msgs|) && !(suspended && failed)
        invariant |tries| == (if failed then i + 1 else i) && TakenInTurn(tries, i, ret)
        invariant LegacyBooks(old(log), msgs, i, tries, suspended)
        invariant LegacyEvents(old(state), old(tick), old(log), ret, i > 0, suspended, failed)
        decreases !failed, |msgs| - i, !suspended
      {
        ret, tries, suspended := LegacyAttempt(msgs, i, suspended, old(state), old(tick), old(log), tries);
        failed := !suspended && !Taken(ret);
        if !suspended && !failed { i, taken := i + 1, taken + 1; }
      }
    }

    /** What happened since `start`, after some messages were taken, an attempt was suspended or the last one failed. */
    ghost predicate LegacyEvents(was: State, from: nat, start: Log, ret: Ret, some: bool, suspended: bool, failed: bool)
      reads `log, `state, `disabled, `lastDown
    {
      && Later(start, log)
      && (some && !suspended && !failed ==> LastTaken(log))
      && (failed ==> !Taken(ret) && Explained(ret, from, Calls(start)))
      && if some || suspended || failed then Reached(was, from, start) else state == was
    }

    /** Unless its state at the start kept the action from it, the module was called, or a disable or shutdown came first. */
    ghost predicate Reached(was: State, from: nat, start: Log)
      reads `log, `disabled, `lastDown
    {
      was != Susp && was != DataFail ==> Calls(log) > Calls(start) || disabled || SawDown(from)
    }

    /** The books since `start`: the first i messages taken, attempted as `tries` says, and perhaps the next one once. */
    ghost predicate LegacyBooks(start: Log, msgs: seq<Msg>, i: nat, tries: seq<Try>, waiting: bool)
      requires |tries| <= |msgs| && i <= |msgs| && (waiting ==> i < |msgs|)
      reads `log
    {
      && Attempts(log) == Attempts(start) + Attempted(msgs, tries) + (if waiting then [(msgs[i], RetSuspended)] else [])
      && Given(log) == Given(start) + msgs[..i] && SameAcks(log, start) && SameFiles(log, start)
    }

    /** srSleep */
    method Sleep()
      requires Valid()
      modifies `tick
      ensures Valid() && tick == old(tick) + 1
    {
      tick := tick + 1;
    }

    /** An attempt, seen from an earlier point. */
    method AttemptSince(msg: Msg, ghost was: State, ghost from: nat, ghost start: Log) returns (ret: Ret)
      requires Valid() && from <= tick && Later(start, log) && (state == was || Reached(was, from, start))
      modifies `tick, `lastDown, `log, `state, `disabled, `disabledAt, `resumeInRow,
               `resumeAt, `nbrResRtry, `hadAutoCommit
      ensures Valid() && tick > old(tick) && lastDown >= old(lastDown) && (old(disabled) ==> disabled)
      ensures Attempts(log) == old(Attempts(log)) + [(msg, ret)]
      ensures Given(log) == old(Given(log)) + (if Taken(ret) then [msg] else [])
      ensures SameAcks(log, old(log)) && SameFiles(log, old(log))
      ensures Taken(ret) ==> LastTaken(log)
      ensures Later(start, log) && Reached(was, from, start) && (ret != RetOk ==> Explained(ret, from, Calls(start)))
    {
      ret := ProcessMessage(msg);
    }

    /** One attempt of the legacy loop, in the books, with a sleep if it is the first one and was suspended. */
    method LegacyAttempt(msgs: seq<Msg>, i: nat, suspended: bool, ghost was: State, ghost from: nat, ghost start: Log,
                         ghost tries: seq<Try>)
        returns (ret: Ret, ghost next: seq<Try>, waiting: bool)
      requires Valid() && from <= tick && Later(start, log) && (state == was || Reached(was, from, start))
      requires i == |tries| < |msgs| && LegacyBooks(start, msgs, i, tries, suspended)
      modifies `tick, `lastDown, `log, `state, `disabled, `disabledAt, `resumeInRow,
               `resumeAt, `nbrResRtry, `hadAutoCommit
      ensures Valid() && tick > old(tick) && lastDown >= old(lastDown) && (old(disabled) ==> disabled)
      ensures waiting <==> ret == RetSuspended && !suspended
      ensures next == if waiting then tries else tries + [Try(suspended, ret)]
      ensures LegacyBooks(start, msgs, if Taken(ret) then i + 1 else i, next, waiting)
      ensures Taken(ret) ==> LastTaken(log)
      ensures Later(start, log) && Reached(was, from, start) && (ret != RetOk ==> Explained(ret, from, Calls(start)))
    {
      ret := AttemptSince(msgs[i], was, from, start);
      waiting := ret == RetSuspended && !suspended;
      next := if waiting then tries else tries + [Try(suspended, ret)];
      if waiting { Sleep(); }
      AttemptedNext(Attempts(start), msgs, tries, Try(suspended, ret));
      TakenNext(Given(start), msgs, i);
    }

    /** actionCallCommitTransaction */
    method CallCommitTransaction(msgs: seq<Msg>) returns (ret: Ret)
      requires Valid() && (state == Itx || state == DataFail)
      modifies `tick, `log, `state, `disabled, `disabledAt, `resumeInRow, `hadAutoCommit
      ensures Valid() && tick > old(tick) && (old(disabled) ==> disabled)
      ensures Given(log) == old(Given(log)) + msgs
      ensures (state == Rdy ==> LastTaken(log)) && (Taken(ret) ==> LastTaken(log) && (state == Rdy || state == old(state)))
      ensures old(state) == Itx && LastTaken(log) ==> Taken(ret)
      ensures Later(old(log), log) && Calls(log) > old(Calls(log)) && (ret != RetOk ==> Reason(ret, old(Calls(log))))
      ensures Attempts(log) == old(Attempts(log)) && SameAcks(log, old(log)) && SameFiles(log, old(log))
    {
      var answer := Ask(CommitTx, msgs);
      ret := HandleExecResult(answer);
    }

    /** doTransaction */
    method DoTransaction(msgs: seq<Msg>) returns (ret: Ret, ghost given: nat)
      requires Valid() && (state == Itx || state == DataFail)
      modifies `tick, `lastDown, `log, `state, `disabled, `disabledAt, `resumeInRow,
               `resumeAt, `nbrResRtry, `hadAutoCommit
      ensures Valid() && tick >= old(tick) && lastDown >= old(lastDown) && (old(disabled) ==> disabled)
      ensures given <= |msgs| && Given(log) == old(Given(log)) + msgs[..given]
      ensures cfg.hasCommit || ret == RetOk ==> given == |msgs|
      ensures ret == RetOk ==> Given(log) == old(Given(log)) + msgs
      ensures ret == RetOk && state == Rdy ==> LastTaken(log)
      ensures (Taken(ret) ==> ret == RetOk) && (cfg.hasCommit && ret == RetOk ==> state == Rdy || state == old(state))
      ensures cfg.hasCommit && old(state) == Itx ==> (ret == RetOk <==> LastTaken(log))
      ensures Later(old(log), log) && (ret != RetOk ==> Explained(ret, old(tick), old(Calls(log))))
      ensures msgs != [] && (cfg.hasCommit || old(state) == Itx) ==>
                Calls(log) > old(Calls(log)) || disabled || SawDown(old(tick))
      ensures SameAcks(log, old(log)) && SameFiles(log, old(log))
    {
      AllGiven(old(Given(log)), msgs);
      if cfg.hasCommit {
        ret := CallCommitTransaction(msgs);
        given := |msgs|;
        if Taken(ret) { ret := RetOk; }
      } else {
        ghost var tries;
        ret, tries, given := LegacyTransaction(msgs);
      }
    }

    /** The part of actionTryCommitInternal that closes a transaction. */
    method EndTransaction() returns (ret: Ret)
      requires Valid() && state == Itx
      modifies `tick, `log, `state, `disabled, `disabledAt, `resumeInRow, `hadAutoCommit
      ensures Valid() && tick > old(tick) && (old(disabled) ==> disabled)
      ensures SameBooks(log, old(log))
      ensures (ret == RetOk <==> LastTaken(log)) && (Taken(ret) ==> ret == RetOk) && (ret == RetOk ==> state == Rdy)
      ensures Later(old(log), log) && Calls(log) > old(Calls(log)) && (ret != RetOk ==> Reason(ret, old(Calls(log))))
    {
      var answer := Ask(EndTx, []);
      match answer {
        case RetOk => state := Rdy;
        case RetSuspended => Retry();
        case RetDisable => DisableForWorker();
        case RetDefer => state := Rdy;
        case RetPrevious => state := Rdy;
        case _ => return answer;
      }
      ret := ReturnCode();
    }

    /** actionTryCommitInternal: at most one hand-over, and none when the retry sleep was deferred. */
    method TryCommit(msgs: seq<Msg>, permitSleep: bool, before: bool)
        returns (ret: Ret, slept: bool, deferred: bool, ghost given: nat)
      requires Valid()
      modifies `tick, `lastDown, `log, `state, `disabled, `disabledAt, `resumeInRow,
               `resumeAt, `nbrResRtry, `hadAutoCommit
      ensures Valid() && tick > old(tick) && lastDown >= old(lastDown) && (old(disabled) ==> disabled)
      ensures given <= |msgs| && Given(log) == old(Given(log)) + msgs[..given]
      ensures cfg.hasCommit ==> given == 0 || given == |msgs|
      ensures ret == RetOk ==> given == |msgs|
      ensures deferred ==> !permitSleep && given == 0 && ret == RetSuspended && Resumes(log) > old(Resumes(log))
      ensures Later(old(log), log) && (ret != RetOk ==> Explained(ret, old(tick), old(Calls(log))))
      ensures msgs != [] && old(state) != Susp && (cfg.hasCommit || old(state) != DataFail) ==>
                Calls(log) > old(Calls(log)) || disabled || SawDown(old(tick))
      ensures Acked(log) == old(Acked(log)) + (if ret == RetOk then msgs else [])
      ensures KeptFiles(log, old(log)) && Commits(log) == old(Commits(log)) + [ret]
    {
      ret, slept, deferred, given := TryCommitOpen(msgs, permitSleep, before);
      log := Then(log, CommitEnded(ret));
    }

    /** The same, before its result is noted. */
    method TryCommitOpen(msgs: seq<Msg>, permitSleep: bool, before: bool)
        returns (ret: Ret, slept: bool, deferred: bool, ghost given: nat)
      requires Valid()
      modifies `tick, `lastDown, `log, `state, `disabled, `disabledAt, `resumeInRow,
               `resumeAt, `nbrResRtry, `hadAutoCommit
      ensures Valid() && tick > old(tick) && lastDown >= old(lastDown) && (old(disabled) ==> disabled)
      ensures given <= |msgs| && Given(log) == old(Given(log)) + msgs[..given]
      ensures cfg.hasCommit ==> given == 0 || given == |msgs|
      ensures ret == RetOk ==> given == |msgs|
      ensures deferred ==> !permitSleep && given == 0 && ret == RetSuspended && Resumes(log) > old(Resumes(log))
      ensures Later(old(log), log) && (ret != RetOk ==> Explained(ret, old(tick), old(Calls(log))))
      ensures msgs != [] && old(state) != Susp && (cfg.hasCommit || old(state) != DataFail) ==>
                Calls(log) > old(Calls(log)) || disabled || SawDown(old(tick))
      ensures Acked(log) == old(Acked(log)) + (if ret == RetOk then msgs else [])
      ensures SameFiles(log, old(log))
    {
      given := 0;
      AllGiven(old(Given(log)), msgs);
      ret, slept, deferred := Prepare(permitSleep, before);
      if ret == RetOk {
        if state == Rtry || state == Susp || state == Disabled {
          ret := ReturnCode();
        } else {
          ret, given := Transact(msgs);
        }
      }
    }

    /** The result of a transaction, closed if it is still open. */
    method CloseTransaction() returns (ret: Ret)
      requires Valid() && (state == Rdy ==> LastTaken(log))
      modifies `tick, `log, `state, `disabled, `disabledAt, `resumeInRow, `hadAutoCommit
      ensures Valid() && tick >= old(tick) && (old(disabled) ==> disabled)
      ensures SameBooks(log, old(log)) && (ret == RetOk ==> LastTaken(log))
      ensures (Taken(ret) ==> ret == RetOk) && (old(state) == Itx || old(state) == Rdy ==> (ret == RetOk <==> LastTaken(log)))
      ensures old(state) != Itx ==> log == old(log)
      ensures Later(old(log), log) && (ret != RetOk ==> Reason(ret, old(Calls(log))))
    {
      if state == Itx {
        ret := EndTransaction();
      } else {
        ret := ReturnCode();
      }
    }

    /** The part of actionTryCommitInternal that runs the transaction. */
    method Transact(msgs: seq<Msg>) returns (ret: Ret, ghost given: nat)
      requires Valid() && (state == Itx || state == DataFail)
      modifies `tick, `lastDown, `log, `state, `disabled, `disabledAt, `resumeInRow,
               `resumeAt, `nbrResRtry, `hadAutoCommit
      ensures Valid() && tick >= old(tick) && lastDown >= old(lastDown) && (old(disabled) ==> disabled)
      ensures given <= |msgs| && Given(log) == old(Given(log)) + msgs[..given]
      ensures cfg.hasCommit || ret == RetOk ==> given == |msgs|
      ensures (Taken(ret) ==> ret == RetOk) && (cfg.hasCommit && old(state) == Itx ==> (ret == RetOk <==> LastTaken(log)))
      ensures Later(old(log), log) && (ret != RetOk ==> Explained(ret, old(tick), old(Calls(log))))
      ensures msgs != [] && (cfg.hasCommit || old(state) == Itx) ==>
                Calls(log) > old(Calls(log)) || disabled || SawDown(old(tick))
      ensures Acked(log) == old(Acked(log)) + (if ret == RetOk then msgs else [])
      ensures SameFiles(log, old(log))
    {
      ret, given := DoTransaction(msgs);
      if ret == RetOk {
        ret := CloseTransaction();
      }
      if ret == RetOk {
        Acknowledge(old(Given(log)), msgs);
      }
    }

    ghost method Acknowledge(base: seq<Msg>, msgs: seq<Msg>)
      requires Valid() && Given(log) == base + msgs && Claimed(log) <= |base| && LastTaken(log)
      modifies `log
      ensures Valid() && log == Then(old(log), Ack(msgs))
    {
      log := Then(log, Ack(msgs));
    }

    // ----- committing a batch -----

    /** actionWriteErrorFile */
    method WriteErrorFile(msgs: seq<Msg>)
      requires Valid()
      modifies `log
      ensures Valid() && log == Then(old(log), ErrorFile(msgs))
    {
      log := Then(log, ErrorFile(msgs));
    }

    predicate Sleeps() { cfg.retryCount != 0 && cfg.interval > 0 }

    /** actionSleepBeforeRetryingTransaction */
    method SleepBeforeRetrying() returns (ret: Ret)
      requires Valid()
      modifies `tick, `lastDown
      ensures Valid() && tick >= old(tick) && lastDown >= old(lastDown)
      ensures tick == old(tick) + (if Sleeps() then 2 else 0)
      ensures ret == if Sleeps() && env.down(old(tick) + 1) then RetForceTerm else RetOk
      ensures ret == RetForceTerm ==> SawDown(old(tick))
    {
      if Sleeps() {
        tick := tick + 1;   // srSleep
        var down := IsShutdown();
        if down { return RetForceTerm; }
      }
      ret := RetOk;
    }

    /** actionTryCommitInternal for a batch of one, with the sleep left to the caller. */
    method TryCommitOne(msg: Msg, before: bool) returns (ret: Ret, slept: bool, deferred: bool, ghost given: bool)
      requires Valid()
      modifies `tick, `lastDown, `log, `state, `disabled, `disabledAt, `resumeInRow,
               `resumeAt, `nbrResRtry, `hadAutoCommit
      ensures Valid() && tick > old(tick) && lastDown >= old(lastDown) && (old(disabled) ==> disabled)
      ensures Given(log) == old(Given(log)) + (if given then [msg] else [])
      ensures ret == RetOk ==> given
      ensures deferred ==> !given && ret == RetSuspended && Resumes(log) > old(Resumes(log))
      ensures Later(old(log), log) && (ret != RetOk ==> Explained(ret, old(tick), old(Calls(log))))
      ensures Acked(log) == old(Acked(log)) + (if ret == RetOk then [msg] else [])
      ensures KeptFiles(log, old(log)) && Commits(log) == old(Commits(log)) + [ret]
    {
      ghost var n;
      ret, slept, deferred, n := TryCommit([msg], false, before);
      given := n == 1;
      assert [msg][..n] == if given then [msg] else [];
    }

    /** One commit with this result, or one after a suspended one, or a suspended one and a shutdown after the sleep. */
    ghost predicate TriedTwice(before: seq<Ret>, after: seq<Ret>, ret: Ret) {
      || after == before + [ret] || after == before + [RetSuspended, ret]
      || (after == before + [RetSuspended] && ret == RetForceTerm)
    }

    /** One message of actionTryRemoveHardErrorsFromBatch, tried a second time after a deferred sleep. */
    method TryTwice(msg: Msg) returns (ret: Ret, slept: bool, deferred: bool, ghost given: bool)
      requires Valid()
      modifies `tick, `lastDown, `log, `state, `disabled, `disabledAt, `resumeInRow,
               `resumeAt, `nbrResRtry, `hadAutoCommit
      ensures Valid() && tick > old(tick) && lastDown >= old(lastDown) && (old(disabled) ==> disabled)
      ensures Given(log) == old(Given(log)) + (if given then [msg] else [])
      ensures ret == RetOk ==> given
      ensures deferred ==> !given && ret == RetSuspended && Resumes(log) >= old(Resumes(log)) + 2
      ensures Later(old(log), log) && (ret != RetOk ==> Explained(ret, old(tick), old(Calls(log))))
      ensures Acked(log) == old(Acked(log)) + (if ret == RetOk then [msg] else [])
      ensures KeptFiles(log, old(log)) && TriedTwice(old(Commits(log)), Commits(log), ret)
    {
      resumeInRow := 0;
      ret, slept, deferred, given := TryCommitOne(msg, false);
      if deferred {
        ret, slept, deferred, given := TryAgain(msg);
      }
    }

    /** The second try, after the sleep that the first one left to its caller. */
    method TryAgain(msg: Msg) returns (ret: Ret, slept: bool, deferred: bool, ghost given: bool)
      requires Valid()
      modifies `tick, `lastDown, `log, `state, `disabled, `disabledAt, `resumeInRow,
               `resumeAt, `nbrResRtry, `hadAutoCommit
      ensures Valid() && tick >= old(tick) && lastDown >= old(lastDown) && (old(disabled) ==> disabled)
      ensures Given(log) == old(Given(log)) + (if given then [msg] else [])
      ensures ret == RetOk ==> given
      ensures deferred ==> !given && ret == RetSuspended && Resumes(log) > old(Resumes(log))
      ensures Later(old(log), log) && (ret != RetOk ==> Explained(ret, old(tick), old(Calls(log))))
      ensures Acked(log) == old(Acked(log)) + (if ret == RetOk then [msg] else [])
      ensures KeptFiles(log, old(log))
      ensures Commits(log) == old(Commits(log)) + [ret] || (log == old(log) && ret == RetForceTerm)
    {
      ret := SleepBeforeRetrying();
      if ret == RetOk {
        ret, slept, deferred, given := TryCommitOne(msg, true);
      } else {
        slept, deferred, given := true, false, false;
      }
    }

    /** The same, with its result in the books. */
    method TryOne(msg: Msg) returns (ret: Ret, slept: bool, deferred: bool, ghost given: bool)
      requires Valid()
      modifies `tick, `lastDown, `log, `state, `disabled, `disabledAt, `resumeInRow,
               `resumeAt, `nbrResRtry, `hadAutoCommit
      ensures Valid() && tick > old(tick) && lastDown >= old(lastDown) && (old(disabled) ==> disabled)
      ensures Given(log) == old(Given(log)) + (if given then [msg] else [])
      ensures ret == RetOk ==> given
      ensures deferred ==> !given && ret == RetSuspended
      ensures Later(old(log), log) && (ret != RetOk ==> Explained(ret, old(tick), old(Calls(log))))
      ensures Acked(log) == old(Acked(log)) + (if ret == RetOk then [msg] else [])
      ensures Filed(log) == old(Filed(log)) && Results(log) == old(Results(log))
      ensures Trials(log) == old(Trials(log)) + [(msg, ret)]
    {
      ret, slept, deferred, given := TryTwice(msg);
      log := Then(log, Tried(msg, ret));
    }

    /** The books since `start` show the first messages of the batch sorted by their fates. */
    ghost predicate Sorted(start: Log, fates: seq<Fate>)
      requires |fates| <= |pending|
      reads this
    {
      && Given(log) == Given(start) + Pick(pending, fates, InGiven)
      && Acked(log) == Acked(start) + Pick(pending, fates, InCommitted)
      && Filed(log) == Filed(start) + Pick(pending, fates, InFailed)
    }

    /** The array holds the messages kept for a retry. */
    ghost predicate HoldsKept(kept: array<Msg>, n: nat, fates: seq<Fate>)
      requires |fates| <= |pending|
      reads this, kept
    {
      n <= |fates| && n <= kept.Length && kept[..n] == Pick(pending, fates, InKept)
    }

    lemma Record(start: Log, fates: seq<Fate>, f: Fate)
      requires |fates| < |pending|
      requires Given(log) == Given(start) + Pick(pending, fates, InGiven)
                             + (if Belongs(f, InGiven) then [pending[|fates|]] else [])
      requires Acked(log) == Acked(start) + Pick(pending, fates, InCommitted)
                             + (if Belongs(f, InCommitted) then [pending[|fates|]] else [])
      requires Filed(log) == Filed(start) + Pick(pending, fates, InFailed)
                             + (if Belongs(f, InFailed) then [pending[|fates|]] else [])
      ensures Sorted(start, fates + [f])
    {
      PickAfter(Given(start), pending, fates, f, InGiven);
      PickAfter(Acked(start), pending, fates, f, InCommitted);
      PickAfter(Filed(start), pending, fates, f, InFailed);
    }

    /** One copy into the kept messages. */
    method Keep(kept: array<Msg>, n: nat, i: nat, ghost fates: seq<Fate>, ghost given: bool)
      requires |fates| == i < |pending| == kept.Length && HoldsKept(kept, n, fates)
      modifies kept
      ensures HoldsKept(kept, n + 1, fates + [Kept(given)])
    {
      kept[n] := pending[i];
      PickNext(pending, fates, Kept(given), InKept);
      assert kept[..n + 1] == old(kept[..n]) + [pending[i]];
    }

    /** The rest of the batch, kept untried. */
    method KeepRest(kept: array<Msg>, n0: nat, i0: nat, ghost start: Log, ghost fates0: seq<Fate>)
        returns (n: nat, ghost fates: seq<Fate>)
      requires |fates0| == i0 <= |pending| == kept.Length
      requires HoldsKept(kept, n0, fates0) && Sorted(start, fates0)
      modifies kept
      ensures |fates| == |pending| && HoldsKept(kept, n, fates) && Sorted(start, fates)
      ensures fates0 <= fates && forall k :: i0 <= k < |fates| ==> fates[k] == Kept(false)
    {
      n, fates := n0, fates0;
      for i := i0 to |pending|
        invariant |fates| == i && HoldsKept(kept, n, fates) && Sorted(start, fates)
        invariant fates0 <= fates && forall k :: i0 <= k < |fates| ==> fates[k] == Kept(false)
      {
        Keep(kept, n, i, fates, false);
        Record(start, fates, Kept(false));
        n, fates := n + 1, fates + [Kept(false)];
      }
    }

    /** The fate of one tried message. */
    method Settle(kept: array<Msg>, n0: nat, i: nat, ret: Ret, ghost given: bool, ghost start: Log,
                  ghost fates0: seq<Fate>)
        returns (n: nat, ghost fates: seq<Fate>)
      requires Valid() && |fates0| == i < |pending| == kept.Length
      requires HoldsKept(kept, n0, fates0) && (ret == RetOk ==> given)
      requires Given(log) == Given(start) + Pick(pending, fates0, InGiven) + (if given then [pending[i]] else [])
      requires Acked(log) == Acked(start) + Pick(pending, fates0, InCommitted)
                             + (if ret == RetOk then [pending[i]] else [])
      requires Filed(log) == Filed(start) + Pick(pending, fates0, InFailed)
      modifies `log, kept
      ensures Valid() && |fates| == i + 1 && HoldsKept(kept, n, fates) && Sorted(start, fates)
      ensures Trials(log) == old(Trials(log)) && Results(log) == old(Results(log)) && TalkOf(log) == old(TalkOf(log))
      ensures fates == fates0 + [if ret == RetOk then Committed
                                 else if ret == RetSuspended then Kept(given) else Failed(given)]
    {
      ghost var f := if ret == RetOk then Committed else if ret == RetSuspended then Kept(given) else Failed(given);
      n, fates := n0, fates0 + [f];
      if ret != RetOk && ret != RetSuspended { WriteErrorFile([pending[i]]); }
      Record(start, fates0, f);
      PickNext(pending, fates0, f, InKept);
      if ret == RetSuspended {
        Keep(kept, n0, i, fates0, given);
        n := n0 + 1;
      }
    }

    /**
     * actionTryRemoveHardErrorsFromBatch: every message of the batch is tried alone and committed, kept for a retry
     * or written to the error file as its result asks; after a deferred sleep the rest is kept untried. None is
     * given to the module twice. A forced termination leaves the rest untouched.
     */
    method Split(kept: array<Msg>)
        returns (ret: Ret, n: nat, allSlept: bool, ghost fates: seq<Fate>, ghost rets: seq<Ret>)
      requires Valid() && kept.Length == |pending|
      modifies `tick, `lastDown, `log, `state, `disabled, `disabledAt, `resumeInRow,
               `resumeAt, `nbrResRtry, `hadAutoCommit, kept
      ensures Valid() && tick >= old(tick) && lastDown >= old(lastDown) && (old(disabled) ==> disabled)
      ensures SplitDone(kept, old(log), ret, n, fates, rets) && Results(log) == old(Results(log))
      ensures Later(old(log), log) && (ret != RetOk ==> Explained(ret, old(tick), old(Calls(log))))
    {
      ret, n, allSlept, fates, rets := RetOk, 0, true, [], [];
      var i, done := 0, false;
      while i < |pending| && !done
        invariant Valid() && tick >= old(tick) && lastDown >= old(lastDown) && (old(disabled) ==> disabled)
        invariant !done ==> 0 <= i == |fates| == |rets| <= |pending| && ret == RetOk
        invariant !done ==> HoldsKept(kept, n, fates) && Sorted(old(log), fates)
        invariant !done ==> Trials(log) == old(Trials(log)) + Judged(pending, rets) && Judges(fates, rets)
        invariant done ==> SplitDone(kept, old(log), ret, n, fates, rets)
        invariant Results(log) == old(Results(log))
        invariant Later(old(log), log) && (ret != RetOk ==> Explained(ret, old(tick), old(Calls(log))))
        decreases !done, |pending| - i
      {
        ret, done, n, allSlept, fates, rets := SplitOne(kept, n, i, allSlept, old(log), fates, rets);
        i := i + 1;
      }
    }

    /** How a split ends. */
    ghost predicate SplitDone(kept: array<Msg>, start: Log, ret: Ret, n: nat, fates: seq<Fate>, rets: seq<Ret>)
      reads this, kept
    {
      && (ret == RetOk || ret == RetForceTerm)
      && |fates| <= |pending| && |rets| <= |pending| && (ret == RetOk ==> |fates| == |pending|)
      && (pending != [] ==> rets != [])
      && Trials(log) == Trials(start) + Judged(pending, rets) && Judges(fates, rets)
      && HoldsKept(kept, n, fates)
      && (ret == RetOk ==> Sorted(start, fates))
      && (ret == RetForceTerm ==>
            && |fates| == |rets| - 1 && rets[|rets| - 1] == RetForceTerm
            && (Given(log) == Given(start) + Pick(pending, fates, InGiven)
                || Given(log) == Given(start) + Pick(pending, fates, InGiven) + [pending[|fates|]]))
      && Acked(log) == Acked(start) + Pick(pending, fates, InCommitted)
      && Filed(log) == Filed(start) + Pick(pending, fates, InFailed)
    }

    /** One round of the split. */
    method SplitOne(kept: array<Msg>, n0: nat, i: nat, slept0: bool, ghost start: Log, ghost fates0: seq<Fate>,
                    ghost rets0: seq<Ret>)
        returns (ret: Ret, done: bool, n: nat, allSlept: bool, ghost fates: seq<Fate>, ghost rets: seq<Ret>)
      requires Valid() && |fates0| == |rets0| == i < |pending| == kept.Length
      requires HoldsKept(kept, n0, fates0) && Sorted(start, fates0)
      requires Trials(log) == Trials(start) + Judged(pending, rets0) && Judges(fates0, rets0)
      modifies `tick, `lastDown, `log, `state, `disabled, `disabledAt, `resumeInRow,
               `resumeAt, `nbrResRtry, `hadAutoCommit, kept
      ensures Valid() && tick >= old(tick) && lastDown >= old(lastDown) && (old(disabled) ==> disabled)
      ensures done ==> SplitDone(kept, start, ret, n, fates, rets)
      ensures Results(log) == old(Results(log))
      ensures Later(old(log), log) && (ret != RetOk ==> Explained(ret, old(tick), old(Calls(log))))
      ensures !done ==> ret == RetOk && |fates| == |rets| == i + 1 && HoldsKept(kept, n, fates) && Sorted(start, fates)
      ensures !done ==> Trials(log) == Trials(start) + Judged(pending, rets) && Judges(fates, rets)
    {
      var r, slept, deferred;
      ghost var given;
      r, slept, deferred, given := TryOne(pending[i]);
      JudgedNext(Trials(start), pending, rets0, r);
      rets := rets0 + [r];
      allSlept := deferred || (slept0 && (r != RetSuspended || slept));
      ret, done, n, fates := Dispose(kept, n0, i, r, deferred, given, start, fates0, rets0);
    }

    /** What becomes of a message tried alone, and of the rest of the batch. */
    method Dispose(kept: array<Msg>, n0: nat, i: nat, r: Ret, deferred: bool, ghost given: bool, ghost start: Log,
                   ghost fates0: seq<Fate>, ghost rets0: seq<Ret>)
        returns (ret: Ret, done: bool, n: nat, ghost fates: seq<Fate>)
      requires Valid() && |fates0| == |rets0| == i < |pending| == kept.Length
      requires HoldsKept(kept, n0, fates0) && Judges(fates0, rets0)
      requires (r == RetOk ==> given) && (deferred ==> !given && r == RetSuspended)
      requires Given(log) == Given(start) + Pick(pending, fates0, InGiven) + (if given then [pending[i]] else [])
      requires Acked(log) == Acked(start) + Pick(pending, fates0, InCommitted) + (if r == RetOk then [pending[i]] else [])
      requires Filed(log) == Filed(start) + Pick(pending, fates0, InFailed)
      requires Trials(log) == Trials(start) + Judged(pending, rets0 + [r])
      modifies `log, kept
      ensures Valid() && TalkOf(log) == old(TalkOf(log)) && Results(log) == old(Results(log))
      ensures ret == RetOk || (done && ret == r)
      ensures done ==> SplitDone(kept, start, ret, n, fates, rets0 + [r])
      ensures !done ==> ret == RetOk && |fates| == i + 1 && HoldsKept(kept, n, fates) && Sorted(start, fates)
      ensures !done ==> Trials(log) == Trials(start) + Judged(pending, rets0 + [r]) && Judges(fates, rets0 + [r])
    {
      ret, done, n, fates := RetOk, true, n0, fates0;
      JudgesNext(fates0, rets0, r);
      if deferred {
        n, fates := KeepRest(kept, n0, i, start, fates0);
        JudgesRest(fates0, fates, rets0, r);
      } else if r == RetForceTerm {
        ret := RetForceTerm;
      } else {
        done := false;
        n, fates := Settle(kept, n0, i, r, given, start, fates0);
      }
    }

    /** The shutdown test and the sleep that open each round of the commit loop. */
    method Pause(sleep: bool) returns (ret: Ret)
      requires Valid()
      modifies `tick, `lastDown
      ensures Valid() && tick > old(tick) && lastDown >= old(lastDown)
      ensures ret == RetOk || (ret == RetForceTerm && SawDown(old(tick)))
      ensures ret == RetOk ==> old(tick) < env.horizon && tick == old(tick) + (if sleep && Sleeps() then 3 else 1)
    {
      var down := IsShutdown();
      if down {
        ret := RetForceTerm;
      } else if sleep {
        ret := SleepBeforeRetrying();
      } else {
        ret := RetOk;
      }
    }

    /** When unsettled messages are let go without the error file. */
    ghost predicate GivesUp(ret: Ret)
      reads `state, `disabled
    {
      || ret.RetOk? || ret.RetFailed? || ret.RetDisable? || ret.RetForceTerm?
      || (!ret.RetSuspended? && (state.Rdy? || state.Susp? || disabled))
    }

    /** The part of a round after a suspended commit: the retry works out, or the messages go to the error file. */
    method RetryOrFile(msgs: seq<Msg>) returns (ret: Ret, done: bool, sleep: bool)
      requires Valid()
      modifies `tick, `lastDown, `log, `state, `disabled, `disabledAt, `resumeInRow, `resumeAt, `nbrResRtry
      ensures Valid() && tick > old(tick) && lastDown >= old(lastDown) && (old(disabled) ==> disabled)
      ensures Later(old(log), log) && SleptIf(old(log), !sleep)
      ensures Acked(log) == old(Acked(log)) && (done <==> ret != RetOk) && SameTrials(log, old(log))
      ensures Commits(log) == old(Commits(log)) && SameLoops(log, old(log))
      ensures done && ret != RetForceTerm ==> GaveUp(old(log), old(tick))
      ensures Filed(log) == old(Filed(log)) + (if done && ret != RetForceTerm then msgs else [])
      ensures done ==> Explained(ret, old(tick), old(Calls(log)))
    {
      var slept, deferred;
      ret, slept, deferred := DoRetry(true);
      done, sleep := ret != RetOk, !slept;
      if done && ret != RetForceTerm { WriteErrorFile(msgs); }
    }

    /** The end of a round whose commit was not suspended: another round, unless the messages are let go. */
    method AnotherRound(ret: Ret, ghost from: nat, ghost calls: nat) returns (done: bool)
      requires Valid() && ret != RetSuspended && (ret != RetOk ==> Explained(ret, from, calls))
      modifies `tick, `disabled, `disabledAt
      ensures Valid() && tick >= old(tick) && (old(disabled) ==> disabled)
      ensures ret != RetOk ==> Explained(ret, from, calls)
      ensures done ==> GivesUp(ret)
      ensures done <==> !GoesOn(ret, ret, state, disabled)
    {
      done := true;
      if ret != RetForceTerm && ret != RetOk && ret != RetFailed && ret != RetDisable
         && state != Rdy && state != Susp && state != Disabled {
        done := IsDisabled();
      }
    }

    ghost method StartLoop()
      requires Valid()
      modifies `log
      ensures Valid() && BooksOf(log) == old(BooksOf(log)).(loops := old(Loops(log)) + 1, open := true) && TalkOf(log) == old(TalkOf(log))
    {
      log := Then(log, LoopStart);
    }

    /** The end of a round, in the log: its commit, its result and the state it leaves decide whether it is the last. */
    ghost method NoteRound(ret: Ret, done: bool)
      requires Valid() && Open(log) && Commits(log) != []
      requires var commit := Commits(log)[|Commits(log)| - 1];
               (!commit.RetSuspended? ==> ret == commit) && (done <==> !GoesOn(commit, ret, state, disabled))
      modifies `log
      ensures Valid() && BooksOf(log) == old(BooksOf(log)).(rounds := old(Rounds(log)) + 1, open := !done) && TalkOf(log) == old(TalkOf(log))
    {
      log := Then(log, Round(Commits(log)[|Commits(log)| - 1], ret, state, disabled));
    }

    /** One attempt of a round. */
    method CommitAttempt(msgs: seq<Msg>) returns (ret: Ret, done: bool, sleep: bool)
      requires Valid() && Open(log)
      modifies `tick, `lastDown, `log, `state, `disabled, `disabledAt, `resumeInRow,
               `resumeAt, `nbrResRtry, `hadAutoCommit
      ensures Valid() && tick > old(tick) && lastDown >= old(lastDown) && (old(disabled) ==> disabled)
      ensures Later(old(log), log) && RoundPerCommit(old(log), log) && Loops(log) == old(Loops(log))
      ensures RoundDone(old(log), old(tick), msgs, ret, done)
      ensures done && ret != RetOk ==> Explained(ret, old(tick), old(Calls(log)))
    {
      var slept, deferred;
      ghost var given;
      ret, slept, deferred, given := TryCommit(msgs, true, false);
      sleep := false;
      if ret == RetSuspended {
        ret, done, sleep := RetryOrFile(msgs);
      } else {
        done := AnotherRound(ret, old(tick), old(Calls(log)));
      }
      NoteRound(ret, done);
    }

    /** What the rounds since step `from` did: nothing yet, or the messages were acknowledged, let go, or filed after the
        retry did not work out. */
    ghost predicate RoundDone(start: Log, from: nat, msgs: seq<Msg>, ret: Ret, done: bool)
      reads `log, `state, `disabled, `lastDown
    {
      && SameTrials(log, start)
      && (if done then !Open(log) || ret == RetForceTerm else Open(log))
      && Acked(log) == Acked(start) + (if done && ret == RetOk then msgs else [])
      && if Filed(log) == Filed(start) then !done || msgs == [] || GivesUp(ret)
         else done && ret != RetOk && Filed(log) == Filed(start) + msgs && GaveUp(start, from)
    }

    /** One round of the retry loop of actionCommit. */
    method CommitRound(msgs: seq<Msg>, sleep0: bool) returns (ret: Ret, done: bool, sleep: bool)
      requires Valid() && Open(log)
      modifies `tick, `lastDown, `log, `state, `disabled, `disabledAt, `resumeInRow,
               `resumeAt, `nbrResRtry, `hadAutoCommit
      ensures Valid() && tick > old(tick) && lastDown >= old(lastDown) && (old(disabled) ==> disabled)
      ensures Later(old(log), log) && RoundPerCommit(old(log), log) && Loops(log) == old(Loops(log))
      ensures !done ==> old(tick) < env.horizon
      ensures RoundDone(old(log), old(tick), msgs, ret, done)
      ensures done && ret != RetOk ==> Explained(ret, old(tick), old(Calls(log)))
    {
      done, sleep := true, false;
      ret := Pause(sleep0);
      if ret == RetOk {
        ret, done, sleep := CommitAttempt(msgs);
      }
    }

    /**
     * The retry loop of actionCommit. It ends with OK exactly when the messages were acknowledged; otherwise they
     * are written to the error file once or not at all.
     */
    method RetryLoop(msgs: seq<Msg>, sleepFirst: bool) returns (ret: Ret)
      requires Valid()
      modifies `tick, `lastDown, `log, `state, `disabled, `disabledAt, `resumeInRow,
               `resumeAt, `nbrResRtry, `hadAutoCommit
      ensures Valid() && tick > old(tick) && lastDown >= old(lastDown) && (old(disabled) ==> disabled)
      ensures Later(old(log), log) && RoundPerCommit(old(log), log) && Loops(log) == old(Loops(log)) + 1
      ensures RoundDone(old(log), old(tick), msgs, ret, true)
      ensures ret != RetOk ==> Explained(ret, old(tick), old(Calls(log)))
    {
      var sleep, done := sleepFirst, false;
      ret := RetOk;
      StartLoop();
      while !done
        invariant Valid() && tick >= old(tick) && lastDown >= old(lastDown) && (old(disabled) ==> disabled)
        invariant Later(old(log), log)
        invariant done ==> tick > old(tick)
        invariant RoundPerCommit(old(log), log) && Loops(log) == old(Loops(log)) + 1
        invariant RoundDone(old(log), old(tick), msgs, ret, done)
        invariant done && ret != RetOk ==> Explained(ret, old(tick), old(Calls(log)))
        decreases !done, env.horizon - tick
      {
        ret, done, sleep := CommitRound(msgs, sleep);
      }
    }

    /** What a commit may do with a batch: nothing is settled twice, and on OK everything is settled. */
    ghost predicate Conserved(start: Log, msgs: seq<Msg>, ret: Ret, acked: seq<Msg>, filed: seq<Msg>)
      reads `log
    {
      && Acked(log) == Acked(start) + acked
      && Filed(log) == Filed(start) + filed
      && Settles(msgs, ret == RetOk, acked, filed)
    }

    /**
     * How a commit that started at step `from` ends. A result other than OK has a reason, and then every message was
     * settled all the same, or the action gives up on the rest, or the batch is one message refused for its data. A
     * batch of several messages does not fail before some were tried alone, unless the action is disabled. Messages
     * are written to the error file only for cause.
     */
    ghost predicate Concluded(start: Log, from: nat, msgs: seq<Msg>, ret: Ret, acked: seq<Msg>, filed: seq<Msg>)
      reads `log, `state, `disabled, `lastDown
    {
      && Conserved(start, msgs, ret, acked, filed)
      && FiledForCause(start, from, msgs, ret, filed)
      && (ret != RetOk ==>
            && Explained(ret, from, Calls(start))
            && (Settles(msgs, true, acked, filed) || GivesUp(ret) || (|msgs| == 1 && ret == RetDataFail))
            && (|msgs| > 1 ==> |Trials(log)| > |Trials(start)| || EndedByDisable(ret, acked, filed)))
    }

    /** Messages were filed because their own trial failed, or a retry did not work out, or the action is suspended. */
    ghost predicate FiledForCause(start: Log, from: nat, msgs: seq<Msg>, ret: Ret, filed: seq<Msg>)
      reads `log, `state, `disabled, `lastDown
    {
      || filed == [] || filed == FailedSince(|Trials(start)|, Trials(log)) || GaveUp(start, from)
      || (state == Susp && ret == RetOk && filed == msgs)
    }

    /** The module was called, unless shutdown, a disable or an earlier data failure kept the action from it. */
    ghost predicate AskedModule(was: State, from: nat, start: Log)
      reads `log, `disabled, `lastDown
    {
      Calls(log) > Calls(start) || disabled || SawDown(from) || (was == DataFail && !cfg.hasCommit)
    }

    /** A commit ends at once for a disabled action, files the batch of a suspended one and else asks the module. */
    ghost predicate Handled(was: State, from: nat, start: Log, msgs: seq<Msg>, ret: Ret, acked: seq<Msg>, filed: seq<Msg>)
      reads `log, `state, `disabled, `lastDown
    {
      || msgs == [] || EndedByDisable(ret, acked, filed)
      || if was == Susp then ret == RetOk && filed == msgs else AskedModule(was, from, start)
    }

    ghost predicate EndedByDisable(ret: Ret, acked: seq<Msg>, filed: seq<Msg>)
      reads `state
    {
      ret == RetDisable && state == Disabled && acked == [] && filed == []
    }

    /** Retrying what a split kept. */
    method CommitKept(rest: seq<Msg>, sleep: bool) returns (ret: Ret, ghost more: seq<Msg>, ghost written: seq<Msg>)
      requires Valid() && rest != []
      modifies `tick, `lastDown, `log, `state, `disabled, `disabledAt, `resumeInRow,
               `resumeAt, `nbrResRtry, `hadAutoCommit
      ensures Valid() && tick >= old(tick) && lastDown >= old(lastDown) && (old(disabled) ==> disabled)
      ensures Later(old(log), log)
      ensures Acked(log) == old(Acked(log)) + more && Filed(log) == old(Filed(log)) + written
      ensures SameTrials(log, old(log)) && (written != [] ==> GaveUp(old(log), old(tick)))
      ensures more == (if ret == RetOk then rest else []) && (written == [] || (ret != RetOk && written == rest))
      ensures ret != RetOk ==> Explained(ret, old(tick), old(Calls(log))) && (written == [] ==> GivesUp(ret))
    {
      ret := RetryLoop(rest, sleep);
      more := if ret == RetOk then rest else [];
      written := if Filed(log) == old(Filed(log)) then [] else rest;
    }

    /** Splitting a batch and retrying what was kept. */
    method CommitSplit() returns (ret: Ret, ghost acked: seq<Msg>, ghost filed: seq<Msg>)
      requires Valid() && pending != []
      modifies `tick, `lastDown, `log, `state, `disabled, `disabledAt, `resumeInRow,
               `resumeAt, `nbrResRtry, `hadAutoCommit
      ensures Valid() && tick >= old(tick) && lastDown >= old(lastDown) && (old(disabled) ==> disabled)
      ensures Later(old(log), log)
      ensures Concluded(old(log), old(tick), pending, ret, acked, filed) && Results(log) == old(Results(log))
    {
      var kept := new Msg[|pending|](_ => []);
      var n, allSlept;
      ghost var fates, rets;
      ret, n, allSlept, fates, rets := Split(kept);
      if ret == RetOk && n != 0 {
        SplitTried(kept, old(log), ret, n, fates, rets);
        ret, acked, filed := CommitRest(kept[..n], !allSlept, old(log), old(tick), fates);
      } else {
        acked, filed := Pick(pending, fates, InCommitted), Pick(pending, fates, InFailed);
        SplitEnds(kept, old(log), old(tick), ret, n, fates, rets);
      }
    }

    lemma SplitTried(kept: array<Msg>, start: Log, ret: Ret, n: nat, fates: seq<Fate>, rets: seq<Ret>)
      requires SplitDone(kept, start, ret, n, fates, rets)
      ensures Pick(pending, fates, InFailed) == FailedSince(|Trials(start)|, Trials(log))
      ensures pending != [] ==> |Trials(log)| > |Trials(start)|
    {
      FailedWereTried(Trials(start), pending, fates, rets);
    }

    /** A split that keeps nothing, or is ended, concludes the commit. */
    lemma SplitEnds(kept: array<Msg>, start: Log, from: nat, ret: Ret, n: nat, fates: seq<Fate>, rets: seq<Ret>)
      requires pending != [] && SplitDone(kept, start, ret, n, fates, rets) && (ret == RetOk ==> n == 0)
      requires ret != RetOk ==> Explained(ret, from, Calls(start))
      ensures Concluded(start, from, pending, ret, Pick(pending, fates, InCommitted), Pick(pending, fates, InFailed))
    {
      SplitTried(kept, start, ret, n, fates, rets);
      SplitSettles(pending, fates, false, false);
    }

    /** Retrying what was kept, seen from before the split. */
    method CommitRest(rest: seq<Msg>, sleep: bool, ghost start: Log, ghost from: nat, ghost fates: seq<Fate>)
        returns (ret: Ret, ghost acked: seq<Msg>, ghost filed: seq<Msg>)
      requires Valid() && from <= tick && Later(start, log) && |fates| == |pending|
      requires rest == Pick(pending, fates, InKept) && rest != []
      requires Acked(log) == Acked(start) + Pick(pending, fates, InCommitted)
      requires Filed(log) == Filed(start) + Pick(pending, fates, InFailed)
      requires Pick(pending, fates, InFailed) == FailedSince(|Trials(start)|, Trials(log))
      requires |Trials(log)| > |Trials(start)|
      modifies `tick, `lastDown, `log, `state, `disabled, `disabledAt, `resumeInRow,
               `resumeAt, `nbrResRtry, `hadAutoCommit
      ensures Valid() && tick >= old(tick) && lastDown >= old(lastDown) && (old(disabled) ==> disabled)
      ensures Later(old(log), log) && Results(log) == old(Results(log))
      ensures Concluded(start, from, pending, ret, acked, filed)
    {
      ghost var more, written;
      ret, more, written := CommitKept(rest, sleep);
      acked, filed := Pick(pending, fates, InCommitted) + more, Pick(pending, fates, InFailed) + written;
      RestEnds(start, from, fates, ret, more, written);
    }

    /** The retry of the kept messages concludes the commit. */
    lemma RestEnds(start: Log, from: nat, fates: seq<Fate>, ret: Ret, more: seq<Msg>, written: seq<Msg>)
      requires |fates| == |pending| && |Trials(log)| > |Trials(start)|
      requires var rest := Pick(pending, fates, InKept);
               && rest != [] && more == (if ret == RetOk then rest else [])
               && (written == [] || (ret != RetOk && written == rest))
      requires Acked(log) == Acked(start) + Pick(pending, fates, InCommitted) + more
      requires Filed(log) == Filed(start) + Pick(pending, fates, InFailed) + written
      requires Pick(pending, fates, InFailed) == FailedSince(|Trials(start)|, Trials(log))
      requires ret != RetOk ==> Explained(ret, from, Calls(start))
      requires if written != [] then GaveUp(start, from) else GivesUp(ret)
      ensures Concluded(start, from, pending, ret, Pick(pending, fates, InCommitted) + more,
                        Pick(pending, fates, InFailed) + written)
    {
      SplitSettles(pending, fates, more != [], written != []);
      Append(Acked(start), Pick(pending, fates, InCommitted), more);
      Append(Filed(start), Pick(pending, fates, InFailed), written);
      Append(Pick(pending, fates, InFailed), [], []);
    }

    /** Retrying a batch of one. */
    method CommitSingle(sleep: bool) returns (ret: Ret, ghost acked: seq<Msg>, ghost filed: seq<Msg>)
      requires Valid() && |pending| == 1
      modifies `tick, `lastDown, `log, `state, `disabled, `disabledAt, `resumeInRow,
               `resumeAt, `nbrResRtry, `hadAutoCommit
      ensures Valid() && tick >= old(tick) && lastDown >= old(lastDown) && (old(disabled) ==> disabled)
      ensures Later(old(log), log)
      ensures Concluded(old(log), old(tick), pending, ret, acked, filed) && Results(log) == old(Results(log))
    {
      ret, acked, filed := CommitKept(pending, sleep);
    }

    /** actionCommit */
    method Commit() returns (ret: Ret, ghost acked: seq<Msg>, ghost filed: seq<Msg>)
      requires Valid()
      modifies this
      ensures Valid() && tick > old(tick) && lastDown >= old(lastDown) && (old(disabled) ==> disabled) && pending == []
      ensures Results(log) == old(Results(log))
      ensures cfg.transactional ==> Concluded(old(log), old(tick), old(pending), ret, acked, filed)
      ensures cfg.transactional ==> Handled(old(state), old(tick), old(log), old(pending), ret, acked, filed)
      ensures !cfg.transactional ==> log == old(log) && (ret == RetOk || (ret == RetDisable && state == Disabled))
    {
      ret, acked, filed := CommitQueued();
      pending := [];
    }

    /** The part of actionCommit before the batch is cleared. */
    method CommitQueued() returns (ret: Ret, ghost acked: seq<Msg>, ghost filed: seq<Msg>)
      requires Valid()
      modifies `tick, `lastDown, `log, `state, `disabled, `disabledAt, `resumeInRow,
               `resumeAt, `nbrResRtry, `hadAutoCommit
      ensures Valid() && tick > old(tick) && lastDown >= old(lastDown) && (old(disabled) ==> disabled)
      ensures Results(log) == old(Results(log))
      ensures cfg.transactional ==> Concluded(old(log), old(tick), pending, ret, acked, filed)
      ensures cfg.transactional ==> Handled(old(state), old(tick), old(log), pending, ret, acked, filed)
      ensures !cfg.transactional ==> log == old(log) && (ret == RetOk || (ret == RetDisable && state == Disabled))
    {
      var d := IsDisabled();
      if d || !cfg.transactional || pending == [] {
        ret, acked, filed := CommitNothing(d, old(tick));
      } else {
        ret, acked, filed := CommitPending();
      }
    }

    /** actionCommit for an action that is disabled or has nothing to commit. */
    method CommitNothing(d: bool, ghost from: nat) returns (ret: Ret, ghost acked: seq<Msg>, ghost filed: seq<Msg>)
      requires Valid() && (d ==> disabled) && (!d && cfg.transactional ==> pending == [])
      modifies `state, `disabled, `disabledAt
      ensures Valid() && (d ==> disabled) && (old(disabled) ==> disabled)
      ensures cfg.transactional ==> Concluded(log, from, pending, ret, acked, filed)
      ensures if d then EndedByDisable(ret, acked, filed) else ret == RetOk
    {
      NothingSettled(Acked(log), Filed(log), pending);
      acked, filed := [], [];
      if d {
        DisableForWorker();
        ret := RetDisable;
      } else {
        ret := RetOk;
      }
    }

    /** actionCommit for an enabled action with messages to commit. */
    method CommitPending() returns (ret: Ret, ghost acked: seq<Msg>, ghost filed: seq<Msg>)
      requires Valid() && pending != []
      modifies `tick, `lastDown, `log, `state, `disabled, `disabledAt, `resumeInRow,
               `resumeAt, `nbrResRtry, `hadAutoCommit
      ensures Valid() && tick >= old(tick) && lastDown >= old(lastDown) && (old(disabled) ==> disabled)
      ensures Concluded(old(log), old(tick), pending, ret, acked, filed) && Results(log) == old(Results(log))
      ensures Handled(old(state), old(tick), old(log), pending, ret, acked, filed)
    {
      if state == Susp {
        WriteErrorFile(pending);
        ret, acked, filed := RetOk, [], pending;
      } else {
        ret, acked, filed := CommitReady();
      }
    }

    /** The same, for an action that is not suspended. */
    method CommitReady() returns (ret: Ret, ghost acked: seq<Msg>, ghost filed: seq<Msg>)
      requires Valid() && pending != [] && state != Susp
      modifies `tick, `lastDown, `log, `state, `disabled, `disabledAt, `resumeInRow,
               `resumeAt, `nbrResRtry, `hadAutoCommit
      ensures Valid() && tick >= old(tick) && lastDown >= old(lastDown) && (old(disabled) ==> disabled)
      ensures Concluded(old(log), old(tick), pending, ret, acked, filed) && Results(log) == old(Results(log))
      ensures AskedModule(old(state), old(tick), old(log))
    {
      var slept, deferred;
      ghost var given;
      ret, slept, deferred, given := TryCommit(pending, true, false);
      if ret == RetOk || (|pending| == 1 && ret == RetDataFail) {
        acked, filed := if ret == RetOk then pending else [], [];
      } else {
        ret, acked, filed := CommitFurther(ret == RetSuspended, old(log), old(tick));
      }
    }

    /** The part of actionCommit after a failed commit of the whole batch. */
    method CommitFurther(sleep: bool, ghost start: Log, ghost from: nat)
        returns (ret: Ret, ghost acked: seq<Msg>, ghost filed: seq<Msg>)
      requires Valid() && pending != [] && from <= tick
      requires Acked(log) == Acked(start) && KeptFiles(log, start) && Later(start, log)
      modifies `tick, `lastDown, `log, `state, `disabled, `disabledAt, `resumeInRow,
               `resumeAt, `nbrResRtry, `hadAutoCommit
      ensures Valid() && tick >= old(tick) && lastDown >= old(lastDown) && (old(disabled) ==> disabled)
      ensures Later(old(log), log) && Results(log) == old(Results(log))
      ensures Concluded(start, from, pending, ret, acked, filed)
    {
      if |pending| != 1 {
        ret, acked, filed := CommitSplit();
      } else {
        ret, acked, filed := CommitSingle(sleep);
      }
      ConcludedSince(start, old(log), from, old(tick), pending, ret, acked, filed);
    }

    /** A commit seen from an earlier point with the same books. */
    lemma ConcludedSince(start: Log, mid: Log, from: nat, midway: nat, msgs: seq<Msg>, ret: Ret, acked: seq<Msg>, filed: seq<Msg>)
      requires Concluded(mid, midway, msgs, ret, acked, filed) && Later(start, mid) && from <= midway
      requires Acked(mid) == Acked(start) && Filed(mid) == Filed(start) && Trials(mid) == Trials(start)
      ensures Concluded(start, from, msgs, ret, acked, filed)
    {}

    // ----- batches -----

    /** processMsgMain, for an action without an output rate limit. Its result is entered in the log. */
    method ProcessMsgMain(msg: Msg) returns (ret: Ret)
      requires Valid()
      modifies this
      ensures Valid() && tick > old(tick) && lastDown >= old(lastDown) && (old(disabled) ==> disabled)
      ensures Results(log) == old(Results(log)) + [(msg, ret)]
      ensures cfg.transactional ==> SameButResults(log, old(log)) && ret != RetOk
      ensures cfg.transactional ==>
                pending == old(pending) + [msg] || (pending == old(pending) && ret == RetDisable)
      ensures !cfg.transactional ==>
                Given(log) == old(Given(log)) + (if Taken(ret) then [msg] else [])
                || (ret == RetDisable && Given(log) == old(Given(log)) + [msg])
      ensures Later(old(log), log) && (ret != RetOk ==> Explained(ret, old(tick), old(Calls(log))))
    {
      ret := ProcessMsg(msg);
      log := Then(log, Outcome(msg, ret));
    }

    method ProcessMsg(msg: Msg) returns (ret: Ret)
      requires Valid()
      modifies this
      ensures Valid() && tick > old(tick) && lastDown >= old(lastDown) && (old(disabled) ==> disabled)
      ensures Results(log) == old(Results(log))
      ensures cfg.transactional ==> SameBooks(log, old(log)) && ret != RetOk
      ensures cfg.transactional ==>
                pending == old(pending) + [msg] || (pending == old(pending) && ret == RetDisable)
      ensures !cfg.transactional ==>
                Given(log) == old(Given(log)) + (if Taken(ret) then [msg] else [])
                || (ret == RetDisable && Given(log) == old(Given(log)) + [msg])
      ensures Later(old(log), log) && (ret != RetOk ==> Explained(ret, old(tick), old(Calls(log))))
    {
      var d := IsDisabled();
      if d {
        DisableForWorker();
        ret := RetDisable;
      } else if cfg.transactional {
        pending := pending + [msg];
        ret := PrepareOnly();
      } else {
        ret := ProcessAlone(msg);
      }
    }

    /** processMsgMain for a transactional action, after the message was queued. */
    method PrepareOnly() returns (ret: Ret)
      requires Valid()
      modifies `tick, `lastDown, `log, `state, `disabled, `disabledAt, `resumeInRow,
               `resumeAt, `nbrResRtry, `hadAutoCommit
      ensures Valid() && tick > old(tick) && lastDown >= old(lastDown) && (old(disabled) ==> disabled)
      ensures SameBooks(log, old(log)) && ret != RetOk
      ensures Later(old(log), log) && (ret != RetOk ==> Explained(ret, old(tick), old(Calls(log))))
    {
      var slept, deferred;
      ret, slept, deferred := Prepare(true, false);
      if ret == RetOk { ret := ReturnCode(); }
    }

    /** processMsgMain for an action without transactions. */
    method ProcessAlone(msg: Msg) returns (ret: Ret)
      requires Valid() && !cfg.transactional
      modifies this
      ensures Valid() && tick > old(tick) && lastDown >= old(lastDown) && (old(disabled) ==> disabled)
      ensures Results(log) == old(Results(log))
      ensures Given(log) == old(Given(log)) + (if Taken(ret) then [msg] else [])
              || (ret == RetDisable && Given(log) == old(Given(log)) + [msg])
      ensures Later(old(log), log) && (ret != RetOk ==> Explained(ret, old(tick), old(Calls(log))))
    {
      ret := ProcessMessage(msg);
      if ret == RetOk && cfg.autoCommit {
        ghost var acked, filed;
        ret, acked, filed := Commit();
      }
    }

    /** The books after one element: its result, and that it was queued, or given exactly if it was taken. */
    ghost predicate Booked(start: Log, queued: seq<Msg>, live: bool, msg: Msg, ret: Ret)
      reads this
    {
      if cfg.transactional then SameButResults(log, start) && pending == queued + (if live then [msg] else [])
      else Given(log) == Given(start) + (if live && Taken(ret) then [msg] else [])
    }

    /** One element of processBatchMain; a disable commits it and all later ones. */
    method ProcessElement(elts: array<BatchState>, i: nat, msg: Msg) returns (stop: bool, ghost ret: Ret)
      requires Valid() && i < elts.Length
      modifies this, elts
      ensures Valid() && tick >= old(tick) && lastDown >= old(lastDown) && Later(old(log), log)
      ensures ret != RetOk ==> Explained(ret, old(tick), old(Calls(log)))
      ensures stop <==> old(elts[i]) != Disc && ret == RetDisable
      ensures !stop ==> elts[..] == old(elts[..])[i := ElemAfter(old(elts[i]), ret)]
      ensures stop ==> state == Disabled && Marked(elts[..], old(elts[..]), i, Comm)
      ensures !stop ==> Booked(old(log), old(pending), old(elts[i]) != Disc, msg, ret)
      ensures Results(log) == old(Results(log)) + (if old(elts[i]) != Disc then [(msg, ret)] else [])
      ensures cfg.transactional ==> SameButResults(log, old(log))
      ensures !cfg.transactional && stop ==> Given(log) == old(Given(log)) || Given(log) == old(Given(log)) + [msg]
    {
      stop, ret := false, RetOk;
      if IsValidElem(elts, i) {
        var localRet := ProcessMsgMain(msg);
        ret := localRet;
        if Taken(localRet) || localRet == RetFailed {
          SetElemState(elts, i, Comm);
        } else if localRet == RetDisable {
          DisableForWorker();
          MarkFrom(elts, i, Comm);
          stop := true;
        }
      }
    }

    /** The books after the elements with these results. */
    ghost predicate AllBooked(start: Log, queued: seq<Msg>, msgs: seq<Msg>, was: seq<BatchState>, rets: seq<Ret>)
      requires |rets| <= |msgs| == |was|
      reads this
    {
      && Results(log) == Results(start) + Outcomes(msgs, was, rets)
      && if cfg.transactional then SameButResults(log, start) && pending == queued + Live(msgs, was, |rets|)
         else Given(log) == Given(start) + TakenOf(msgs, was, rets)
    }

    /** The books when the last of the processed elements reported a disable. */
    ghost predicate StopBooked(start: Log, msgs: seq<Msg>, was: seq<BatchState>, rets: seq<Ret>)
      requires 0 < |rets| <= |msgs| == |was|
      reads this
    {
      && Results(log) == Results(start) + Outcomes(msgs, was, rets)
      && if cfg.transactional then SameButResults(log, start)
      else
        var most := Given(start) + TakenOf(msgs, was, rets[..|rets| - 1]);
        Given(log) == most || Given(log) == most + [msgs[|rets| - 1]]
    }

    /** The next element, with its result in the books. */
    method ProcessNext(elts: array<BatchState>, msgs: seq<Msg>, i: nat, ghost start: Log, ghost queued: seq<Msg>,
                       ghost was: seq<BatchState>, ghost rets0: seq<Ret>)
        returns (stop: bool, ghost rets: seq<Ret>)
      requires Valid() && elts.Length == |msgs| == |was| && i == |rets0| < |msgs|
      requires Processed(elts[..], was, rets0, false) && AllBooked(start, queued, msgs, was, rets0)
      modifies this, elts
      ensures Valid() && tick >= old(tick) && lastDown >= old(lastDown) && Later(old(log), log)
      ensures |rets| == i + 1 && (stop ==> state == Disabled) && Processed(elts[..], was, rets, stop)
      ensures if stop then StopBooked(start, msgs, was, rets) else AllBooked(start, queued, msgs, was, rets)
    {
      ghost var now, ret := elts[..], RetOk;
      stop, ret := ProcessElement(elts, i, msgs[i]);
      ProcessedNext(now, was, rets0, ret, elts[..], stop);
      OutcomesNext(Results(start), msgs, was, rets0, ret);
      TakenOfNext(Given(start), msgs, was, rets0, ret);
      LiveNext(queued, msgs, was, i);
      rets := rets0 + [ret];
      assert rets[..i] == rets0;
    }

    /** The loop of processBatchMain, with the results of the processed elements. */
    method ProcessElements(elts: array<BatchState>, msgs: seq<Msg>) returns (stop: bool, ghost rets: seq<Ret>)
      requires Valid() && elts.Length == |msgs|
      modifies this, elts
      ensures Valid() && tick >= old(tick) && lastDown >= old(lastDown) && Later(old(log), log)
      ensures (if stop then 0 < |rets| <= |msgs| && state == Disabled else |rets| <= |msgs|)
              && (!stop && |rets| < |msgs| ==> SawDown(old(tick)))
      ensures Processed(elts[..], old(elts[..]), rets, stop) && (env.down(old(tick)) ==> rets == [])
      ensures if stop then StopBooked(old(log), msgs, old(elts[..]), rets)
              else AllBooked(old(log), old(pending), msgs, old(elts[..]), rets)
    {
      stop, rets := false, [];
      var i, down := 0, false;
      while i < |msgs| && !stop && !down
        invariant Valid() && lastDown >= old(lastDown) && i == |rets|
        invariant Going(old(log), old(tick), old(pending), msgs, old(elts[..]), elts[..], rets, stop, down)
        decreases !stop && !down, |msgs| - i
      {
        down, stop, rets := NextTurn(elts, msgs, i, old(log), old(tick), old(pending), old(elts[..]), rets);
        if !down { i := i + 1; }
      }
    }

    /** What holds between the turns of the loop. */
    ghost predicate Going(start: Log, from: nat, queued: seq<Msg>, msgs: seq<Msg>, was: seq<BatchState>,
                          now: seq<BatchState>, rets: seq<Ret>, stop: bool, down: bool)
      requires |msgs| == |was|
      reads this
    {
      && |rets| <= |msgs| && from <= tick && Later(start, log)
      && (down ==> !stop && SawDown(from)) && (stop ==> rets != [] && state == Disabled)
      && (env.down(from) ==> rets == []) && (rets == [] && !down ==> tick == from)
      && Processed(now, was, rets, stop)
      && if stop then StopBooked(start, msgs, was, rets) else AllBooked(start, queued, msgs, was, rets)
    }

    /** One turn of the loop. */
    method NextTurn(elts: array<BatchState>, msgs: seq<Msg>, i: nat, ghost start: Log, ghost from: nat,
                    ghost queued: seq<Msg>, ghost was: seq<BatchState>, ghost rets0: seq<Ret>)
        returns (down: bool, stop: bool, ghost rets: seq<Ret>)
      requires Valid() && elts.Length == |msgs| == |was| && i == |rets0| < |msgs|
      requires Going(start, from, queued, msgs, was, elts[..], rets0, false, false)
      modifies this, elts
      ensures Valid() && lastDown >= old(lastDown)
      ensures |rets| == (if down then i else i + 1) && Going(start, from, queued, msgs, was, elts[..], rets, stop, down)
    {
      stop, rets := false, rets0;
      down := IsShutdown();
      if !down {
        stop, rets := ProcessNext(elts, msgs, i, start, queued, was, rets0);
      }
    }

    /** A batch whose commit ran, over the messages of the elements with these results. */
    ghost predicate Ran(start: Log, from: nat, queued: seq<Msg>, msgs: seq<Msg>, was: seq<BatchState>, now: seq<BatchState>,
                        ret: Ret, rets: seq<Ret>, acked: seq<Msg>, filed: seq<Msg>)
      requires |rets| <= |msgs| == |was|
      reads this
    {
      && pending == [] && (|rets| < |msgs| ==> SawDown(from))
      && Results(log) == Results(start) + Outcomes(msgs, was, rets)
      && (if ret == RetForceTerm && cfg.transactional then Marked(now, was, 0, Ready) else Processed(now, was, rets, false))
      && if cfg.transactional then Concluded(start, from, queued + Live(msgs, was, |rets|), ret, acked, filed)
         else Given(log) == Given(start) + TakenOf(msgs, was, rets) && (ret == RetOk || (ret == RetDisable && state == Disabled))
    }

    /**
     * processBatchMain. Either the action was disabled at once, or a disable was the result of the last processed
     * element, and the rest of the batch is committed; or the commit ran over the messages of the processed elements.
     * A forced termination of a transactional commit leaves the batch ready; otherwise the elements are as their
     * results say.
     */
    method ProcessBatchMain(elts: array<BatchState>, msgs: seq<Msg>)
        returns (ret: Ret, ghost ran: bool, ghost rets: seq<Ret>, ghost acked: seq<Msg>, ghost filed: seq<Msg>)
      requires Valid() && elts.Length == |msgs|
      modifies this, elts
      ensures Valid() && tick >= old(tick) && lastDown >= old(lastDown) && |rets| <= |msgs|
      ensures !ran ==> ret == RetOk && state == Disabled
      ensures !ran && rets == [] ==> log == old(log) && Marked(elts[..], old(elts[..]), 0, Comm)
      ensures !ran && rets != [] ==>
                Processed(elts[..], old(elts[..]), rets, true) && StopBooked(old(log), msgs, old(elts[..]), rets)
      ensures ran ==>
                Ran(old(log), old(tick), old(pending), msgs, old(elts[..]), elts[..], ret, rets, acked, filed)
    {
      ret, ran, rets, acked, filed := RetOk, false, [], [], [];
      var stop := IsDisabled();
      if stop {
        DisableForWorker();
        MarkFrom(elts, 0, Comm);
      } else {
        stop, rets := ProcessElements(elts, msgs);
        if !stop {
          ran := true;
          ret, acked, filed := FinishBatch(elts, msgs, old(log), old(tick), old(pending), old(elts[..]), rets);
        }
      }
    }

    /** The end of processBatchMain, seen from its start. */
    method FinishBatch(elts: array<BatchState>, msgs: seq<Msg>, ghost start: Log, ghost from: nat, ghost queued: seq<Msg>,
                       ghost was: seq<BatchState>, ghost rets: seq<Ret>)
        returns (ret: Ret, ghost acked: seq<Msg>, ghost filed: seq<Msg>)
      requires Valid() && |rets| <= |msgs| == |was| && (|rets| < |msgs| ==> SawDown(from))
      requires from <= tick && Later(start, log)
      requires Processed(elts[..], was, rets, false) && AllBooked(start, queued, msgs, was, rets)
      modifies this, elts
      ensures Valid() && tick >= old(tick) && lastDown >= old(lastDown)
      ensures Ran(start, from, queued, msgs, was, elts[..], ret, rets, acked, filed)
    {
      ret, acked, filed := CommitBatch(elts, was, rets);
      if cfg.transactional {
        ConcludedSince(start, old(log), from, old(tick), old(pending), ret, acked, filed);
      }
    }

    /** The commit at the end of processBatchMain. */
    method CommitBatch(elts: array<BatchState>, ghost was: seq<BatchState>, ghost rets: seq<Ret>)
        returns (ret: Ret, ghost acked: seq<Msg>, ghost filed: seq<Msg>)
      requires Valid() && Processed(elts[..], was, rets, false)
      modifies this, elts
      ensures Valid() && tick >= old(tick) && lastDown >= old(lastDown) && pending == []
      ensures if ret == RetForceTerm && cfg.transactional then Marked(elts[..], was, 0, Ready)
              else Processed(elts[..], was, rets, false)
      ensures Results(log) == old(Results(log))
      ensures cfg.transactional ==> Concluded(old(log), old(tick), old(pending), ret, acked, filed)
      ensures !cfg.transactional ==> log == old(log) && (ret == RetOk || (ret == RetDisable && state == Disabled))
    {
      ret, acked, filed := Commit();
      if ret == RetForceTerm && cfg.transactional {
        MarkFrom(elts, 0, Ready);
        ReadyAgain(old(elts[..]), was, rets, elts[..]);
      }
    }
  }

  /** An action is disabled only if another worker did so at some step or its module asked for it. */
  lemma DisabledForAReason(e: Engine)
    requires e.Valid() && e.disabled
    ensures Banned(e.log) || exists t: nat :: t < e.tick && e.env.disable(t)
  {
    if !Banned(e.log) {
      assert e.env.disable(e.disabledAt);
    }
  }

  // ----- batch elements (runtime/batch.h) -----

  datatype BatchState = Ready | Bad | Submitted | Comm | Disc

  /** batchIsValidElem */
  predicate IsValidElem(elts: array<BatchState>, i: nat)
    requires i < elts.Length
    reads elts
  {
    elts[i] != Disc
  }

  /** batchSetElemState: a discarded element stays discarded. */
  method SetElemState(elts: array<BatchState>, i: nat, s: BatchState)
    requires i < elts.Length
    modifies elts
    ensures elts[i] == if old(elts[i]) == Disc then Disc else s
    ensures forall j :: 0 <= j < elts.Length && j != i ==> elts[j] == old(elts[j])
  {
    if elts[i] != Disc { elts[i] := s; }
  }

  /** An element after processMsgMain gave it this result. */
  function ElemAfter(was: BatchState, ret: Ret): BatchState {
    if was != Disc && (Taken(ret) || ret == RetFailed) then Comm else was
  }

  /** From `first` on every element that is not discarded has state s; the others are as before. */
  predicate Marked(now: seq<BatchState>, was: seq<BatchState>, first: nat, s: BatchState) {
    |now| == |was| && forall j :: 0 <= j < |now| ==>
      now[j] == if j < first || was[j] == Disc then was[j] else s
  }

  /**
   * The elements after processing with these results. With `stop` the last result is the first disable and its
   * element and all later ones are committed; without, no result is a disable and the other elements are as before.
   */
  predicate Processed(now: seq<BatchState>, was: seq<BatchState>, rets: seq<Ret>, stop: bool) {
    var seen := if stop then |rets| - 1 else |rets|;
    && |rets| <= |now| == |was|
    && (stop ==> rets != [] && was[seen] != Disc && rets[seen] == RetDisable)
    && (forall j :: 0 <= j < seen ==> now[j] == ElemAfter(was[j], rets[j]) && !(was[j] != Disc && rets[j] == RetDisable))
    && (forall j :: 0 <= seen <= j < |now| ==> now[j] == if stop && was[j] != Disc then Comm else was[j])
  }

  lemma ProcessedNext(now: seq<BatchState>, was: seq<BatchState>, rets: seq<Ret>, ret: Ret, next: seq<BatchState>, stop: bool)
    requires Processed(now, was, rets, false) && |rets| < |now|
    requires stop <==> was[|rets|] != Disc && ret == RetDisable
    requires !stop ==> next == now[|rets| := ElemAfter(now[|rets|], ret)]
    requires stop ==> Marked(next, now, |rets|, Comm)
    ensures Processed(next, was, rets + [ret], stop)
  {}

  lemma ReadyAgain(now: seq<BatchState>, was: seq<BatchState>, rets: seq<Ret>, next: seq<BatchState>)
    requires Processed(now, was, rets, false) && Marked(next, now, 0, Ready)
    ensures Marked(next, was, 0, Ready)
  {}

  /** markBatchCommittedFrom, markBatchReadyFrom */
  method MarkFrom(elts: array<BatchState>, first: nat, s: BatchState)
    requires first <= elts.Length
    modifies elts
    ensures Marked(elts[..], old(elts[..]), first, s)
  {
    for i := first to elts.Length
      invariant forall j :: 0 <= j < elts.Length ==>
                  elts[j] == if first <= j < i && old(elts[j]) != Disc then s else old(elts[j])
    {
      if IsValidElem(elts, i) { SetElemState(elts, i, s); }
    }
  }

  /** The messages of the first k elements that are not discarded. */
  function Live(msgs: seq<Msg>, elts: seq<BatchState>, k: nat): seq<Msg>
    requires k <= |msgs| == |elts|
  {
    if k == 0 then [] else Live(msgs, elts, k - 1) + (if elts[k - 1] != Disc then [msgs[k - 1]] else [])
  }

  /** The messages of the first elements that are not discarded and were taken. */
  function TakenOf(msgs: seq<Msg>, elts: seq<BatchState>, rets: seq<Ret>): seq<Msg>
    requires |rets| <= |msgs| == |elts|
    decreases |rets|
  {
    if rets == [] then []
    else
      var k := |rets| - 1;
      TakenOf(msgs, elts, rets[..k]) + (if elts[k] != Disc && Taken(rets[k]) then [msgs[k]] else [])
  }

  /** The results of the first elements that are not discarded, with their messages. */
  function Outcomes(msgs: seq<Msg>, elts: seq<BatchState>, rets: seq<Ret>): seq<(Msg, Ret)>
    requires |rets| <= |msgs| == |elts|
    decreases |rets|
  {
    if rets == [] then []
    else
      var k := |rets| - 1;
      Outcomes(msgs, elts, rets[..k]) + (if elts[k] != Disc then [(msgs[k], rets[k])] else [])
  }

  lemma {:induction false} OutcomesNext(base: seq<(Msg, Ret)>, msgs: seq<Msg>, elts: seq<BatchState>, rets: seq<Ret>, r: Ret)
    requires |rets| < |msgs| == |elts|
    ensures base + Outcomes(msgs, elts, rets + [r])
         == base + Outcomes(msgs, elts, rets) + (if elts[|rets|] != Disc then [(msgs[|rets|], r)] else [])
  {
    assert (rets + [r])[..|rets|] == rets;
    assert forall x, y: seq<(Msg, Ret)> :: base + (x + y) == base + x + y;
  }

  lemma {:induction false} TakenOfNext(base: seq<Msg>, msgs: seq<Msg>, elts: seq<BatchState>, rets: seq<Ret>, r: Ret)
    requires |rets| < |msgs| == |elts|
    ensures base + TakenOf(msgs, elts, rets + [r])
         == base + TakenOf(msgs, elts, rets) + (if elts[|rets|] != Disc && Taken(r) then [msgs[|rets|]] else [])
  {
    assert (rets + [r])[..|rets|] == rets;
    Append(base, TakenOf(msgs, elts, rets), if elts[|rets|] != Disc && Taken(r) then [msgs[|rets|]] else []);
  }

  lemma {:induction false} LiveNext(base: seq<Msg>, msgs: seq<Msg>, elts: seq<BatchState>, k: nat)
    requires k < |msgs| == |elts|
    ensures base + Live(msgs, elts, k + 1) == base + Live(msgs, elts, k) + (if elts[k] != Disc then [msgs[k]] else [])
  {}

  lemma Append(a: seq<Msg>, b: seq<Msg>, c: seq<Msg>)
    ensures a + b + c == a + (b + c) && a + [] == a
  {}

  /** Acknowledged and filed messages come from the batch, none twice; with `all` the two make up the batch. */
  predicate Settles(msgs: seq<Msg>, all: bool, acked: seq<Msg>, filed: seq<Msg>) {
    && multiset(acked) + multiset(filed) <= multiset(msgs)
    && (all ==> multiset(acked) + multiset(filed) == multiset(msgs))
  }

  lemma NothingSettled(acked: seq<Msg>, filed: seq<Msg>, msgs: seq<Msg>)
    ensures acked == acked + [] && filed == filed + [] && Settles(msgs, msgs == [], [], [])
  {}

  /** A split batch whose kept messages are then acknowledged, filed or neither. */
  lemma SplitSettles(msgs: seq<Msg>, fates: seq<Fate>, ok: bool, written: bool)
    requires |fates| <= |msgs| && !(ok && written)
    ensures var c, k, f := Pick(msgs, fates, InCommitted), Pick(msgs, fates, InKept), Pick(msgs, fates, InFailed);
            && Settles(msgs, |fates| == |msgs| && k == [], c, f)
            && Settles(msgs, |fates| == |msgs| && (ok || written), c + (if ok then k else []), f + (if written then k else []))
  {
    var c, k, f := Pick(msgs, fates, InCommitted), Pick(msgs, fates, InKept), Pick(msgs, fates, InFailed);
    SortingConserves(msgs, fates);
    Cut(msgs, |fates|);
    Gathered(c, if ok then k else [], f, if written then k else []);
    Within(multiset(c), multiset(k), multiset(f), multiset(msgs[..|fates|]), multiset(msgs), ok, written);
  }

  lemma Gathered(a: seq<Msg>, b: seq<Msg>, c: seq<Msg>, d: seq<Msg>)
    ensures multiset(a + b) + multiset(c + d) == (multiset(a) + multiset(b)) + (multiset(c) + multiset(d))
  {
    assert multiset(a + b) == multiset(a) + multiset(b);
    assert multiset(c + d) == multiset(c) + multiset(d);
  }

  lemma Within(c: multiset<Msg>, k: multiset<Msg>, f: multiset<Msg>, m: multiset<Msg>, all: multiset<Msg>,
               ok: bool, written: bool)
    requires c + k + f == m <= all && !(ok && written)
    ensures c + f <= all && (k == multiset{} && m == all ==> c + f == all)
    ensures (c + if ok then k else multiset{}) + (f + if written then k else multiset{}) <= all
    ensures (ok || written) && m == all ==>
              (c + if ok then k else multiset{}) + (f + if written then k else multiset{}) == all
  {}

  lemma Cut(msgs: seq<Msg>, k: nat)
    requires k <= |msgs|
    ensures multiset(msgs[..k]) <= multiset(msgs) && (k == |msgs| ==> msgs[..k] == msgs)
  {
    assert msgs == msgs[..k] + msgs[k..];
  }
}
