/** The grading pool (code/linux_main.c): the main thread creates workers and joins them; the
    workers claim jobs from a shared counter by compare-and-swap and run the callbacks under one
    mutex. Every interleaving is a sequence of actions. */
module WorkPool {
  import opened Options

  /** What linux_wait_for_completion is given. */
  datatype Pool = Pool(workCount: nat, threadCount: nat, onProgression: bool, onCompletion: bool)

  /** Where a worker stands in linux_thread_proc and linux_exec_process. */
  datatype Pc =
    | Absent                                   // not created yet, or pthread_create failed
    | Reading
    | Swapping(seen: nat)
    | AskProgression(job: nat)
    | InProgression(job: nat)
    | Running(job: nat)
    | AskCompletion(job: nat, code: int)
    | InCompletion(job: nat, code: int)
    | Storing(job: nat, code: int)
    | Returned
  {
    predicate Holds() {
      !Absent? && !Reading? && !Swapping? && !Returned?
    }

    predicate InCallback() { InProgression? || InCompletion? }
  }

  datatype Event = Event(thread: nat, job: nat, what: What)
  datatype What =
    | Claimed
    | ProgressionBegin
    | ProgressionEnd
    | Ran(code: int)
    | CompletionBegin(code: int)
    | CompletionEnd(code: int)
    | Stored(code: int)

  /** main counts the main thread's steps: thread k is created at step k and joined at step
      threadCount + k. owner and history only record what happened. */
  datatype State = State(
    main: nat,
    counter: nat,
    lock: Option<nat>,
    threads: seq<Pc>,
    exitCodes: seq<Option<int>>,
    owner: seq<nat>,
    history: seq<Event>)

  datatype Action =
    | Create(ok: bool)
    | Join
    | Read(t: nat)
    | Swap(t: nat)
    | Lock(t: nat)
    | Unlock(t: nat)
    | Run(t: nat, code: int)
    | Store(t: nat)

  function Init(p: Pool): State {
    State(0, 0, None, seq(p.threadCount, _ => Absent), seq(p.workCount, _ => None), [], [])
  }

  predicate Finished(p: Pool, s: State) { s.main == 2 * p.threadCount }

  predicate Enabled(p: Pool, s: State, a: Action) {
    match a
    case Create(_) => s.main < p.threadCount && s.main < |s.threads|
    case Join =>
      && p.threadCount <= s.main < 2 * p.threadCount
      && s.main - p.threadCount < |s.threads|
      && (s.threads[s.main - p.threadCount].Absent? || s.threads[s.main - p.threadCount].Returned?)
    case Read(t) => t < |s.threads| && s.threads[t].Reading?
    case Swap(t) => t < |s.threads| && s.threads[t].Swapping?
    case Lock(t) => t < |s.threads| && s.lock.None? && (s.threads[t].AskProgression? || s.threads[t].AskCompletion?)
    case Unlock(t) => t < |s.threads| && s.threads[t].InCallback()
    case Run(t, _) => t < |s.threads| && s.threads[t].Running?
    case Store(t) => t < |s.threads| && s.threads[t].Storing? && s.threads[t].job < |s.exitCodes|
  }

  function Note(s: State, t: nat, job: nat, what: What): State {
    s.(history := s.history + [Event(t, job, what)])
  }

  function Move(s: State, t: nat, pc: Pc): State
    requires t < |s.threads|
  {
    s.(threads := s.threads[t := pc])
  }

  function Apply(p: Pool, s: State, a: Action): State
    requires Enabled(p, s, a)
  {
    match a
    case Create(ok) =>
      (if ok then Move(s, s.main, Reading) else s).(main := s.main + 1)
    case Join => s.(main := s.main + 1)
    case Read(t) =>
      Move(s, t, if s.counter != p.workCount then Swapping(s.counter) else Returned)
    case Swap(t) =>
      var seen := s.threads[t].seen;
      if s.counter == seen then
        var next := if p.onProgression then AskProgression(seen) else Running(seen);
        Note(Move(s, t, next), t, seen, Claimed).(counter := seen + 1, owner := s.owner + [t])
      else
        Move(s, t, Reading)
    case Lock(t) =>
      (match s.threads[t]
       case AskProgression(i) => Note(Move(s, t, InProgression(i)), t, i, ProgressionBegin)
       case AskCompletion(i, code) => Note(Move(s, t, InCompletion(i, code)), t, i, CompletionBegin(code)))
      .(lock := Some(t))
    case Unlock(t) =>
      (match s.threads[t]
       case InProgression(i) => Note(Move(s, t, Running(i)), t, i, ProgressionEnd)
       case InCompletion(i, code) => Note(Move(s, t, Storing(i, code)), t, i, CompletionEnd(code)))
      .(lock := None)
    case Run(t, code) =>
      var i := s.threads[t].job;
      Note(Move(s, t, if p.onCompletion then AskCompletion(i, code) else Storing(i, code)), t, i, Ran(code))
    case Store(t) =>
      var Storing(i, code) := s.threads[t];
      Note(Move(s, t, Reading), t, i, Stored(code)).(exitCodes := s.exitCodes[i := Some(code)])
  }

  /** The state after a run of actions, when every one of them was possible in turn. */
  function Execute(p: Pool, run: seq<Action>): Option<State> {
    if run == [] then Some(Init(p))
    else
      var before := Execute(p, run[..|run| - 1]);
      if before.Some? && Enabled(p, before.value, run[|run| - 1])
      then Some(Apply(p, before.value, run[|run| - 1]))
      else None
  }

  // --- what happened to one job ---

  function Trace(history: seq<Event>, job: nat): seq<Event> {
    if history == [] then []
    else
      var last := history[|history| - 1];
      Trace(history[..|history| - 1], job) + if last.job == job then [last] else []
  }

  lemma TraceNote(history: seq<Event>, e: Event, job: nat)
    ensures Trace(history + [e], job) == Trace(history, job) + if e.job == job then [e] else []
  {
    assert (history + [e])[..|history|] == history;
  }

  /** The events of a job whose claimer t has come as far as pc. */
  function TraceUpTo(p: Pool, t: nat, job: nat, pc: Pc): seq<Event> {
    var claimed := [Event(t, job, Claimed)];
    var begun := if p.onProgression then claimed + [Event(t, job, ProgressionBegin)] else claimed;
    var started := if p.onProgression then begun + [Event(t, job, ProgressionEnd)] else claimed;
    match pc
    case AskProgression(_) => claimed
    case InProgression(_) => begun
    case Running(_) => started
    case AskCompletion(_, code) => started + [Event(t, job, Ran(code))]
    case InCompletion(_, code) => started + [Event(t, job, Ran(code)), Event(t, job, CompletionBegin(code))]
    case Storing(_, code) =>
      started + [Event(t, job, Ran(code))]
      + if p.onCompletion then [Event(t, job, CompletionBegin(code)), Event(t, job, CompletionEnd(code))] else []
    case _ => []
  }

  /** One claim, one progression callback, one run, one completion callback, one store, in this
      order, all by the same thread. */
  function CompleteTrace(p: Pool, t: nat, job: nat, code: int): seq<Event> {
    TraceUpTo(p, t, job, Storing(job, code)) + [Event(t, job, Stored(code))]
  }

  // --- the invariant ---

  ghost predicate Shape(p: Pool, s: State) {
    && s.main <= 2 * p.threadCount
    && |s.threads| == p.threadCount
    && |s.exitCodes| == p.workCount
    && |s.owner| == s.counter <= p.workCount
    && (forall t :: s.main <= t < |s.threads| ==> s.threads[t].Absent?)
    && (forall t :: 0 <= t < |s.threads| && t + p.threadCount < s.main ==>
          s.threads[t].Absent? || s.threads[t].Returned?)
  }

  /** A worker's own view: what it saw, what it holds, and whether it is in the mutex. */
  ghost predicate ThreadOk(p: Pool, s: State, t: nat)
    requires Shape(p, s) && t < |s.threads|
  {
    var pc := s.threads[t];
    && (pc.Swapping? ==> pc.seen <= s.counter && pc.seen < p.workCount
                         && forall i :: pc.seen <= i < s.counter ==> s.owner[i] != t)
    && (pc.Holds() ==> pc.job < s.counter && s.owner[pc.job] == t && s.exitCodes[pc.job].None?)
    && (pc.InCallback() <==> s.lock == Some(t))
    && (pc.AskProgression? || pc.InProgression? ==> p.onProgression)
    && (pc.AskCompletion? || pc.InCompletion? ==> p.onCompletion)
    && (pc.Returned? ==> s.counter == p.workCount)
  }

  ghost predicate JobOk(p: Pool, s: State, i: nat)
    requires Shape(p, s) && i < p.workCount
  {
    if i >= s.counter then s.exitCodes[i].None? && Trace(s.history, i) == []
    else
      && s.owner[i] < |s.threads|
      && !s.threads[s.owner[i]].Absent?
      && if s.exitCodes[i].Some?
         then Trace(s.history, i) == CompleteTrace(p, s.owner[i], i, s.exitCodes[i].value)
         else
           var pc := s.threads[s.owner[i]];
           pc.Holds() && pc.job == i && Trace(s.history, i) == TraceUpTo(p, s.owner[i], i, pc)
  }

  ghost predicate Inv(p: Pool, s: State) {
    && Shape(p, s)
    && (s.lock.Some? ==> s.lock.value < |s.threads|)
    && (forall t :: 0 <= t < |s.threads| ==> ThreadOk(p, s, t))
    && (forall i :: 0 <= i < p.workCount ==> JobOk(p, s, i))
  }

  lemma InitKeepsInv(p: Pool)
    ensures Inv(p, Init(p))
  {
  }

  predicate HolderStep(p: Pool, s: State, a: Action, t: nat)
  {
    && Enabled(p, s, a)
    && (a == Lock(t) || a == Unlock(t) || a == Store(t) || (a.Run? && a.t == t))
  }

  lemma HolderStepOwnThreadOk(p: Pool, s: State, a: Action, t: nat)
    requires Shape(p, s) && HolderStep(p, s, a, t) && t < p.threadCount && ThreadOk(p, s, t)
    ensures Shape(p, Apply(p, s, a)) && ThreadOk(p, Apply(p, s, a), t)
  {
  }

  lemma HolderStepOtherThreadOk(p: Pool, s: State, a: Action, t: nat, u: nat)
    requires Shape(p, s) && HolderStep(p, s, a, t) && t < p.threadCount && u < p.threadCount && u != t
    requires ThreadOk(p, s, t) && ThreadOk(p, s, u)
    ensures Shape(p, Apply(p, s, a)) && ThreadOk(p, Apply(p, s, a), u)
  {
  }

  /** The note a holder leaves is the next event of its job... */
  lemma HolderStepOwnJobOk(p: Pool, s: State, a: Action, t: nat, what: What)
    requires Shape(p, s) && HolderStep(p, s, a, t)
    requires ThreadOk(p, s, t) && JobOk(p, s, s.threads[t].job)
    requires Apply(p, s, a).history == s.history + [Event(t, s.threads[t].job, what)]
    ensures Shape(p, Apply(p, s, a)) && JobOk(p, Apply(p, s, a), s.threads[t].job)
  {
    var job := s.threads[t].job;
    var e := Event(t, job, what);
    assert Trace(s.history + [e], job) == Trace(s.history, job) + [e] by {
      TraceNote(s.history, e, job);
    }
    hide Trace;
    HolderStepOwnThreadOk(p, s, a, t);
    NextInTrace(p, s, a, t, what);
  }

  /** The events of a job, and the one that its holder's step adds. */
  lemma NextInTrace(p: Pool, s: State, a: Action, t: nat, what: What)
    requires Shape(p, s) && HolderStep(p, s, a, t) && t < p.threadCount && ThreadOk(p, s, t)
    requires Apply(p, s, a).history == s.history + [Event(t, s.threads[t].job, what)]
    ensures Shape(p, Apply(p, s, a))
    ensures var job := s.threads[t].job;
            var trace := TraceUpTo(p, t, job, s.threads[t]) + [Event(t, job, what)];
            var pc := Apply(p, s, a).threads[t];
            if a.Store? then trace == CompleteTrace(p, t, job, s.threads[t].code)
            else pc.Holds() && pc.job == job && trace == TraceUpTo(p, t, job, pc)
  {
    var history := Apply(p, s, a).history;
    assert history[|history| - 1] == Event(t, s.threads[t].job, what);
  }

  /** ...and of no other job. */
  lemma HolderStepOtherJobOk(p: Pool, s: State, a: Action, t: nat, what: What, i: nat)
    requires Shape(p, s) && HolderStep(p, s, a, t) && i < p.workCount && i != s.threads[t].job
    requires ThreadOk(p, s, t) && JobOk(p, s, i)
    requires Apply(p, s, a).history == s.history + [Event(t, s.threads[t].job, what)]
    ensures Shape(p, Apply(p, s, a)) && JobOk(p, Apply(p, s, a), i)
  {
    hide TraceUpTo, CompleteTrace;
    var e := Event(t, s.threads[t].job, what);
    assert Trace(s.history + [e], i) == Trace(s.history, i) by {
      TraceNote(s.history, e, i);
      assert Trace(s.history, i) + [] == Trace(s.history, i);
    }
    hide Trace;
  }

  lemma HolderStepKeepsInv(p: Pool, s: State, a: Action, t: nat, what: What)
    requires Inv(p, s) && HolderStep(p, s, a, t)
    requires Apply(p, s, a).history == s.history + [Event(t, s.threads[t].job, what)]
    ensures Inv(p, Apply(p, s, a))
  {
    var s' := Apply(p, s, a);
    assert ThreadOk(p, s, t);
    HolderStepOwnThreadOk(p, s, a, t);
    forall i | 0 <= i < p.workCount ensures JobOk(p, s', i) {
      if i == s.threads[t].job {
        HolderStepOwnJobOk(p, s, a, t, what);
      } else {
        HolderStepOtherJobOk(p, s, a, t, what, i);
      }
    }
    forall u | 0 <= u < |s'.threads| ensures ThreadOk(p, s', u) {
      if u == t {
        HolderStepOwnThreadOk(p, s, a, t);
      } else {
        HolderStepOtherThreadOk(p, s, a, t, u);
      }
    }
  }

  predicate Claims(p: Pool, s: State, t: nat) {
    Enabled(p, s, Swap(t)) && s.counter == s.threads[t].seen
  }

  lemma ClaimThreadOk(p: Pool, s: State, t: nat, u: nat)
    requires Shape(p, s) && Claims(p, s, t) && u < p.threadCount
    requires ThreadOk(p, s, t) && ThreadOk(p, s, u) && JobOk(p, s, s.counter)
    ensures Shape(p, Apply(p, s, Swap(t))) && ThreadOk(p, Apply(p, s, Swap(t)), u)
  {
    var s' := Apply(p, s, Swap(t));
    assert forall i :: 0 <= i < s.counter ==> s'.owner[i] == s.owner[i];
  }

  lemma ClaimJobOk(p: Pool, s: State, t: nat, i: nat)
    requires Shape(p, s) && Claims(p, s, t) && i < p.workCount
    requires ThreadOk(p, s, t) && JobOk(p, s, i)
    ensures Shape(p, Apply(p, s, Swap(t))) && JobOk(p, Apply(p, s, Swap(t)), i)
  {
    var s' := Apply(p, s, Swap(t));
    assert Trace(s'.history, i) == Trace(s.history, i) + if i == s.counter then [Event(t, i, Claimed)] else [] by {
      TraceNote(s.history, Event(t, s.counter, Claimed), i);
    }
    assert forall k :: 0 <= k < s.counter ==> s'.owner[k] == s.owner[k];
  }

  lemma ClaimKeepsInv(p: Pool, s: State, t: nat)
    requires Inv(p, s) && Claims(p, s, t)
    ensures Inv(p, Apply(p, s, Swap(t)))
  {
    var s' := Apply(p, s, Swap(t));
    assert ThreadOk(p, s, t) && JobOk(p, s, s.counter);
    ClaimThreadOk(p, s, t, t);
    forall i | 0 <= i < p.workCount ensures JobOk(p, s', i) {
      ClaimJobOk(p, s, t, i);
    }
    forall u | 0 <= u < |s'.threads| ensures ThreadOk(p, s', u) {
      ClaimThreadOk(p, s, t, u);
    }
  }

  /** Creating, joining, reading and a failed swap touch no job. */
  predicate QuietStep(p: Pool, s: State, a: Action) {
    && Enabled(p, s, a)
    && (a.Create? || a.Join? || a.Read? || (a.Swap? && !Claims(p, s, a.t)))
  }

  lemma QuietStepThreadOk(p: Pool, s: State, a: Action, u: nat)
    requires Shape(p, s) && QuietStep(p, s, a) && u < p.threadCount && ThreadOk(p, s, u)
    ensures Shape(p, Apply(p, s, a)) && ThreadOk(p, Apply(p, s, a), u)
  {
  }

  lemma QuietStepJobOk(p: Pool, s: State, a: Action, i: nat)
    requires Shape(p, s) && QuietStep(p, s, a) && i < p.workCount && JobOk(p, s, i)
    ensures Shape(p, Apply(p, s, a)) && JobOk(p, Apply(p, s, a), i)
  {
  }

  lemma QuietStepKeepsInv(p: Pool, s: State, a: Action)
    requires Inv(p, s) && QuietStep(p, s, a)
    ensures Inv(p, Apply(p, s, a))
  {
    var s' := Apply(p, s, a);
    forall i | 0 <= i < p.workCount ensures Shape(p, s') && JobOk(p, s', i) {
      QuietStepJobOk(p, s, a, i);
    }
    forall u | 0 <= u < |s'.threads| ensures Shape(p, s') && ThreadOk(p, s', u) {
      QuietStepThreadOk(p, s, a, u);
    }
  }

  lemma StepKeepsInv(p: Pool, s: State, a: Action)
    requires Inv(p, s) && Enabled(p, s, a)
    ensures Inv(p, Apply(p, s, a))
  {
    match a
    case Swap(t) => if Claims(p, s, t) { ClaimKeepsInv(p, s, t); } else { QuietStepKeepsInv(p, s, a); }
    case Lock(t) =>
      HolderStepKeepsInv(p, s, a, t,
        if s.threads[t].AskProgression? then ProgressionBegin else CompletionBegin(s.threads[t].code));
    case Unlock(t) =>
      HolderStepKeepsInv(p, s, a, t,
        if s.threads[t].InProgression? then ProgressionEnd else CompletionEnd(s.threads[t].code));
    case Run(t, code) => HolderStepKeepsInv(p, s, a, t, Ran(code));
    case Store(t) => HolderStepKeepsInv(p, s, a, t, Stored(s.threads[t].code));
    case _ => QuietStepKeepsInv(p, s, a);
  }

  lemma {:induction false} RunKeepsInv(p: Pool, run: seq<Action>)
    requires Execute(p, run).Some?
    ensures Inv(p, Execute(p, run).value)
  {
    if run == [] {
      InitKeepsInv(p);
    } else {
      RunKeepsInv(p, run[..|run| - 1]);
      StepKeepsInv(p, Execute(p, run[..|run| - 1]).value, run[|run| - 1]);
    }
  }

  // --- every run ends: a measure that each action lowers ---

  function Rank(pc: Pc, counter: nat): nat {
    match pc
    case Absent => 0
    case Returned => 0
    case Swapping(seen) => if seen == counter then 1 else 3
    case Reading => 2
    case Storing(_, _) => 3
    case InCompletion(_, _) => 4
    case AskCompletion(_, _) => 5
    case Running(_) => 6
    case InProgression(_) => 7
    case AskProgression(_) => 8
  }

  function Ranks(threads: seq<Pc>, counter: nat): nat {
    if threads == [] then 0 else Rank(threads[0], counter) + Ranks(threads[1..], counter)
  }

  /** A successful swap may turn every other pending swap stale, so a claim weighs that much. */
  function ClaimWeight(p: Pool): nat { 2 * p.threadCount + 8 }

  function Measure(p: Pool, s: State): int {
    (p.workCount - s.counter) * ClaimWeight(p) + Ranks(s.threads, s.counter) + 3 * (2 * p.threadCount - s.main)
  }

  lemma {:induction false} RanksMove(threads: seq<Pc>, counter: nat, t: nat, pc: Pc)
    requires t < |threads|
    ensures Ranks(threads[t := pc], counter) == Ranks(threads, counter) - Rank(threads[t], counter) + Rank(pc, counter)
  {
    var after := threads[t := pc];
    if t == 0 {
      assert after[1..] == threads[1..];
    } else {
      assert after[1..] == threads[1..][t - 1 := pc];
      RanksMove(threads[1..], counter, t - 1, pc);
    }
  }

  lemma {:induction false} RanksNextCounter(threads: seq<Pc>, counter: nat)
    ensures Ranks(threads, counter + 1) <= Ranks(threads, counter) + 2 * |threads|
  {
    if threads != [] {
      RanksNextCounter(threads[1..], counter);
    }
  }

  lemma ClaimLowersMeasure(p: Pool, s: State, t: nat)
    requires Inv(p, s) && Claims(p, s, t)
    ensures Measure(p, Apply(p, s, Swap(t))) < Measure(p, s)
  {
    var s' := Apply(p, s, Swap(t));
    RanksMove(s.threads, s.counter, t, s'.threads[t]);
    RanksNextCounter(s'.threads, s.counter);
    var weight := ClaimWeight(p);
    assert (p.workCount - s.counter) * weight == (p.workCount - s'.counter) * weight + weight;
  }

  lemma StepLowersMeasure(p: Pool, s: State, a: Action)
    requires Inv(p, s) && Enabled(p, s, a)
    ensures Measure(p, Apply(p, s, a)) < Measure(p, s)
  {
    hide ClaimWeight, Ranks;
    if a.Swap? && Claims(p, s, a.t) {
      ClaimLowersMeasure(p, s, a.t);
    } else if !a.Join? {
      var s', t := Apply(p, s, a), if a.Create? then s.main else a.t;
      RanksMove(s.threads, s.counter, t, s'.threads[t]);
      assert ThreadOk(p, s, t);
    }
  }

  lemma {:induction false} MeasureIsNatural(p: Pool, s: State)
    requires Inv(p, s)
    ensures Measure(p, s) >= 0
  {
    assert (p.workCount - s.counter) * ClaimWeight(p) >= 0;
  }

  function RunBound(p: Pool): nat { p.workCount * ClaimWeight(p) + 6 * p.threadCount }

  lemma {:induction false} RanksOfAbsent(n: nat)
    ensures Ranks(seq(n, _ => Absent), 0) == 0
  {
    if n > 0 {
      RanksOfAbsent(n - 1);
      assert seq<Pc>(n, _ => Absent)[1..] == seq(n - 1, _ => Absent);
    }
  }

  /** Whatever the scheduler does, a run has at most RunBound actions: failed swaps included,
      the pool cannot spin for ever. */
  lemma {:induction false} RunsAreBounded(p: Pool, run: seq<Action>)
    requires Execute(p, run).Some?
    ensures |run| + Measure(p, Execute(p, run).value) <= RunBound(p)
    ensures |run| <= RunBound(p)
  {
    if run == [] {
      RanksOfAbsent(p.threadCount);
    } else {
      var before := run[..|run| - 1];
      RunsAreBounded(p, before);
      RunKeepsInv(p, before);
      StepLowersMeasure(p, Execute(p, before).value, run[|run| - 1]);
    }
    RunKeepsInv(p, run);
    MeasureIsNatural(p, Execute(p, run).value);
  }

  /** A thread that has not returned can move, unless it waits for a mutex whose holder can. */
  lemma SomethingCanMove(p: Pool, s: State, t: nat) returns (a: Action)
    requires Inv(p, s) && t < p.threadCount && !s.threads[t].Absent? && !s.threads[t].Returned?
    ensures Enabled(p, s, a)
  {
    assert ThreadOk(p, s, t);
    var pc := s.threads[t];
    if pc.AskProgression? || pc.AskCompletion? {
      if s.lock.None? {
        a := Lock(t);
      } else {
        assert ThreadOk(p, s, s.lock.value);
        a := Unlock(s.lock.value);
      }
    } else {
      a := if pc.Reading? then Read(t)
      else if pc.Swapping? then Swap(t)
      else if pc.Running? then Run(t, 0)
      else if pc.Storing? then Store(t)
      else Unlock(t);
    }
  }

  /** And it cannot get stuck before the main thread has joined every worker. */
  lemma UnfinishedRunsContinue(p: Pool, run: seq<Action>) returns (a: Action)
    requires Execute(p, run).Some? && !Finished(p, Execute(p, run).value)
    ensures Execute(p, run + [a]).Some?
  {
    var s := Execute(p, run).value;
    RunKeepsInv(p, run);
    if s.main < p.threadCount {
      a := Create(true);
    } else {
      var t := s.main - p.threadCount;
      if s.threads[t].Absent? || s.threads[t].Returned? {
        a := Join;
      } else {
        a := SomethingCanMove(p, s, t);
      }
    }
    assert (run + [a])[..|run|] == run;
  }

  // --- what the pool guarantees ---

  /** In every reachable state: no two callbacks at once, no job in two hands, the counter within
      bounds, and the claimed jobs exactly those below the counter. */
  lemma PoolIsSafe(p: Pool, run: seq<Action>)
    requires Execute(p, run).Some?
    ensures var s := Execute(p, run).value;
            && s.counter <= p.workCount
            && (forall t, u :: 0 <= t < |s.threads| && 0 <= u < |s.threads| && t != u ==>
                 && !(s.threads[t].InCallback() && s.threads[u].InCallback())
                 && (s.threads[t].Holds() && s.threads[u].Holds() ==> s.threads[t].job != s.threads[u].job))
            && (forall i :: 0 <= i < p.workCount ==> (Trace(s.history, i) != [] <==> i < s.counter))
  {
    RunKeepsInv(p, run);
    var s := Execute(p, run).value;
    forall t, u | 0 <= t < |s.threads| && 0 <= u < |s.threads| && t != u
      ensures !(s.threads[t].InCallback() && s.threads[u].InCallback())
      ensures s.threads[t].Holds() && s.threads[u].Holds() ==> s.threads[t].job != s.threads[u].job
    {
      assert ThreadOk(p, s, t) && ThreadOk(p, s, u);
    }
    forall i | 0 <= i < p.workCount ensures Trace(s.history, i) != [] <==> i < s.counter {
      assert JobOk(p, s, i);
    }
  }

  lemma TraceUpToStartsWithItsOnlyClaim(p: Pool, t: nat, job: nat, pc: Pc)
    requires pc.Holds()
    ensures var trace := TraceUpTo(p, t, job, pc);
            && trace != [] && trace[0] == Event(t, job, Claimed)
            && (forall k :: 1 <= k < |trace| ==> trace[k].thread == t && trace[k].what != Claimed)
  {
  }

  /** At every moment the events of a claimed job are those of one thread and hold one claim. */
  lemma JobsAreClaimedOnce(p: Pool, run: seq<Action>, job: nat)
    requires Execute(p, run).Some? && job < Execute(p, run).value.counter
    ensures var trace := Trace(Execute(p, run).value.history, job);
            && trace != [] && trace[0].what == Claimed
            && (forall k :: 1 <= k < |trace| ==> trace[k].thread == trace[0].thread && trace[k].what != Claimed)
  {
    var s := Execute(p, run).value;
    RunKeepsInv(p, run);
    assert JobOk(p, s, job);
    var t := s.owner[job];
    if s.exitCodes[job].Some? {
      TraceUpToStartsWithItsOnlyClaim(p, t, job, Storing(job, s.exitCodes[job].value));
    } else {
      TraceUpToStartsWithItsOnlyClaim(p, t, job, s.threads[t]);
    }
  }

  /** The whole life of a job: claimed, its progression callback, run, its completion callback, its exit code
      stored. */
  function Life(p: Pool, t: nat, job: nat, code: int): seq<Event> {
    [Event(t, job, Claimed)]
    + (if p.onProgression then [Event(t, job, ProgressionBegin), Event(t, job, ProgressionEnd)] else [])
    + [Event(t, job, Ran(code))]
    + (if p.onCompletion then [Event(t, job, CompletionBegin(code)), Event(t, job, CompletionEnd(code))] else [])
    + [Event(t, job, Stored(code))]
  }

  lemma CompleteTraceIsLife(p: Pool, t: nat, job: nat, code: int)
    ensures CompleteTrace(p, t, job, code) == Life(p, t, job, code)
  {
  }

  /** Each job lived once, in the hands of one thread, and the exit code is what it ran to. */
  ghost predicate EveryJobRanOnce(p: Pool, s: State) {
    && |s.exitCodes| == |s.owner| == p.workCount
    && forall i :: 0 <= i < p.workCount ==>
         && s.owner[i] < p.threadCount
         && s.exitCodes[i].Some?
         && Trace(s.history, i) == Life(p, s.owner[i], i, s.exitCodes[i].value)
  }

  ghost predicate NoJobRan(p: Pool, s: State) {
    && |s.exitCodes| == p.workCount
    && forall i :: 0 <= i < p.workCount ==> s.exitCodes[i].None? && Trace(s.history, i) == []
  }

  /** The main thread's actions in a run: whether each creation succeeded. */
  function Creations(run: seq<Action>): seq<bool> {
    if run == [] then []
    else
      var last := run[|run| - 1];
      Creations(run[..|run| - 1]) + if last.Create? then [last.ok] else []
  }

  /** A thread is there if and only if its creation succeeded. */
  lemma {:induction false} ThreadsAreThoseCreated(p: Pool, run: seq<Action>)
    requires Execute(p, run).Some?
    ensures var s := Execute(p, run).value;
            && |s.threads| == p.threadCount
            && |Creations(run)| == (if s.main < p.threadCount then s.main else p.threadCount)
            && forall t :: 0 <= t < |Creations(run)| ==> (s.threads[t].Absent? <==> !Creations(run)[t])
  {
    if run != [] {
      var before, a := run[..|run| - 1], run[|run| - 1];
      ThreadsAreThoseCreated(p, before);
      RunKeepsInv(p, before);
      var s := Execute(p, before).value;
      if a.Create? {
        assert |Creations(before)| == s.main;
      } else if !a.Join? {
        assert !s.threads[a.t].Absent? && !Apply(p, s, a).threads[a.t].Absent?;
      }
    }
  }

  lemma FinishedJob(p: Pool, s: State, i: nat)
    requires Inv(p, s) && Finished(p, s) && i < s.counter
    ensures s.owner[i] < p.threadCount && s.exitCodes[i].Some?
    ensures Trace(s.history, i) == CompleteTrace(p, s.owner[i], i, s.exitCodes[i].value)
    ensures !s.threads[s.owner[i]].Absent?
  {
    assert JobOk(p, s, i);
  }

  lemma {:induction false} CreationsOf(run: seq<Action>)
    ensures true in Creations(run) <==> Create(true) in run
  {
    if run != [] {
      CreationsOf(run[..|run| - 1]);
      assert run == run[..|run| - 1] + [run[|run| - 1]];
    }
  }

  /** Once all threads are joined: if the creation of a thread succeeded, every job lived once; if none did,
      nothing happened. */
  lemma FinishedPoolHasRunEveryJobOnce(p: Pool, run: seq<Action>)
    requires Execute(p, run).Some? && Finished(p, Execute(p, run).value)
    ensures if Create(true) in run then EveryJobRanOnce(p, Execute(p, run).value)
            else NoJobRan(p, Execute(p, run).value)
  {
    hide Trace, Life, CompleteTrace;
    RunKeepsInv(p, run);
    ThreadsAreThoseCreated(p, run);
    CreationsOf(run);
    var s := Execute(p, run).value;
    if Create(true) in run {
      var t :| 0 <= t < |Creations(run)| && Creations(run)[t];
      assert ThreadOk(p, s, t);
      forall i | 0 <= i < p.workCount
        ensures s.owner[i] < p.threadCount && s.exitCodes[i].Some?
        ensures Trace(s.history, i) == Life(p, s.owner[i], i, s.exitCodes[i].value)
      {
        FinishedJob(p, s, i);
        CompleteTraceIsLife(p, s.owner[i], i, s.exitCodes[i].value);
      }
    } else {
      if s.counter > 0 {
        FinishedJob(p, s, 0);
      }
      forall i | 0 <= i < p.workCount ensures s.exitCodes[i].None? && Trace(s.history, i) == [] {
        assert JobOk(p, s, i);
      }
    }
  }

  // --- the codes of the runs ---

  /** What the jobs ran to, in the order of the run's actions: the thread and its code. */
  function Codes(run: seq<Action>): seq<(nat, int)> {
    if run == [] then []
    else
      var last := run[|run| - 1];
      Codes(run[..|run| - 1]) + if last.Run? then [(last.t, last.code)] else []
  }

  /** The same as the history has it. */
  function CodesNoted(history: seq<Event>): seq<(nat, int)> {
    if history == [] then []
    else
      var last := history[|history| - 1];
      CodesNoted(history[..|history| - 1]) + if last.what.Ran? then [(last.thread, last.what.code)] else []
  }

  lemma CodesNote(history: seq<Event>, e: Event)
    ensures CodesNoted(history + [e]) == CodesNoted(history) + if e.what.Ran? then [(e.thread, e.what.code)] else []
  {
    assert (history + [e])[..|history|] == history;
  }

  /** An action leaves at most one note; only a job's run notes a code, and it is the one returned. */
  lemma StepNotes(p: Pool, s: State, a: Action)
    requires Enabled(p, s, a)
    ensures var history := Apply(p, s, a).history;
            || (history == s.history && !a.Run?)
            || (|history| == |s.history| + 1 && history == s.history + [history[|s.history|]]
                && var e := history[|s.history|];
                   if a.Run? then e.what == Ran(a.code) && e.thread == a.t else !e.what.Ran?)
  {
  }

  /** A job runs to the code that its process returned: every run noted is one of the schedule's, in order. */
  lemma {:induction false} CodesAreThoseReturned(p: Pool, run: seq<Action>)
    requires Execute(p, run).Some?
    ensures CodesNoted(Execute(p, run).value.history) == Codes(run)
  {
    if run != [] {
      var before, a := run[..|run| - 1], run[|run| - 1];
      CodesAreThoseReturned(p, before);
      var s := Execute(p, before).value;
      StepNotes(p, s, a);
      hide Apply, Enabled, CodesNoted;
      if Apply(p, s, a).history != s.history {
        CodesNote(s.history, Apply(p, s, a).history[|s.history|]);
      }
    }
  }

  /** Nothing restricts the scheduler and the processes: a creation may succeed or fail, a job may return any code,
      and each worker may move at any time, unless it waits for the mutex that another one holds. */
  lemma EveryChoiceIsOpen(p: Pool, run: seq<Action>, t: nat, ok: bool, code: int)
    requires Execute(p, run).Some? && t < p.threadCount
    ensures var s := Execute(p, run).value;
            && |s.threads| == p.threadCount
            && (s.main < p.threadCount ==> Execute(p, run + [Create(ok)]).Some?)
            && (s.threads[t].Reading? ==> Execute(p, run + [Read(t)]).Some?)
            && (s.threads[t].Swapping? ==> Execute(p, run + [Swap(t)]).Some?)
            && (s.threads[t].AskProgression? || s.threads[t].AskCompletion? ==>
                  (Execute(p, run + [Lock(t)]).Some? <==> s.lock.None?))
            && (s.threads[t].InCallback() ==> Execute(p, run + [Unlock(t)]).Some?)
            && (s.threads[t].Running? ==> Execute(p, run + [Run(t, code)]).Some?)
            && (s.threads[t].Storing? ==> Execute(p, run + [Store(t)]).Some?)
  {
    hide Execute, JobOk;
    RunKeepsInv(p, run);
    assert ThreadOk(p, Execute(p, run).value, t);
    OneMore(p, run, Create(ok));
    OneMore(p, run, Read(t));
    OneMore(p, run, Swap(t));
    OneMore(p, run, Lock(t));
    OneMore(p, run, Unlock(t));
    OneMore(p, run, Run(t, code));
    OneMore(p, run, Store(t));
  }

  lemma OneMore(p: Pool, run: seq<Action>, a: Action)
    requires Execute(p, run).Some?
    ensures Execute(p, run + [a]).Some? <==> Enabled(p, Execute(p, run).value, a)
  {
    hide Enabled, Apply;
    assert (run + [a])[..|run|] == run;
  }

  /** Lock freedom: when a worker's swap fails, another worker has claimed the very job it wanted
      since it read the counter. */
  lemma FailedSwapMeansAnotherClaimed(p: Pool, run: seq<Action>, t: nat)
    requires Execute(p, run).Some? && Enabled(p, Execute(p, run).value, Swap(t))
    requires Execute(p, run).value.counter != Execute(p, run).value.threads[t].seen
    ensures var s := Execute(p, run).value;
            && s.threads[t].seen < s.counter == |s.owner|
            && forall i :: s.threads[t].seen <= i < s.counter ==> s.owner[i] != t
  {
    RunKeepsInv(p, run);
    assert ThreadOk(p, Execute(p, run).value, t);
  }
}
