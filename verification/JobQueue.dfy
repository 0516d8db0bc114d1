/** The web checker's job queue: worker threads and one producer around a mutex and a condition
    variable, step by step. Waiting releases the mutex and blocks in one step; a blocked worker can
    also wake up without being notified; a notification with nobody blocked is lost. */
module JobQueue {
  import opened Bytes

  const MAX_ATTEMPTS: nat := 16
  const MAX_REPORTS: nat := 4

  type Reports = k: nat | k <= MAX_REPORTS

  /** do_job returns after one report (the job is refused), after two (the first attempt succeeded)
      or after four (each attempt reports its start and its end). */
  predicate MayReturn(reports: Reports) {
    reports == 1 || reports == 2 || reports == MAX_REPORTS
  }

  datatype Worker =
    | Outside               // at the top of the loop, before locking
    | Checking              // holds the mutex, at the test of the queue
    | Blocked               // inside wait
    | Woken                 // leaving wait: has to lock again, then tests again
    | Took(job: string)     // holds the mutex, with the front job
    | Working(job: string, reports: Reports)   // in do_job, after that many status reports
    | Reporting(job: string, reports: Reports) // in do_job, holding the mutex for the last of them
    | Exited

  datatype Producer =
    | Idle                  // at the menu
    | Adding(job: string)   // in add_job, before locking
    | Locked(job: string)   // holds the mutex, before the push
    | Pushed                // holds the mutex, after the push
    | Unlocked              // before notify_one
    | Viewing               // holds the mutex to print the queue or the status

  datatype Holder = Free | ByWorker(i: nat) | ByProducer

  /** added and taken record the history: every job pushed, every job popped, in order. */
  datatype State = State(workers: seq<Worker>, producer: Producer, holder: Holder, jobs: seq<string>,
                         jcount: nat, halted: bool, added: seq<string>, taken: seq<string>)

  datatype Step =
    | WorkerLock(i: nat)
    | WorkerCheck(i: nat)
    | WorkerUnlock(i: nat)
    | WorkerReport(i: nat)
    | WorkerReported(i: nat)
    | WorkerDone(i: nat)
    | WakeSpuriously(i: nat)
    | Request(job: string)
    | ProducerLock
    | ProducerPush
    | ProducerUnlock
    | ProducerNotify(woken: Option<nat>)
    | View
    | ViewDone
    | Quit

  function Init(n: nat): State {
    State(seq(n, _ => Outside), Idle, Free, [], 0, false, [], [])
  }

  predicate IsBlocked(s: State, i: nat) {
    i < |s.workers| && s.workers[i].Blocked?
  }

  /** notify_one wakes a blocked worker if there is one; which one is not determined. */
  ghost predicate MayNotify(s: State, woken: Option<nat>) {
    match woken
    case Some(i) => IsBlocked(s, i)
    case None => forall i: nat :: !IsBlocked(s, i)
  }

  ghost predicate Enabled(s: State, step: Step) {
    !s.halted &&
    match step
    case WorkerLock(i) => i < |s.workers| && (s.workers[i].Outside? || s.workers[i].Woken?) && s.holder.Free?
    case WorkerCheck(i) => i < |s.workers| && s.workers[i].Checking?
    case WorkerUnlock(i) => i < |s.workers| && s.workers[i].Took?
    case WorkerReport(i) => i < |s.workers| && s.workers[i].Working? && s.workers[i].reports < MAX_REPORTS && s.holder.Free?
    case WorkerReported(i) => i < |s.workers| && s.workers[i].Reporting?
    case WorkerDone(i) => i < |s.workers| && s.workers[i].Working? && MayReturn(s.workers[i].reports)
    case WakeSpuriously(i) => IsBlocked(s, i)
    case Request(_) => s.producer.Idle?
    case ProducerLock => s.producer.Adding? && s.holder.Free?
    case ProducerPush => s.producer.Locked?
    case ProducerUnlock => s.producer.Pushed?
    case ProducerNotify(woken) => s.producer.Unlocked? && MayNotify(s, woken)
    case View => s.producer.Idle? && s.holder.Free?
    case ViewDone => s.producer.Viewing?
    case Quit => s.producer.Idle?
  }

  function SetWorker(s: State, i: nat, w: Worker): State
    requires i < |s.workers|
  {
    s.(workers := s.workers[i := w])
  }

  ghost function Apply(s: State, step: Step): State
    requires Enabled(s, step)
  {
    match step
    case WorkerLock(i) => SetWorker(s, i, Checking).(holder := ByWorker(i))
    case WorkerCheck(i) =>
      if s.jobs == [] then SetWorker(s, i, Blocked).(holder := Free)
      else SetWorker(s, i, Took(s.jobs[0])).(jobs := s.jobs[1..], taken := s.taken + [s.jobs[0]])
    case WorkerUnlock(i) =>
      var job := s.workers[i].job;
      SetWorker(s, i, if job == "" then Exited else Working(job, 0)).(holder := Free)
    case WorkerReport(i) =>
      SetWorker(s, i, Reporting(s.workers[i].job, s.workers[i].reports + 1)).(holder := ByWorker(i))
    case WorkerReported(i) =>
      SetWorker(s, i, Working(s.workers[i].job, s.workers[i].reports)).(holder := Free)
    case WorkerDone(i) => SetWorker(s, i, Outside)
    case WakeSpuriously(i) => SetWorker(s, i, Woken)
    case Request(job) => s.(producer := Adding(job))
    case ProducerLock => s.(producer := Locked(s.producer.job), holder := ByProducer)
    case ProducerPush =>
      s.(producer := Pushed, jobs := s.jobs + [s.producer.job], jcount := s.jcount + 1,
         added := s.added + [s.producer.job], halted := s.jcount + 1 > MAX_ATTEMPTS)
    case ProducerUnlock => s.(producer := Unlocked, holder := Free)
    case ProducerNotify(woken) =>
      var t := s.(producer := Idle);
      if woken.Some? then SetWorker(t, woken.value, Woken) else t
    case View => s.(producer := Viewing, holder := ByProducer)
    case ViewDone => s.(producer := Idle, holder := Free)
    case Quit => s.(halted := true)
  }

  ghost predicate IsRun(n: nat, states: seq<State>, steps: seq<Step>) {
    && |states| == |steps| + 1 && states[0] == Init(n)
    && forall i | 0 <= i < |steps| :: StepAt(states, steps, i)
  }

  ghost predicate StepAt(states: seq<State>, steps: seq<Step>, i: nat)
    requires i < |steps| && |states| == |steps| + 1
  {
    Enabled(states[i], steps[i]) && states[i + 1] == Apply(states[i], steps[i])
  }

  // ---------- Sums over the workers ----------

  function Sum(ws: seq<Worker>, f: Worker -> nat): nat {
    if ws == [] then 0 else f(ws[0]) + Sum(ws[1..], f)
  }

  lemma {:induction false} SumUpdate(ws: seq<Worker>, f: Worker -> nat, i: nat, w: Worker)
    requires i < |ws|
    ensures Sum(ws[i := w], f) + f(ws[i]) == Sum(ws, f) + f(w)
  {
    if i == 0 {
      assert ws[0 := w][1..] == ws[1..];
    } else {
      SumUpdate(ws[1..], f, i - 1, w);
      assert ws[i := w][1..] == ws[1..][i - 1 := w];
    }
  }

  lemma {:induction false} SumZero(ws: seq<Worker>, f: Worker -> nat)
    requires forall w <- ws :: f(w) == 0
    ensures Sum(ws, f) == 0
  {
    if ws != [] {
      SumZero(ws[1..], f);
    }
  }

  /** Workers that will look at the queue again: neither blocked nor gone nor about to go. */
  function Alive(w: Worker): nat {
    if w.Blocked? || w.Exited? || w == Took("") then 0 else 1
  }

  function AliveCount(s: State): nat {
    Sum(s.workers, Alive)
  }

  // ---------- Invariant ----------

  predicate WorkerHolds(w: Worker) {
    w.Checking? || w.Took? || w.Reporting?
  }

  predicate ProducerHolds(p: Producer) {
    p.Locked? || p.Pushed? || p.Viewing?
  }

  /** The mutex is held by exactly the thread that is inside a locked section. */
  ghost predicate MutexInv(s: State) {
    && (s.holder.ByWorker? ==> s.holder.i < |s.workers|)
    && (forall i | 0 <= i < |s.workers| :: WorkerHolds(s.workers[i]) <==> s.holder == ByWorker(i))
    && (ProducerHolds(s.producer) <==> s.holder.ByProducer?)
  }

  /** The producer has pushed and not yet notified. */
  predicate NotifyDue(s: State) {
    s.producer.Pushed? || s.producer.Unlocked?
  }

  /** While a worker is blocked, there is a worker coming for each pending job; the producer may
      be about to send one more. */
  ghost predicate WakeupInv(s: State) {
    (exists i: nat :: IsBlocked(s, i)) ==> |s.jobs| <= AliveCount(s) + if NotifyDue(s) then 1 else 0
  }

  ghost predicate HistoryInv(s: State) {
    && s.added == s.taken + s.jobs
    && s.jcount == |s.added|
    && (!s.halted ==> s.jcount <= MAX_ATTEMPTS)
  }

  ghost predicate Inv(s: State) {
    MutexInv(s) && WakeupInv(s) && HistoryInv(s)
  }

  predicate OfProducer(step: Step) {
    step.Request? || step.ProducerLock? || step.ProducerPush? || step.ProducerUnlock? || step.ProducerNotify?
      || step.View? || step.ViewDone? || step.Quit?
  }

  lemma WorkerMutexStep(s: State, step: Step)
    requires MutexInv(s) && Enabled(s, step) && !OfProducer(step)
    ensures MutexInv(Apply(s, step))
  {
  }

  lemma ProducerMutexStep(s: State, step: Step)
    requires MutexInv(s) && Enabled(s, step) && OfProducer(step)
    ensures MutexInv(Apply(s, step))
  {
  }

  lemma MutexStep(s: State, step: Step)
    requires MutexInv(s) && Enabled(s, step)
    ensures MutexInv(Apply(s, step))
  {
    if OfProducer(step) {
      ProducerMutexStep(s, step);
    } else {
      WorkerMutexStep(s, step);
    }
  }

  lemma HistoryStep(s: State, step: Step)
    requires HistoryInv(s) && Enabled(s, step)
    ensures HistoryInv(Apply(s, step))
  {
  }

  /** The steps that only move one worker. */
  lemma WorkerWakeupStep(s: State, step: Step, i: nat, w: Worker)
    requires WakeupInv(s) && MutexInv(s) && Enabled(s, step) && i < |s.workers|
    requires Apply(s, step).workers == s.workers[i := w]
    requires NotifyDue(Apply(s, step)) == NotifyDue(s) || Alive(w) == Alive(s.workers[i]) + 1
    requires |Apply(s, step).jobs| + Alive(s.workers[i]) <= |s.jobs| + Alive(w) || Apply(s, step).jobs == []
    requires !s.workers[i].Blocked? ==> !w.Blocked? || Apply(s, step).jobs == []
    ensures WakeupInv(Apply(s, step))
  {
    var t := Apply(s, step);
    SumUpdate(s.workers, Alive, i, w);
    if k: nat :| IsBlocked(t, k) {
      assert t.jobs != [] ==> IsBlocked(s, k) || k == i;
    }
  }

  lemma OfWorkerWakeupStep(s: State, step: Step)
    requires WakeupInv(s) && MutexInv(s) && Enabled(s, step) && !OfProducer(step)
    ensures WakeupInv(Apply(s, step))
  {
    WorkerWakeupStep(s, step, step.i, Apply(s, step).workers[step.i]);
  }

  lemma OfProducerWakeupStep(s: State, step: Step)
    requires WakeupInv(s) && MutexInv(s) && Enabled(s, step) && OfProducer(step)
    ensures WakeupInv(Apply(s, step))
  {
    var t := Apply(s, step);
    if step.ProducerNotify? && step.woken.Some? {
      WorkerWakeupStep(s, step, step.woken.value, Woken);
    } else {
      assert t.workers == s.workers;
      assert forall k: nat :: IsBlocked(t, k) <==> IsBlocked(s, k);
    }
  }

  lemma WakeupStep(s: State, step: Step)
    requires WakeupInv(s) && MutexInv(s) && Enabled(s, step)
    ensures WakeupInv(Apply(s, step))
  {
    if OfProducer(step) {
      OfProducerWakeupStep(s, step);
    } else {
      OfWorkerWakeupStep(s, step);
    }
  }

  lemma {:induction false} RunInv(n: nat, states: seq<State>, steps: seq<Step>, i: nat)
    requires IsRun(n, states, steps) && i < |states|
    ensures Inv(states[i])
  {
    if i > 0 {
      RunInv(n, states, steps, i - 1);
      assert StepAt(states, steps, i - 1);
      MutexStep(states[i - 1], steps[i - 1]);
      HistoryStep(states[i - 1], steps[i - 1]);
      WakeupStep(states[i - 1], steps[i - 1]);
    }
  }

  // ---------- Main results ----------

  /** First in, first out, each job once: what was added is what was taken followed by what is
      pending, and no two threads are ever inside the mutex. */
  lemma FifoAndExclusion(n: nat, states: seq<State>, steps: seq<Step>, t: nat, i: nat, j: nat)
    requires IsRun(n, states, steps) && t < |states| && i < |states[t].workers| && j < |states[t].workers|
    ensures var s := states[t];
      && s.added == s.taken + s.jobs
      && (s.halted || |s.added| <= 16)
      && (WorkerHolds(s.workers[i]) && WorkerHolds(s.workers[j]) ==> i == j)
      && (WorkerHolds(s.workers[i]) ==> !ProducerHolds(s.producer))
  {
    RunInv(n, states, steps, t);
  }

  /** No wakeup is lost: if a worker is blocked and the producer is not between push and notify,
      then at least as many workers as there are pending jobs are on their way to the queue. */
  lemma NoLostWakeup(n: nat, states: seq<State>, steps: seq<Step>, t: nat, i: nat)
    requires IsRun(n, states, steps) && t < |states| && IsBlocked(states[t], i) && !NotifyDue(states[t])
    ensures |states[t].jobs| <= AliveCount(states[t])
  {
    RunInv(n, states, steps, t);
  }

  /** The steps that the threads take without new input and without waking for nothing. */
  predicate Internal(step: Step) {
    !(step.Request? || step.View? || step.Quit? || step.WakeSpuriously?)
  }

  ghost predicate Resting(s: State) {
    forall step: Step | Internal(step) :: !Enabled(s, step)
  }

  ghost predicate Quiet(s: State) {
    !s.halted && Resting(s)
  }

  /** When nothing can move any more, all jobs are taken, or every worker has left. */
  lemma QuietIsDone(n: nat, states: seq<State>, steps: seq<Step>, t: nat)
    requires IsRun(n, states, steps) && t < |states| && Quiet(states[t])
    ensures var s := states[t];
      && s.producer.Idle? && s.holder.Free?
      && (forall w <- s.workers :: w.Blocked? || w.Exited?)
      && ((s.jobs == [] && s.added == s.taken) || forall w <- s.workers :: w.Exited?)
  {
    RunInv(n, states, steps, t);
    var s := states[t];
    QuietHolder(s);
    QuietWorkers(s);
    forall w <- s.workers ensures w.Blocked? || w.Exited? {
      var i :| 0 <= i < |s.workers| && s.workers[i] == w;
    }
    SumZero(s.workers, Alive);
    if s.jobs != [] {
      forall w <- s.workers ensures w.Exited? {
        var i: nat :| i < |s.workers| && s.workers[i] == w;
        assert !IsBlocked(s, i);
      }
    }
  }

  /** A thread that holds the mutex, or a producer inside add_job, can go on. */
  lemma HolderMoves(s: State) returns (step: Step)
    requires MutexInv(s) && !s.halted && !(s.holder.Free? && s.producer.Idle?)
    ensures Internal(step) && Enabled(s, step)
  {
    match s.holder
    case ByWorker(i) =>
      match s.workers[i] {
        case Checking => step := WorkerCheck(i);
        case Took(_) => step := WorkerUnlock(i);
        case _ => step := WorkerReported(i);
      }
    case ByProducer =>
      match s.producer {
        case Locked(_) => step := ProducerPush;
        case Pushed => step := ProducerUnlock;
        case _ => step := ViewDone;
      }
    case Free =>
      if s.producer.Adding? {
        step := ProducerLock;
      } else if i: nat :| IsBlocked(s, i) {
        step := ProducerNotify(Some(i));
      } else {
        step := ProducerNotify(None);
      }
  }

  lemma QuietHolder(s: State)
    requires MutexInv(s) && Quiet(s)
    ensures s.holder.Free? && s.producer.Idle?
  {
    if !(s.holder.Free? && s.producer.Idle?) {
      var step := HolderMoves(s);
      assert false;
    }
  }

  lemma QuietWorkers(s: State)
    requires MutexInv(s) && Quiet(s) && s.holder.Free?
    ensures forall i | 0 <= i < |s.workers| :: s.workers[i].Blocked? || s.workers[i].Exited?
  {
    forall i | 0 <= i < |s.workers| ensures s.workers[i].Blocked? || s.workers[i].Exited? {
      assert !Enabled(s, WorkerLock(i)) && !Enabled(s, WorkerDone(i)) && !Enabled(s, WorkerReport(i));
      assert !WorkerHolds(s.workers[i]);
    }
  }

  // ---------- Everything is drained, whoever runs ----------

  /** How many more steps a worker can take on its own before it waits or has left. */
  function WorkerRank(w: Worker): nat {
    match w
    case Blocked => 0
    case Exited => 0
    case Checking => 1
    case Outside => 2
    case Woken => 2
    case Working(_, k) => 3 + 2 * (MAX_REPORTS - k)
    case Reporting(_, k) => 4 + 2 * (MAX_REPORTS - k)
    case Took(_) => 12
  }

  function ProducerRank(p: Producer): nat {
    match p
    case Idle => 0
    case Viewing => 1
    case Unlocked => 3
    case Pushed => 4
    case Locked(_) => 17
    case Adding(_) => 18
  }

  function Rank(s: State): nat {
    Sum(s.workers, WorkerRank) + ProducerRank(s.producer) + 12 * |s.jobs|
  }

  /** What a step from outside can add to the work, itself included. */
  function Cost(step: Step): nat {
    match step
    case Request(_) => 19
    case WakeSpuriously(_) => 3
    case View => 2
    case Quit => 1
    case _ => 0
  }

  /** What the steps from t up to u add. */
  function Budget(steps: seq<Step>, t: nat, u: nat): nat
    requires t <= u <= |steps|
  {
    if t == u then 0 else Budget(steps, t, u - 1) + Cost(steps[u - 1])
  }

  lemma ProducerStepPays(s: State, step: Step)
    requires Enabled(s, step) && OfProducer(step)
    ensures Rank(Apply(s, step)) + 1 <= Rank(s) + Cost(step)
  {
    if step.ProducerNotify? && step.woken.Some? {
      SumUpdate(s.workers, WorkerRank, step.woken.value, Woken);
    }
  }

  lemma WorkerStepPays(s: State, step: Step)
    requires Enabled(s, step) && !OfProducer(step)
    ensures Rank(Apply(s, step)) + 1 <= Rank(s) + Cost(step)
  {
    var w := Apply(s, step).workers[step.i];
    assert Apply(s, step).workers == s.workers[step.i := w];
    SumUpdate(s.workers, WorkerRank, step.i, w);
  }

  /** Every step uses up some of the work that is left or that it brings in. */
  lemma StepPays(s: State, step: Step)
    requires Enabled(s, step)
    ensures Rank(Apply(s, step)) + 1 <= Rank(s) + Cost(step)
  {
    if OfProducer(step) {
      ProducerStepPays(s, step);
    } else {
      WorkerStepPays(s, step);
    }
  }

  /** However the threads are scheduled, and whatever comes in meanwhile: a stretch of a run is no
      longer than the rank of the state it starts from and what its requests, its views and its
      spurious wakeups allow for. */
  lemma {:induction false} StretchIsBounded(n: nat, states: seq<State>, steps: seq<Step>, t: nat, u: nat)
    requires IsRun(n, states, steps) && t <= u <= |steps|
    ensures u - t + Rank(states[u]) <= Rank(states[t]) + Budget(steps, t, u)
    decreases u
  {
    if t < u {
      StretchIsBounded(n, states, steps, t, u - 1);
      assert StepAt(states, steps, u - 1);
      StepPays(states[u - 1], steps[u - 1]);
    }
  }

  /** The menu only adds tokens, which are not empty: then no worker ever leaves. */
  lemma {:induction false} NobodyLeaves(n: nat, states: seq<State>, steps: seq<Step>, t: nat)
    requires IsRun(n, states, steps) && t < |states|
    requires forall i | 0 <= i < |steps| :: steps[i] != Request("")
    ensures NoEmptyJob(states[t])
  {
    if t > 0 {
      NobodyLeaves(n, states, steps, t - 1);
      assert StepAt(states, steps, t - 1);
      NoEmptyJobStep(states[t - 1], steps[t - 1]);
    }
  }

  ghost predicate NoEmptyJob(s: State) {
    && (forall j | 0 <= j < |s.jobs| :: s.jobs[j] != "")
    && (forall i | 0 <= i < |s.workers| :: !s.workers[i].Exited? && s.workers[i] != Took(""))
    && (s.producer.Adding? || s.producer.Locked? ==> s.producer.job != "")
  }

  lemma NoEmptyJobStep(s: State, step: Step)
    requires NoEmptyJob(s) && Enabled(s, step) && step != Request("")
    ensures NoEmptyJob(Apply(s, step))
  {
  }

  /** Without empty jobs and with at least one worker, a quiet system has taken every job. */
  lemma QuietHasTakenAll(n: nat, states: seq<State>, steps: seq<Step>, t: nat)
    requires 0 < n && IsRun(n, states, steps) && t < |states| && Quiet(states[t])
    requires forall i | 0 <= i < |steps| :: steps[i] != Request("")
    ensures states[t].jobs == [] && states[t].taken == states[t].added
  {
    QuietIsDone(n, states, steps, t);
    NobodyLeaves(n, states, steps, t);
    SameWorkers(n, states, steps, t);
    assert states[t].workers[0] in states[t].workers;
  }

  lemma {:induction false} SameWorkers(n: nat, states: seq<State>, steps: seq<Step>, t: nat)
    requires IsRun(n, states, steps) && t < |states|
    ensures |states[t].workers| == n
  {
    if t > 0 {
      SameWorkers(n, states, steps, t - 1);
      assert StepAt(states, steps, t - 1);
    }
  }

  lemma {:induction false} OutsideRank(ws: seq<Worker>)
    requires forall i | 0 <= i < |ws| :: ws[i] == Outside
    ensures Sum(ws, WorkerRank) == 2 * |ws|
  {
    if ws != [] {
      OutsideRank(ws[1..]);
    }
  }

  /** A whole run of n workers has at most 2n steps more than its inputs and spurious wakeups allow
      for: no scheduling lets the threads go round for ever on their own. */
  lemma RunIsBounded(n: nat, states: seq<State>, steps: seq<Step>)
    requires IsRun(n, states, steps)
    ensures |steps| + Rank(states[|steps|]) <= 2 * n + Budget(steps, 0, |steps|)
  {
    StretchIsBounded(n, states, steps, 0, |steps|);
    OutsideRank(Init(n).workers);
  }

  lemma {:induction false} InternalIsFree(steps: seq<Step>, t: nat, u: nat)
    requires t <= u <= |steps| && forall i | t <= i < u :: Internal(steps[i])
    ensures Budget(steps, t, u) == 0
    decreases u
  {
    if t < u {
      InternalIsFree(steps, t, u - 1);
    }
  }

  lemma NoRankNoMove(s: State, step: Step)
    requires Rank(s) == 0 && Internal(step)
    ensures !Enabled(s, step)
  {
    if Enabled(s, step) {
      StepPays(s, step);
    }
  }

  /** From every point of every run: if nothing new comes in and nobody wakes up for nothing, the
      threads come to rest within Rank steps, whoever takes them; and wherever they rest, the
      process has ended or every job has been taken. */
  lemma DrainsUnderAnySchedule(n: nat, states: seq<State>, steps: seq<Step>, t: nat)
    requires 0 < n && IsRun(n, states, steps) && t <= |steps|
    requires forall i | 0 <= i < |steps| :: steps[i] != Request("")
    requires forall i | t <= i < |steps| :: Internal(steps[i])
    ensures |steps| - t <= Rank(states[t])
    ensures |steps| - t == Rank(states[t]) ==> Resting(states[|steps|])
    ensures var last := states[|steps|];
      Resting(last) ==> last.halted || (last.jobs == [] && last.taken == last.added)
  {
    var last := states[|steps|];
    StretchIsBounded(n, states, steps, t, |steps|);
    InternalIsFree(steps, t, |steps|);
    if |steps| - t == Rank(states[t]) {
      forall step: Step | Internal(step) ensures !Enabled(last, step) {
        NoRankNoMove(last, step);
      }
    }
    if Quiet(last) {
      QuietHasTakenAll(n, states, steps, |steps|);
    }
  }

  // ---------- What the history says ----------

  predicate IsQuit(step: Step) { step.Quit? }

  /** The process has ended if and only if the user has quit or a 17th job was added. */
  lemma {:induction false} HaltedIff(n: nat, states: seq<State>, steps: seq<Step>, t: nat)
    requires IsRun(n, states, steps) && t < |states|
    ensures states[t].halted <==> |states[t].added| > 16 || exists j | 0 <= j < t :: IsQuit(steps[j])
  {
    if t > 0 {
      HaltedIff(n, states, steps, t - 1);
      RunInv(n, states, steps, t - 1);
      assert StepAt(states, steps, t - 1);
      assert IsQuit(steps[t - 1]) <==> steps[t - 1] == Quit;
    }
  }

  /** The jobs of the requests among the first t steps, in order. */
  function Requested(steps: seq<Step>, t: nat): seq<string>
    requires t <= |steps|
  {
    if t == 0 then []
    else Requested(steps, t - 1) + if steps[t - 1].Request? then [steps[t - 1].job] else []
  }

  /** What the producer has in hand and has not pushed yet. */
  function InHand(p: Producer): seq<string> {
    if p.Adding? || p.Locked? then [p.job] else []
  }

  lemma RequestedStep(s: State, step: Step)
    requires Enabled(s, step)
    ensures s.added + InHand(s.producer) + (if step.Request? then [step.job] else []) ==
      Apply(s, step).added + InHand(Apply(s, step).producer)
  {
  }

  /** What is added is what was requested, in order, but for the one job in the producer's hand. */
  lemma {:induction false} RequestsAreAdded(n: nat, states: seq<State>, steps: seq<Step>, t: nat)
    requires IsRun(n, states, steps) && t < |states|
    ensures Requested(steps, t) == states[t].added + InHand(states[t].producer)
  {
    if t > 0 {
      RequestsAreAdded(n, states, steps, t - 1);
      assert StepAt(states, steps, t - 1);
      RequestedStep(states[t - 1], steps[t - 1]);
    }
  }

  /** A worker that has taken a job and not finished it; the one that took an empty job never does. */
  function Busy(w: Worker): nat {
    if w.Took? || w.Working? || w.Reporting? || w.Exited? then 1 else 0
  }

  /** A worker that an empty job sends away. */
  function Leaving(w: Worker): nat {
    if w == Took("") || w.Exited? then 1 else 0
  }

  function DoneCount(steps: seq<Step>, t: nat): nat
    requires t <= |steps|
  {
    if t == 0 then 0 else DoneCount(steps, t - 1) + if steps[t - 1].WorkerDone? then 1 else 0
  }

  function EmptyJobs(js: seq<string>): nat {
    if js == [] then 0 else EmptyJobs(js[..|js| - 1]) + if js[|js| - 1] == "" then 1 else 0
  }

  lemma EmptyJobsSnoc(js: seq<string>, j: string)
    ensures EmptyJobs(js + [j]) == EmptyJobs(js) + if j == "" then 1 else 0
  {
    assert (js + [j])[..|js|] == js;
  }

  /** The producer takes no job, and whom it wakes had none. */
  lemma ProducerTakesNothing(s: State, step: Step, f: Worker -> nat)
    requires Enabled(s, step) && OfProducer(step) && f(Blocked) == f(Woken)
    ensures Apply(s, step).taken == s.taken && Sum(Apply(s, step).workers, f) == Sum(s.workers, f)
  {
    if step.ProducerNotify? && step.woken.Some? {
      SumUpdate(s.workers, f, step.woken.value, Woken);
    }
  }

  lemma BusyWorkerStep(s: State, step: Step)
    requires Enabled(s, step) && !OfProducer(step)
    ensures var t := Apply(s, step);
      |t.taken| + Sum(s.workers, Busy) == |s.taken| + Sum(t.workers, Busy) + if step.WorkerDone? then 1 else 0
  {
    var w := Apply(s, step).workers[step.i];
    assert Apply(s, step).workers == s.workers[step.i := w];
    SumUpdate(s.workers, Busy, step.i, w);
  }

  /** Jobs taken and jobs in hand change together. */
  lemma BusyStep(s: State, step: Step)
    requires Enabled(s, step)
    ensures var t := Apply(s, step);
      |t.taken| + Sum(s.workers, Busy) == |s.taken| + Sum(t.workers, Busy) + if step.WorkerDone? then 1 else 0
  {
    if OfProducer(step) {
      ProducerTakesNothing(s, step, Busy);
    } else {
      BusyWorkerStep(s, step);
    }
  }

  ghost predicate NeverEmptyWork(s: State) {
    forall i | 0 <= i < |s.workers| && (s.workers[i].Working? || s.workers[i].Reporting?) :: s.workers[i].job != ""
  }

  lemma NeverEmptyWorkStep(s: State, step: Step)
    requires Enabled(s, step) && NeverEmptyWork(s)
    ensures NeverEmptyWork(Apply(s, step))
  {
  }

  /** The step takes an empty job. */
  predicate TakesEmpty(s: State, step: Step) {
    step.WorkerCheck? && s.jobs != [] && s.jobs[0] == ""
  }

  lemma EmptyJobsStep(s: State, step: Step)
    requires Enabled(s, step)
    ensures EmptyJobs(Apply(s, step).taken) == EmptyJobs(s.taken) + if TakesEmpty(s, step) then 1 else 0
  {
    if step.WorkerCheck? && s.jobs != [] {
      EmptyJobsSnoc(s.taken, s.jobs[0]);
    }
  }

  lemma LeavingWorkerStep(s: State, step: Step)
    requires Enabled(s, step) && NeverEmptyWork(s) && !OfProducer(step)
    ensures Sum(Apply(s, step).workers, Leaving) == Sum(s.workers, Leaving) + if TakesEmpty(s, step) then 1 else 0
  {
    var w := Apply(s, step).workers[step.i];
    assert Apply(s, step).workers == s.workers[step.i := w];
    SumUpdate(s.workers, Leaving, step.i, w);
  }

  lemma LeavingStep(s: State, step: Step)
    requires Enabled(s, step) && NeverEmptyWork(s)
    ensures var t := Apply(s, step);
      EmptyJobs(t.taken) + Sum(s.workers, Leaving) == EmptyJobs(s.taken) + Sum(t.workers, Leaving)
  {
    EmptyJobsStep(s, step);
    if OfProducer(step) {
      ProducerTakesNothing(s, step, Leaving);
    } else {
      LeavingWorkerStep(s, step);
    }
  }

  /** Every job taken is in the hands of exactly one worker or was finished by do_job, and each empty
      job sends exactly one worker away for good. */
  lemma {:induction false} TakenAreAccounted(n: nat, states: seq<State>, steps: seq<Step>, t: nat)
    requires IsRun(n, states, steps) && t < |states|
    ensures |states[t].taken| == Sum(states[t].workers, Busy) + DoneCount(steps, t)
    ensures EmptyJobs(states[t].taken) == Sum(states[t].workers, Leaving)
    ensures NeverEmptyWork(states[t])
  {
    if t == 0 {
      SumZero(states[0].workers, Busy);
      SumZero(states[0].workers, Leaving);
    } else {
      TakenAreAccounted(n, states, steps, t - 1);
      assert StepAt(states, steps, t - 1);
      BusyStep(states[t - 1], steps[t - 1]);
      NeverEmptyWorkStep(states[t - 1], steps[t - 1]);
      LeavingStep(states[t - 1], steps[t - 1]);
    }
  }

  /** Status reports that worker i has begun since it last took up a job. */
  function ReportsOf(steps: seq<Step>, i: nat, t: nat): nat
    requires t <= |steps|
  {
    if t == 0 || steps[t - 1] == WorkerUnlock(i) then 0
    else ReportsOf(steps, i, t - 1) + if steps[t - 1] == WorkerReport(i) then 1 else 0
  }

  lemma {:induction false} ReportsAreCounted(n: nat, states: seq<State>, steps: seq<Step>, i: nat, t: nat)
    requires IsRun(n, states, steps) && t < |states| && i < |states[t].workers|
    ensures var w := states[t].workers[i]; w.Working? || w.Reporting? ==> w.reports == ReportsOf(steps, i, t)
  {
    if t > 0 {
      assert StepAt(states, steps, t - 1);
      ReportsAreCounted(n, states, steps, i, t - 1);
    }
  }

  /** do_job has made one, two or four status reports on its job when it returns. */
  lemma DoneAfterReports(n: nat, states: seq<State>, steps: seq<Step>, i: nat, t: nat)
    requires IsRun(n, states, steps) && t < |steps| && steps[t] == WorkerDone(i)
    ensures ReportsOf(steps, i, t) == 1 || ReportsOf(steps, i, t) == 2 || ReportsOf(steps, i, t) == 4
  {
    assert StepAt(states, steps, t);
    ReportsAreCounted(n, states, steps, i, t);
  }

  /** The job that worker i took last. */
  function LastTaken(states: seq<State>, steps: seq<Step>, i: nat, t: nat): Option<string>
    requires t <= |steps| < |states|
  {
    if t == 0 then None
    else if steps[t - 1] == WorkerCheck(i) && states[t - 1].jobs != [] then Some(states[t - 1].jobs[0])
    else LastTaken(states, steps, i, t - 1)
  }

  /** A worker works on the job that it took. */
  lemma {:induction false} JobIsKept(n: nat, states: seq<State>, steps: seq<Step>, i: nat, t: nat)
    requires IsRun(n, states, steps) && t < |states| && i < |states[t].workers|
    ensures var w := states[t].workers[i];
      w.Took? || w.Working? || w.Reporting? ==> Some(w.job) == LastTaken(states, steps, i, t)
  {
    if t > 0 {
      assert StepAt(states, steps, t - 1);
      JobIsKept(n, states, steps, i, t - 1);
    }
  }

  /** Everything that can come from outside is possible whenever the producer is at the menu, and any
      blocked worker can wake up; do_job may return after one, two or four reports. */
  lemma OutsideIsFree(s: State, job: string, i: nat)
    requires !s.halted
    ensures Enabled(s, Request(job)) <==> s.producer.Idle?
    ensures Enabled(s, Quit) <==> s.producer.Idle?
    ensures Enabled(s, View) <==> s.producer.Idle? && s.holder.Free?
    ensures Enabled(s, WakeSpuriously(i)) <==> i < |s.workers| && s.workers[i].Blocked?
    ensures Enabled(s, WorkerDone(i)) <==>
      i < |s.workers| && s.workers[i].Working? && s.workers[i].reports in {1, 2, 4}
  {
  }
}
