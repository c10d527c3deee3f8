/** The worker pool of test.py as interleaved steps: the main thread dispatches jobs and poison
    pills, collects results and joins; N workers share its two queues; an interrupt may come
    at any moment. Each queue or flag access is one step. */
module WorkerPool {
  // is_break marks a poison pill, or a job handed back unrun after an interrupt.
  datatype Job = Job(id: nat, isBreak: bool, isSkip: bool, returncode: int)

  // skips[i] and results[i]: whether job i is to be skipped, and what it returns when it is run.
  datatype Config = Config(skips: seq<bool>, results: seq<int>, processors: nat) {
    ghost predicate Valid() { |skips| == |results| }
    function Jobs(): nat { |skips| }
    function Fresh(id: nat): Job requires id < |skips| { Job(id, false, skips[id], 0) }
  }

  const PILL := Job(0, true, false, 0)

  datatype Worker = Waiting | Got(job: Job) | Running(job: Job) | Reporting(job: Job) | Exited

  datatype Counts = Counts(passed: nat, failed: nat, crashed: nat, valgrind: nat, skipped: nat)

  datatype State = State(inputQueue: seq<Job>, outputQueue: seq<Job>, workers: seq<Worker>, threadExit: bool,
                         dispatched: nat, pills: nat, collected: seq<Job>, counts: Counts, joined: nat)

  datatype Action =
    | Dispatch | Pill | Collect | Join
    | Take(w: nat) | Check(w: nat) | Finish(w: nat) | Report(w: nat)
    | Interrupt

  function Init(c: Config): State {
    State([], [], seq(c.processors, i => Waiting), false, 0, 0, [], Counts(0, 0, 0, 0, 0), 0)
  }

  // ---- the steps ----

  predicate Enabled(c: Config, s: State, a: Action) {
    match a
    case Dispatch => s.dispatched < c.Jobs()
    case Pill => s.dispatched >= c.Jobs() && s.pills < c.processors
    case Collect =>
      s.dispatched >= c.Jobs() && s.pills >= c.processors && |s.collected| < c.Jobs() && s.outputQueue != []
    case Join => s.dispatched >= c.Jobs() && s.pills >= c.processors && |s.collected| >= c.Jobs() &&
                 s.joined < |s.workers| && s.workers[s.joined].Exited?
    case Take(w) => w < |s.workers| && s.workers[w].Waiting? && s.inputQueue != []
    case Check(w) => w < |s.workers| && s.workers[w].Got?
    case Finish(w) => w < |s.workers| && s.workers[w].Running? && s.workers[w].job.id < |c.results|
    case Report(w) => w < |s.workers| && s.workers[w].Reporting?
    case Interrupt => !s.threadExit
  }

  // The collector's classification of one job.
  function Tally(n: Counts, job: Job): Counts {
    if job.isBreak then n
    else if job.isSkip then n.(skipped := n.skipped + 1)
    else if job.returncode == 0 then n.(passed := n.passed + 1)
    else if job.returncode == 1 then n.(failed := n.failed + 1)
    else if job.returncode == 2 then n.(valgrind := n.valgrind + 1)
    else n.(crashed := n.crashed + 1)
  }

  function Step(c: Config, s: State, a: Action): State
    requires Enabled(c, s, a)
  {
    match a
    case Dispatch => s.(inputQueue := s.inputQueue + [c.Fresh(s.dispatched)], dispatched := s.dispatched + 1)
    case Pill => s.(inputQueue := s.inputQueue + [PILL], pills := s.pills + 1)
    case Collect =>
      s.(outputQueue := s.outputQueue[1..], collected := s.collected + [s.outputQueue[0]],
         counts := Tally(s.counts, s.outputQueue[0]))
    case Join => s.(joined := s.joined + 1)
    case Take(w) =>
      var job := s.inputQueue[0];
      s.(inputQueue := s.inputQueue[1..], workers := s.workers[w := if job.isBreak then Exited else Got(job)])
    case Check(w) =>
      var job := s.workers[w].job;
      s.(workers := s.workers[w := if s.threadExit then Reporting(job.(isBreak := true))
                                   else if job.isSkip then Reporting(job) else Running(job)])
    case Finish(w) =>
      var job := s.workers[w].job;
      s.(workers := s.workers[w := Reporting(job.(returncode := c.results[job.id]))])
    case Report(w) =>
      s.(outputQueue := s.outputQueue + [s.workers[w].job], workers := s.workers[w := Waiting])
    case Interrupt => s.(threadExit := true)
  }

  // The main thread has returned from its last join.
  predicate Final(c: Config, s: State) {
    s.dispatched >= c.Jobs() && s.pills >= c.processors && |s.collected| >= c.Jobs() && s.joined >= c.processors
  }

  function ExitCode(c: Config, s: State): int {
    if s.counts.passed + s.counts.skipped == c.Jobs() then 0 else 1
  }

  // ---- runs ----

  ghost predicate Run(c: Config, states: seq<State>, actions: seq<Action>) {
    && c.Valid() && |states| == |actions| + 1 && states[0] == Init(c)
    && forall i: nat :: i < |actions| ==>
         Enabled(c, states[i], actions[i]) && states[i + 1] == Step(c, states[i], actions[i])
  }

  // ---- where jobs are ----

  // How often job id is in the input queue, whose is_break entries are pills.
  ghost function Waits(q: seq<Job>, id: nat): nat {
    if q == [] then 0 else (if !q[0].isBreak && q[0].id == id then 1 else 0) + Waits(q[1..], id)
  }

  // How often job id is in a list of results, where is_break means it was handed back unrun.
  ghost function Times(q: seq<Job>, id: nat): nat {
    if q == [] then 0 else (if q[0].id == id then 1 else 0) + Times(q[1..], id)
  }

  ghost function HeldBy(w: Worker, id: nat): nat {
    if w.Waiting? || w.Exited? then 0 else if w.job.id == id then 1 else 0
  }

  ghost function Held(ws: seq<Worker>, id: nat): nat {
    if ws == [] then 0 else HeldBy(ws[0], id) + Held(ws[1..], id)
  }

  ghost function Pills(q: seq<Job>): nat {
    if q == [] then 0 else (if q[0].isBreak then 1 else 0) + Pills(q[1..])
  }

  ghost function Gone(ws: seq<Worker>): nat {
    if ws == [] then 0 else (if ws[0].Exited? then 1 else 0) + Gone(ws[1..])
  }

  ghost function TallyAll(q: seq<Job>): Counts {
    if q == [] then Counts(0, 0, 0, 0, 0) else Tally(TallyAll(q[..|q| - 1]), q[|q| - 1])
  }

  // ---- the invariant ----

  // What a job may look like once it leaves Check: run, skipped, or handed back.
  ghost predicate Done(c: Config, exit: bool, job: Job) {
    && job.id < |c.skips| && |c.results| == |c.skips| && job.isSkip == c.skips[job.id]
    && (job.isBreak ==> exit)
    && (!job.isBreak && !job.isSkip ==> job.returncode == c.results[job.id])
  }

  ghost predicate QueueOk(c: Config, q: seq<Job>) {
    && (forall i :: 0 <= i < |q| && !q[i].isBreak ==> q[i].id < |c.skips| && q[i] == c.Fresh(q[i].id))
    && (forall i, j :: 0 <= i < j < |q| && q[i].isBreak ==> q[j].isBreak)
  }

  ghost predicate WorkerOk(c: Config, exit: bool, w: Worker) {
    match w
    case Waiting => true
    case Exited => true
    case Got(job) => job.id < |c.skips| && job == c.Fresh(job.id)
    case Running(job) => job.id < |c.skips| && job == c.Fresh(job.id) && !job.isSkip
    case Reporting(job) => Done(c, exit, job)
  }

  ghost predicate ResultsOk(c: Config, exit: bool, q: seq<Job>) {
    forall i :: 0 <= i < |q| ==> Done(c, exit, q[i])
  }

  ghost predicate Progress(c: Config, s: State) {
    && |s.workers| == c.processors && s.dispatched <= c.Jobs() && s.pills <= c.processors
    && |s.collected| <= c.Jobs() && s.joined <= c.processors
    && (s.pills > 0 ==> s.dispatched == c.Jobs())
    && (s.joined > 0 ==> |s.collected| == c.Jobs())
    && (forall k :: 0 <= k < s.joined ==> s.workers[k].Exited?)
  }

  // How many places hold job id: the input queue, a worker, the output queue or the collected results.
  ghost function Copies(s: State, id: nat): nat {
    Waits(s.inputQueue, id) + Held(s.workers, id) + Times(s.outputQueue, id) + Times(s.collected, id)
  }

  // Every dispatched job is in exactly one place, once.
  ghost predicate Conserved(s: State) {
    forall id: nat :: Copies(s, id) == if id < s.dispatched then 1 else 0
  }

  ghost predicate Inv(c: Config, s: State) {
    && c.Valid() && Progress(c, s)
    && QueueOk(c, s.inputQueue)
    && (forall w :: 0 <= w < |s.workers| ==> WorkerOk(c, s.threadExit, s.workers[w]))
    && ResultsOk(c, s.threadExit, s.outputQueue) && ResultsOk(c, s.threadExit, s.collected)
    && Pills(s.inputQueue) + Gone(s.workers) == s.pills
    && (Gone(s.workers) > 0 ==> forall i :: 0 <= i < |s.inputQueue| ==> s.inputQueue[i].isBreak)
    && Conserved(s)
    && s.counts == TallyAll(s.collected)
  }

  // ---- how the counts change ----

  lemma {:induction false} QueueAppend(q: seq<Job>, job: Job, id: nat)
    ensures Waits(q + [job], id) == Waits(q, id) + if !job.isBreak && job.id == id then 1 else 0
    ensures Times(q + [job], id) == Times(q, id) + if job.id == id then 1 else 0
    ensures Pills(q + [job]) == Pills(q) + if job.isBreak then 1 else 0
  {
    if q == [] {
      assert q + [job] == [job];
    } else {
      assert (q + [job])[1..] == q[1..] + [job];
      QueueAppend(q[1..], job, id);
    }
  }

  lemma {:induction false} WorkerUpdate(ws: seq<Worker>, w: nat, v: Worker, id: nat)
    requires w < |ws|
    ensures Held(ws[w := v], id) + HeldBy(ws[w], id) == Held(ws, id) + HeldBy(v, id)
    ensures Gone(ws[w := v]) + (if ws[w].Exited? then 1 else 0) == Gone(ws) + if v.Exited? then 1 else 0
    ensures Load(ws[w := v]) + Weight(ws[w]) == Load(ws) + Weight(v)
  {
    if w == 0 {
      assert ws[w := v][1..] == ws[1..];
    } else {
      assert ws[w := v][1..] == ws[1..][w - 1 := v];
      WorkerUpdate(ws[1..], w - 1, v, id);
    }
  }

  // ---- the measure ----

  ghost function Weight(w: Worker): nat {
    match w
    case Waiting => 0
    case Got(_) => 4
    case Running(_) => 3
    case Reporting(_) => 2
    case Exited => 0
  }

  ghost function Load(ws: seq<Worker>): nat {
    if ws == [] then 0 else Weight(ws[0]) + Load(ws[1..])
  }

  // What is still to be done: seven steps a job, three a worker, and the interrupt.
  ghost function Measure(c: Config, s: State): int {
    7 * (c.Jobs() - s.dispatched) + 2 * (c.processors - s.pills)
    + 5 * (|s.inputQueue| - Pills(s.inputQueue)) + Pills(s.inputQueue)
    + Load(s.workers) + |s.outputQueue| + (c.processors - s.joined) + if s.threadExit then 0 else 1
  }

  // ---- every step keeps the invariant ----

  lemma InitInv(c: Config)
    requires c.Valid()
    ensures Inv(c, Init(c))
  {
    AllWaiting(c.processors, 0);
    forall id: nat ensures Held(Init(c).workers, id) == 0 {
      AllWaiting(c.processors, id);
    }
  }

  lemma {:induction false} AllWaiting(n: nat, id: nat)
    ensures var ws := seq(n, i => Waiting); Held(ws, id) == 0 && Gone(ws) == 0 && Load(ws) == 0
  {
    if n > 0 {
      assert seq(n, i => Waiting)[1..] == seq(n - 1, i => Waiting);
      AllWaiting(n - 1, id);
    }
  }

  lemma StepProgress(c: Config, s: State, a: Action)
    requires Inv(c, s) && Enabled(c, s, a)
    ensures Progress(c, Step(c, s, a))
  {
    hide QueueOk, ResultsOk, WorkerOk, Conserved, Done;
  }

  lemma StepQueue(c: Config, s: State, a: Action)
    requires Inv(c, s) && Enabled(c, s, a)
    ensures QueueOk(c, Step(c, s, a).inputQueue)
  {
    hide ResultsOk, WorkerOk, Conserved, Done;
    var t := Step(c, s, a);
    if a.Take? {
      assert forall i :: 0 <= i < |t.inputQueue| ==> t.inputQueue[i] == s.inputQueue[i + 1];
    }
    if a.Dispatch? {
      NoPills(s.inputQueue);
    }
  }

  lemma {:induction false} NoPills(q: seq<Job>)
    ensures Pills(q) == 0 <==> forall i :: 0 <= i < |q| ==> !q[i].isBreak
    ensures Pills(q) <= |q|
  {
    if q != [] {
      NoPills(q[1..]);
      assert forall i :: 0 < i < |q| ==> q[i] == q[1..][i - 1];
    }
  }

  lemma StepWorkers(c: Config, s: State, a: Action)
    requires Inv(c, s) && Enabled(c, s, a)
    ensures var t := Step(c, s, a); forall w :: 0 <= w < |t.workers| ==> WorkerOk(c, t.threadExit, t.workers[w])
  {
    hide ResultsOk, Conserved;
  }

  lemma StepResults(c: Config, s: State, a: Action)
    requires Inv(c, s) && Enabled(c, s, a)
    ensures var t := Step(c, s, a); ResultsOk(c, t.threadExit, t.outputQueue) && ResultsOk(c, t.threadExit, t.collected)
  {
    hide QueueOk, Conserved;
    if a.Report? {
      assert WorkerOk(c, s.threadExit, s.workers[a.w]);
    }
  }

  lemma StepPills(c: Config, s: State, a: Action)
    requires Inv(c, s) && Enabled(c, s, a)
    ensures var t := Step(c, s, a); Pills(t.inputQueue) + Gone(t.workers) == t.pills
  {
    hide QueueOk, ResultsOk, WorkerOk, Conserved;
    match a
    case Dispatch => QueueAppend(s.inputQueue, c.Fresh(s.dispatched), 0);
    case Pill => QueueAppend(s.inputQueue, PILL, 0);
    case Take(w) => WorkerUpdate(s.workers, w, Step(c, s, a).workers[w], 0);
    case Check(w) => WorkerUpdate(s.workers, w, Step(c, s, a).workers[w], 0);
    case Finish(w) => WorkerUpdate(s.workers, w, Step(c, s, a).workers[w], 0);
    case Report(w) => WorkerUpdate(s.workers, w, Step(c, s, a).workers[w], 0);
    case _ =>
  }

  lemma StepGone(c: Config, s: State, a: Action)
    requires Inv(c, s) && Enabled(c, s, a)
    ensures var t := Step(c, s, a);
            Gone(t.workers) > 0 ==> forall i :: 0 <= i < |t.inputQueue| ==> t.inputQueue[i].isBreak
  {
    hide ResultsOk, WorkerOk, Conserved;
    match a
    case Take(w) =>
      WorkerUpdate(s.workers, w, Step(c, s, a).workers[w], 0);
      assert forall i :: 0 <= i < |s.inputQueue| - 1 ==> s.inputQueue[1..][i] == s.inputQueue[i + 1];
    case Check(w) => WorkerUpdate(s.workers, w, Step(c, s, a).workers[w], 0);
    case Finish(w) => WorkerUpdate(s.workers, w, Step(c, s, a).workers[w], 0);
    case Report(w) => WorkerUpdate(s.workers, w, Step(c, s, a).workers[w], 0);
    case _ =>
  }

  lemma StepConserved(c: Config, s: State, a: Action)
    requires Conserved(s) && Enabled(c, s, a)
    ensures Conserved(Step(c, s, a))
  {
    hide Step, Enabled;
    var t := Step(c, s, a);
    forall id: nat ensures Copies(t, id) == if id < t.dispatched then 1 else 0 {
      assert Copies(s, id) == if id < s.dispatched then 1 else 0;
      if a.Dispatch? || a.Pill? || a.Collect? {
        MainConserves(c, s, a, id);
      } else if a.Take? || a.Report? {
        QueueConserves(c, s, a, id);
      } else {
        WorkerConserves(c, s, a, id);
      }
    }
  }

  lemma MainConserves(c: Config, s: State, a: Action, id: nat)
    requires Enabled(c, s, a) && (a.Dispatch? || a.Pill? || a.Collect?)
    ensures var t := Step(c, s, a);
            Copies(t, id) - Copies(s, id) == if s.dispatched == id < t.dispatched then 1 else 0
    ensures Step(c, s, a).dispatched == s.dispatched + if a.Dispatch? then 1 else 0
  {
    match a
    case Dispatch => QueueAppend(s.inputQueue, c.Fresh(s.dispatched), id);
    case Pill => QueueAppend(s.inputQueue, PILL, id);
    case Collect => QueueAppend(s.collected, s.outputQueue[0], id);
  }

  lemma QueueConserves(c: Config, s: State, a: Action, id: nat)
    requires Enabled(c, s, a) && (a.Take? || a.Report?)
    ensures Copies(Step(c, s, a), id) == Copies(s, id) && Step(c, s, a).dispatched == s.dispatched
  {
    var t := Step(c, s, a);
    WorkerUpdate(s.workers, a.w, t.workers[a.w], id);
    if a.Report? {
      QueueAppend(s.outputQueue, s.workers[a.w].job, id);
    }
  }

  lemma WorkerConserves(c: Config, s: State, a: Action, id: nat)
    requires Enabled(c, s, a) && (a.Check? || a.Finish? || a.Join? || a.Interrupt?)
    ensures Copies(Step(c, s, a), id) == Copies(s, id) && Step(c, s, a).dispatched == s.dispatched
  {
    if a.Check? || a.Finish? {
      WorkerUpdate(s.workers, a.w, Step(c, s, a).workers[a.w], id);
    }
  }

  lemma StepCounts(c: Config, s: State, a: Action)
    requires Inv(c, s) && Enabled(c, s, a)
    ensures Step(c, s, a).counts == TallyAll(Step(c, s, a).collected)
  {
    hide QueueOk, ResultsOk, WorkerOk, Conserved, Tally;
    if a.Collect? {
      assert (s.collected + [s.outputQueue[0]])[..|s.collected|] == s.collected;
    }
  }

  lemma StepInv(c: Config, s: State, a: Action)
    requires Inv(c, s) && Enabled(c, s, a)
    ensures Inv(c, Step(c, s, a))
  {
    hide QueueOk, ResultsOk, WorkerOk, Conserved, Progress, Enabled, Step;
    StepProgress(c, s, a);
    StepQueue(c, s, a);
    StepWorkers(c, s, a);
    StepResults(c, s, a);
    StepPills(c, s, a);
    StepGone(c, s, a);
    StepConserved(c, s, a);
    StepCounts(c, s, a);
  }

  lemma {:induction false} RunInv(c: Config, states: seq<State>, actions: seq<Action>, i: nat)
    requires Run(c, states, actions) && i < |states|
    ensures Inv(c, states[i])
  {
    hide Inv, Step, Enabled;
    if i == 0 {
      InitInv(c);
    } else {
      RunInv(c, states, actions, i - 1);
      assert states[i - 1 + 1] == Step(c, states[i - 1], actions[i - 1]);
      StepInv(c, states[i - 1], actions[i - 1]);
    }
  }

  // ---- termination ----

  lemma MeasureStep(c: Config, s: State, a: Action)
    requires Enabled(c, s, a)
    ensures Measure(c, Step(c, s, a)) < Measure(c, s)
  {
    if a.Take? || a.Check? || a.Finish? || a.Report? {
      WorkerMeasure(c, s, a);
    } else if a.Dispatch? {
      QueueAppend(s.inputQueue, c.Fresh(s.dispatched), 0);
    } else if a.Pill? {
      QueueAppend(s.inputQueue, PILL, 0);
    }
  }

  lemma WorkerMeasure(c: Config, s: State, a: Action)
    requires Enabled(c, s, a) && (a.Take? || a.Check? || a.Finish? || a.Report?)
    ensures Measure(c, Step(c, s, a)) < Measure(c, s)
  {
    hide Held, Gone;
    WorkerUpdate(s.workers, a.w, Step(c, s, a).workers[a.w], 0);
  }

  lemma MeasureBounded(c: Config, s: State)
    requires Inv(c, s)
    ensures 0 <= Measure(c, s)
  {
    hide QueueOk, ResultsOk, WorkerOk, Conserved;
    NoPills(s.inputQueue);
  }

  // Every step, of any thread or of the interrupt, uses up the measure.
  lemma MeasureDecreases(c: Config, s: State, a: Action)
    requires Inv(c, s) && Enabled(c, s, a)
    ensures 0 <= Measure(c, Step(c, s, a)) < Measure(c, s)
  {
    hide *;
    StepInv(c, s, a);
    MeasureBounded(c, Step(c, s, a));
    MeasureStep(c, s, a);
  }

  // No run is longer than seven steps a job, three a worker, and the interrupt.
  lemma RunBound(c: Config, states: seq<State>, actions: seq<Action>)
    requires Run(c, states, actions)
    ensures |actions| <= 7 * c.Jobs() + 3 * c.processors + 1
  {
    hide Inv, Step, Enabled;
    MeasureFalls(c, states, actions, |actions|);
    AllWaiting(c.processors, 0);
  }

  lemma {:induction false} MeasureFalls(c: Config, states: seq<State>, actions: seq<Action>, i: nat)
    requires Run(c, states, actions) && i < |states|
    ensures 0 <= Measure(c, states[i]) <= Measure(c, Init(c)) - i
  {
    hide Inv, Step, Enabled, Measure;
    if i == 0 {
      InitMeasure(c);
    } else {
      MeasureFalls(c, states, actions, i - 1);
      RunInv(c, states, actions, i - 1);
      assert states[i - 1 + 1] == Step(c, states[i - 1], actions[i - 1]);
      MeasureDecreases(c, states[i - 1], actions[i - 1]);
    }
  }

  lemma InitMeasure(c: Config)
    ensures Measure(c, Init(c)) >= 0
  {
  }

  // ---- no deadlock ----

  // Nothing but an interrupt can happen, and the main thread has not finished.
  ghost predicate Stuck(c: Config, s: State) {
    !Final(c, s) && forall a :: Enabled(c, s, a) ==> a == Interrupt
  }

  lemma {:induction false} HeldWitness(ws: seq<Worker>, id: nat) returns (w: nat)
    requires Held(ws, id) > 0
    ensures w < |ws| && HeldBy(ws[w], id) > 0
  {
    if HeldBy(ws[0], id) > 0 {
      w := 0;
    } else {
      var v := HeldWitness(ws[1..], id);
      w := v + 1;
    }
  }

  lemma {:induction false} WaitsWitness(q: seq<Job>, id: nat) returns (i: nat)
    requires Waits(q, id) > 0
    ensures i < |q| && !q[i].isBreak
  {
    if !q[0].isBreak && q[0].id == id {
      i := 0;
    } else {
      var j := WaitsWitness(q[1..], id);
      i := j + 1;
    }
  }

  lemma {:induction false} GoneBound(ws: seq<Worker>, w: nat)
    requires w < |ws|
    ensures Gone(ws) <= |ws|
    ensures !ws[w].Exited? ==> Gone(ws) < |ws|
    ensures ws[w].Exited? ==> Gone(ws) > 0
  {
    if |ws| > 1 {
      GoneBound(ws[1..], if w > 0 then w - 1 else 0);
    }
  }

  // A list that holds each of n ids has at least n entries.
  lemma {:induction false} Cover(q: seq<Job>, n: nat)
    requires forall id: nat :: id < n ==> Times(q, id) >= 1
    ensures |q| >= n
  {
    if n > 0 {
      var i := TimesWitness(q, n - 1);
      var r := q[..i] + q[i + 1..];
      forall id: nat | id < n - 1 ensures Times(r, id) >= 1 {
        TimesRemove(q, i, id);
        assert Times(q, id) >= 1;
      }
      Cover(r, n - 1);
    }
  }

  lemma {:induction false} TimesWitness(q: seq<Job>, id: nat) returns (i: nat)
    requires Times(q, id) >= 1
    ensures i < |q| && q[i].id == id
  {
    if q[0].id == id {
      i := 0;
    } else {
      var j := TimesWitness(q[1..], id);
      i := j + 1;
    }
  }

  lemma {:induction false} TimesRemove(q: seq<Job>, i: nat, id: nat)
    requires i < |q|
    ensures Times(q[..i] + q[i + 1..], id) + (if q[i].id == id then 1 else 0) == Times(q, id)
  {
    var r := q[..i] + q[i + 1..];
    if i == 0 {
      assert r == q[1..];
    } else {
      assert r[1..] == q[1..][..i - 1] + q[1..][i..] && r[0] == q[0];
      TimesRemove(q[1..], i - 1, id);
    }
  }

  // A worker that holds a job, or waits at a queue that is not empty, can move.
  lemma WorkerMoves(c: Config, s: State, w: nat) returns (a: Action)
    requires Inv(c, s) && w < |s.workers| && !s.workers[w].Exited?
    requires s.workers[w].Waiting? ==> s.inputQueue != []
    ensures Enabled(c, s, a) && a != Interrupt
  {
    hide Conserved, ResultsOk, QueueOk;
    assert WorkerOk(c, s.threadExit, s.workers[w]);
    match s.workers[w]
    case Waiting => a := Take(w);
    case Got(_) => a := Check(w);
    case Running(_) => a := Finish(w);
    case Reporting(_) => a := Report(w);
  }

  // While the collector waits for a job, some thread can move.
  lemma CollectorMoves(c: Config, s: State) returns (a: Action)
    requires Inv(c, s) && c.processors > 0
    requires s.dispatched == c.Jobs() && s.pills == c.processors && |s.collected| < c.Jobs()
    ensures Enabled(c, s, a) && a != Interrupt
  {
    hide WorkerOk, ResultsOk, QueueOk;
    if s.outputQueue != [] {
      return Collect;
    }
    if forall id: nat :: id < c.Jobs() ==> Times(s.collected, id) >= 1 {
      Cover(s.collected, c.Jobs());
    }
    var id: nat :| id < c.Jobs() && Times(s.collected, id) < 1;
    assert Copies(s, id) == 1 && Waits(s.inputQueue, id) + Held(s.workers, id) + Times(s.outputQueue, id) == 1;
    if Held(s.workers, id) > 0 {
      var w := HeldWitness(s.workers, id);
      a := WorkerMoves(c, s, w);
    } else {
      var i := WaitsWitness(s.inputQueue, id);
      GoneBound(s.workers, 0);
      a := WorkerMoves(c, s, 0);
    }
  }

  // With at least one worker, or nothing to do, the pool never gets stuck.
  lemma NeverStuck(c: Config, s: State)
    requires Inv(c, s) && (c.processors > 0 || c.Jobs() == 0)
    ensures !Stuck(c, s)
  {
    hide Conserved, ResultsOk, QueueOk, WorkerOk;
    if s.dispatched < c.Jobs() {
      assert Enabled(c, s, Dispatch);
    } else if s.pills < c.processors {
      assert Enabled(c, s, Pill);
    } else if |s.collected| < c.Jobs() {
      var a := CollectorMoves(c, s);
    } else if s.joined < c.processors {
      var w := s.joined;
      if s.workers[w].Exited? {
        assert Enabled(c, s, Join);
      } else {
        GoneBound(s.workers, w);
        assert Pills(s.inputQueue) > 0;
        var a := WorkerMoves(c, s, w);
      }
    }
  }

  ghost function DispatchedOnly(c: Config, k: nat): State
    requires k <= c.Jobs()
  {
    Init(c).(inputQueue := seq(k, i requires 0 <= i < k => c.Fresh(i)), dispatched := k)
  }

  // The pool can get stuck exactly when it has jobs and no worker.
  lemma StuckIff(c: Config)
    requires c.Valid()
    ensures (exists states, actions :: Run(c, states, actions) && Stuck(c, states[|states| - 1])) <==>
            c.processors == 0 && c.Jobs() > 0
  {
    if c.processors == 0 && c.Jobs() > 0 {
      var n := c.Jobs();
      var states := seq(n + 1, k requires 0 <= k <= n => DispatchedOnly(c, k));
      var actions := seq(n, k => Dispatch);
      forall i: nat | i < n
        ensures Enabled(c, states[i], actions[i]) && states[i + 1] == Step(c, states[i], actions[i])
      {
        assert DispatchedOnly(c, i + 1).inputQueue == DispatchedOnly(c, i).inputQueue + [c.Fresh(i)];
      }
      assert states[0].inputQueue == [];
      assert Run(c, states, actions) && Stuck(c, states[|states| - 1]);
    }
    if states, actions :| Run(c, states, actions) && Stuck(c, states[|states| - 1]) {
      RunInv(c, states, actions, |states| - 1);
      if c.processors > 0 || c.Jobs() == 0 {
        NeverStuck(c, states[|states| - 1]);
      }
    }
  }

  // ---- pills, results and the exit code ----

  // A worker takes a pill only after every job has been dispatched and taken.
  lemma PillsComeLast(c: Config, s: State, w: nat)
    requires Inv(c, s) && Enabled(c, s, Take(w)) && s.inputQueue[0].isBreak
    ensures s.dispatched == c.Jobs()
    ensures forall id: nat :: Waits(s.inputQueue, id) == 0
  {
    hide Conserved, ResultsOk, WorkerOk;
    NoPills(s.inputQueue);
    forall id: nat ensures Waits(s.inputQueue, id) == 0 {
      if Waits(s.inputQueue, id) > 0 {
        var i := WaitsWitness(s.inputQueue, id);
      }
    }
  }

  // When all workers are gone no job is lost: each is a result, waiting or collected, exactly once.
  lemma NothingLost(c: Config, s: State, id: nat)
    requires Inv(c, s) && c.processors > 0 && forall w :: 0 <= w < |s.workers| ==> s.workers[w].Exited?
    ensures s.dispatched == c.Jobs()
    ensures Times(s.outputQueue, id) + Times(s.collected, id) == if id < c.Jobs() then 1 else 0
  {
    hide ResultsOk, WorkerOk, QueueOk;
    assert Copies(s, id) == if id < s.dispatched then 1 else 0;
    GoneBound(s.workers, 0);
    if Held(s.workers, id) > 0 {
      var w := HeldWitness(s.workers, id);
    }
    if Waits(s.inputQueue, id) > 0 {
      var i := WaitsWitness(s.inputQueue, id);
    }
  }

  // How many jobs were handed back unrun.
  ghost function Interrupted(q: seq<Job>): nat {
    if q == [] then 0 else Interrupted(q[..|q| - 1]) + if q[|q| - 1].isBreak then 1 else 0
  }

  predicate Good(job: Job) { !job.isBreak && (job.isSkip || job.returncode == 0) }

  lemma {:induction false} TallySum(q: seq<Job>)
    ensures var n := TallyAll(q);
            n.passed + n.failed + n.crashed + n.valgrind + n.skipped + Interrupted(q) == |q|
    ensures var n := TallyAll(q);
            n.passed + n.skipped <= |q| && (n.passed + n.skipped == |q| <==> forall i :: 0 <= i < |q| ==> Good(q[i]))
  {
    if q != [] {
      var k := |q| - 1;
      var r := q[..k];
      TallySum(r);
      assert (forall i :: 0 <= i < |q| ==> Good(q[i])) <==> Good(q[k]) && forall i :: 0 <= i < |r| ==> Good(r[i]);
    }
  }

  // When main is done it has collected every job exactly once, the six outcomes add up to the
  // jobs dispatched, and it returns 0 exactly when all were passed or skipped.
  lemma FinalAccount(c: Config, s: State)
    requires Inv(c, s) && Final(c, s)
    ensures |s.collected| == c.Jobs() && forall id: nat :: Times(s.collected, id) == if id < c.Jobs() then 1 else 0
    ensures forall w :: 0 <= w < |s.workers| ==> s.workers[w].Exited?
    ensures s.counts.passed + s.counts.failed + s.counts.crashed + s.counts.valgrind + s.counts.skipped
            + Interrupted(s.collected) == c.Jobs()
    ensures ExitCode(c, s) == 0 <==> forall i :: 0 <= i < |s.collected| ==> Good(s.collected[i])
  {
    hide ResultsOk, WorkerOk, QueueOk, Done;
    TallySum(s.collected);
    forall id: nat ensures Times(s.collected, id) <= if id < c.Jobs() then 1 else 0 {
      assert Copies(s, id) == if id < s.dispatched then 1 else 0;
    }
    forall id: nat ensures Times(s.collected, id) == if id < c.Jobs() then 1 else 0 {
      if id < c.Jobs() && Times(s.collected, id) == 0 {
        CoverMissing(s.collected, c.Jobs(), id);
      }
    }
  }

  lemma FirstCounts(q: seq<Job>)
    ensures q != [] ==> exists id: nat :: Times(q, id) >= 1
  {
    assert q != [] ==> Times(q, q[0].id) >= 1;
  }

  // n entries with no id twice and none at or above n leave no id out.
  lemma CoverMissing(q: seq<Job>, n: nat, id: nat)
    requires forall k: nat :: Times(q, k) <= if k < n then 1 else 0
    requires id < n && Times(q, id) == 0
    ensures |q| < n
  {
    AtMostOnce(q, n);
    var r := q + [Job(id, false, false, 0)];
    forall k: nat ensures Times(r, k) <= if k < n then 1 else 0 {
      QueueAppend(q, Job(id, false, false, 0), k);
    }
    AtMostOnce(r, n);
  }

  lemma {:induction false} AtMostOnce(q: seq<Job>, n: nat)
    requires forall k: nat :: Times(q, k) <= if k < n then 1 else 0
    ensures |q| <= n
  {
    if n == 0 {
      FirstCounts(q);
    } else if Times(q, n - 1) >= 1 {
      var i := TimesWitness(q, n - 1);
      var r := q[..i] + q[i + 1..];
      forall k: nat ensures Times(r, k) <= if k < n - 1 then 1 else 0 {
        TimesRemove(q, i, k);
      }
      AtMostOnce(r, n - 1);
    } else {
      AtMostOnce(q, n - 1);
    }
  }

  // Without an interrupt, the runner returns 0 exactly when every job that is not skipped returns 0.
  lemma ExitCodeMeaning(c: Config, s: State)
    requires Inv(c, s) && Final(c, s) && !s.threadExit
    ensures ExitCode(c, s) == 0 <==> forall id: nat :: id < c.Jobs() ==> c.skips[id] || c.results[id] == 0
  {
    hide WorkerOk, QueueOk, Conserved;
    FinalAccount(c, s);
    if ExitCode(c, s) == 0 {
      forall id: nat | id < c.Jobs() ensures c.skips[id] || c.results[id] == 0 {
        assert Times(s.collected, id) == 1;
        var i := TimesWitness(s.collected, id);
        assert Done(c, s.threadExit, s.collected[i]) && Good(s.collected[i]);
      }
    }
    if forall id: nat :: id < c.Jobs() ==> c.skips[id] || c.results[id] == 0 {
      forall i | 0 <= i < |s.collected| ensures Good(s.collected[i]) {
        assert Done(c, s.threadExit, s.collected[i]);
      }
    }
  }

  // Every run that has gone as far as it can has finished, with every job collected exactly once.
  lemma RunFinishes(c: Config, states: seq<State>, actions: seq<Action>)
    requires Run(c, states, actions) && (c.processors > 0 || c.Jobs() == 0)
    requires forall a :: Enabled(c, states[|actions|], a) ==> a == Interrupt
    ensures Final(c, states[|actions|])
    ensures forall id: nat :: Times(states[|actions|].collected, id) == if id < c.Jobs() then 1 else 0
  {
    hide Inv, Enabled, Final;
    RunInv(c, states, actions, |actions|);
    NeverStuck(c, states[|actions|]);
    FinalAccount(c, states[|actions|]);
  }

  // ---- the counters are determined by the jobs ----

  datatype Outcome = HandedBack | Skip | Pass | Fail | Valgrind | Crash

  // How test.py reads one result.
  function OutcomeOf(isBreak: bool, isSkip: bool, returncode: int): Outcome {
    if isBreak then HandedBack
    else if isSkip then Skip
    else match returncode
         case 0 => Pass
         case 1 => Fail
         case 2 => Valgrind
         case _ => Crash
  }

  ghost function Count(q: seq<Job>, o: Outcome): nat {
    if q == [] then 0
    else Count(q[1..], o) + if OutcomeOf(q[0].isBreak, q[0].isSkip, q[0].returncode) == o then 1 else 0
  }

  // How many of the first n jobs have outcome o when they are run or skipped as configured.
  ghost function Expected(c: Config, n: nat, o: Outcome): nat
    requires c.Valid() && n <= c.Jobs()
  {
    if n == 0 then 0
    else Expected(c, n - 1, o) + if OutcomeOf(false, c.skips[n - 1], c.results[n - 1]) == o then 1 else 0
  }

  lemma {:induction false} CountRemove(q: seq<Job>, i: nat, o: Outcome)
    requires i < |q|
    ensures Count(q, o) ==
            Count(q[..i] + q[i + 1..], o) + if OutcomeOf(q[i].isBreak, q[i].isSkip, q[i].returncode) == o then 1 else 0
  {
    var r := q[..i] + q[i + 1..];
    if i == 0 {
      assert r == q[1..];
    } else {
      assert r[1..] == q[1..][..i - 1] + q[1..][i..] && r[0] == q[0];
      CountRemove(q[1..], i - 1, o);
    }
  }

  lemma {:induction false} TallyCounts(q: seq<Job>)
    ensures var n := TallyAll(q);
            && n.skipped == Count(q, Skip) && n.passed == Count(q, Pass) && n.failed == Count(q, Fail)
            && n.valgrind == Count(q, Valgrind) && n.crashed == Count(q, Crash)
  {
    if q != [] {
      var k := |q| - 1;
      assert q[..k] + q[k + 1..] == q[..k];
      TallyCounts(q[..k]);
      forall o
        ensures Count(q, o) ==
                Count(q[..k], o) + if OutcomeOf(q[k].isBreak, q[k].isSkip, q[k].returncode) == o then 1 else 0
      {
        CountRemove(q, k, o);
      }
    }
  }

  // A list with each of the first n jobs once, all of them run or skipped, has the expected outcomes.
  lemma {:induction false} CountsExpected(c: Config, q: seq<Job>, n: nat, o: Outcome)
    requires c.Valid() && n <= c.Jobs() && ResultsOk(c, false, q)
    requires forall id: nat :: Times(q, id) == if id < n then 1 else 0
    ensures Count(q, o) == Expected(c, n, o)
  {
    if n == 0 {
      FirstCounts(q);
    } else {
      assert Times(q, n - 1) == 1;
      var i := TimesWitness(q, n - 1);
      var r := q[..i] + q[i + 1..];
      forall id: nat ensures Times(r, id) == if id < n - 1 then 1 else 0 {
        TimesRemove(q, i, id);
        assert Times(q, id) == if id < n then 1 else 0;
      }
      assert ResultsOk(c, false, r) by {
        assert forall k :: 0 <= k < |r| ==> r[k] == q[if k < i then k else k + 1];
      }
      CountsExpected(c, r, n - 1, o);
      CountRemove(q, i, o);
      assert Done(c, false, q[i]);
      SameOutcome(c, q[i]);
    }
  }

  lemma SameOutcome(c: Config, job: Job)
    requires Done(c, false, job)
    ensures OutcomeOf(job.isBreak, job.isSkip, job.returncode) == OutcomeOf(false, c.skips[job.id], c.results[job.id])
  {
  }

  // Without an interrupt the five counters depend on the jobs alone, not on the interleaving.
  lemma CountsDetermined(c: Config, s: State)
    requires Inv(c, s) && Final(c, s) && !s.threadExit
    ensures s.counts.skipped == Expected(c, c.Jobs(), Skip) && s.counts.passed == Expected(c, c.Jobs(), Pass)
    ensures s.counts.failed == Expected(c, c.Jobs(), Fail) && s.counts.valgrind == Expected(c, c.Jobs(), Valgrind)
    ensures s.counts.crashed == Expected(c, c.Jobs(), Crash)
  {
    hide WorkerOk, QueueOk, Conserved, Done, OutcomeOf, Tally;
    FinalAccount(c, s);
    TallyCounts(s.collected);
    forall o ensures Count(s.collected, o) == Expected(c, c.Jobs(), o) {
      CountsExpected(c, s.collected, c.Jobs(), o);
    }
  }

  // ---- the counters as numbers of jobs ----

  // The jobs among the first n that are run and return code r.
  ghost function Returning(c: Config, n: nat, r: int): set<nat>
    requires c.Valid() && n <= c.Jobs()
  {
    set id: nat | id < n && !c.skips[id] && c.results[id] == r
  }

  lemma {:induction false} ExpectedReturning(c: Config, n: nat, r: int, o: Outcome)
    requires c.Valid() && n <= c.Jobs() && 0 <= r <= 2
    requires o == if r == 0 then Pass else if r == 1 then Fail else Valgrind
    ensures Expected(c, n, o) == |Returning(c, n, r)|
  {
    if n > 0 {
      ExpectedReturning(c, n - 1, r, o);
      var was, now := Returning(c, n - 1, r), Returning(c, n, r);
      if !c.skips[n - 1] && c.results[n - 1] == r {
        assert now == was + {n - 1};
      } else {
        assert now == was;
      }
    } else {
      assert Returning(c, 0, r) == {};
    }
  }

  ghost function SkippedBelow(c: Config, n: nat): set<nat>
    requires n <= c.Jobs()
  {
    set id: nat | id < n && c.skips[id]
  }

  lemma {:induction false} ExpectedSkipped(c: Config, n: nat)
    requires c.Valid() && n <= c.Jobs()
    ensures Expected(c, n, Skip) == |SkippedBelow(c, n)|
  {
    if n > 0 {
      ExpectedSkipped(c, n - 1);
      var was, now := SkippedBelow(c, n - 1), SkippedBelow(c, n);
      if c.skips[n - 1] {
        assert now == was + {n - 1};
      } else {
        assert now == was;
      }
    } else {
      assert SkippedBelow(c, 0) == {};
    }
  }

  // Without an interrupt: passed are the jobs that return 0, failed those that return 1, with
  // valgrind errors those that return 2; skipped jobs are counted apart, and all others crashed.
  lemma CountersMean(c: Config, s: State)
    requires Inv(c, s) && Final(c, s) && !s.threadExit
    ensures s.counts.passed == |set id: nat | id < c.Jobs() && !c.skips[id] && c.results[id] == 0|
    ensures s.counts.failed == |set id: nat | id < c.Jobs() && !c.skips[id] && c.results[id] == 1|
    ensures s.counts.valgrind == |set id: nat | id < c.Jobs() && !c.skips[id] && c.results[id] == 2|
    ensures s.counts.skipped == |set id: nat | id < c.Jobs() && c.skips[id]|
    ensures s.counts.passed + s.counts.failed + s.counts.valgrind + s.counts.skipped + s.counts.crashed == c.Jobs()
  {
    hide Inv, Final, Expected;
    var n := c.Jobs();
    Uninterrupted(c, s);
    CountsDetermined(c, s);
    ExpectedReturning(c, n, 0, Pass);
    ExpectedReturning(c, n, 1, Fail);
    ExpectedReturning(c, n, 2, Valgrind);
    ExpectedSkipped(c, n);
  }

  lemma Uninterrupted(c: Config, s: State)
    requires Inv(c, s) && Final(c, s) && !s.threadExit
    ensures c.Valid()
    ensures s.counts.passed + s.counts.failed + s.counts.valgrind + s.counts.skipped + s.counts.crashed == c.Jobs()
  {
    hide WorkerOk, QueueOk, Conserved;
    FinalAccount(c, s);
    NoneInterrupted(c, s.collected);
  }

  lemma {:induction false} NoneInterrupted(c: Config, q: seq<Job>)
    requires ResultsOk(c, false, q)
    ensures Interrupted(q) == 0
  {
    if q != [] {
      var k := |q| - 1;
      assert Done(c, false, q[k]);
      NoneInterrupted(c, q[..k]);
    }
  }
}
