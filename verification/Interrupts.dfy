/** Runs of the pool of WorkerPool: both queues are first in, first out, and an interrupt stops all
    work that has not begun while it loses none of what has. */
module Interrupts {
  import opened WorkerPool

  lemma RunStep(c: Config, states: seq<State>, actions: seq<Action>, i: nat)
    requires Run(c, states, actions) && i < |actions|
    ensures Enabled(c, states[i], actions[i]) && states[i + 1] == Step(c, states[i], actions[i])
  {
  }

  // ---- what becomes of one job once the interrupt has come ----

  // Handed back unrun; run, with its return code; or already a result.
  datatype Fate = Unrun | Completed | Result(job: Job)

  ghost predicate Fits(c: Config, fate: Fate, job: Job) {
    match fate
    case Unrun => job.isBreak
    case Completed => !job.isBreak && job.id < |c.results| && job.returncode == c.results[job.id]
    case Result(r) => job == r
  }

  // Nothing in the pool contradicts that job id meets this fate.
  ghost predicate Fated(c: Config, s: State, id: nat, fate: Fate) {
    && (forall w :: 0 <= w < |s.workers| ==> WorkerFits(c, s.workers[w], id, fate))
    && ResultsFit(c, s.outputQueue, id, fate) && ResultsFit(c, s.collected, id, fate)
    && (fate.Unrun? || (id < s.dispatched && NotWaiting(s.inputQueue, id)))
  }

  ghost predicate WorkerFits(c: Config, worker: Worker, id: nat, fate: Fate) {
    match worker
    case Got(job) => job.id == id ==> fate.Unrun?
    case Running(job) => job.id == id ==> fate.Completed? && !job.isBreak
    case Reporting(job) => job.id == id ==> Fits(c, fate, job)
    case _ => true
  }

  ghost predicate ResultsFit(c: Config, q: seq<Job>, id: nat, fate: Fate) {
    forall k :: 0 <= k < |q| && q[k].id == id ==> Fits(c, fate, q[k])
  }

  ghost predicate NotWaiting(q: seq<Job>, id: nat) {
    forall k :: 0 <= k < |q| && !q[k].isBreak ==> q[k].id != id
  }

  // No step after the interrupt changes a fate.
  lemma FateKept(c: Config, s: State, a: Action, id: nat, fate: Fate)
    requires Fated(c, s, id, fate) && s.threadExit && Enabled(c, s, a)
    ensures Fated(c, Step(c, s, a), id, fate) && Step(c, s, a).threadExit
  {
    hide Fits;
    match a
    case Take(w) => TakeKeeps(c, s, w, id, fate);
    case Check(w) => CheckKeeps(c, s, w, id, fate);
    case Finish(w) => FinishKeeps(c, s, w, id, fate);
    case Report(w) => assert WorkerFits(c, s.workers[w], id, fate);
    case _ =>
  }

  lemma TakeKeeps(c: Config, s: State, w: nat, id: nat, fate: Fate)
    requires Fated(c, s, id, fate) && Enabled(c, s, Take(w))
    ensures Fated(c, Step(c, s, Take(w)), id, fate)
  {
    hide Fits;
    var q := s.inputQueue;
    assert NotWaiting(q, id) ==> q[0].isBreak || q[0].id != id;
    assert forall k :: 0 <= k < |q| - 1 ==> q[1..][k] == q[k + 1];
  }

  lemma CheckKeeps(c: Config, s: State, w: nat, id: nat, fate: Fate)
    requires Fated(c, s, id, fate) && s.threadExit && Enabled(c, s, Check(w))
    ensures Fated(c, Step(c, s, Check(w)), id, fate)
  {
    assert WorkerFits(c, s.workers[w], id, fate);
  }

  lemma FinishKeeps(c: Config, s: State, w: nat, id: nat, fate: Fate)
    requires Fated(c, s, id, fate) && Enabled(c, s, Finish(w))
    ensures Fated(c, Step(c, s, Finish(w)), id, fate)
  {
    assert WorkerFits(c, s.workers[w], id, fate);
  }

  lemma {:induction false} FateHolds(c: Config, states: seq<State>, actions: seq<Action>, i: nat, j: nat, id: nat,
                                     fate: Fate)
    requires Run(c, states, actions) && i <= j < |states| && states[i].threadExit && Fated(c, states[i], id, fate)
    ensures Fated(c, states[j], id, fate) && states[j].threadExit
    decreases j
  {
    if i < j {
      hide Fated, Step, Enabled;
      FateHolds(c, states, actions, i, j - 1, id, fate);
      RunStep(c, states, actions, j - 1);
      FateKept(c, states[j - 1], actions[j - 1], id, fate);
    }
  }

  // ---- which fate a job meets ----

  // Not yet dispatched, waiting in the input queue, or taken but not begun.
  ghost predicate NotBegun(s: State, id: nat) {
    || id >= s.dispatched
    || (exists k :: 0 <= k < |s.inputQueue| && !s.inputQueue[k].isBreak && s.inputQueue[k].id == id)
    || (exists w :: 0 <= w < |s.workers| && s.workers[w].Got? && s.workers[w].job.id == id)
  }

  ghost predicate IsRunning(s: State, id: nat) {
    exists w :: 0 <= w < |s.workers| && s.workers[w].Running? && s.workers[w].job.id == id
  }

  ghost predicate HasResult(s: State, job: Job) {
    || (exists w :: 0 <= w < |s.workers| && s.workers[w] == Reporting(job))
    || job in s.outputQueue || job in s.collected
  }

  // Each dispatched job is in one place, so one of these holds and excludes the others.
  lemma {:induction false} HeldAt(ws: seq<Worker>, w: nat, id: nat)
    requires w < |ws|
    ensures HeldBy(ws[w], id) <= Held(ws, id)
    ensures forall v :: 0 <= v < |ws| && v != w ==> HeldBy(ws[w], id) + HeldBy(ws[v], id) <= Held(ws, id)
  {
    if w > 0 {
      HeldAt(ws[1..], w - 1, id);
      forall v | 0 <= v < |ws| && v != w ensures HeldBy(ws[w], id) + HeldBy(ws[v], id) <= Held(ws, id) {
        if v > 0 {
          assert ws[1..][v - 1] == ws[v];
        }
      }
    } else {
      forall v | 0 < v < |ws| ensures HeldBy(ws[0], id) + HeldBy(ws[v], id) <= Held(ws, id) {
        HeldSome(ws[1..], v - 1, id);
      }
    }
  }

  lemma {:induction false} HeldSome(ws: seq<Worker>, w: nat, id: nat)
    requires w < |ws|
    ensures HeldBy(ws[w], id) <= Held(ws, id)
  {
    if w > 0 {
      HeldSome(ws[1..], w - 1, id);
    }
  }

  lemma {:induction false} WaitsSome(q: seq<Job>, id: nat)
    ensures Waits(q, id) == 0 <==> NotWaiting(q, id)
  {
    if q != [] {
      WaitsSome(q[1..], id);
      assert forall k :: 0 < k < |q| ==> q[k] == q[1..][k - 1];
    }
  }

  lemma {:induction false} TimesSome(q: seq<Job>, id: nat)
    ensures Times(q, id) == 0 <==> forall k :: 0 <= k < |q| ==> q[k].id != id
    ensures Times(q, id) <= 1 ==> forall k, l :: 0 <= k < l < |q| ==> q[k].id != id || q[l].id != id
  {
    if q != [] {
      TimesSome(q[1..], id);
      assert forall k :: 0 < k < |q| ==> q[k] == q[1..][k - 1];
    }
  }

  lemma OnePlace(c: Config, s: State, id: nat)
    requires Inv(c, s)
    ensures Waits(s.inputQueue, id) + Held(s.workers, id) + Times(s.outputQueue, id) + Times(s.collected, id)
            == if id < s.dispatched then 1 else 0
  {
    hide QueueOk, WorkerOk, ResultsOk, Progress;
    assert Copies(s, id) == if id < s.dispatched then 1 else 0;
  }

  lemma NotBegunFated(c: Config, s: State, id: nat)
    requires Inv(c, s) && NotBegun(s, id)
    ensures Fated(c, s, id, Unrun)
  {
    hide Inv;
    OnePlace(c, s, id);
    WaitsSome(s.inputQueue, id);
    TimesSome(s.outputQueue, id);
    TimesSome(s.collected, id);
    if w :| 0 <= w < |s.workers| && s.workers[w].Got? && s.workers[w].job.id == id {
      HeldAt(s.workers, w, id);
    } else {
      forall w | 0 <= w < |s.workers| ensures HeldBy(s.workers[w], id) == 0 {
        HeldAt(s.workers, w, id);
      }
    }
  }

  lemma RunningFated(c: Config, s: State, id: nat)
    requires Inv(c, s) && IsRunning(s, id)
    ensures Fated(c, s, id, Completed) && !NotBegun(s, id) && id < s.dispatched
  {
    hide QueueOk, ResultsOk, Conserved, Progress;
    OnePlace(c, s, id);
    WaitsSome(s.inputQueue, id);
    TimesSome(s.outputQueue, id);
    TimesSome(s.collected, id);
    var w :| 0 <= w < |s.workers| && s.workers[w].Running? && s.workers[w].job.id == id;
    assert WorkerOk(c, s.threadExit, s.workers[w]);
    HeldAt(s.workers, w, id);
  }

  lemma ResultFated(c: Config, s: State, job: Job)
    requires Inv(c, s) && HasResult(s, job)
    ensures Fated(c, s, job.id, Result(job)) && !NotBegun(s, job.id) && !IsRunning(s, job.id)
  {
    hide Inv;
    var id := job.id;
    OnePlace(c, s, id);
    WaitsSome(s.inputQueue, id);
    TimesSome(s.outputQueue, id);
    TimesSome(s.collected, id);
    if w :| 0 <= w < |s.workers| && s.workers[w] == Reporting(job) {
      HeldAt(s.workers, w, id);
    } else {
      forall w | 0 <= w < |s.workers| ensures HeldBy(s.workers[w], id) == 0 {
        HeldAt(s.workers, w, id);
      }
    }
  }

  // When main has finished, what it has collected for a job is what its fate says.
  lemma FateMet(c: Config, s: State, id: nat, fate: Fate)
    requires Inv(c, s) && Final(c, s) && Fated(c, s, id, fate) && id < c.Jobs()
    ensures exists k :: 0 <= k < |s.collected| && s.collected[k].id == id
    ensures forall k :: 0 <= k < |s.collected| && s.collected[k].id == id ==> Fits(c, fate, s.collected[k])
  {
    hide Inv, Final, Fits;
    FinalAccount(c, s);
    assert Times(s.collected, id) == 1;
    TimesSome(s.collected, id);
  }

  // ---- main results ----

  // After an interrupt no worker begins a job: whatever runs now ran at that worker then.
  lemma {:induction false} NothingBegins(c: Config, states: seq<State>, actions: seq<Action>, i: nat, j: nat, w: nat)
    requires Run(c, states, actions) && i <= j < |states| && states[i].threadExit
    requires w < |states[j].workers| && states[j].workers[w].Running?
    ensures states[j].threadExit && |states[i].workers| == |states[j].workers|
    ensures states[i].workers[w] == states[j].workers[w]
    decreases j
  {
    if i < j {
      hide Step, Enabled, Run;
      RunStep(c, states, actions, j - 1);
      ExitStays(c, states, actions, i, j - 1);
      StepBeginsNothing(c, states[j - 1], actions[j - 1], w);
      NothingBegins(c, states, actions, i, j - 1, w);
    }
  }

  lemma StepBeginsNothing(c: Config, s: State, a: Action, w: nat)
    requires Enabled(c, s, a) && s.threadExit
    ensures var t := Step(c, s, a);
            && |t.workers| == |s.workers|
            && (w < |t.workers| && t.workers[w].Running? ==> s.workers[w] == t.workers[w])
  {
  }

  lemma {:induction false} ExitStays(c: Config, states: seq<State>, actions: seq<Action>, i: nat, j: nat)
    requires Run(c, states, actions) && i <= j < |states| && states[i].threadExit
    ensures states[j].threadExit
    decreases j
  {
    if i < j {
      hide Enabled, Run;
      RunStep(c, states, actions, j - 1);
      ExitStays(c, states, actions, i, j - 1);
    }
  }

  // The interrupt has come by state i. When main has finished, every job that had not begun then
  // has been collected as handed back; every job that was running, with its own return code; and
  // every result that was there, as it was.
  lemma InterruptAccount(c: Config, states: seq<State>, actions: seq<Action>, i: nat, j: nat, id: nat)
    requires Run(c, states, actions) && i <= j < |states| && states[i].threadExit
    requires Final(c, states[j]) && id < c.Jobs()
    ensures exists k :: 0 <= k < |states[j].collected| && states[j].collected[k].id == id
    ensures || NotBegun(states[i], id) || IsRunning(states[i], id)
            || exists job :: HasResult(states[i], job) && job.id == id
    ensures forall k :: 0 <= k < |states[j].collected| && states[j].collected[k].id == id ==>
              var job := states[j].collected[k];
              && (NotBegun(states[i], id) ==> job.isBreak)
              && (IsRunning(states[i], id) ==> !job.isBreak && id < |c.results| && job.returncode == c.results[id])
              && (forall was :: HasResult(states[i], was) && was.id == id ==> job == was)
  {
    hide Run, Inv, Final, Fated, NotBegun, IsRunning, HasResult;
    RunInv(c, states, actions, i);
    RunInv(c, states, actions, j);
    SomeFate(c, states[i], id);
    if NotBegun(states[i], id) {
      NotBegunFated(c, states[i], id);
      FateHolds(c, states, actions, i, j, id, Unrun);
      FateMet(c, states[j], id, Unrun);
    }
    if IsRunning(states[i], id) {
      RunningFated(c, states[i], id);
      FateHolds(c, states, actions, i, j, id, Completed);
      FateMet(c, states[j], id, Completed);
    }
    forall was | HasResult(states[i], was) && was.id == id
      ensures exists k :: 0 <= k < |states[j].collected| && states[j].collected[k].id == id
      ensures forall k :: 0 <= k < |states[j].collected| && states[j].collected[k].id == id ==>
                states[j].collected[k] == was
    {
      ResultFated(c, states[i], was);
      FateHolds(c, states, actions, i, j, id, Result(was));
      FateMet(c, states[j], id, Result(was));
    }
  }

  lemma SomeFate(c: Config, s: State, id: nat)
    requires Inv(c, s)
    ensures NotBegun(s, id) || IsRunning(s, id) || exists job :: HasResult(s, job) && job.id == id
  {
    hide Inv;
    OnePlace(c, s, id);
    WaitsSome(s.inputQueue, id);
    TimesSome(s.outputQueue, id);
    TimesSome(s.collected, id);
    if Held(s.workers, id) > 0 {
      var w := HeldWitness(s.workers, id);
      assert s.workers[w].Reporting? ==> HasResult(s, s.workers[w].job);
    } else if k :| 0 <= k < |s.outputQueue| && s.outputQueue[k].id == id {
      assert HasResult(s, s.outputQueue[k]);
    } else if k :| 0 <= k < |s.collected| && s.collected[k].id == id {
      assert HasResult(s, s.collected[k]);
    }
  }

  // ---- the queues are first in, first out ----

  // What the workers have taken from the input queue in the first i steps.
  ghost function Taken(states: seq<State>, actions: seq<Action>, i: nat): seq<Job>
    requires i < |states| == |actions| + 1
  {
    if i == 0 then []
    else
      Taken(states, actions, i - 1) +
      match actions[i - 1]
      case Take(w) =>
        if w < |states[i].workers| && states[i].workers[w].Got? then [states[i].workers[w].job] else [PILL]
      case _ => []
  }

  // What they have put into the output queue.
  ghost function Reported(states: seq<State>, actions: seq<Action>, i: nat): seq<Job>
    requires i < |states| == |actions| + 1
  {
    if i == 0 then []
    else
      Reported(states, actions, i - 1) +
      match actions[i - 1]
      case Report(w) =>
        var worker := if w < |states[i - 1].workers| then states[i - 1].workers[w] else Waiting;
        if worker.Reporting? then [worker.job] else []
      case _ => []
  }

  // All jobs in order, then the pills.
  ghost predicate JobsThenPills(c: Config, q: seq<Job>, jobs: nat, pills: nat) {
    && |q| == jobs + pills && jobs <= c.Jobs()
    && (forall k :: 0 <= k < jobs ==> q[k] == Job(k, false, c.skips[k], 0))
    && (forall k :: jobs <= k < |q| ==> q[k] == Job(0, true, false, 0))
  }

  // The jobs reach the workers in the order of their dispatch, and the results main in the order
  // in which they were reported, in every interleaving.
  lemma {:induction false} FirstInFirstOut(c: Config, states: seq<State>, actions: seq<Action>, i: nat)
    requires Run(c, states, actions) && i < |states|
    ensures JobsThenPills(c, Taken(states, actions, i) + states[i].inputQueue, states[i].dispatched, states[i].pills)
    ensures states[i].collected + states[i].outputQueue == Reported(states, actions, i)
  {
    hide Inv, JobsThenPills, Taken, Reported, Enabled, Step;
    if i == 0 {
      NothingYet(c, states, actions);
    } else {
      FirstInFirstOut(c, states, actions, i - 1);
      RunStep(c, states, actions, i - 1);
      RunInv(c, states, actions, i - 1);
      InputInOrder(c, states, actions, i);
      OutputInOrder(c, states, actions, i);
    }
  }

  lemma NothingYet(c: Config, states: seq<State>, actions: seq<Action>)
    requires Run(c, states, actions)
    ensures JobsThenPills(c, Taken(states, actions, 0) + states[0].inputQueue, states[0].dispatched, states[0].pills)
    ensures states[0].collected + states[0].outputQueue == Reported(states, actions, 0)
  {
  }

  lemma InputInOrder(c: Config, states: seq<State>, actions: seq<Action>, i: nat)
    requires 0 < i < |states| == |actions| + 1 && Inv(c, states[i - 1])
    requires Enabled(c, states[i - 1], actions[i - 1]) && states[i] == Step(c, states[i - 1], actions[i - 1])
    requires JobsThenPills(c, Taken(states, actions, i - 1) + states[i - 1].inputQueue, states[i - 1].dispatched,
                           states[i - 1].pills)
    ensures JobsThenPills(c, Taken(states, actions, i) + states[i].inputQueue, states[i].dispatched, states[i].pills)
  {
    hide Inv, JobsThenPills, Taken;
    var s, t, a := states[i - 1], states[i], actions[i - 1];
    var was, now := Taken(states, actions, i - 1), Taken(states, actions, i);
    TakenStep(states, actions, i);
    if a.Take? {
      PillsAlike(c, s, was, a.w);
      assert now + t.inputQueue == was + ([s.inputQueue[0]] + s.inputQueue[1..]);
      assert [s.inputQueue[0]] + s.inputQueue[1..] == s.inputQueue;
    } else if a.Dispatch? {
      NoPillYet(c, s);
      DispatchInOrder(c, was + s.inputQueue, s);
      assert now + t.inputQueue == was + s.inputQueue + [c.Fresh(s.dispatched)];
    } else if a.Pill? {
      PillInOrder(c, was + s.inputQueue, s);
      assert now + t.inputQueue == was + s.inputQueue + [PILL];
    } else {
      assert now == was;
    }
  }

  lemma TakenStep(states: seq<State>, actions: seq<Action>, i: nat)
    requires 0 < i < |states| == |actions| + 1
    ensures Taken(states, actions, i) ==
            Taken(states, actions, i - 1) +
            match actions[i - 1]
            case Take(w) =>
              if w < |states[i].workers| && states[i].workers[w].Got? then [states[i].workers[w].job] else [PILL]
            case _ => []
  {
  }

  // Whatever breaks off a worker is a pill.
  lemma PillsAlike(c: Config, s: State, taken: seq<Job>, w: nat)
    requires JobsThenPills(c, taken + s.inputQueue, s.dispatched, s.pills) && Enabled(c, s, Take(w))
    ensures var worker := Step(c, s, Take(w)).workers[w];
            s.inputQueue[0] == if worker.Got? then worker.job else PILL
  {
    assert (taken + s.inputQueue)[|taken|] == s.inputQueue[0];
  }

  lemma DispatchInOrder(c: Config, q: seq<Job>, s: State)
    requires JobsThenPills(c, q, s.dispatched, s.pills) && s.dispatched < c.Jobs() && s.pills == 0
    ensures JobsThenPills(c, q + [c.Fresh(s.dispatched)], s.dispatched + 1, s.pills)
  {
  }

  lemma NoPillYet(c: Config, s: State)
    requires Inv(c, s) && s.dispatched < c.Jobs()
    ensures s.pills == 0
  {
  }

  lemma PillInOrder(c: Config, q: seq<Job>, s: State)
    requires JobsThenPills(c, q, s.dispatched, s.pills)
    ensures JobsThenPills(c, q + [PILL], s.dispatched, s.pills + 1)
  {
  }

  lemma OutputInOrder(c: Config, states: seq<State>, actions: seq<Action>, i: nat)
    requires 0 < i < |states| == |actions| + 1
    requires Enabled(c, states[i - 1], actions[i - 1]) && states[i] == Step(c, states[i - 1], actions[i - 1])
    requires states[i - 1].collected + states[i - 1].outputQueue == Reported(states, actions, i - 1)
    ensures states[i].collected + states[i].outputQueue == Reported(states, actions, i)
  {
    var s, t, a := states[i - 1], states[i], actions[i - 1];
    if a.Collect? {
      assert t.collected + t.outputQueue == s.collected + ([s.outputQueue[0]] + s.outputQueue[1..]);
    } else if a.Report? {
      assert t.collected + t.outputQueue == s.collected + s.outputQueue + [s.workers[a.w].job];
    }
  }
}
