// The pool gets its work done: without new calls and spurious wakeups every run is short, and the
// state it has to end in has every job processed.
module PoolProgress {
  import opened Options
  import opened Pool

  function Sum<T>(xs: seq<T>, weight: T -> nat): nat {
    if xs == [] then 0 else weight(xs[0]) + Sum(xs[1..], weight)
  }

  lemma {:induction false} SumUpdate<T>(xs: seq<T>, weight: T -> nat, i: nat, x: T)
    requires i < |xs|
    ensures Sum(xs[i := x], weight) + weight(xs[i]) == Sum(xs, weight) + weight(x)
  {
    if i == 0 {
      assert xs[0 := x][1..] == xs[1..];
    } else {
      assert xs[i := x][1..] == xs[1..][i - 1 := x];
      SumUpdate(xs[1..], weight, i - 1, x);
    }
  }

  // How many steps a thread has still to take, its share of others' steps included: a queued job
  // is worth the eight steps of the worker that takes it, a signal the two of the worker it wakes.
  function ProducerWeight(p: Producer): nat {
    match p
    case PIdle => 0
    case PWant(_) => 14
    case PLocked(_) => 13
    case PPushed => 4
    case PSignal => 3
  }

  function WorkerWeight(w: Worker): nat {
    match w
    case WBlocked => 0
    case WCheck => 1
    case WStart => 2
    case WWoken => 2
    case WWrote => 3
    case WEnqueued => 4
    case WPushing(_) => 5
    case WDone(_) => 6
    case WHolding(_) => 7
    case WTook(_) => 8
  }

  function ReaderWeight(r: Reader): nat {
    match r
    case RIdle => 0
    case RFailed => 0
    case RTook(_) => 1
    case RLocked => 2
    case RGotByte => 3
    case RReading => 4
  }

  function Energy(s: State): nat {
    Sum(s.producers, ProducerWeight) + Sum(s.workers, WorkerWeight) + Sum(s.readers, ReaderWeight) + 8 * |s.jobs|
  }

  // A step of a thread inside push, pop or the worker loop: no new call, no spurious wakeup.
  predicate Inner(step: Step) {
    step.Produce? || step.Work? || step.Read?
  }

  lemma {:induction false} ProduceCosts(s: State, i: nat, w: nat)
    requires Apply(s, Produce(i, w)).Some?
    ensures Energy(Apply(s, Produce(i, w)).value) < Energy(s)
  {
    hide Sum;
    var t := Apply(s, Produce(i, w)).value;
    SumUpdate(s.producers, ProducerWeight, i, t.producers[i]);
    if w < |s.workers| {
      SumUpdate(s.workers, WorkerWeight, w, t.workers[w]);
    }
  }

  lemma {:induction false} WorkCosts(s: State, w: nat)
    requires Apply(s, Work(w)).Some?
    ensures Energy(Apply(s, Work(w)).value) < Energy(s)
  {
    hide Sum;
    SumUpdate(s.workers, WorkerWeight, w, Apply(s, Work(w)).value.workers[w]);
  }

  lemma {:induction false} ReadCosts(s: State, r: nat)
    requires Apply(s, Read(r)).Some?
    ensures Energy(Apply(s, Read(r)).value) < Energy(s)
  {
    hide Sum;
    SumUpdate(s.readers, ReaderWeight, r, Apply(s, Read(r)).value.readers[r]);
  }

  lemma {:induction false} StepCosts(s: State, step: Step)
    requires Inner(step) && Apply(s, step).Some?
    ensures Energy(Apply(s, step).value) < Energy(s)
  {
    hide Apply, Energy;
    match step
    case Produce(i, w) => ProduceCosts(s, i, w);
    case Work(w) => WorkCosts(s, w);
    case Read(r) => ReadCosts(s, r);
  }

  // Main result: no run of such steps is longer than the energy it starts with.
  lemma {:induction false} RunsAreShort(s: State, steps: seq<Step>)
    requires (forall i | 0 <= i < |steps| :: Inner(steps[i])) && Run(s, steps).Some?
    ensures |steps| + Energy(Run(s, steps).value) <= Energy(s)
    decreases |steps|
  {
    hide Apply, Energy;
    if steps != [] {
      StepCosts(s, steps[0]);
      RunsAreShort(Apply(s, steps[0]).value, steps[1..]);
    }
  }

  // A thread that can move, in any state that is not stuck.
  lemma {:induction false} Mover(s: State) returns (step: Step)
    requires !Stuck(s)
    ensures Inner(step) && Apply(s, step).Some?
  {
    hide Produced, Worked, Taken;
    if i, w: nat :| 0 <= i < |s.producers| && Produced(s, i, s.producers[i], w) != None {
      step := Produce(i, w);
    } else if w :| 0 <= w < |s.workers| && Worked(s, w, s.workers[w]) != None {
      step := Work(w);
    } else {
      var r :| 0 <= r < |s.readers| && Taken(s, r, s.readers[r]) != None;
      step := Read(r);
    }
  }

  lemma {:induction false} RunSnoc(s: State, steps: seq<Step>, step: Step)
    requires Run(s, steps).Some?
    ensures Run(s, steps + [step]) == Apply(Run(s, steps).value, step)
    decreases |steps|
  {
    hide Apply;
    if steps == [] {
      assert [] + [step] == [step] && [step][1..] == [];
      if Apply(s, step).Some? {
        assert Run(Apply(s, step).value, []) == Apply(s, step);
      }
    } else {
      assert (steps + [step])[1..] == steps[1..] + [step];
      RunSnoc(Apply(s, steps[0]).value, steps[1..], step);
    }
  }

  lemma {:induction false} InnerKeepsIds(s: State, step: Step)
    requires Inner(step) && Apply(s, step).Some?
    ensures Apply(s, step).value.nextId == s.nextId
  {
  }

  // Every job whose push was called is processed, exactly once, when nothing can move any more.
  lemma {:induction false} StuckIsDone(producers: nat, workers: nat, readers: nat, steps: seq<Step>, s: State, k: nat)
    requires workers > 0 && Reached(producers, workers, readers, steps, s) && Stuck(s)
    ensures Count(s.finished, IsJob(k)) == if k < s.nextId then 1 else 0
  {
    hide Count, Reached, RunOnce;
    StopsOnlyWhenDone(producers, workers, readers, steps, s);
    ReachedInv(producers, workers, readers, steps, s);
    StuckLocksFree(s);
    StuckAllWait(s);
    CountNone(s.producers, Pending(k));
    assert NumberOf(s, k);
  }

  // Main result: from every reachable state the threads can finish, within its energy, and however
  // they move they have finished when they stop: every job whose push was called has been
  // processed once.
  lemma {:induction false} AllGetsDone(producers: nat, workers: nat, readers: nat, steps: seq<Step>, s: State)
    returns (more: seq<Step>, t: State)
    requires workers > 0 && Reached(producers, workers, readers, steps, s)
    ensures |more| <= Energy(s) && forall i | 0 <= i < |more| :: Inner(more[i])
    ensures Reached(producers, workers, readers, steps + more, t) && Stuck(t)
    ensures forall k: nat :: Count(t.finished, IsJob(k)) == if k < s.nextId then 1 else 0
    decreases Energy(s)
  {
    hide Apply, Energy, Stuck, Count, Run;
    if Stuck(s) {
      more, t := [], s;
      assert steps + more == steps;
      forall k: nat ensures Count(t.finished, IsJob(k)) == if k < s.nextId then 1 else 0 {
        StuckIsDone(producers, workers, readers, steps, s, k);
      }
    } else {
      var step := Mover(s);
      var next := Apply(s, step).value;
      StepCosts(s, step);
      InnerKeepsIds(s, step);
      RunSnoc(Init(producers, workers, readers), steps, step);
      var rest;
      rest, t := AllGetsDone(producers, workers, readers, steps + [step], next);
      more := [step] + rest;
      assert steps + more == steps + [step] + rest;
    }
  }
}
