// WorkerPool over Queue and SelectableQueue of util/thread.h: any number of producers, workers and
// readers, each a program counter, stepping in any order.
module Pool {
  import opened Options

  // A job carries the number of its push and how often proc ran on it.
  datatype Job = Job(id: nat, runs: nat)

  // Queue::push: lock, enqueue, unlock, signal.
  datatype Producer = PIdle | PWant(job: Job) | PLocked(job: Job) | PPushed | PSignal

  // _run_worker: Queue::pop (lock, test, wait or take, unlock), proc, SelectableQueue::push (lock,
  // enqueue, write a byte, unlock).
  datatype Worker =
    | WStart | WCheck | WBlocked | WWoken | WTook(job: Job)
    | WHolding(job: Job) | WDone(job: Job) | WPushing(job: Job) | WEnqueued | WWrote

  // SelectableQueue::pop: read a byte, lock, take, unlock; RFailed is the "items empty" branch.
  datatype Reader = RIdle | RReading | RGotByte | RLocked | RTook(job: Job) | RFailed

  datatype Owner = Free | ByProducer(i: nat) | ByWorker(i: nat) | ByReader(i: nat)

  // The shared state, the threads, and the order in which jobs were pushed and taken and results
  // pushed and taken.
  datatype State = State(
    jobs: seq<Job>, jobsLock: Owner,
    results: seq<Job>, resultsLock: Owner, pipe: nat,
    producers: seq<Producer>, workers: seq<Worker>, readers: seq<Reader>,
    nextId: nat, pushed: seq<Job>, taken: seq<Job>, finished: seq<Job>, delivered: seq<Job>)

  datatype Step =
    | Call(i: nat)               // a producer calls push
    | Produce(i: nat, w: nat)    // its next step; w is the worker a signal wakes
    | Wake(w: nat)               // a spurious wakeup
    | Work(w: nat)               // the next step of a worker
    | Ask(r: nat)                // a reader calls pop
    | Read(r: nat)               // its next step

  function Init(producers: nat, workers: nat, readers: nat): State {
    State([], Free, [], Free, 0,
          seq(producers, _ => PIdle), seq(workers, _ => WStart), seq(readers, _ => RIdle),
          0, [], [], [], [])
  }

  predicate SomeBlocked(s: State) {
    exists w | 0 <= w < |s.workers| :: s.workers[w] == WBlocked
  }

  // Producer i is at pc. None: the thread cannot move.
  function Produced(s: State, i: nat, pc: Producer, w: nat): Option<State>
    requires i < |s.producers|
  {
    match pc
    case PIdle => None
    case PWant(job) =>
      if s.jobsLock != Free then None
      else Some(s.(jobsLock := ByProducer(i), producers := s.producers[i := PLocked(job)]))
    case PLocked(job) =>
      Some(s.(jobs := s.jobs + [job], pushed := s.pushed + [job], producers := s.producers[i := PPushed]))
    case PPushed =>
      Some(s.(jobsLock := Free, producers := s.producers[i := PSignal]))
    case PSignal =>
      if !SomeBlocked(s) then Some(s.(producers := s.producers[i := PIdle]))
      else if w < |s.workers| && s.workers[w] == WBlocked then
        Some(s.(producers := s.producers[i := PIdle], workers := s.workers[w := WWoken]))
      else None
  }

  function Worked(s: State, w: nat, pc: Worker): Option<State>
    requires w < |s.workers|
  {
    match pc
    case WStart =>
      if s.jobsLock != Free then None
      else Some(s.(jobsLock := ByWorker(w), workers := s.workers[w := WCheck]))
    case WCheck =>
      if s.jobs == [] then Some(s.(jobsLock := Free, workers := s.workers[w := WBlocked]))
      else
        Some(s.(jobs := s.jobs[1..], taken := s.taken + [s.jobs[0]], workers := s.workers[w := WTook(s.jobs[0])]))
    case WBlocked => None
    case WWoken =>
      if s.jobsLock != Free then None
      else Some(s.(jobsLock := ByWorker(w), workers := s.workers[w := WCheck]))
    case WTook(job) =>
      Some(s.(jobsLock := Free, workers := s.workers[w := WHolding(job)]))
    case WHolding(job) =>
      Some(s.(workers := s.workers[w := WDone(job.(runs := job.runs + 1))]))
    case WDone(job) =>
      if s.resultsLock != Free then None
      else Some(s.(resultsLock := ByWorker(w), workers := s.workers[w := WPushing(job)]))
    case WPushing(job) =>
      Some(s.(results := s.results + [job], finished := s.finished + [job], workers := s.workers[w := WEnqueued]))
    case WEnqueued =>
      Some(s.(pipe := s.pipe + 1, workers := s.workers[w := WWrote]))
    case WWrote =>
      Some(s.(resultsLock := Free, workers := s.workers[w := WStart]))
  }

  function Taken(s: State, r: nat, pc: Reader): Option<State>
    requires r < |s.readers|
  {
    match pc
    case RIdle => None
    case RReading =>
      if s.pipe == 0 then None else Some(s.(pipe := s.pipe - 1, readers := s.readers[r := RGotByte]))
    case RGotByte =>
      if s.resultsLock != Free then None
      else Some(s.(resultsLock := ByReader(r), readers := s.readers[r := RLocked]))
    case RLocked =>
      if s.results == [] then Some(s.(resultsLock := Free, readers := s.readers[r := RFailed]))
      else
        Some(s.(results := s.results[1..], delivered := s.delivered + [s.results[0]],
                readers := s.readers[r := RTook(s.results[0])]))
    case RTook(_) =>
      Some(s.(resultsLock := Free, readers := s.readers[r := RIdle]))
    case RFailed => None
  }

  function Apply(s: State, step: Step): Option<State> {
    match step
    case Call(i) =>
      if i < |s.producers| && s.producers[i] == PIdle then
        Some(s.(nextId := s.nextId + 1, producers := s.producers[i := PWant(Job(s.nextId, 0))]))
      else None
    case Produce(i, w) => if i < |s.producers| then Produced(s, i, s.producers[i], w) else None
    case Wake(w) =>
      if w < |s.workers| && s.workers[w] == WBlocked then Some(s.(workers := s.workers[w := WWoken])) else None
    case Work(w) => if w < |s.workers| then Worked(s, w, s.workers[w]) else None
    case Ask(r) =>
      if r < |s.readers| && s.readers[r] == RIdle then Some(s.(readers := s.readers[r := RReading])) else None
    case Read(r) => if r < |s.readers| then Taken(s, r, s.readers[r]) else None
  }

  // The state after a run, every step of which could be taken.
  function Run(s: State, steps: seq<Step>): Option<State>
    decreases |steps|
  {
    if steps == [] then Some(s)
    else
      var next := Apply(s, steps[0]);
      if next == None then None else Run(next.value, steps[1..])
  }

  // ---------- Counting threads and collecting job numbers ----------

  function Count<T>(xs: seq<T>, p: T -> bool): nat {
    if xs == [] then 0 else (if p(xs[0]) then 1 else 0) + Count(xs[1..], p)
  }

  lemma {:induction false} CountUpdate<T>(xs: seq<T>, p: T -> bool, i: nat, x: T)
    requires i < |xs|
    ensures Count(xs[i := x], p) + (if p(xs[i]) then 1 else 0) == Count(xs, p) + if p(x) then 1 else 0
  {
    if i == 0 {
      assert xs[0 := x][1..] == xs[1..];
    } else {
      assert xs[i := x][1..] == xs[1..][i - 1 := x];
      CountUpdate(xs[1..], p, i - 1, x);
    }
  }

  lemma {:induction false} CountPositive<T>(xs: seq<T>, p: T -> bool, i: nat)
    requires i < |xs| && p(xs[i])
    ensures Count(xs, p) > 0
  {
    if i > 0 {
      CountPositive(xs[1..], p, i - 1);
    }
  }

  lemma {:induction false} CountNone<T>(xs: seq<T>, p: T -> bool)
    requires forall i | 0 <= i < |xs| :: !p(xs[i])
    ensures Count(xs, p) == 0
  {
    if xs != [] {
      CountNone(xs[1..], p);
    }
  }

  lemma {:induction false} CountSnoc<T>(xs: seq<T>, p: T -> bool, x: T)
    ensures Count(xs + [x], p) == Count(xs, p) + if p(x) then 1 else 0
  {
    if xs == [] {
      assert [x][1..] == [];
    } else {
      assert (xs + [x])[1..] == xs[1..] + [x];
      CountSnoc(xs[1..], p, x);
    }
  }

  // ---------- The invariant ----------

  predicate HasJobsP(p: Producer) {
    p.PLocked? || p.PPushed?
  }

  predicate HasJobsW(w: Worker) {
    w.WCheck? || w.WTook?
  }

  predicate HasResultsW(w: Worker) {
    w.WPushing? || w.WEnqueued? || w.WWrote?
  }

  predicate HasResultsR(r: Reader) {
    r.RLocked? || r.RTook?
  }

  // The mutex of the job queue is held by exactly the thread that believes to hold it.
  ghost predicate JobsMutex(s: State) {
    && (forall i | 0 <= i < |s.producers| :: HasJobsP(s.producers[i]) <==> s.jobsLock == ByProducer(i))
    && (forall i | 0 <= i < |s.workers| :: HasJobsW(s.workers[i]) <==> s.jobsLock == ByWorker(i))
    && (s.jobsLock.ByProducer? ==> s.jobsLock.i < |s.producers|)
    && (s.jobsLock.ByWorker? ==> s.jobsLock.i < |s.workers|)
    && !s.jobsLock.ByReader?
  }

  // The same for the queue of results.
  ghost predicate ResultsMutex(s: State) {
    && (forall i | 0 <= i < |s.workers| :: HasResultsW(s.workers[i]) <==> s.resultsLock == ByWorker(i))
    && (forall i | 0 <= i < |s.readers| :: HasResultsR(s.readers[i]) <==> s.resultsLock == ByReader(i))
    && (s.resultsLock.ByWorker? ==> s.resultsLock.i < |s.workers|)
    && (s.resultsLock.ByReader? ==> s.resultsLock.i < |s.readers|)
    && !s.resultsLock.ByProducer?
  }

  predicate Unsignalled(p: Producer) {
    p.PPushed? || p.PSignal?
  }

  predicate Awake(w: Worker) {
    w.WWoken? || w.WCheck?
  }

  predicate Blocked(w: Worker) {
    w.WBlocked?
  }

  // No lost wakeup: while a worker is blocked, every queued job has a signal still to come or a
  // worker on its way to look.
  ghost predicate Wakeups(s: State) {
    Count(s.workers, Blocked) > 0 ==>
      |s.jobs| <= Count(s.producers, Unsignalled) + Count(s.workers, Awake)
  }

  predicate Enqueued(w: Worker) {
    w.WEnqueued?
  }

  predicate HasByte(r: Reader) {
    r.RGotByte? || r.RLocked?
  }

  // Every queued result has its byte: in the pipe, with a reader, or about to be written.
  ghost predicate Tokens(s: State) {
    && |s.results| == s.pipe + Count(s.readers, HasByte) + Count(s.workers, Enqueued)
    && forall r | 0 <= r < |s.readers| :: s.readers[r] != RFailed
  }

  // The jobs, producers and workers with job number k.
  function IsJob(k: nat): Job -> bool {
    (j: Job) => j.id == k
  }

  function Pending(k: nat): Producer -> bool {
    (p: Producer) => (p.PWant? || p.PLocked?) && p.job.id == k
  }

  function InHand(k: nat): Worker -> bool {
    (w: Worker) => (w.WTook? || w.WHolding? || w.WDone? || w.WPushing?) && w.job.id == k
  }

  // Both queues are first-in first-out.
  ghost predicate Queues(s: State) {
    s.pushed == s.taken + s.jobs && s.finished == s.delivered + s.results
  }

  // Every job taken is in one worker's hands or finished.
  ghost predicate Flow(s: State) {
    forall k: nat :: FlowOf(s, k)
  }

  ghost predicate FlowOf(s: State, k: nat) {
    Count(s.taken, IsJob(k)) == Count(s.workers, InHand(k)) + Count(s.finished, IsJob(k))
  }

  // Every number given out so far belongs to one job, pushed or about to be.
  ghost predicate Numbered(s: State) {
    forall k: nat :: NumberOf(s, k)
  }

  ghost predicate NumberOf(s: State, k: nat) {
    Count(s.pushed, IsJob(k)) + Count(s.producers, Pending(k)) == if k < s.nextId then 1 else 0
  }

  // proc has run once on exactly the jobs past it.
  ghost predicate RunOnce(s: State) {
    RunInQueues(s) && RunByWorkers(s)
  }

  ghost predicate RunInQueues(s: State) {
    && (forall i | 0 <= i < |s.producers| ::
          s.producers[i].PWant? || s.producers[i].PLocked? ==> s.producers[i].job.runs == 0)
    && (forall i | 0 <= i < |s.jobs| :: s.jobs[i].runs == 0)
    && (forall i | 0 <= i < |s.finished| :: s.finished[i].runs == 1)
  }

  ghost predicate RunByWorkers(s: State) {
    && (forall w | 0 <= w < |s.workers| ::
          s.workers[w].WTook? || s.workers[w].WHolding? ==> s.workers[w].job.runs == 0)
    && (forall w | 0 <= w < |s.workers| ::
          s.workers[w].WDone? || s.workers[w].WPushing? ==> s.workers[w].job.runs == 1)
  }

  ghost predicate Inv(s: State) {
    JobsMutex(s) && ResultsMutex(s) && Wakeups(s) && Tokens(s) &&
    Queues(s) && Flow(s) && Numbered(s) && RunOnce(s)
  }

  // ---------- Every step keeps it ----------

  // A thread may change a mutex only by taking it while free or by giving it back.
  predicate LockStep(before: Owner, after: Owner, who: Owner) {
    before == after || (before == Free && after == who) || (before == who && after == Free)
  }

  lemma {:induction false} JobsMutexAtWorker(s: State, t: State, w: nat)
    requires JobsMutex(s) && w < |s.workers| == |t.workers| && t.workers == s.workers[w := t.workers[w]]
    requires t.producers == s.producers && LockStep(s.jobsLock, t.jobsLock, ByWorker(w))
    requires HasJobsW(t.workers[w]) <==> t.jobsLock == ByWorker(w)
    ensures JobsMutex(t)
  {
  }

  lemma {:induction false} JobsMutexKeptByWorker(s: State, w: nat)
    requires JobsMutex(s) && Apply(s, Work(w)).Some?
    ensures JobsMutex(Apply(s, Work(w)).value)
  {
    assert HasJobsW(s.workers[w]) <==> s.jobsLock == ByWorker(w);
    hide JobsMutex;
    JobsMutexAtWorker(s, Apply(s, Work(w)).value, w);
  }

  lemma {:induction false} ResultsMutexAtWorker(s: State, t: State, w: nat)
    requires ResultsMutex(s) && w < |s.workers| == |t.workers| && t.workers == s.workers[w := t.workers[w]]
    requires t.readers == s.readers && LockStep(s.resultsLock, t.resultsLock, ByWorker(w))
    requires HasResultsW(t.workers[w]) <==> t.resultsLock == ByWorker(w)
    ensures ResultsMutex(t)
  {
  }

  lemma {:induction false} ResultsMutexKeptByWorker(s: State, w: nat)
    requires ResultsMutex(s) && Apply(s, Work(w)).Some?
    ensures ResultsMutex(Apply(s, Work(w)).value)
  {
    assert HasResultsW(s.workers[w]) <==> s.resultsLock == ByWorker(w);
    hide ResultsMutex;
    ResultsMutexAtWorker(s, Apply(s, Work(w)).value, w);
  }

  // A producer may besides wake a worker, which holds no mutex before and after.
  lemma {:induction false} JobsMutexAtProducer(s: State, t: State, i: nat)
    requires JobsMutex(s) && i < |s.producers| == |t.producers| && t.producers == s.producers[i := t.producers[i]]
    requires |t.workers| == |s.workers|
    requires forall w | 0 <= w < |s.workers| :: HasJobsW(t.workers[w]) == HasJobsW(s.workers[w])
    requires LockStep(s.jobsLock, t.jobsLock, ByProducer(i))
    requires HasJobsP(t.producers[i]) <==> t.jobsLock == ByProducer(i)
    ensures JobsMutex(t)
  {
  }

  lemma {:induction false} JobsMutexKeptByProducer(s: State, i: nat, w: nat)
    requires JobsMutex(s) && Apply(s, Produce(i, w)).Some?
    ensures JobsMutex(Apply(s, Produce(i, w)).value)
  {
    assert HasJobsP(s.producers[i]) <==> s.jobsLock == ByProducer(i);
    hide JobsMutex;
    JobsMutexAtProducer(s, Apply(s, Produce(i, w)).value, i);
  }

  lemma {:induction false} ResultsMutexKeptByProducer(s: State, i: nat, w: nat)
    requires ResultsMutex(s) && Apply(s, Produce(i, w)).Some?
    ensures ResultsMutex(Apply(s, Produce(i, w)).value)
  {
    hide ResultsMutex;
    var t := Apply(s, Produce(i, w)).value;
    ResultsMutexSame(s, t);
  }

  lemma {:induction false} ResultsMutexSame(s: State, t: State)
    requires ResultsMutex(s) && t.readers == s.readers && t.resultsLock == s.resultsLock
    requires |t.workers| == |s.workers|
    requires forall w | 0 <= w < |s.workers| :: HasResultsW(t.workers[w]) == HasResultsW(s.workers[w])
    ensures ResultsMutex(t)
  {
  }

  lemma {:induction false} JobsMutexKeptByReader(s: State, r: nat)
    requires JobsMutex(s) && Apply(s, Read(r)).Some?
    ensures JobsMutex(Apply(s, Read(r)).value)
  {
    hide JobsMutex;
    JobsMutexSame(s, Apply(s, Read(r)).value);
  }

  lemma {:induction false} JobsMutexSame(s: State, t: State)
    requires JobsMutex(s) && t.producers == s.producers && t.workers == s.workers && t.jobsLock == s.jobsLock
    ensures JobsMutex(t)
  {
  }

  lemma {:induction false} ResultsMutexAtReader(s: State, t: State, r: nat)
    requires ResultsMutex(s) && r < |s.readers| == |t.readers| && t.readers == s.readers[r := t.readers[r]]
    requires t.workers == s.workers && LockStep(s.resultsLock, t.resultsLock, ByReader(r))
    requires HasResultsR(t.readers[r]) <==> t.resultsLock == ByReader(r)
    ensures ResultsMutex(t)
  {
  }

  lemma {:induction false} ResultsMutexKeptByReader(s: State, r: nat)
    requires ResultsMutex(s) && Apply(s, Read(r)).Some?
    ensures ResultsMutex(Apply(s, Read(r)).value)
  {
    assert HasResultsR(s.readers[r]) <==> s.resultsLock == ByReader(r);
    hide ResultsMutex;
    ResultsMutexAtReader(s, Apply(s, Read(r)).value, r);
  }

  lemma {:induction false} MutexesKept(s: State, step: Step)
    requires JobsMutex(s) && ResultsMutex(s) && Apply(s, step).Some?
    ensures JobsMutex(Apply(s, step).value) && ResultsMutex(Apply(s, step).value)
  {
    match step
    case Call(_) =>
    case Produce(i, w) =>
      JobsMutexKeptByProducer(s, i, w);
      ResultsMutexKeptByProducer(s, i, w);
    case Wake(_) =>
    case Work(w) =>
      JobsMutexKeptByWorker(s, w);
      ResultsMutexKeptByWorker(s, w);
    case Ask(_) =>
    case Read(r) =>
      JobsMutexKeptByReader(s, r);
      ResultsMutexKeptByReader(s, r);
  }

  lemma {:induction false} WakeupsKept(s: State, step: Step)
    requires Wakeups(s) && Apply(s, step).Some?
    ensures Wakeups(Apply(s, step).value)
  {
    hide Count;
    var s' := Apply(s, step).value;
    match step
    case Call(i) => CountUpdate(s.producers, Unsignalled, i, s'.producers[i]);
    case Produce(i, w) =>
      CountUpdate(s.producers, Unsignalled, i, s'.producers[i]);
      if SomeBlocked(s) {
        var b :| 0 <= b < |s.workers| && s.workers[b] == WBlocked;
        if w < |s.workers| {
          CountUpdate(s.workers, Blocked, w, WWoken);
          CountUpdate(s.workers, Awake, w, WWoken);
        }
      } else {
        CountNone(s.workers, Blocked);
      }
    case Wake(w) =>
      CountUpdate(s.workers, Blocked, w, WWoken);
      CountUpdate(s.workers, Awake, w, WWoken);
    case Work(w) =>
      CountUpdate(s.workers, Blocked, w, s'.workers[w]);
      CountUpdate(s.workers, Awake, w, s'.workers[w]);
    case Ask(_) =>
    case Read(_) =>
  }

  lemma {:induction false} TokensKept(s: State, step: Step)
    requires Tokens(s) && Apply(s, step).Some?
    ensures Tokens(Apply(s, step).value)
  {
    hide Count;
    var s' := Apply(s, step).value;
    match step
    case Call(i) =>
    case Produce(i, w) =>
      if w < |s.workers| {
        CountUpdate(s.workers, Enqueued, w, WWoken);
      }
    case Wake(w) => CountUpdate(s.workers, Enqueued, w, WWoken);
    case Work(w) => CountUpdate(s.workers, Enqueued, w, s'.workers[w]);
    case Ask(r) => CountUpdate(s.readers, HasByte, r, RReading);
    case Read(r) =>
      CountUpdate(s.readers, HasByte, r, s'.readers[r]);
      if s.readers[r] == RLocked {
        CountPositive(s.readers, HasByte, r);
      }
  }

  lemma {:induction false} QueuesKept(s: State, step: Step)
    requires Queues(s) && Apply(s, step).Some?
    ensures Queues(Apply(s, step).value)
  {
    hide SomeBlocked;
    match step
    case Produce(i, _) =>
      if s.producers[i].PLocked? {
        PushLast(s.taken, s.jobs, s.producers[i].job);
      }
    case Work(w) =>
      if s.workers[w] == WCheck {
        MoveFirst(s.taken, s.jobs);
      } else if s.workers[w].WPushing? {
        PushLast(s.delivered, s.results, s.workers[w].job);
      }
    case Read(r) =>
      if s.readers[r] == RLocked {
        MoveFirst(s.delivered, s.results);
      }
    case Call(_) =>
    case Wake(_) =>
    case Ask(_) =>
  }

  lemma {:induction false} PushLast(a: seq<Job>, b: seq<Job>, j: Job)
    ensures a + b + [j] == a + (b + [j])
  {
  }

  lemma {:induction false} MoveFirst(a: seq<Job>, b: seq<Job>)
    ensures b != [] ==> a + b == a + [b[0]] + b[1..]
  {
  }

  lemma {:induction false} FlowKept(s: State, step: Step, k: nat)
    requires FlowOf(s, k) && Apply(s, step).Some?
    ensures FlowOf(Apply(s, step).value, k)
  {
    hide Count;
    var s' := Apply(s, step).value;
    match step
    case Call(_) =>
    case Produce(i, w) =>
      if w < |s.workers| {
        CountUpdate(s.workers, InHand(k), w, WWoken);
      }
    case Wake(w) => CountUpdate(s.workers, InHand(k), w, WWoken);
    case Work(w) =>
      CountUpdate(s.workers, InHand(k), w, s'.workers[w]);
      if s.workers[w] == WCheck && s.jobs != [] {
        CountSnoc(s.taken, IsJob(k), s.jobs[0]);
      } else if s.workers[w].WPushing? {
        CountSnoc(s.finished, IsJob(k), s.workers[w].job);
      }
    case Ask(_) =>
    case Read(_) =>
  }

  lemma {:induction false} NumberedKept(s: State, step: Step, k: nat)
    requires NumberOf(s, k) && Apply(s, step).Some?
    ensures NumberOf(Apply(s, step).value, k)
  {
    hide Count;
    var s' := Apply(s, step).value;
    match step
    case Call(i) => CountUpdate(s.producers, Pending(k), i, s'.producers[i]);
    case Produce(i, w) =>
      CountUpdate(s.producers, Pending(k), i, s'.producers[i]);
      if s.producers[i].PLocked? {
        CountSnoc(s.pushed, IsJob(k), s.producers[i].job);
      }
    case Wake(_) =>
    case Work(_) =>
    case Ask(_) =>
    case Read(_) =>
  }

  lemma {:induction false} RunInQueuesKept(s: State, w: nat)
    requires RunOnce(s) && Apply(s, Work(w)).Some?
    ensures RunInQueues(Apply(s, Work(w)).value)
  {
  }

  lemma {:induction false} RunByWorkersKept(s: State, w: nat)
    requires RunOnce(s) && Apply(s, Work(w)).Some?
    ensures RunByWorkers(Apply(s, Work(w)).value)
  {
  }

  lemma {:induction false} RunOnceKept(s: State, step: Step)
    requires RunOnce(s) && Apply(s, step).Some?
    ensures RunOnce(Apply(s, step).value)
  {
    if step.Work? {
      RunInQueuesKept(s, step.w);
      RunByWorkersKept(s, step.w);
    }
  }

  lemma {:induction false} InvKept(s: State, step: Step)
    requires Inv(s) && Apply(s, step).Some?
    ensures Inv(Apply(s, step).value)
  {
    hide JobsMutex, ResultsMutex, Wakeups, Tokens, Queues, FlowOf, NumberOf, RunOnce, Apply;
    MutexesKept(s, step);
    WakeupsKept(s, step);
    TokensKept(s, step);
    QueuesKept(s, step);
    RunOnceKept(s, step);
    forall k: nat ensures FlowOf(Apply(s, step).value, k) {
      FlowKept(s, step, k);
    }
    forall k: nat ensures NumberOf(Apply(s, step).value, k) {
      NumberedKept(s, step, k);
    }
  }

  lemma {:induction false} InvRun(s: State, steps: seq<Step>)
    requires Inv(s) && Run(s, steps).Some?
    ensures Inv(Run(s, steps).value) && |Run(s, steps).value.workers| == |s.workers|
    decreases |steps|
  {
    hide Inv;
    if steps != [] {
      InvKept(s, steps[0]);
      InvRun(Apply(s, steps[0]).value, steps[1..]);
    }
  }

  lemma {:induction false} InvInit(producers: nat, workers: nat, readers: nat)
    ensures Inv(Init(producers, workers, readers))
  {
    hide Count;
    var s := Init(producers, workers, readers);
    CountNone(s.workers, Blocked);
    CountNone(s.readers, HasByte);
    CountNone(s.workers, Enqueued);
    forall k: nat ensures FlowOf(s, k) && NumberOf(s, k) {
      CountNone(s.workers, InHand(k));
      CountNone(s.producers, Pending(k));
      CountNone(s.taken, IsJob(k));
    }
  }

  // ---------- Main results: any number of threads, any interleaving ----------

  ghost predicate Reached(producers: nat, workers: nat, readers: nat, steps: seq<Step>, s: State) {
    Run(Init(producers, workers, readers), steps) == Some(s)
  }

  lemma {:induction false} ReachedInv(producers: nat, workers: nat, readers: nat, steps: seq<Step>, s: State)
    requires Reached(producers, workers, readers, steps, s)
    ensures Inv(s) && |s.workers| == workers
  {
    hide Inv, Run;
    InvInit(producers, workers, readers);
    InvRun(Init(producers, workers, readers), steps);
  }

  lemma {:induction false} CountAppend<T>(a: seq<T>, b: seq<T>, p: T -> bool)
    ensures Count(a + b, p) == Count(a, p) + Count(b, p)
  {
    if a == [] {
      assert a + b == b;
    } else {
      assert (a + b)[1..] == a[1..] + b;
      CountAppend(a[1..], b, p);
    }
  }

  // No job is lost and none is processed twice: a job that was pushed is in exactly one place.
  lemma {:induction false} Conservation(
    producers: nat, workers: nat, readers: nat, steps: seq<Step>, s: State, k: nat)
    requires Reached(producers, workers, readers, steps, s)
    ensures Count(s.pushed, IsJob(k)) <= 1
    ensures Count(s.pushed, IsJob(k)) ==
            Count(s.jobs, IsJob(k)) + Count(s.workers, InHand(k))
            + Count(s.results, IsJob(k)) + Count(s.delivered, IsJob(k))
    ensures forall i | 0 <= i < |s.delivered| :: s.delivered[i].runs == 1
  {
    hide Count, Reached;
    ReachedInv(producers, workers, readers, steps, s);
    assert FlowOf(s, k) && NumberOf(s, k);
    CountAppend(s.taken, s.jobs, IsJob(k));
    CountAppend(s.delivered, s.results, IsJob(k));
    assert forall i | 0 <= i < |s.delivered| :: s.delivered[i] == s.finished[i];
  }

  // With no signal and no wakeup on the way, a blocked worker means an empty queue.
  lemma {:induction false} NoLostWakeup(
    producers: nat, workers: nat, readers: nat, steps: seq<Step>, s: State, w: nat)
    requires Reached(producers, workers, readers, steps, s)
    requires w < |s.workers| && s.workers[w] == WBlocked
    requires forall i | 0 <= i < |s.producers| :: !Unsignalled(s.producers[i])
    requires forall i | 0 <= i < |s.workers| :: !Awake(s.workers[i])
    ensures s.jobs == []
  {
    hide Count, Reached;
    ReachedInv(producers, workers, readers, steps, s);
    CountPositive(s.workers, Blocked, w);
    CountNone(s.producers, Unsignalled);
    CountNone(s.workers, Awake);
  }

  // A reader that got its byte always finds a result; results leave in the order they came.
  lemma {:induction false} ReaderFindsResult(
    producers: nat, workers: nat, readers: nat, steps: seq<Step>, s: State, r: nat)
    requires Reached(producers, workers, readers, steps, s) && r < |s.readers|
    ensures s.readers[r] != RFailed
    ensures HasByte(s.readers[r]) ==> s.results != []
    ensures s.delivered <= s.finished
    ensures s.readers[r].RLocked? ==> s.delivered + [s.results[0]] <= s.finished
  {
    hide Count, Reached;
    ReachedInv(producers, workers, readers, steps, s);
    if HasByte(s.readers[r]) {
      CountPositive(s.readers, HasByte, r);
      assert s.results == [s.results[0]] + s.results[1..];
    }
  }

  // At most one worker stands between its enqueue and its byte, and then no byte can be missing
  // for longer than that worker holds the mutex.
  lemma {:induction false} OneToken(s: State)
    requires Inv(s)
    ensures Count(s.workers, Enqueued) <= 1
    ensures Count(s.workers, Enqueued) == 1 <==> s.resultsLock.ByWorker? && s.workers[s.resultsLock.i] == WEnqueued
  {
    hide Wakeups, Tokens, Queues, FlowOf, NumberOf, RunOnce, JobsMutex;
    if s.resultsLock.ByWorker? {
      var w := s.resultsLock.i;
      forall i | 0 <= i < |s.workers| && i != w ensures !Enqueued(s.workers[i]) {
        assert HasResultsW(s.workers[i]) <==> s.resultsLock == ByWorker(i);
      }
      CountOnly(s.workers, Enqueued, w);
    } else {
      forall i | 0 <= i < |s.workers| ensures !Enqueued(s.workers[i]) {
        assert HasResultsW(s.workers[i]) <==> s.resultsLock == ByWorker(i);
      }
      CountNone(s.workers, Enqueued);
    }
  }

  lemma {:induction false} CountOnly<T>(xs: seq<T>, p: T -> bool, w: nat)
    requires w < |xs| && forall i | 0 <= i < |xs| && i != w :: !p(xs[i])
    ensures Count(xs, p) == if p(xs[w]) then 1 else 0
  {
    if w == 0 {
      CountNone(xs[1..], p);
    } else {
      CountOnly(xs[1..], p, w - 1);
    }
  }

  // No thread inside push, pop or the worker loop can move.
  ghost predicate Stuck(s: State) {
    && (forall i, w: nat | 0 <= i < |s.producers| :: Produced(s, i, s.producers[i], w) == None)
    && (forall w | 0 <= w < |s.workers| :: Worked(s, w, s.workers[w]) == None)
    && (forall r | 0 <= r < |s.readers| :: Taken(s, r, s.readers[r]) == None)
  }

  // Whoever holds a mutex can move.
  lemma {:induction false} HolderMoves(s: State)
    requires JobsMutex(s) && ResultsMutex(s)
    ensures s.jobsLock.ByProducer? ==> Produced(s, s.jobsLock.i, s.producers[s.jobsLock.i], 0).Some?
    ensures s.jobsLock.ByWorker? ==> Worked(s, s.jobsLock.i, s.workers[s.jobsLock.i]).Some?
    ensures s.resultsLock.ByWorker? ==> Worked(s, s.resultsLock.i, s.workers[s.resultsLock.i]).Some?
    ensures s.resultsLock.ByReader? ==> Taken(s, s.resultsLock.i, s.readers[s.resultsLock.i]).Some?
  {
  }

  lemma {:induction false} StuckLocksFree(s: State)
    requires Stuck(s) && JobsMutex(s) && ResultsMutex(s)
    ensures s.jobsLock == Free && s.resultsLock == Free
  {
    hide Produced, Worked, Taken;
    HolderMoves(s);
  }

  lemma {:induction false} StuckAllWait(s: State)
    requires Stuck(s) && s.jobsLock == Free && s.resultsLock == Free
    ensures forall i | 0 <= i < |s.producers| :: s.producers[i] == PIdle
    ensures forall w | 0 <= w < |s.workers| :: s.workers[w] == WBlocked
  {
    forall w | 0 <= w < |s.workers| ensures s.workers[w] == WBlocked {
      assert Worked(s, w, s.workers[w]) == None;
    }
    forall i | 0 <= i < |s.producers| ensures s.producers[i] == PIdle {
      if SomeBlocked(s) {
        var b :| 0 <= b < |s.workers| && s.workers[b] == WBlocked;
        assert Produced(s, i, s.producers[i], b) == None;
      } else {
        assert Produced(s, i, s.producers[i], 0) == None;
      }
    }
  }

  // The pool never stops with work left: when nothing can move, every job that was pushed has
  // been processed, and a reader is only kept waiting if there is no result.
  lemma {:induction false} StopsOnlyWhenDone(producers: nat, workers: nat, readers: nat, steps: seq<Step>, s: State)
    requires workers > 0 && Reached(producers, workers, readers, steps, s) && Stuck(s)
    ensures s.jobs == []
    ensures forall k: nat :: Count(s.pushed, IsJob(k)) == Count(s.finished, IsJob(k))
    ensures (exists r | 0 <= r < |s.readers| :: s.readers[r] == RReading) ==> s.results == []
  {
    hide Count, Reached, RunOnce;
    ReachedInv(producers, workers, readers, steps, s);
    StuckLocksFree(s);
    StuckAllWait(s);
    CountNone(s.producers, Unsignalled);
    CountNone(s.workers, Awake);
    CountPositive(s.workers, Blocked, 0);
    CountNone(s.workers, Enqueued);
    forall k: nat ensures Count(s.pushed, IsJob(k)) == Count(s.finished, IsJob(k)) {
      assert FlowOf(s, k);
      CountNone(s.workers, InHand(k));
      assert s.pushed == s.taken;
    }
    forall r | 0 <= r < |s.readers| ensures !HasByte(s.readers[r]) {
      assert Taken(s, r, s.readers[r]) == None;
    }
    CountNone(s.readers, HasByte);
  }
}
