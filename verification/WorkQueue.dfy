/** `PosixEnv::Schedule` and `PosixEnv::BackgroundThreadMain` (util/env_posix.cpp): background workers fed by any number
    of scheduling threads through a queue, a mutex and a condition variable, as a step system.

    Every statement of the two functions that touches shared state is its own step: tests, assignments, thread creation,
    signal, and the two halves of taking the front item.  Nothing in the system limits the number of workers; that there
    is never more than one is a theorem.  The condition variable may wake a waiter at any time (spurious wakeups), a
    signal wakes some waiter if there is one and is lost otherwise. */
module WorkQueue {

  /** A work item; the function and its argument are not interpreted. */
  type Item = int

  datatype Owner = Free | Client(c: nat) | Worker(w: nat)

  /** Where a scheduling thread is inside `Schedule(item)`; from `TestStarted` on it holds the mutex. */
  datatype ClientPc =
    | Outside
    | WantsLock(item: Item)
    | TestStarted(item: Item)     // if (!started_background_thread_)
    | SetStarted(item: Item)      // started_background_thread_ = true
    | CreateThread(item: Item)    // std::thread background_thread(...)
    | TestQueue(item: Item)       // if (background_work_queue_.empty())
    | Signal(item: Item)          // background_work_cv_.Signal()
    | Enqueue(item: Item)         // background_work_queue_.emplace(...)
    | Unlock                      // background_work_mutex_.Unlock()

  /** Where a worker is inside `BackgroundThreadMain`. */
  datatype WorkerPc =
    | AtLock
    | TestEmpty                   // holds the mutex: the loop test
    | EnterWait                   // holds the mutex: Wait releases it and sleeps, atomically
    | Asleep(signalled: bool)
    | Waking                      // leaving Wait, has to take the mutex again
    | ReadFront                   // holds the mutex: copy the front item
    | Pop(item: Item)             // holds the mutex: remove the front item
    | HasItem(item: Item)         // holds the mutex: release it
    | Running(item: Item)         // runs the item, mutex released

  /** `scheduled` and `done` record history: items enqueued, items run. */
  datatype State = State(
    owner: Owner, queue: seq<Item>, started: bool, clients: seq<ClientPc>, workers: seq<WorkerPc>,
    scheduled: seq<Item>, done: seq<Item>)

  datatype Step =
    | Call(c: nat, item: Item)
    | ClientStep(c: nat)
    | SignalTo(c: nat, w: nat)
    | WorkerStep(w: nat)
    | SpuriousWakeup(w: nat)

  ghost predicate Initial(s: State) {
    s.owner == Free && s.queue == [] && !s.started && s.workers == [] && s.scheduled == [] && s.done == [] &&
    forall c :: 0 <= c < |s.clients| ==> s.clients[c] == Outside
  }

  function At(s: State, c: nat, pc: ClientPc): State
    requires c < |s.clients|
  {
    s.(clients := s.clients[c := pc])
  }

  function WorkerAt(s: State, w: nat, pc: WorkerPc): State
    requires w < |s.workers|
  {
    s.(workers := s.workers[w := pc])
  }

  /** Some worker waits without a signal. */
  predicate SomeoneWaits(s: State) {
    exists w :: 0 <= w < |s.workers| && s.workers[w] == Asleep(false)
  }

  ghost predicate Enabled(s: State, a: Step) {
    match a
    case Call(c, _) => c < |s.clients| && s.clients[c] == Outside
    case ClientStep(c) =>
      c < |s.clients| && s.clients[c] != Outside && (s.clients[c].WantsLock? ==> s.owner == Free) &&
      (s.clients[c].Signal? ==> !SomeoneWaits(s))
    case SignalTo(c, w) => c < |s.clients| && s.clients[c].Signal? && w < |s.workers| && s.workers[w] == Asleep(false)
    case WorkerStep(w) =>
      w < |s.workers| && s.workers[w] != Asleep(false) && (s.workers[w] in {AtLock, Waking} ==> s.owner == Free)
    case SpuriousWakeup(w) => w < |s.workers| && s.workers[w].Asleep?
  }

  function Apply(s: State, a: Step): State
    requires Enabled(s, a)
  {
    match a
    case Call(c, item) => At(s, c, WantsLock(item))
    case ClientStep(c) => ApplyClient(s, c)
    case SignalTo(c, w) => WorkerAt(At(s, c, Enqueue(s.clients[c].item)), w, Asleep(true))
    case WorkerStep(w) => ApplyWorker(s, w)
    case SpuriousWakeup(w) => WorkerAt(s, w, Waking)
  }

  function ApplyClient(s: State, c: nat): State
    requires Enabled(s, ClientStep(c))
  {
    match s.clients[c]
    case WantsLock(item) => At(s, c, TestStarted(item)).(owner := Client(c))
    case TestStarted(item) => At(s, c, if s.started then TestQueue(item) else SetStarted(item))
    case SetStarted(item) => At(s, c, CreateThread(item)).(started := true)
    case CreateThread(item) => At(s, c, TestQueue(item)).(workers := s.workers + [AtLock])
    case TestQueue(item) => At(s, c, if s.queue == [] then Signal(item) else Enqueue(item))
    case Signal(item) => At(s, c, Enqueue(item))
    case Enqueue(item) => At(s, c, Unlock).(queue := s.queue + [item], scheduled := s.scheduled + [item])
    case Unlock => At(s, c, Outside).(owner := Free)
    case Outside => s
  }

  function ApplyWorker(s: State, w: nat): State
    requires Enabled(s, WorkerStep(w))
  {
    match s.workers[w]
    case AtLock => WorkerAt(s, w, TestEmpty).(owner := Worker(w))
    case TestEmpty => WorkerAt(s, w, if s.queue == [] then EnterWait else ReadFront)
    case EnterWait => WorkerAt(s, w, Asleep(false)).(owner := Free)
    case Asleep(_) => WorkerAt(s, w, Waking)
    case Waking => WorkerAt(s, w, TestEmpty).(owner := Worker(w))
    case ReadFront => if s.queue == [] then s else WorkerAt(s, w, Pop(s.queue[0]))
    case Pop(item) => if s.queue == [] then s else WorkerAt(s, w, HasItem(item)).(queue := s.queue[1..])
    case HasItem(item) => WorkerAt(s, w, Running(item)).(owner := Free)
    case Running(item) => WorkerAt(s, w, AtLock).(done := s.done + [item])
  }

  // ----- The invariant

  predicate HoldsMutex(pc: ClientPc) {
    !pc.Outside? && !pc.WantsLock?
  }

  predicate WorkerHoldsMutex(pc: WorkerPc) {
    pc.TestEmpty? || pc.EnterWait? || pc.ReadFront? || pc.Pop? || pc.HasItem?
  }

  /** The item a worker took off the queue and has not finished. */
  function InHand(pc: WorkerPc): seq<Item> {
    if pc.HasItem? || pc.Running? then [pc.item] else []
  }

  function AllInHand(workers: seq<WorkerPc>): seq<Item> {
    if workers == [] then [] else InHand(workers[0]) + AllInHand(workers[1..])
  }

  /** The scheduling thread that holds the mutex, if one does. */
  function OwnerPc(s: State): ClientPc {
    if s.owner.Client? && s.owner.c < |s.clients| then s.clients[s.owner.c] else Outside
  }

  ghost predicate MutexHeldByOne(s: State) {
    (forall c :: 0 <= c < |s.clients| ==> (HoldsMutex(s.clients[c]) <==> s.owner == Client(c))) &&
    (forall w :: 0 <= w < |s.workers| ==> (WorkerHoldsMutex(s.workers[w]) <==> s.owner == Worker(w))) &&
    (s.owner.Client? ==> s.owner.c < |s.clients|) && (s.owner.Worker? ==> s.owner.w < |s.workers|)
  }

  /** There is a worker once `started` is set, except while the thread that set it is about to create it. */
  ghost predicate OneWorker(s: State) {
    |s.workers| == (if s.started && !OwnerPc(s).CreateThread? then 1 else 0) &&
    (OwnerPc(s).SetStarted? ==> !s.started) && (OwnerPc(s).CreateThread? ==> s.started) &&
    (HoldsMutex(OwnerPc(s)) && !OwnerPc(s).TestStarted? && !OwnerPc(s).SetStarted? ==> s.started) &&
    (s.queue != [] ==> s.workers != [])
  }

  /** First in, first out, nothing lost, nothing run twice. */
  ghost predicate Fifo(s: State) {
    s.scheduled == s.done + AllInHand(s.workers) + s.queue
  }

  /** A worker asleep without a signal has nothing to do, and no scheduler is past the point of signalling it. */
  ghost predicate NoLostWakeup(s: State) {
    forall w :: 0 <= w < |s.workers| ==>
      (s.workers[w] == Asleep(false) || s.workers[w].EnterWait? ==> s.queue == [] && !OwnerPc(s).Enqueue?) &&
      (s.workers[w].ReadFront? ==> s.queue != []) &&
      (s.workers[w].Pop? ==> s.queue != [] && s.workers[w].item == s.queue[0])
  }

  ghost predicate Inv(s: State) {
    MutexHeldByOne(s) && OneWorker(s) && Fifo(s) && NoLostWakeup(s)
  }

  lemma InHandOfOne(workers: seq<WorkerPc>)
    requires |workers| <= 1
    ensures AllInHand(workers) == if workers == [] then [] else InHand(workers[0])
  {
    if workers != [] {
      assert workers[1..] == [];
    }
  }

  /** The mutex excludes every other scheduling thread, and the workers, from the guarded statements. */
  lemma OwnerIsAlone(s: State, c: nat)
    requires MutexHeldByOne(s) && c < |s.clients| && HoldsMutex(s.clients[c])
    ensures s.owner == Client(c) && OwnerPc(s) == s.clients[c]
    ensures forall d :: 0 <= d < |s.clients| && d != c ==> !HoldsMutex(s.clients[d])
    ensures forall w :: 0 <= w < |s.workers| ==> !WorkerHoldsMutex(s.workers[w])
  {
  }

  lemma ClientStepMutex(s: State, c: nat)
    requires MutexHeldByOne(s) && Enabled(s, ClientStep(c))
    ensures MutexHeldByOne(ApplyClient(s, c))
    ensures OwnerPc(ApplyClient(s, c)) ==
            if HoldsMutex(ApplyClient(s, c).clients[c]) then ApplyClient(s, c).clients[c] else Outside
    ensures !s.clients[c].CreateThread? ==> ApplyClient(s, c).workers == s.workers
  {
    if HoldsMutex(s.clients[c]) {
      OwnerIsAlone(s, c);
    }
  }

  /** The mutex makes the test, the assignment and the creation of the worker one. */
  lemma ClientStepOneWorker(s: State, c: nat)
    requires MutexHeldByOne(s) && OneWorker(s) && Enabled(s, ClientStep(c))
    ensures OneWorker(ApplyClient(s, c))
  {
    ClientStepMutex(s, c);
    if HoldsMutex(s.clients[c]) {
      OwnerIsAlone(s, c);
    }
    hide MutexHeldByOne;
  }

  lemma ClientStepFifo(s: State, c: nat)
    requires Fifo(s) && Enabled(s, ClientStep(c)) && |s.workers| + (if s.clients[c].CreateThread? then 1 else 0) <= 1
    ensures Fifo(ApplyClient(s, c))
  {
    var s' := ApplyClient(s, c);
    InHandOfOne(s.workers);
    InHandOfOne(s'.workers);
    hide AllInHand;
    if s.clients[c].Enqueue? {
      var item := s.clients[c].item;
      assert s.done + AllInHand(s.workers) + s.queue + [item] == s.done + AllInHand(s.workers) + (s.queue + [item]);
    }
  }

  lemma ClientStepWakeups(s: State, c: nat)
    requires MutexHeldByOne(s) && NoLostWakeup(s) && Enabled(s, ClientStep(c))
    ensures NoLostWakeup(ApplyClient(s, c))
  {
    ClientStepMutex(s, c);
    if HoldsMutex(s.clients[c]) {
      OwnerIsAlone(s, c);
    }
    if s.clients[c].Signal? {
      assert forall w :: 0 <= w < |s.workers| ==> s.workers[w] != Asleep(false);
    }
    hide MutexHeldByOne;
  }

  lemma ClientStepKeepsInv(s: State, c: nat)
    requires Inv(s) && Enabled(s, ClientStep(c))
    ensures Inv(ApplyClient(s, c))
  {
    ClientStepMutex(s, c);
    ClientStepOneWorker(s, c);
    if HoldsMutex(s.clients[c]) {
      OwnerIsAlone(s, c);
    }
    ClientStepFifo(s, c);
    ClientStepWakeups(s, c);
    hide MutexHeldByOne, Fifo, NoLostWakeup;
  }

  lemma SignalKeepsInv(s: State, c: nat, w: nat)
    requires Inv(s) && Enabled(s, SignalTo(c, w))
    ensures Inv(Apply(s, SignalTo(c, w)))
  {
    var s' := Apply(s, SignalTo(c, w));
    OwnerIsAlone(s, c);
    InHandOfOne(s.workers);
    InHandOfOne(s'.workers);
  }

  /** A worker's step changes no scheduling thread, and passes the mutex on properly. */
  lemma WorkerStepMutex(s: State, w: nat)
    requires MutexHeldByOne(s) && Enabled(s, WorkerStep(w)) && |s.workers| <= 1
    ensures MutexHeldByOne(ApplyWorker(s, w)) && ApplyWorker(s, w).clients == s.clients
    ensures |ApplyWorker(s, w).workers| == |s.workers|
    ensures OwnerPc(ApplyWorker(s, w)) == OwnerPc(s) || (OwnerPc(s).Outside? && OwnerPc(ApplyWorker(s, w)).Outside?)
  {
  }

  /** An item moves from the queue into the worker's hand, and from there to the items run. */
  lemma WorkerStepItems(s: State, w: nat)
    requires NoLostWakeup(s) && Enabled(s, WorkerStep(w))
    ensures var s', h, h' := ApplyWorker(s, w), InHand(s.workers[w]), InHand(ApplyWorker(s, w).workers[w]);
            s'.scheduled == s.scheduled && |s'.workers| == |s.workers| &&
            if s.workers[w].Pop? then h == [] && s'.done == s.done && s.queue == h' + s'.queue
            else if s.workers[w].Running? then h' == [] && s'.done == s.done + h && s'.queue == s.queue
            else h' == h && s'.done == s.done && s'.queue == s.queue
  {
  }

  lemma WorkerStepFifo(s: State, w: nat)
    requires Fifo(s) && NoLostWakeup(s) && Enabled(s, WorkerStep(w)) && |s.workers| <= 1
    ensures Fifo(ApplyWorker(s, w))
  {
    hide InHand, NoLostWakeup, ApplyWorker;
    var s' := ApplyWorker(s, w);
    WorkerStepItems(s, w);
    InHandOfOne(s.workers);
    InHandOfOne(s'.workers);
    PassedOn(s.done, InHand(s.workers[w]), s.queue, s'.done, InHand(s'.workers[w]), s'.queue);
  }

  /** Items pass from the queue to the hand and from the hand to those run, and keep their order. */
  lemma PassedOn(done: seq<Item>, h: seq<Item>, queue: seq<Item>, done': seq<Item>, h': seq<Item>, queue': seq<Item>)
    requires (h == [] && done' == done && queue == h' + queue') || (h' == [] && done' == done + h && queue' == queue) ||
             (h' == h && done' == done && queue' == queue)
    ensures done' + h' + queue' == done + h + queue
  {
    if h == [] && done' == done && queue == h' + queue' {
      assert done + [] + (h' + queue') == done + h' + queue';
    } else if h' == [] && done' == done + h && queue' == queue {
      assert done + h + [] + queue == done + h + queue;
    }
  }

  lemma WorkerStepKeepsInv(s: State, w: nat)
    requires Inv(s) && Enabled(s, WorkerStep(w))
    ensures Inv(ApplyWorker(s, w))
  {
    WorkerStepMutex(s, w);
    WorkerStepFifo(s, w);
    hide Fifo;
    assert WorkerHoldsMutex(s.workers[w]) <==> s.owner == Worker(w);
  }

  lemma SpuriousKeepsInv(s: State, w: nat)
    requires Inv(s) && Enabled(s, SpuriousWakeup(w))
    ensures Inv(Apply(s, SpuriousWakeup(w)))
  {
    InHandOfOne(s.workers);
    InHandOfOne(Apply(s, SpuriousWakeup(w)).workers);
  }

  lemma CallKeepsInv(s: State, c: nat, item: Item)
    requires Inv(s) && Enabled(s, Call(c, item))
    ensures Inv(Apply(s, Call(c, item)))
  {
    var s' := Apply(s, Call(c, item));
    assert HoldsMutex(s.clients[c]) <==> s.owner == Client(c);
    assert OwnerPc(s') == OwnerPc(s);
  }

  lemma StepKeepsInv(s: State, a: Step)
    requires Inv(s) && Enabled(s, a)
    ensures Inv(Apply(s, a))
  {
    hide Inv;
    match a
    case Call(c, item) => CallKeepsInv(s, c, item);
    case ClientStep(c) => ClientStepKeepsInv(s, c);
    case SignalTo(c, w) => SignalKeepsInv(s, c, w);
    case WorkerStep(w) => WorkerStepKeepsInv(s, w);
    case SpuriousWakeup(w) => SpuriousKeepsInv(s, w);
  }

  // ----- Safety over every run

  ghost predicate Run(states: seq<State>, steps: seq<Step>) {
    |states| == |steps| + 1 && Initial(states[0]) &&
    forall i {:trigger steps[i]} :: 0 <= i < |steps| ==>
      Enabled(states[i], steps[i]) && states[i + 1] == Apply(states[i], steps[i])
  }

  lemma {:induction false} RunKeepsInv(states: seq<State>, steps: seq<Step>, i: nat)
    requires Run(states, steps) && i < |states|
    ensures Inv(states[i])
    decreases i
  {
    if i > 0 {
      RunKeepsInv(states, steps, i - 1);
      var a := steps[i - 1];
      StepKeepsInv(states[i - 1], a);
    }
  }

  lemma RunStep(states: seq<State>, steps: seq<Step>, i: nat)
    requires Run(states, steps) && 0 < i < |states|
    ensures i <= |steps| && Enabled(states[i - 1], steps[i - 1]) && states[i] == Apply(states[i - 1], steps[i - 1])
    ensures Inv(states[i - 1]) && Inv(states[i])
  {
    RunKeepsInv(states, steps, i - 1);
    RunKeepsInv(states, steps, i);
    var a := steps[i - 1];
  }

  /** At every point of every interleaving: items run, then the one in hand, then those queued are exactly those
      scheduled, in order; at most one worker was ever created; and when nobody holds the mutex and work is waiting,
      there is a worker and it is not asleep without a signal. */
  lemma RunIsSafe(states: seq<State>, steps: seq<Step>, i: nat)
    requires Run(states, steps) && i < |states|
    ensures states[i].scheduled == states[i].done + AllInHand(states[i].workers) + states[i].queue
    ensures |states[i].workers| <= 1
    ensures states[i].owner == Free && states[i].queue != [] ==>
              |states[i].workers| == 1 && states[i].workers[0] != Asleep(false)
  {
    RunKeepsInv(states, steps, i);
  }

  /** Nothing gets stuck: whenever work is waiting, a step of a worker or of a thread inside `Schedule` can be taken, and
      when the mutex is free the worker itself can take one. */
  lemma WorkIsNeverStuck(states: seq<State>, steps: seq<Step>, i: nat)
    requires Run(states, steps) && i < |states| && states[i].queue != []
    ensures Enabled(states[i], WorkerStep(0)) || exists c :: Enabled(states[i], ClientStep(c))
    ensures states[i].owner == Free ==> Enabled(states[i], WorkerStep(0))
  {
    RunKeepsInv(states, steps, i);
    var s := states[i];
    if s.owner.Client? {
      assert HoldsMutex(s.clients[s.owner.c]);
      assert forall w :: 0 <= w < |s.workers| ==> s.workers[w] != Asleep(false);
      assert Enabled(s, ClientStep(s.owner.c));
    }
  }

  lemma StepGrowsHistory(s: State, a: Step)
    requires Enabled(s, a)
    ensures s.scheduled <= Apply(s, a).scheduled && s.done <= Apply(s, a).done
  {
  }

  /** The order of items across the whole run: what has been run is always a prefix of what was scheduled, and both
      histories only grow. */
  lemma {:induction false} HistoryGrows(states: seq<State>, steps: seq<Step>, i: nat, j: nat)
    requires Run(states, steps) && i <= j < |states|
    ensures states[i].scheduled <= states[j].scheduled && states[i].done <= states[j].done <= states[j].scheduled
    decreases j
  {
    if i < j {
      HistoryGrows(states, steps, i, j - 1);
      var a := steps[j - 1];
      StepGrowsHistory(states[j - 1], a);
    }
    RunIsSafe(states, steps, j);
  }

  // ----- Every item is run

  /** The worker's steps until it has run the item it is at. */
  function Distance(pc: WorkerPc): nat {
    match pc
    case EnterWait => 8
    case Asleep(_) => 7
    case AtLock => 6
    case Waking => 6
    case TestEmpty => 5
    case ReadFront => 4
    case Pop(_) => 3
    case HasItem(_) => 2
    case Running(_) => 1
  }

  /** The worker's steps until the k-th item scheduled has run. */
  function StepsLeft(s: State, k: nat): int {
    if s.workers == [] then 0 else Distance(s.workers[0]) + 6 * (k - |s.done|)
  }

  /** The k-th item is scheduled and not yet run. */
  predicate Pending(s: State, k: nat) {
    |s.done| <= k < |s.scheduled|
  }

  /** With an item pending there is a worker, and it is awake, or has a signal. */
  lemma PendingIsNoticed(s: State, k: nat)
    requires Inv(s) && Pending(s, k)
    ensures |s.workers| == 1 && s.workers[0] != Asleep(false) && !s.workers[0].EnterWait?
    ensures s.workers[0].TestEmpty? ==> s.queue != []
  {
    InHandOfOne(s.workers);
    assert s.queue != [] || AllInHand(s.workers) != [];
  }

  /** Each step of the worker brings a pending item closer, and no other step puts it off. */
  lemma StepBringsCloser(s: State, a: Step, k: nat)
    requires Inv(s) && Enabled(s, a) && Inv(Apply(s, a)) && Pending(s, k) && Pending(Apply(s, a), k)
    ensures StepsLeft(Apply(s, a), k) + (if a.WorkerStep? then 1 else 0) <= StepsLeft(s, k)
  {
    PendingIsNoticed(s, k);
    PendingIsNoticed(Apply(s, a), k);
    hide Inv;
  }

  ghost function WorkerSteps(steps: seq<Step>, i: nat, j: nat): nat
    requires j <= |steps|
  {
    if j <= i then 0 else WorkerSteps(steps, i, j - 1) + if steps[j - 1].WorkerStep? then 1 else 0
  }

  lemma {:induction false} StepsAreCounted(states: seq<State>, steps: seq<Step>, i: nat, j: nat, k: nat)
    requires Run(states, steps) && i <= j < |states| && k < |states[i].scheduled| && |states[j].done| <= k
    ensures Pending(states[i], k) && Pending(states[j], k)
    ensures WorkerSteps(steps, i, j) + StepsLeft(states[j], k) <= StepsLeft(states[i], k)
    decreases j
  {
    hide Inv, Run, StepsLeft, Enabled, Apply;
    HistoryGrows(states, steps, i, j);
    if i < j {
      HistoryGrows(states, steps, j - 1, j);
      StepsAreCounted(states, steps, i, j - 1, k);
      RunStep(states, steps, j);
      StepBringsCloser(states[j - 1], steps[j - 1], k);
    }
  }

  /** Every scheduled item is run after boundedly many steps of the worker: with d items run before, the k-th item is
      done once the worker has taken seven steps and six more for each item ahead of it, whatever the schedulers do and
      however often the worker is woken for nothing. */
  lemma ItemsAreRun(states: seq<State>, steps: seq<Step>, i: nat, j: nat, k: nat)
    requires Run(states, steps) && i <= j < |states| && |states[i].done| <= k < |states[i].scheduled|
    requires WorkerSteps(steps, i, j) >= 7 + 6 * (k - |states[i].done|)
    ensures |states[j].done| > k
  {
    if |states[j].done| <= k {
      StepsAreCounted(states, steps, i, j, k);
      RunKeepsInv(states, steps, i);
      RunKeepsInv(states, steps, j);
      PendingIsNoticed(states[i], k);
      PendingIsNoticed(states[j], k);
    }
  }

  // ----- What a call of Schedule does

  /** A thread outside `Schedule` can call it with any item, and one inside can go on unless it waits for the mutex. */
  lemma CallersCanStep(s: State, c: nat, item: Item)
    requires c < |s.clients|
    ensures s.clients[c] == Outside ==> Enabled(s, Call(c, item))
    ensures s.clients[c] != Outside && (s.clients[c].WantsLock? ==> s.owner == Free) ==>
              Enabled(s, ClientStep(c)) || exists w :: Enabled(s, SignalTo(c, w))
  {
    if s.clients[c].Signal? && SomeoneWaits(s) {
      var w :| 0 <= w < |s.workers| && s.workers[w] == Asleep(false);
      assert Enabled(s, SignalTo(c, w));
    }
  }

  /** A step of thread c inside `Schedule`. */
  predicate StepOf(a: Step, c: nat) {
    (a.ClientStep? || a.SignalTo?) && a.c == c
  }

  /** What a history gained. */
  function Gained(before: seq<Item>, after: seq<Item>): seq<Item> {
    if before <= after then after[|before|..] else []
  }

  /** The items that the steps of thread c among those from i up to j have scheduled. */
  ghost function ScheduledBy(states: seq<State>, steps: seq<Step>, i: nat, j: nat, c: nat): seq<Item>
    requires j <= |steps| < |states|
  {
    if j <= i then []
    else
      ScheduledBy(states, steps, i, j - 1, c) +
      if StepOf(steps[j - 1], c) then Gained(states[j - 1].scheduled, states[j].scheduled) else []
  }

  /** The steps of thread c among those from i up to j. */
  ghost function StepsOf(steps: seq<Step>, i: nat, j: nat, c: nat): nat
    requires j <= |steps|
  {
    if j <= i then 0 else StepsOf(steps, i, j - 1, c) + if StepOf(steps[j - 1], c) then 1 else 0
  }

  /** A call with this item is at this point, and has scheduled these items. */
  predicate CallIsAt(pc: ClientPc, item: Item, scheduled: seq<Item>) {
    if pc.Outside? || pc.Unlock? then scheduled == [item] else pc.item == item && scheduled == []
  }

  /** The steps a call still has to make, at most. */
  function CallLeft(pc: ClientPc): nat {
    match pc
    case WantsLock(_) => 8
    case TestStarted(_) => 7
    case SetStarted(_) => 6
    case CreateThread(_) => 5
    case TestQueue(_) => 4
    case Signal(_) => 3
    case Enqueue(_) => 2
    case Unlock => 1
    case Outside => 0
  }

  lemma OwnStep(s: State, a: Step, c: nat, item: Item, scheduled: seq<Item>)
    requires Enabled(s, a) && StepOf(a, c) && c < |s.clients| && CallIsAt(s.clients[c], item, scheduled)
    ensures var s' := Apply(s, a);
            c < |s'.clients| && CallIsAt(s'.clients[c], item, scheduled + Gained(s.scheduled, s'.scheduled)) &&
            CallLeft(s'.clients[c]) < CallLeft(s.clients[c])
  {
  }

  /** The steps of other threads leave a call where it is; only steps inside `Schedule` schedule anything. */
  lemma OtherStep(s: State, a: Step, c: nat)
    requires Enabled(s, a) && !StepOf(a, c) && c < |s.clients| && s.clients[c] != Outside
    ensures c < |Apply(s, a).clients| && Apply(s, a).clients[c] == s.clients[c]
    ensures !a.ClientStep? ==> Apply(s, a).scheduled == s.scheduled
  {
  }

  lemma {:induction false} CallGoesOn(states: seq<State>, steps: seq<Step>, i: nat, j: nat, c: nat, item: Item)
    requires Run(states, steps) && i < j < |states| == |steps| + 1 && steps[i] == Call(c, item)
    requires forall k :: i < k < j ==> c < |states[k].clients| && states[k].clients[c] != Outside
    ensures c < |states[j].clients| && CallIsAt(states[j].clients[c], item, ScheduledBy(states, steps, i + 1, j, c))
    ensures StepsOf(steps, i + 1, j, c) + CallLeft(states[j].clients[c]) <= 8
    decreases j
  {
    hide Inv, Run, CallIsAt, CallLeft, Enabled, Apply, Gained;
    RunStep(states, steps, j);
    if j == i + 1 {
      CallStarts(states[i], c, item);
    } else {
      CallGoesOn(states, steps, i, j - 1, c, item);
      if StepOf(steps[j - 1], c) {
        OwnStep(states[j - 1], steps[j - 1], c, item, ScheduledBy(states, steps, i + 1, j - 1, c));
      } else {
        OtherStep(states[j - 1], steps[j - 1], c);
        assert ScheduledBy(states, steps, i + 1, j, c) == ScheduledBy(states, steps, i + 1, j - 1, c);
      }
    }
  }

  lemma CallStarts(s: State, c: nat, item: Item)
    requires Enabled(s, Call(c, item))
    ensures var s' := Apply(s, Call(c, item));
            c < |s'.clients| && CallIsAt(s'.clients[c], item, []) && CallLeft(s'.clients[c]) <= 8 && s'.scheduled == s.scheduled
  {
  }

  /** A call of `Schedule` that has returned has scheduled its item, once, and nothing else; and it returns after at most
      eight steps of its own. */
  lemma CallSchedulesItsItem(states: seq<State>, steps: seq<Step>, i: nat, j: nat, c: nat, item: Item)
    requires Run(states, steps) && i < j < |states| == |steps| + 1 && steps[i] == Call(c, item)
    requires forall k :: i < k < j ==> c < |states[k].clients| && states[k].clients[c] != Outside
    ensures c < |states[j].clients| && StepsOf(steps, i + 1, j, c) <= 8
    ensures states[j].clients[c] == Outside ==> ScheduledBy(states, steps, i + 1, j, c) == [item]
    ensures StepsOf(steps, i + 1, j, c) == 8 ==> states[j].clients[c] == Outside
  {
    CallGoesOn(states, steps, i, j, c, item);
  }
}
