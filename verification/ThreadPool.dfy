/** The thread pool as a system of atomic steps: workers, any number of threads that enqueue, and the thread that destroys
    the pool. Tasks are numbered in the order in which they are accepted. */
module ThreadPool {
  datatype Worker =
    | Want                 // wants the mutex
    | Check                // has the mutex
    | Asleep               // waits on `cond`
    | Signal(task: nat)    // has taken the last task of the queue, about to notify the destructor
    | Run(task: nat)
    | Gone

  datatype Client = Out | Offer | Push | Notify

  /** The destructor. */
  datatype Keeper = Ready | KWant | KCheck | KAsleep | KNotify | Join(next: nat) | Finished

  datatype Thread = AWorker(i: nat) | AClient(i: nat) | TheKeeper

  datatype Owner = Free | By(who: Thread)

  /** `log` is the history of the tasks taken off the queue, and `done` holds those that have run. */
  datatype State = State(queue: seq<nat>, accepted: nat, log: seq<nat>, done: set<nat>, release: bool, mutex: Owner,
                         workers: seq<Worker>, clients: seq<Client>, keeper: Keeper)

  /** `Wake` is a step that notifies one of the sleeping workers; which one is open. */
  datatype Act = Go | Spurious | Wake(w: nat)

  function Init(workers: nat, clients: nat): State {
    State([], 0, [], {}, false, Free, seq(workers, _ => Want), seq(clients, _ => Out), Ready)
  }

  // ----- workers

  function SetWorker(s: State, i: nat, w: Worker): State
    requires i < |s.workers|
  {
    s.(workers := s.workers[i := w])
  }

  predicate WorkerEnabled(s: State, i: nat, a: Act) {
    i < |s.workers| &&
    match s.workers[i]
    case Want => a == Go && s.mutex == Free
    case Asleep => a == Spurious
    case Gone => false
    case _ => a == Go
  }

  function Checked(s: State, i: nat): State
    requires i < |s.workers|
  {
    if s.queue == [] then SetWorker(s.(mutex := Free), i, if s.release then Gone else Asleep)
    else
      var task, rest := s.queue[0], s.queue[1..];
      SetWorker(s.(mutex := Free, queue := rest, log := s.log + [task]), i, if rest == [] then Signal(task) else Run(task))
  }

  function WorkerStep(s: State, i: nat, a: Act): State
    requires WorkerEnabled(s, i, a)
  {
    match s.workers[i]
    case Want => SetWorker(s.(mutex := By(AWorker(i))), i, Check)
    case Check => Checked(s, i)
    case Asleep => SetWorker(s, i, Want)
    case Signal(task) => SetWorker(if s.keeper == KAsleep then s.(keeper := KWant) else s, i, Run(task))
    case Run(task) => SetWorker(s.(done := s.done + {task}), i, Want)
  }

  // ----- threads that enqueue

  predicate ClientEnabled(s: State, i: nat, a: Act) {
    i < |s.clients| &&
    match s.clients[i]
    case Out => a == Go
    case Offer => a == Go && s.mutex == Free
    case Push => a == Go
    case Notify =>
      if a.Wake? then a.w < |s.workers| && s.workers[a.w] == Asleep
      else a == Go && forall w :: 0 <= w < |s.workers| ==> s.workers[w] != Asleep
  }

  function SetClient(s: State, i: nat, c: Client): State
    requires i < |s.clients|
  {
    s.(clients := s.clients[i := c])
  }

  /** An offer after the release is refused. */
  function ClientStep(s: State, i: nat, a: Act): State
    requires ClientEnabled(s, i, a)
  {
    match s.clients[i]
    case Out => SetClient(s, i, Offer)
    case Offer => SetClient(s.(mutex := By(AClient(i))), i, Push)
    case Push =>
      if s.release then SetClient(s.(mutex := Free), i, Out)
      else SetClient(s.(mutex := Free, queue := s.queue + [s.accepted], accepted := s.accepted + 1), i, Notify)
    case Notify => SetClient(if a.Wake? then s.(workers := s.workers[a.w := Want]) else s, i, Out)
  }

  // ----- the destructor

  predicate KeeperEnabled(s: State, a: Act) {
    match s.keeper
    case KWant => a == Go && s.mutex == Free
    case KAsleep => a == Spurious
    case Join(k) => a == Go && (k < |s.workers| ==> s.workers[k] == Gone)
    case Finished => false
    case _ => a == Go
  }

  function WokenAll(workers: seq<Worker>): (r: seq<Worker>)
    ensures |r| == |workers|
    ensures forall i :: 0 <= i < |r| ==> r[i] == if workers[i] == Asleep then Want else workers[i]
  {
    seq(|workers|, i requires 0 <= i < |workers| => if workers[i] == Asleep then Want else workers[i])
  }

  function KeeperStep(s: State, a: Act): State
    requires KeeperEnabled(s, a)
  {
    match s.keeper
    case Ready => s.(keeper := KWant)
    case KWant => s.(mutex := By(TheKeeper), keeper := KCheck)
    case KCheck =>
      if s.queue == [] then s.(mutex := Free, release := true, keeper := KNotify)
      else s.(mutex := Free, keeper := KAsleep)
    case KAsleep => s.(keeper := KWant)
    case KNotify => s.(workers := WokenAll(s.workers), keeper := Join(0))
    case Join(k) => s.(keeper := if k < |s.workers| then Join(k + 1) else Finished)
  }

  // ----- steps and runs

  predicate Enabled(s: State, who: Thread, a: Act) {
    match who
    case AWorker(i) => WorkerEnabled(s, i, a)
    case AClient(i) => ClientEnabled(s, i, a)
    case TheKeeper => KeeperEnabled(s, a)
  }

  function After(s: State, who: Thread, a: Act): State
    requires Enabled(s, who, a)
  {
    match who
    case AWorker(i) => WorkerStep(s, i, a)
    case AClient(i) => ClientStep(s, i, a)
    case TheKeeper => KeeperStep(s, a)
  }

  type Move = (Thread, Act)

  ghost predicate Possible(s: State, run: seq<Move>)
    decreases |run|
  {
    run == [] || (Enabled(s, run[0].0, run[0].1) && Possible(After(s, run[0].0, run[0].1), run[1..]))
  }

  ghost function End(s: State, run: seq<Move>): State
    requires Possible(s, run)
    decreases |run|
  {
    if run == [] then s else End(After(s, run[0].0, run[0].1), run[1..])
  }

  // ----- the invariant

  /** Tasks leave the queue in the order in which they came. */
  ghost predicate Ordered(s: State) {
    && |s.log| + |s.queue| == s.accepted
    && (forall i :: 0 <= i < |s.log| ==> s.log[i] == i)
    && (forall i :: 0 <= i < |s.queue| ==> s.queue[i] == |s.log| + i)
  }

  predicate Busy(w: Worker) {
    w.Signal? || w.Run?
  }

  ghost predicate Works(workers: seq<Worker>, i: nat, task: nat) {
    i < |workers| && Busy(workers[i]) && workers[i].task == task
  }

  ghost predicate SomeoneWorks(workers: seq<Worker>, task: nat) {
    exists i :: Works(workers, i, task)
  }

  /** A task that was taken is done, or exactly one worker has it; no other task is either. */
  ghost predicate Handled(s: State, task: nat) {
    && (task < |s.log| <==> task in s.done || SomeoneWorks(s.workers, task))
    && !(task in s.done && SomeoneWorks(s.workers, task))
    && forall i, j :: Works(s.workers, i, task) && Works(s.workers, j, task) ==> i == j
  }

  ghost function BusySet(workers: seq<Worker>): set<nat> {
    set i: nat | i < |workers| && Busy(workers[i])
  }

  ghost predicate Conserved(s: State) {
    |s.done| + |BusySet(s.workers)| == |s.log|
  }

  ghost predicate Locked(s: State) {
    && (forall i: nat :: s.mutex == By(AWorker(i)) <==> i < |s.workers| && s.workers[i] == Check)
    && (forall i: nat :: s.mutex == By(AClient(i)) <==> i < |s.clients| && s.clients[i] == Push)
    && (s.mutex == By(TheKeeper) <==> s.keeper == KCheck)
  }

  predicate Releasing(k: Keeper) {
    k == KNotify || k.Join? || k == Finished
  }

  /** From the release on the queue is empty, and only then do workers leave; the destructor has joined those it says. */
  ghost predicate Released(s: State) {
    && (s.release <==> Releasing(s.keeper))
    && (s.release ==> s.queue == [])
    && (forall i :: 0 <= i < |s.workers| && s.workers[i] == Gone ==> s.release)
    && (s.keeper.Join? ==> s.keeper.next <= |s.workers| && forall i :: 0 <= i < s.keeper.next ==> s.workers[i] == Gone)
    && (s.keeper == Finished ==> forall i :: 0 <= i < |s.workers| ==> s.workers[i] == Gone)
  }

  predicate Awake(w: Worker) {
    w != Asleep && w != Gone
  }

  ghost predicate SomeAwake(s: State) {
    exists i :: 0 <= i < |s.workers| && Awake(s.workers[i])
  }

  ghost predicate SomeNotifying(s: State) {
    exists i :: 0 <= i < |s.clients| && s.clients[i] == Notify
  }

  ghost predicate SomeSignalling(s: State) {
    exists i :: 0 <= i < |s.workers| && s.workers[i].Signal?
  }

  /** Nobody waits for a notification that does not come. */
  ghost predicate Remembered(s: State) {
    && (s.queue != [] ==> SomeAwake(s) || SomeNotifying(s))
    && (s.keeper == KAsleep && s.queue == [] ==> SomeSignalling(s))
    && (forall i :: 0 <= i < |s.workers| && s.workers[i] == Asleep && s.release ==> s.keeper == KNotify)
  }

  ghost predicate Inv(s: State) {
    Ordered(s) && (forall task: nat :: Handled(s, task)) && Conserved(s) && Locked(s) && Released(s)
    && (s.workers != [] ==> Remembered(s))
  }

  lemma InitInv(workers: nat, clients: nat)
    ensures Inv(Init(workers, clients))
  {
    assert BusySet(Init(workers, clients).workers) == {};
  }

  // ----- what each step keeps

  lemma StepOrdered(s: State, who: Thread, a: Act)
    requires Ordered(s) && Enabled(s, who, a)
    ensures Ordered(After(s, who, a))
  {
    match who
    case AWorker(i) => WorkerOrdered(s, i, a);
    case AClient(i) => ClientOrdered(s, i, a);
    case TheKeeper =>
  }

  lemma WorkerOrdered(s: State, i: nat, a: Act)
    requires Ordered(s) && WorkerEnabled(s, i, a)
    ensures Ordered(WorkerStep(s, i, a))
  {
  }

  lemma ClientOrdered(s: State, i: nat, a: Act)
    requires Ordered(s) && ClientEnabled(s, i, a)
    ensures Ordered(ClientStep(s, i, a))
  {
  }

  lemma BusyMoved(workers: seq<Worker>, i: nat, w: Worker)
    requires i < |workers|
    ensures |BusySet(workers[i := w])| == |BusySet(workers)| + (if Busy(w) then 1 else 0) - (if Busy(workers[i]) then 1 else 0)
  {
    var a, r := BusySet(workers), BusySet(workers[i := w]);
    assert r - {i} == a - {i};
    assert |a| == |a - {i}| + if i in a then 1 else 0;
    assert |r| == |r - {i}| + if i in r then 1 else 0;
  }

  lemma StepConserved(s: State, who: Thread, a: Act)
    requires Conserved(s) && (forall task: nat :: Handled(s, task)) && Enabled(s, who, a)
    ensures Conserved(After(s, who, a))
  {
    hide Handled, Conserved;
    match who
    case AWorker(i) => WorkerConserved(s, i, a);
    case AClient(i) => ClientConserved(s, i, a);
    case TheKeeper => KeeperConserved(s, a);
  }

  lemma WorkerConserved(s: State, i: nat, a: Act)
    requires Conserved(s) && (forall task: nat :: Handled(s, task)) && WorkerEnabled(s, i, a)
    ensures Conserved(WorkerStep(s, i, a))
  {
    hide Handled, BusySet;
    BusyMoved(s.workers, i, WorkerStep(s, i, a).workers[i]);
    if s.workers[i].Run? {
      NotDoneYet(s, i);
    }
  }

  lemma ClientConserved(s: State, i: nat, a: Act)
    requires Conserved(s) && ClientEnabled(s, i, a)
    ensures Conserved(ClientStep(s, i, a))
  {
    hide BusySet;
    if a.Wake? && s.clients[i] == Notify {
      BusyMoved(s.workers, a.w, Want);
    }
  }

  lemma KeeperConserved(s: State, a: Act)
    requires Conserved(s) && KeeperEnabled(s, a)
    ensures Conserved(KeeperStep(s, a))
  {
    hide BusySet;
    WokenBusy(s.workers);
  }

  lemma WokenBusy(workers: seq<Worker>)
    ensures BusySet(WokenAll(workers)) == BusySet(workers)
  {
  }

  /** No task is run twice. */
  lemma NotDoneYet(s: State, i: nat)
    requires (forall task: nat :: Handled(s, task)) && i < |s.workers| && s.workers[i].Run?
    ensures s.workers[i].task !in s.done
  {
    assert Handled(s, s.workers[i].task);
    assert Works(s.workers, i, s.workers[i].task);
  }

  lemma StepLocked(s: State, who: Thread, a: Act)
    requires Locked(s) && Enabled(s, who, a)
    ensures Locked(After(s, who, a))
  {
    match who
    case AWorker(i) => WorkerLocked(s, i, a);
    case AClient(i) => ClientLocked(s, i, a);
    case TheKeeper => KeeperLocked(s, a);
  }

  lemma WorkerLocked(s: State, i: nat, a: Act)
    requires Locked(s) && WorkerEnabled(s, i, a)
    ensures Locked(WorkerStep(s, i, a))
  {
  }

  lemma ClientLocked(s: State, i: nat, a: Act)
    requires Locked(s) && ClientEnabled(s, i, a)
    ensures Locked(ClientStep(s, i, a))
  {
  }

  lemma KeeperLocked(s: State, a: Act)
    requires Locked(s) && KeeperEnabled(s, a)
    ensures Locked(KeeperStep(s, a))
  {
  }

  lemma StepReleased(s: State, who: Thread, a: Act)
    requires Released(s) && Enabled(s, who, a)
    ensures Released(After(s, who, a))
  {
  }

  lemma StepHandled(s: State, who: Thread, a: Act, task: nat)
    requires Ordered(s) && (forall x: nat :: Handled(s, x)) && Enabled(s, who, a)
    ensures Handled(After(s, who, a), task)
  {
    hide Handled;
    assert Handled(s, task);
    match who
    case AWorker(i) => WorkerHandled(s, i, a, task);
    case AClient(i) => SameWork(s, After(s, who, a), task);
    case TheKeeper => SameWork(s, After(s, who, a), task);
  }

  /** Steps that give or take no work. */
  lemma SameWork(s: State, s': State, task: nat)
    requires Handled(s, task) && s'.log == s.log && s'.done == s.done && |s'.workers| == |s.workers|
    requires forall i :: 0 <= i < |s.workers| ==> s'.workers[i] == s.workers[i] || (!Busy(s'.workers[i]) && !Busy(s.workers[i]))
    ensures Handled(s', task)
  {
    assert forall i: nat :: Works(s.workers, i, task) <==> Works(s'.workers, i, task);
  }

  lemma WorkerHandled(s: State, i: nat, a: Act, task: nat)
    requires Ordered(s) && Handled(s, task) && WorkerEnabled(s, i, a)
    ensures Handled(WorkerStep(s, i, a), task)
  {
    var s' := WorkerStep(s, i, a);
    assert forall j: nat :: j != i ==> (Works(s.workers, j, task) <==> Works(s'.workers, j, task));
    if Works(s.workers, i, task) {
      assert SomeoneWorks(s.workers, task);
    }
    if Works(s'.workers, i, task) {
      assert SomeoneWorks(s'.workers, task);
    }
  }

  lemma StepRemembered(s: State, who: Thread, a: Act)
    requires Remembered(s) && Released(s) && s.workers != [] && Enabled(s, who, a)
    ensures Remembered(After(s, who, a))
  {
    match who
    case AWorker(i) => WorkerRemembered(s, i, a);
    case AClient(i) => ClientRemembered(s, i, a);
    case TheKeeper => KeeperRemembered(s, a);
  }

  lemma WorkerRemembered(s: State, i: nat, a: Act)
    requires Remembered(s) && Released(s) && WorkerEnabled(s, i, a)
    ensures Remembered(WorkerStep(s, i, a))
  {
    var s' := WorkerStep(s, i, a);
    if s'.queue != [] {
      assert Awake(s'.workers[i]);
    }
    if s'.keeper == KAsleep && s'.queue == [] {
      if s.queue == [] {
        var j :| 0 <= j < |s.workers| && s.workers[j].Signal?;
        assert j != i;
        assert s'.workers[j].Signal?;
      } else {
        assert s'.workers[i].Signal?;
      }
    }
  }

  lemma ClientRemembered(s: State, i: nat, a: Act)
    requires Remembered(s) && Released(s) && s.workers != [] && ClientEnabled(s, i, a)
    ensures Remembered(ClientStep(s, i, a))
  {
    var s' := ClientStep(s, i, a);
    if s'.clients[i] == Notify {
      assert SomeNotifying(s');
    } else if s.clients[i] == Notify {
      if a.Wake? {
        assert Awake(s'.workers[a.w]);
      } else if s.queue != [] {
        assert Awake(s'.workers[0]);
      }
    } else if s.queue != [] {
      if SomeAwake(s) {
        var j :| 0 <= j < |s.workers| && Awake(s.workers[j]);
        assert Awake(s'.workers[j]);
      } else {
        var j :| 0 <= j < |s.clients| && s.clients[j] == Notify;
        assert s'.clients[j] == Notify;
      }
    }
    if SomeSignalling(s) {
      var j :| 0 <= j < |s.workers| && s.workers[j].Signal?;
      assert s'.workers[j].Signal?;
    }
  }

  lemma KeeperRemembered(s: State, a: Act)
    requires Remembered(s) && Released(s) && KeeperEnabled(s, a)
    ensures Remembered(KeeperStep(s, a))
  {
    var s' := KeeperStep(s, a);
    if s'.queue != [] {
      if SomeAwake(s) {
        var j :| 0 <= j < |s.workers| && Awake(s.workers[j]);
        assert Awake(s'.workers[j]);
      } else {
        var j :| 0 <= j < |s.clients| && s.clients[j] == Notify;
        assert s'.clients[j] == Notify;
      }
    }
  }

  /** Every step keeps the invariant. */
  lemma StepKeeps(s: State, who: Thread, a: Act)
    requires Inv(s) && Enabled(s, who, a)
    ensures Inv(After(s, who, a))
  {
    hide Ordered, Handled, Conserved, Locked, Released, Remembered, After, Enabled;
    var s' := After(s, who, a);
    StepOrdered(s, who, a);
    StepConserved(s, who, a);
    StepLocked(s, who, a);
    StepReleased(s, who, a);
    StepWorkers(s, who, a);
    forall task: nat
      ensures Handled(s', task)
    {
      StepHandled(s, who, a, task);
    }
    if s.workers != [] {
      StepRemembered(s, who, a);
    }
  }

  lemma StepWorkers(s: State, who: Thread, a: Act)
    requires Enabled(s, who, a)
    ensures |After(s, who, a).workers| == |s.workers| && |After(s, who, a).clients| == |s.clients|
  {
  }

  lemma {:induction false} RunKeeps(s: State, run: seq<Move>)
    requires Inv(s) && Possible(s, run)
    ensures Inv(End(s, run)) && |End(s, run).workers| == |s.workers|
    decreases |run|
  {
    hide Inv, After, Enabled;
    if run != [] {
      StepKeeps(s, run[0].0, run[0].1);
      StepWorkers(s, run[0].0, run[0].1);
      RunKeeps(After(s, run[0].0, run[0].1), run[1..]);
    }
  }

  lemma ReachedInv(workers: nat, clients: nat, run: seq<Move>) returns (s: State)
    requires Possible(Init(workers, clients), run)
    ensures s == End(Init(workers, clients), run) && Inv(s) && |s.workers| == workers
  {
    hide Inv, Possible, End;
    InitInv(workers, clients);
    RunKeeps(Init(workers, clients), run);
    s := End(Init(workers, clients), run);
  }

  // ----- what that means for every run

  /** The tasks taken so far, followed by the queue, are the accepted tasks in the order of their acceptance. */
  lemma FirstInFirstOut(workers: nat, clients: nat, run: seq<Move>)
    requires Possible(Init(workers, clients), run)
    ensures var s := End(Init(workers, clients), run); s.log + s.queue == seq(s.accepted, i => i)
  {
    hide Possible, End;
    var s := ReachedInv(workers, clients, run);
  }

  /** Queued, running and done tasks are together the accepted ones: none is lost. */
  lemma NothingLost(workers: nat, clients: nat, run: seq<Move>)
    requires Possible(Init(workers, clients), run)
    ensures var s := End(Init(workers, clients), run); |s.queue| + |BusySet(s.workers)| + |s.done| == s.accepted
  {
    hide Possible, End, BusySet, Handled;
    var s := ReachedInv(workers, clients, run);
  }

  /** A task that finishes has not finished before: none is run twice. */
  lemma NothingTwice(workers: nat, clients: nat, run: seq<Move>, i: nat)
    requires Possible(Init(workers, clients), run)
    requires var s := End(Init(workers, clients), run); i < |s.workers| && s.workers[i].Run?
    ensures var s := End(Init(workers, clients), run); s.workers[i].task !in s.done
    ensures var s := End(Init(workers, clients), run);
            forall j :: 0 <= j < |s.workers| && j != i && Busy(s.workers[j]) ==> s.workers[j].task != s.workers[i].task
  {
    hide Possible, End;
    var s := ReachedInv(workers, clients, run);
    NotDoneYet(s, i);
    var task := s.workers[i].task;
    assert Handled(s, task) && Works(s.workers, i, task);
    forall j | 0 <= j < |s.workers| && j != i && Busy(s.workers[j])
      ensures s.workers[j].task != task
    {
      assert !Works(s.workers, j, task);
    }
  }

  /** Once the pool is released its queue is empty, and no step changes either. */
  lemma ReleaseIsFinal(workers: nat, clients: nat, run: seq<Move>, who: Thread, a: Act)
    requires Possible(Init(workers, clients), run)
    requires var s := End(Init(workers, clients), run); s.release && Enabled(s, who, a)
    ensures var s := End(Init(workers, clients), run);
            s.queue == [] && After(s, who, a).release && After(s, who, a).queue == [] && After(s, who, a).accepted == s.accepted
  {
    hide Possible, End, Handled, BusySet;
    var s := ReachedInv(workers, clients, run);
  }

  /** When the destructor has joined all workers, all accepted tasks are done. */
  lemma AllDoneAfterJoin(workers: nat, clients: nat, run: seq<Move>)
    requires Possible(Init(workers, clients), run) && End(Init(workers, clients), run).keeper == Finished
    ensures var s := End(Init(workers, clients), run); forall task: nat :: task in s.done <==> task < s.accepted
  {
    hide Possible, End;
    var s := ReachedInv(workers, clients, run);
    forall task: nat
      ensures task in s.done <==> task < s.accepted
    {
      assert Handled(s, task);
    }
  }

  /** Some thread other than one outside can move without waking for no reason. */
  ghost predicate Alive(s: State) {
    exists who, a :: Enabled(s, who, a) && a != Spurious && (who.AClient? ==> s.clients[who.i] != Out)
                     && (who == TheKeeper ==> s.keeper != Ready)
  }

  /** With at least one worker, the pool comes to rest only when no task is queued or running, and a destructor that has
      started has finished. */
  lemma NeverStuck(workers: nat, clients: nat, run: seq<Move>)
    requires Possible(Init(workers, clients), run) && workers > 0
    ensures var s := End(Init(workers, clients), run);
            Alive(s) || (s.queue == [] && BusySet(s.workers) == {} && (s.keeper == Ready || s.keeper == Finished))
  {
    hide Possible, End, Inv, Alive, BusySet;
    var s := ReachedInv(workers, clients, run);
    InvAlive(s);
  }

  /** Workers that sleep or have left, threads outside, and a destructor that sleeps, joins, or is not at work. */
  ghost predicate AtRest(s: State) {
    && (forall i :: 0 <= i < |s.workers| ==> !Awake(s.workers[i]))
    && (forall i :: 0 <= i < |s.clients| ==> s.clients[i] == Out)
    && (s.keeper == Ready || s.keeper == KAsleep || s.keeper == Finished || s.keeper.Join?)
  }

  lemma InvAlive(s: State)
    requires Inv(s) && s.workers != []
    ensures Alive(s) || (s.queue == [] && BusySet(s.workers) == {} && (s.keeper == Ready || s.keeper == Finished))
  {
    hide Inv, Alive, AtRest;
    if AtRest(s) {
      RestIsEnd(s);
    } else {
      NoRest(s);
    }
  }

  lemma MutexAlive(s: State)
    requires Inv(s) && s.mutex != Free
    ensures Alive(s)
  {
    hide Handled, Ordered, Conserved, Released, Remembered, BusySet;
    assert Enabled(s, s.mutex.who, Go);
  }

  lemma NoRest(s: State)
    requires Inv(s) && !AtRest(s)
    ensures Alive(s)
  {
    hide Inv;
    if s.mutex != Free {
      MutexAlive(s);
    } else if i :| 0 <= i < |s.workers| && Awake(s.workers[i]) {
      assert Enabled(s, AWorker(i), Go);
    } else if i :| 0 <= i < |s.clients| && s.clients[i] != Out {
      ClientAlive(s, i);
    } else {
      assert Enabled(s, TheKeeper, Go);
    }
  }

  lemma ClientAlive(s: State, i: nat)
    requires i < |s.clients| && s.clients[i] != Out && s.mutex == Free
    ensures Alive(s)
  {
    if s.clients[i] == Notify {
      if w :| 0 <= w < |s.workers| && s.workers[w] == Asleep {
        assert Enabled(s, AClient(i), Wake(w));
      } else {
        assert Enabled(s, AClient(i), Go);
      }
    } else {
      assert Enabled(s, AClient(i), Go);
    }
  }

  lemma RestIsEnd(s: State)
    requires Inv(s) && AtRest(s) && s.workers != []
    ensures Alive(s) || (s.queue == [] && BusySet(s.workers) == {} && (s.keeper == Ready || s.keeper == Finished))
  {
    hide Handled, Ordered, Conserved, Locked, Alive;
    assert s.queue == [];
    assert s.keeper != KAsleep;
    if s.keeper.Join? {
      JoinAlive(s);
    }
  }

  lemma JoinAlive(s: State)
    requires Inv(s) && AtRest(s) && s.workers != [] && s.keeper.Join?
    ensures Alive(s)
  {
    hide Handled, Ordered, Conserved, Locked;
    var k := s.keeper.next;
    if k < |s.workers| {
      assert !Awake(s.workers[k]);
      assert s.workers[k] == Gone;
    }
    assert Enabled(s, TheKeeper, Go);
  }

  // ----- what becomes of an offer, and of a task

  /** In every reachable state an offer is refused exactly from the release on, which comes when the destructor has found the
      queue empty; any other is put at the end of the queue, however long that is. */
  lemma OfferAnswered(workers: nat, clients: nat, run: seq<Move>, i: nat)
    requires Possible(Init(workers, clients), run)
    requires var s := End(Init(workers, clients), run); i < |s.clients| && s.clients[i] == Push
    ensures var s := End(Init(workers, clients), run); var r := After(s, AClient(i), Go);
            && (Releasing(s.keeper) ==> r.queue == s.queue && r.accepted == s.accepted && r.clients[i] == Out)
            && (!Releasing(s.keeper) ==>
                  r.queue == s.queue + [s.accepted] && r.accepted == s.accepted + 1 && r.clients[i] == Notify)
            && r.mutex == Free && r.workers == s.workers && r.keeper == s.keeper && r.release == s.release
  {
    hide Possible, End, Handled, BusySet;
    var s := ReachedInv(workers, clients, run);
  }

  /** In every reachable state a worker that looks at the queue takes its first task if there is one, whatever the others do;
      it leaves if there is none and the pool is released, and otherwise goes to sleep. */
  lemma WorkerDecides(workers: nat, clients: nat, run: seq<Move>, i: nat)
    requires Possible(Init(workers, clients), run)
    requires var s := End(Init(workers, clients), run); i < |s.workers| && s.workers[i] == Check
    ensures var s := End(Init(workers, clients), run); var r := After(s, AWorker(i), Go);
            && r.mutex == Free
            && (|s.log| < s.accepted ==> Busy(r.workers[i]) && r.workers[i].task == |s.log| && r.log == s.log + [|s.log|])
            && (|s.log| == s.accepted ==> r.workers[i] == (if Releasing(s.keeper) then Gone else Asleep) && r.log == s.log)
            && forall j :: 0 <= j < |s.workers| && j != i ==> r.workers[j] == s.workers[j]
  {
    hide Possible, End, Handled, BusySet;
    var s := ReachedInv(workers, clients, run);
  }

  /** Whoever wants the mutex gets it exactly when no other thread is at work under it. */
  lemma MutexIff(workers: nat, clients: nat, run: seq<Move>)
    requires Possible(Init(workers, clients), run)
    ensures var s := End(Init(workers, clients), run);
            var open := (forall j: nat :: j < |s.workers| ==> s.workers[j] != Check)
                        && (forall j: nat :: j < |s.clients| ==> s.clients[j] != Push) && s.keeper != KCheck;
            && (forall i: nat :: i < |s.workers| && s.workers[i] == Want ==> (WorkerEnabled(s, i, Go) <==> open))
            && (forall i: nat :: i < |s.clients| && s.clients[i] == Offer ==> (ClientEnabled(s, i, Go) <==> open))
            && (s.keeper == KWant ==> (KeeperEnabled(s, Go) <==> open))
  {
    hide Possible, End, Handled, BusySet, Ordered, Released, Remembered, Conserved;
    var s := ReachedInv(workers, clients, run);
    FreeIff(s);
  }

  lemma FreeIff(s: State)
    requires Locked(s)
    ensures s.mutex == Free
       <==> (forall j: nat :: j < |s.workers| ==> s.workers[j] != Check)
            && (forall j: nat :: j < |s.clients| ==> s.clients[j] != Push) && s.keeper != KCheck
  {
    if s.mutex != Free {
      match s.mutex.who
      case AWorker(i) => assert s.workers[i] == Check;
      case AClient(i) => assert s.clients[i] == Push;
      case TheKeeper =>
    }
  }

  // ----- runs that are there

  lemma {:induction false} Joined(s: State, a: seq<Move>, b: seq<Move>)
    requires Possible(s, a) && Possible(End(s, a), b)
    ensures Possible(s, a + b) && End(s, a + b) == End(End(s, a), b)
    decreases |a|
  {
    hide Enabled, After;
    if a == [] {
      assert a + b == b;
    } else {
      assert (a + b)[0] == a[0] && (a + b)[1..] == a[1..] + b;
      Joined(After(s, a[0].0, a[0].1), a[1..], b);
    }
  }

  lemma OneMove(s: State, who: Thread, a: Act)
    requires Enabled(s, who, a)
    ensures Possible(s, [(who, a)]) && End(s, [(who, a)]) == After(s, who, a)
  {
    hide Enabled, After;
    assert [(who, a)][1..] == [];
  }

  lemma OneMoreMove(s: State, run: seq<Move>, who: Thread, a: Act) returns (run': seq<Move>)
    requires Possible(s, run) && Enabled(End(s, run), who, a)
    ensures Possible(s, run') && End(s, run') == After(End(s, run), who, a) && run' == run + [(who, a)]
  {
    OneMove(End(s, run), who, a);
    run' := run + [(who, a)];
    Joined(s, run, [(who, a)]);
  }

  /** `n` tasks have been accepted, and no worker has moved. */
  ghost function Offered(workers: nat, n: nat): State {
    Init(workers, 1).(queue := seq(n, i => i), accepted := n)
  }

  /** Any number of tasks is accepted before the first is taken. */
  lemma {:induction false} AcceptsAnyNumber(workers: nat, n: nat) returns (run: seq<Move>)
    ensures Possible(Init(workers, 1), run) && forall i :: 0 <= i < |run| ==> run[i].0 == AClient(0)
    ensures End(Init(workers, 1), run).accepted == n && End(Init(workers, 1), run) == Offered(workers, n)
  {
    var s := Init(workers, 1);
    if n == 0 {
      run := [];
      assert s == Offered(workers, 0);
    } else {
      run := AcceptsAnyNumber(workers, n - 1);
      hide Possible, End;
      run := OneMoreMove(s, run, AClient(0), Go);
      run := OneMoreMove(s, run, AClient(0), Go);
      run := OneMoreMove(s, run, AClient(0), Go);
      run := OneMoreMove(s, run, AClient(0), Go);
      assert End(s, run).queue == Offered(workers, n).queue;
    }
  }

  /** Of `n` workers the first `k` run one of `n` tasks each. */
  ghost function Sharing(n: nat, k: nat): State
    requires k <= n
  {
    Init(n, 1).(queue := seq(n - k, i => k + i), accepted := n, log := seq(k, i => i),
                workers := seq(n, i requires 0 <= i < n => if i < k then Run(i) else Want))
  }

  /** All workers can be at work at once, each on a task of its own. */
  lemma {:induction false} WorkTogether(n: nat, k: nat) returns (run: seq<Move>)
    requires k <= n
    ensures Possible(Init(n, 1), run) && End(Init(n, 1), run) == Sharing(n, k)
    ensures forall i :: 0 <= i < k ==> End(Init(n, 1), run).workers[i] == Run(i)
  {
    var s := Init(n, 1);
    if k == 0 {
      run := AcceptsAnyNumber(n, n);
      assert Offered(n, n) == Sharing(n, 0);
    } else {
      run := WorkTogether(n, k - 1);
      hide Possible, End, Enabled, After;
      OneMoreAtWork(n, k - 1);
      run := OneMoreMove(s, run, AWorker(k - 1), Go);
      run := OneMoreMove(s, run, AWorker(k - 1), Go);
      if k == n {
        run := OneMoreMove(s, run, AWorker(k - 1), Go);
      }
    }
  }

  /** The next worker takes the mutex and then its task; the one that takes the last task notifies the destructor. */
  lemma OneMoreAtWork(n: nat, k: nat)
    requires k < n
    ensures var s, who := Sharing(n, k), AWorker(k);
            && Enabled(s, who, Go) && var s1 := After(s, who, Go);
            && Enabled(s1, who, Go) && var s2 := After(s1, who, Go);
            if k + 1 < n then s2 == Sharing(n, k + 1) else Enabled(s2, who, Go) && After(s2, who, Go) == Sharing(n, k + 1)
  {
    var s, t := Sharing(n, k), Sharing(n, k + 1);
    assert s.queue[0] == k && s.queue[1..] == t.queue;
    assert s.log + [k] == t.log;
    var s2 := WorkerStep(WorkerStep(s, k, Go), k, Go);
    if k + 1 < n {
      assert s2.workers == t.workers;
    } else {
      assert WorkerStep(s2, k, Go).workers == t.workers;
    }
  }

  // ----- every task gets done

  function WorkerLeft(w: Worker): nat {
    match w
    case Asleep => 0
    case Gone => 0
    case Check => 1
    case Want => 2
    case Run(_) => 3
    case Signal(_) => 6
  }

  function ClientLeft(c: Client): nat {
    match c
    case Out => 0
    case Notify => 3
    case Push => 10
    case Offer => 11
  }

  function KeeperLeft(k: Keeper, workers: nat): nat {
    match k
    case Finished => 0
    case Join(i) => 1 + if i < workers then workers - i else 0
    case KNotify => 3 * workers + 2
    case KAsleep => 3 * workers + 3
    case KCheck => 3 * workers + 4
    case KWant => 3 * workers + 5
    case Ready => 3 * workers + 6
  }

  function WorkersLeft(workers: seq<Worker>): nat {
    if workers == [] then 0 else WorkerLeft(workers[0]) + WorkersLeft(workers[1..])
  }

  function ClientsLeft(clients: seq<Client>): nat {
    if clients == [] then 0 else ClientLeft(clients[0]) + ClientsLeft(clients[1..])
  }

  /** How many steps are left for what has been offered. */
  function StepsLeft(s: State): nat {
    6 * |s.queue| + WorkersLeft(s.workers) + ClientsLeft(s.clients) + KeeperLeft(s.keeper, |s.workers|)
  }

  lemma {:induction false} WorkerChanged(workers: seq<Worker>, i: nat, w: Worker)
    requires i < |workers|
    ensures WorkersLeft(workers[i := w]) == WorkersLeft(workers) - WorkerLeft(workers[i]) + WorkerLeft(w)
  {
    if i == 0 {
      assert workers[0 := w][1..] == workers[1..];
    } else {
      WorkerChanged(workers[1..], i - 1, w);
      assert workers[i := w][1..] == workers[1..][i - 1 := w];
    }
  }

  lemma {:induction false} ClientChanged(clients: seq<Client>, i: nat, c: Client)
    requires i < |clients|
    ensures ClientsLeft(clients[i := c]) == ClientsLeft(clients) - ClientLeft(clients[i]) + ClientLeft(c)
  {
    if i == 0 {
      assert clients[0 := c][1..] == clients[1..];
    } else {
      ClientChanged(clients[1..], i - 1, c);
      assert clients[i := c][1..] == clients[1..][i - 1 := c];
    }
  }

  lemma {:induction false} WokenLeft(workers: seq<Worker>)
    ensures WorkersLeft(WokenAll(workers)) <= WorkersLeft(workers) + 2 * |workers|
  {
    if workers != [] {
      WokenLeft(workers[1..]);
      assert WokenAll(workers)[1..] == WokenAll(workers[1..]);
    }
  }

  /** A step that is neither a new offer nor a wakeup without a reason. */
  ghost predicate Settles(s: State, who: Thread, a: Act) {
    Enabled(s, who, a) && a != Spurious && (who.AClient? ==> s.clients[who.i] != Out)
  }

  lemma SettlingIsLess(s: State, who: Thread, a: Act)
    requires Settles(s, who, a)
    ensures StepsLeft(After(s, who, a)) < StepsLeft(s)
  {
    hide StepsLeft;
    match who
    case AWorker(i) => WorkerIsLess(s, i, a);
    case AClient(i) => ClientIsLess(s, i, a);
    case TheKeeper => KeeperIsLess(s, a);
  }

  lemma WorkerIsLess(s: State, i: nat, a: Act)
    requires WorkerEnabled(s, i, a) && a != Spurious
    ensures StepsLeft(WorkerStep(s, i, a)) < StepsLeft(s)
  {
    hide WorkersLeft, ClientsLeft;
    WorkerChanged(s.workers, i, WorkerStep(s, i, a).workers[i]);
  }

  lemma ClientIsLess(s: State, i: nat, a: Act)
    requires ClientEnabled(s, i, a) && s.clients[i] != Out
    ensures StepsLeft(ClientStep(s, i, a)) < StepsLeft(s)
  {
    hide WorkersLeft, ClientsLeft;
    ClientChanged(s.clients, i, ClientStep(s, i, a).clients[i]);
    if a.Wake? && s.clients[i] == Notify {
      WorkerChanged(s.workers, a.w, Want);
    }
  }

  lemma KeeperIsLess(s: State, a: Act)
    requires KeeperEnabled(s, a) && a != Spurious
    ensures StepsLeft(KeeperStep(s, a)) < StepsLeft(s)
  {
    hide WorkersLeft, ClientsLeft;
    WokenLeft(s.workers);
  }

  ghost predicate Settling(s: State, run: seq<Move>)
    decreases |run|
  {
    run == [] || (Settles(s, run[0].0, run[0].1) && Settling(After(s, run[0].0, run[0].1), run[1..]))
  }

  lemma {:induction false} SettlingEnds(s: State, run: seq<Move>)
    requires Settling(s, run)
    ensures Possible(s, run) && StepsLeft(End(s, run)) + |run| <= StepsLeft(s)
    decreases |run|
  {
    hide StepsLeft, Enabled, After;
    if run != [] {
      SettlingIsLess(s, run[0].0, run[0].1);
      SettlingEnds(After(s, run[0].0, run[0].1), run[1..]);
    }
  }

  /** From every reachable state, with at least one worker: when no more is offered, every run of any scheduling comes to an end
      within a bound, and when nothing can move any more, every accepted task is done. */
  lemma EveryTaskGetsDone(workers: nat, clients: nat, run: seq<Move>, more: seq<Move>)
    requires workers > 0 && Possible(Init(workers, clients), run) && Settling(End(Init(workers, clients), run), more)
    ensures var s := End(Init(workers, clients), run);
            Possible(s, more) && |more| <= StepsLeft(s)
    ensures var e := End(End(Init(workers, clients), run), more);
            Alive(e) || forall task: nat :: task in e.done <==> task < e.accepted
  {
    hide Possible, End, Settling, StepsLeft, Inv, Alive, BusySet;
    var s := ReachedInv(workers, clients, run);
    SettlingEnds(s, more);
    RunKeeps(s, more);
    var e := End(s, more);
    InvAlive(e);
    if !Alive(e) {
      AllDoneAtRest(e);
    }
  }

  lemma AllDoneAtRest(s: State)
    requires Inv(s) && s.queue == [] && BusySet(s.workers) == {}
    ensures forall task: nat :: task in s.done <==> task < s.accepted
  {
    forall task: nat
      ensures task in s.done <==> task < s.accepted
    {
      assert Handled(s, task);
      forall i: nat
        ensures !Works(s.workers, i, task)
      {
        assert i < |s.workers| && Busy(s.workers[i]) <==> i in BusySet(s.workers);
      }
    }
  }
}
