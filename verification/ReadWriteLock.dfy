/** The reader-writer lock, as a system of atomic steps: any number of threads take, hold and give back the lock in any
    order, and a thread that waits on the condition may wake without a reason. */
module ReadWriteLock {
  import opened Basics

  datatype Mode = Read | Write

  /** Where a thread is. `readLock` and `writeLock` run from `Enter` to `Granted`, the unlock operations from `Leaving` to
      `Notify`. */
  datatype Place =
    | Idle
    | Enter(m: Mode)      // wants `rwLock`, shared or exclusive
    | Want(m: Mode)       // has `rwLock`, wants the mutex
    | Check(m: Mode)      // has both, looks at the counters
    | Sleep(m: Mode)      // has `rwLock`, waits on the condition
    | Granted(m: Mode)    // counted, still has `rwLock`
    | Inside(m: Mode)     // counted, holds the lock
    | Leaving(m: Mode)    // counted, wants the mutex
    | Counting(m: Mode)   // counted, has the mutex
    | Notify              // no longer counted, about to notify all

  datatype State = State(places: seq<Place>, reader: int, writer: int, mutex: Option<nat>, shared: set<nat>,
                         exclusive: Option<nat>)

  datatype Act = Go | Begin(m: Mode) | Spurious

  function Init(threads: nat): State {
    State(seq(threads, _ => Idle), 0, 0, None, {}, None)
  }

  /** The condition a thread waits for. */
  predicate MayPass(s: State, m: Mode) {
    s.writer == 0 && (m == Write ==> s.reader == 0)
  }

  predicate Enabled(s: State, t: nat, a: Act) {
    t < |s.places| &&
    match s.places[t]
    case Idle => a.Begin?
    case Enter(m) => a == Go && s.exclusive == None && (m == Write ==> s.shared == {})
    case Want(_) => a == Go && s.mutex == None
    case Leaving(_) => a == Go && s.mutex == None
    case Sleep(_) => a == Spurious
    case _ => a == Go
  }

  function WakeAll(places: seq<Place>): (r: seq<Place>)
    ensures |r| == |places|
    ensures forall t :: 0 <= t < |r| ==> r[t] == if places[t].Sleep? then Want(places[t].m) else places[t]
  {
    seq(|places|, t requires 0 <= t < |places| => if places[t].Sleep? then Want(places[t].m) else places[t])
  }

  function To(s: State, t: nat, p: Place): State
    requires t < |s.places|
  {
    s.(places := s.places[t := p])
  }

  function Count(s: State, m: Mode, d: int): State {
    if m == Read then s.(reader := s.reader + d) else s.(writer := s.writer + d)
  }

  function After(s: State, t: nat, a: Act): State
    requires Enabled(s, t, a)
  {
    match s.places[t]
    case Idle => To(s, t, Enter(a.m))
    case Enter(m) =>
      To(if m == Read then s.(shared := s.shared + {t}) else s.(exclusive := Some(t)), t, Want(m))
    case Want(m) => To(s.(mutex := Some(t)), t, Check(m))
    case Check(m) =>
      if MayPass(s, m) then To(Count(s, m, 1).(mutex := None), t, Granted(m)) else To(s.(mutex := None), t, Sleep(m))
    case Sleep(m) => To(s, t, Want(m))
    case Granted(m) =>
      To(if m == Read then s.(shared := s.shared - {t}) else s.(exclusive := None), t, Inside(m))
    case Inside(m) => To(s, t, Leaving(m))
    case Leaving(m) => To(s.(mutex := Some(t)), t, Counting(m))
    case Counting(m) => To(Count(s, m, -1).(mutex := None), t, Notify)
    case Notify => To(s.(places := WakeAll(s.places)), t, Idle)
  }

  // ----- the invariant

  predicate HasMutex(p: Place) {
    p.Check? || p.Counting?
  }

  predicate HasRwLock(p: Place, m: Mode) {
    (p.Want? || p.Check? || p.Sleep? || p.Granted?) && p.m == m
  }

  predicate Counted(p: Place, m: Mode) {
    (p.Granted? || p.Inside? || p.Leaving? || p.Counting?) && p.m == m
  }

  ghost function Members(places: seq<Place>, m: Mode): set<nat> {
    set t: nat | t < |places| && Counted(places[t], m)
  }

  /** The owners written in the locks are those whose place says so. */
  ghost predicate Owns(s: State, t: nat) {
    var has := t < |s.places|;
    && (s.mutex == Some(t) <==> has && HasMutex(s.places[t]))
    && (t in s.shared <==> has && HasRwLock(s.places[t], Read))
    && (s.exclusive == Some(t) <==> has && HasRwLock(s.places[t], Write))
  }

  ghost predicate Tallied(s: State) {
    s.reader == |Members(s.places, Read)| && s.writer == |Members(s.places, Write)|
  }

  /** Neither two writers nor a reader beside a writer. */
  predicate Excluded(s: State) {
    0 <= s.writer <= 1 && 0 <= s.reader && (s.writer == 1 ==> s.reader == 0)
  }

  ghost predicate Notifying(s: State) {
    exists t :: 0 <= t < |s.places| && s.places[t] == Notify
  }

  /** Whoever sleeps although it could pass is about to be woken. */
  ghost predicate Remembered(s: State, t: nat) {
    t < |s.places| && s.places[t].Sleep? && MayPass(s, s.places[t].m) ==> Notifying(s)
  }

  ghost predicate Inv(s: State) {
    && (forall t: nat :: Owns(s, t))
    && (s.shared != {} ==> s.exclusive == None)
    && Tallied(s) && Excluded(s)
    && (forall t: nat :: Remembered(s, t))
  }

  lemma InitInv(threads: nat)
    ensures Inv(Init(threads))
  {
    var s := Init(threads);
    assert Members(s.places, Read) == {} && Members(s.places, Write) == {};
  }

  /** How the sets of counted threads follow a move. */
  lemma Moved(places: seq<Place>, t: nat, p: Place, m: Mode)
    requires t < |places|
    ensures var r := Members(places[t := p], m);
            |r| == |Members(places, m)| + (if Counted(p, m) then 1 else 0) - (if Counted(places[t], m) then 1 else 0)
  {
    hide Counted;
    var a, r := Members(places, m), Members(places[t := p], m);
    OthersSame(places, t, p, m);
    SizeBut(a, t);
    SizeBut(r, t);
  }

  lemma OthersSame(places: seq<Place>, t: nat, p: Place, m: Mode)
    requires t < |places|
    ensures Members(places[t := p], m) - {t} == Members(places, m) - {t}
    ensures (t in Members(places, m) <==> Counted(places[t], m)) && (t in Members(places[t := p], m) <==> Counted(p, m))
  {
    hide Counted;
  }

  lemma SizeBut(a: set<nat>, t: nat)
    ensures |a| == |a - {t}| + if t in a then 1 else 0
  {
  }

  lemma Woken(places: seq<Place>, m: Mode)
    ensures Members(WakeAll(places), m) == Members(places, m)
  {
  }

  lemma StepTallied(s: State, t: nat, a: Act)
    requires Tallied(s) && Enabled(s, t, a)
    ensures Tallied(After(s, t, a))
  {
    hide Members;
    var s' := After(s, t, a);
    if s.places[t] == Notify {
      Woken(s.places, Read);
      Woken(s.places, Write);
      Moved(WakeAll(s.places), t, Idle, Read);
      Moved(WakeAll(s.places), t, Idle, Write);
    } else {
      Moved(s.places, t, s'.places[t], Read);
      Moved(s.places, t, s'.places[t], Write);
    }
  }

  lemma StepOwns(s: State, t: nat, a: Act, u: nat)
    requires Owns(s, t) && Owns(s, u) && Enabled(s, t, a)
    ensures Owns(After(s, t, a), u)
  {
  }

  lemma StepExcluded(s: State, t: nat, a: Act)
    requires Inv(s) && Enabled(s, t, a)
    ensures Excluded(After(s, t, a))
  {
    hide Owns, Remembered;
    if s.places[t].Counting? {
      var m := s.places[t].m;
      assert t in Members(s.places, m);
      assert Members(s.places, m) != {};
    }
  }

  lemma StepRemembered(s: State, t: nat, a: Act, u: nat)
    requires Inv(s) && Enabled(s, t, a)
    ensures Remembered(After(s, t, a), u)
  {
    hide Owns, Members, Tallied;
    var s' := After(s, t, a);
    assert Remembered(s, u);
    if s.places[t].Counting? {
      assert s'.places[t] == Notify;
    } else if s.places[t] != Notify && Notifying(s) {
      var n :| 0 <= n < |s.places| && s.places[n] == Notify;
      assert s'.places[n] == Notify;
    }
  }

  /** Every step keeps the invariant. */
  lemma StepKeeps(s: State, t: nat, a: Act)
    requires Inv(s) && Enabled(s, t, a)
    ensures Inv(After(s, t, a))
  {
    hide Owns, Tallied, Excluded, Remembered;
    var s' := After(s, t, a);
    StepTallied(s, t, a);
    StepExcluded(s, t, a);
    forall u: nat
      ensures Owns(s', u)
    {
      assert Owns(s, t) && Owns(s, u);
      StepOwns(s, t, a, u);
    }
    forall u: nat
      ensures Remembered(s', u)
    {
      StepRemembered(s, t, a, u);
    }
  }

  // ----- runs

  type Move = (nat, Act)

  ghost predicate Possible(s: State, run: seq<Move>)
    decreases |run|
  {
    run == [] || (Enabled(s, run[0].0, run[0].1) && Possible(After(s, run[0].0, run[0].1), run[1..]))
  }

  ghost function End(s: State, run: seq<Move>): State
    requires Possible(s, run)
    decreases |run|
  {
    if run == [] then s else End(After(s, run[0].0, run[0].1), run[1..])
  }

  lemma {:induction false} RunKeeps(s: State, run: seq<Move>)
    requires Inv(s) && Possible(s, run)
    ensures Inv(End(s, run))
    decreases |run|
  {
    hide Inv;
    if run != [] {
      StepKeeps(s, run[0].0, run[0].1);
      RunKeeps(After(s, run[0].0, run[0].1), run[1..]);
    }
  }

  predicate Holding(s: State, t: nat, m: Mode) {
    t < |s.places| && Counted(s.places[t], m)
  }

  /** In every interleaving of any number of threads: while a thread is in with the write lock no other one is in. */
  lemma MutualExclusion(threads: nat, run: seq<Move>, t: nat, u: nat)
    requires Possible(Init(threads), run) && t != u
    ensures var s := End(Init(threads), run); Holding(s, t, Write) ==> !Holding(s, u, Write) && !Holding(s, u, Read)
  {
    InitInv(threads);
    RunKeeps(Init(threads), run);
    var s := End(Init(threads), run);
    if Holding(s, t, Write) {
      assert {t} <= Members(s.places, Write);
      SubsetSize({t}, Members(s.places, Write));
      if Holding(s, u, Write) {
        SubsetSize({t, u}, Members(s.places, Write));
      }
      if Holding(s, u, Read) {
        SubsetSize({u}, Members(s.places, Read));
      }
    }
  }

  /** While a thread has `rwLock` exclusively, no step of any thread lets another reader in. */
  lemma ReadersDoNotGrow(threads: nat, run: seq<Move>, t: nat, a: Act, w: nat)
    requires Possible(Init(threads), run)
    requires var s := End(Init(threads), run); Enabled(s, t, a) && w < |s.places| && HasRwLock(s.places[w], Write)
    ensures var s := End(Init(threads), run); After(s, t, a).reader <= s.reader
  {
    InitInv(threads);
    RunKeeps(Init(threads), run);
    var s := End(Init(threads), run);
    assert Owns(s, w) && Owns(s, t);
  }

  /** Some thread can move of its own accord, without entering anew and without waking for no reason. */
  ghost predicate Alive(s: State) {
    exists t :: 0 <= t < |s.places| && Enabled(s, t, Go)
  }

  /** No reachable state is stuck with every holder gone: unless every thread is idle, some thread can move on. */
  lemma NeverStuck(threads: nat, run: seq<Move>)
    requires Possible(Init(threads), run)
    requires var s := End(Init(threads), run); forall t :: 0 <= t < |s.places| ==> !s.places[t].Inside?
    ensures var s := End(Init(threads), run); (forall t :: 0 <= t < |s.places| ==> s.places[t].Idle?) || Alive(s)
  {
    hide Possible, End;
    InitInv(threads);
    RunKeeps(Init(threads), run);
    InvAlive(End(Init(threads), run));
  }

  /** A thread that is outside, or waits for `rwLock` or for the condition. */
  predicate Resting(p: Place) {
    p.Idle? || p.Enter? || p.Sleep?
  }

  lemma InvAlive(s: State)
    requires Inv(s)
    ensures (forall t :: 0 <= t < |s.places| ==> s.places[t].Idle?) || Alive(s)
  {
    hide Owns, Tallied, Excluded, Remembered;
    if i :| 0 <= i < |s.places| && !Resting(s.places[i]) {
      BusyAlive(s, i);
    } else {
      RestingFree(s);
      if i :| 0 <= i < |s.places| && s.places[i].Enter? {
        assert Enabled(s, i, Go);
      }
    }
  }

  /** Whoever wants the mutex moves, or its owner does. */
  lemma BusyAlive(s: State, i: nat)
    requires Inv(s) && i < |s.places| && !Resting(s.places[i])
    ensures Alive(s)
  {
    hide Tallied, Excluded, Remembered;
    if s.places[i].Want? || s.places[i].Leaving? {
      if s.mutex == None {
        assert Enabled(s, i, Go);
      } else {
        assert Owns(s, s.mutex.value);
        assert Enabled(s, s.mutex.value, Go);
      }
    } else {
      assert Enabled(s, i, Go);
    }
  }

  /** When all threads rest, none sleeps and `rwLock` is free. */
  lemma RestingFree(s: State)
    requires Inv(s) && forall i :: 0 <= i < |s.places| ==> Resting(s.places[i])
    ensures s.exclusive == None && s.shared == {} && forall i :: 0 <= i < |s.places| ==> !s.places[i].Sleep?
  {
    assert Members(s.places, Read) == {} && Members(s.places, Write) == {};
    forall i: nat | i < |s.places|
      ensures !s.places[i].Sleep?
    {
      assert Remembered(s, i);
    }
    forall i: nat
      ensures i !in s.shared && s.exclusive != Some(i)
    {
      assert Owns(s, i);
    }
  }

  // ----- who is let in, and when

  lemma NoneCounted(s: State, m: Mode)
    requires Tallied(s)
    ensures (m == Read ==> (s.reader == 0 <==> forall u: nat :: !Holding(s, u, Read)))
    ensures (m == Write ==> (s.writer == 0 <==> forall u: nat :: !Holding(s, u, Write)))
  {
    var all := Members(s.places, m);
    if all != {} {
      var u :| u in all;
      assert Holding(s, u, m);
    }
    forall u: nat | Holding(s, u, m)
      ensures u in all
    {
    }
  }

  /** No thread is in that `m` may not stand beside: readers share the lock with readers. */
  ghost predicate RoomFor(s: State, m: Mode) {
    (forall u: nat :: !Holding(s, u, Write)) && (m == Write ==> forall u: nat :: !Holding(s, u, Read))
  }

  /** In every reachable state a thread that looks at the counters is let in exactly when there is room, however many readers
      are in; otherwise it goes to sleep. Either way it gives the mutex back. */
  lemma LetInIff(threads: nat, run: seq<Move>, t: nat)
    requires Possible(Init(threads), run)
    requires var s := End(Init(threads), run); t < |s.places| && s.places[t].Check?
    ensures var s := End(Init(threads), run); var m := s.places[t].m; var r := After(s, t, Go);
            && r.places[t] == (if RoomFor(s, m) then Granted(m) else Sleep(m)) && r.mutex == None
            && forall u: nat :: u != t && u < |s.places| ==> r.places[u] == s.places[u]
  {
    hide Possible, End, Members;
    InitInv(threads);
    RunKeeps(Init(threads), run);
    var s := End(Init(threads), run);
    NoneCounted(s, Read);
    NoneCounted(s, Write);
  }

  /** What a thread waits for on its way, in every reachable state: `rwLock` for reading until no writer has it, for writing until
      nobody has it, and the mutex until nobody has it. */
  lemma WaitsExactly(threads: nat, run: seq<Move>, t: nat)
    requires Possible(Init(threads), run)
    requires t < |End(Init(threads), run).places|
    ensures var s := End(Init(threads), run); var p := s.places[t];
            && (p == Enter(Read) ==> (Enabled(s, t, Go) <==> forall u: nat :: u < |s.places| ==> !HasRwLock(s.places[u], Write)))
            && (p == Enter(Write) ==> (Enabled(s, t, Go) <==> forall u: nat :: u < |s.places| ==>
                                         !HasRwLock(s.places[u], Write) && !HasRwLock(s.places[u], Read)))
            && (p.Want? || p.Leaving? ==> (Enabled(s, t, Go) <==> forall u: nat :: u < |s.places| ==> !HasMutex(s.places[u])))
  {
    hide Possible, End, Tallied, Remembered;
    InitInv(threads);
    RunKeeps(Init(threads), run);
    OwnersAre(End(Init(threads), run));
  }

  lemma OwnersAre(s: State)
    requires forall t: nat :: Owns(s, t)
    ensures s.mutex == None <==> forall u: nat :: u < |s.places| ==> !HasMutex(s.places[u])
    ensures s.exclusive == None <==> forall u: nat :: u < |s.places| ==> !HasRwLock(s.places[u], Write)
    ensures s.shared == {} <==> forall u: nat :: u < |s.places| ==> !HasRwLock(s.places[u], Read)
  {
    forall u: nat | u < |s.places|
      ensures HasMutex(s.places[u]) ==> s.mutex != None
      ensures HasRwLock(s.places[u], Write) ==> s.exclusive != None
      ensures HasRwLock(s.places[u], Read) ==> s.shared != {}
    {
      assert Owns(s, u);
    }
    assert s.mutex != None ==> Owns(s, s.mutex.value);
    assert s.exclusive != None ==> Owns(s, s.exclusive.value);
    if s.shared != {} {
      var u :| u in s.shared;
      assert Owns(s, u);
    }
  }

  // ----- runs that are there

  lemma {:induction false} Joined(s: State, a: seq<Move>, b: seq<Move>)
    requires Possible(s, a) && Possible(End(s, a), b)
    ensures Possible(s, a + b) && End(s, a + b) == End(End(s, a), b)
    decreases |a|
  {
    hide Enabled, After;
    if a == [] {
      assert a + b == b;
    } else {
      assert (a + b)[0] == a[0] && (a + b)[1..] == a[1..] + b;
      Joined(After(s, a[0].0, a[0].1), a[1..], b);
    }
  }

  lemma OneMove(s: State, t: nat, a: Act)
    requires Enabled(s, t, a)
    ensures Possible(s, [(t, a)]) && End(s, [(t, a)]) == After(s, t, a)
  {
    hide Enabled, After;
    assert [(t, a)][1..] == [];
  }

  /** The first `k` threads have been let in for reading and still have `rwLock`, the others are outside. */
  ghost function ReadersIn(n: nat, k: nat): State
    requires k <= n
  {
    State(seq(n, t requires 0 <= t < n => if t < k then Granted(Read) else Idle), k, 0, None, Below(k), None)
  }

  /** The four steps of a reader from outside to where it is let in, with any number of readers beside it. */
  lemma OneMoreReader(n: nat, k: nat) returns (run: seq<Move>)
    requires k < n
    ensures Possible(ReadersIn(n, k), run) && End(ReadersIn(n, k), run) == ReadersIn(n, k + 1)
  {
    var s := ReadersIn(n, k);
    run := [(k, Begin(Read)), (k, Go), (k, Go), (k, Go)];
    var s1 := After(s, k, Begin(Read));
    var s2 := After(s1, k, Go);
    var s3 := After(s2, k, Go);
    var s4 := After(s3, k, Go);
    assert s4 == ReadersIn(n, k + 1);
    hide Enabled, After;
    assert run[1..] == [(k, Go), (k, Go), (k, Go)] && run[1..][1..] == [(k, Go), (k, Go)];
    OneMove(s3, k, Go);
    assert run[1..][1..][1..] == [(k, Go)];
    assert Possible(s2, run[1..][1..]) && End(s2, run[1..][1..]) == s4;
    assert Possible(s1, run[1..]) && End(s1, run[1..]) == s4;
  }

  /** Any number of threads can be in for reading at once, `rwLock` being shared by all of them. */
  lemma {:induction false} ReadersShare(n: nat, k: nat) returns (run: seq<Move>)
    requires k <= n
    ensures Possible(Init(n), run)
    ensures var s := End(Init(n), run);
            |s.places| == n && s.reader == k && forall t: nat :: t < k ==> Holding(s, t, Read) && HasRwLock(s.places[t], Read)
    ensures End(Init(n), run) == ReadersIn(n, k)
  {
    if k == 0 {
      run := [];
      assert Init(n) == ReadersIn(n, 0);
    } else {
      var before := ReadersShare(n, k - 1);
      var more := OneMoreReader(n, k - 1);
      Joined(Init(n), before, more);
      run := before + more;
    }
  }

  // ----- every thread gets on

  /** How far a thread is from being outside. */
  function Distance(p: Place): nat {
    match p
    case Idle => 0
    case Notify => 1
    case Counting(_) => 2
    case Leaving(_) => 3
    case Inside(_) => 4
    case Granted(_) => 5
    case Sleep(_) => 6
    case Check(_) => 7
    case Want(_) => 8
    case Enter(_) => 9
  }

  function Distances(places: seq<Place>): (d: nat)
    ensures d <= 9 * |places|
  {
    if places == [] then 0 else Distance(places[0]) + Distances(places[1..])
  }

  function Busy(places: seq<Place>): nat {
    if places == [] then 0 else (if places[0].Idle? then 0 else 1) + Busy(places[1..])
  }

  lemma {:induction false} PlaceChanged(places: seq<Place>, t: nat, p: Place)
    requires t < |places|
    ensures Distances(places[t := p]) == Distances(places) - Distance(places[t]) + Distance(p)
    ensures Busy(places[t := p]) == Busy(places) - (if places[t].Idle? then 0 else 1) + (if p.Idle? then 0 else 1)
  {
    if t == 0 {
      assert places[0 := p][1..] == places[1..];
    } else {
      PlaceChanged(places[1..], t - 1, p);
      assert places[t := p][1..] == places[1..][t - 1 := p];
    }
  }

  lemma {:induction false} WokenBusy(places: seq<Place>)
    ensures Busy(WakeAll(places)) == Busy(places)
  {
    if places != [] {
      WokenBusy(places[1..]);
      assert WakeAll(places)[1..] == WakeAll(places[1..]);
    }
  }

  /** How many steps the threads that are on their way can take before all are outside. */
  function Left(s: State): nat {
    Busy(s.places) * (9 * |s.places| + 1) + Distances(s.places)
  }

  lemma StepsLess(s: State, t: nat)
    requires Enabled(s, t, Go)
    ensures Left(After(s, t, Go)) < Left(s) && |After(s, t, Go).places| == |s.places|
  {
    hide Distances, Busy;
    var s' := After(s, t, Go);
    var n := 9 * |s.places| + 1;
    if s.places[t] == Notify {
      var w := WakeAll(s.places);
      WokenBusy(s.places);
      PlaceChanged(w, t, Idle);
      assert Busy(s'.places) == Busy(s.places) - 1;
      assert Busy(s'.places) * n == Busy(s.places) * n - n;
    } else {
      PlaceChanged(s.places, t, s'.places[t]);
    }
  }

  ghost predicate OnlyGo(run: seq<Move>) {
    forall i :: 0 <= i < |run| ==> run[i].1 == Go
  }

  /** With nobody entering anew and no wakeup without a reason, every run of any scheduling comes to an end, within a bound. */
  lemma {:induction false} RunsEnd(s: State, run: seq<Move>)
    requires Possible(s, run) && OnlyGo(run)
    ensures Left(End(s, run)) + |run| <= Left(s)
    decreases |run|
  {
    hide Left, Enabled, After;
    if run != [] {
      StepsLess(s, run[0].0);
      RunsEnd(After(s, run[0].0, Go), run[1..]);
    }
  }

  /** And when none can move any more, all are outside: from every reachable state, whoever wants the lock gets it and gives it
      back, whatever the scheduling. */
  lemma NobodyWaitsForever(threads: nat, run: seq<Move>, more: seq<Move>)
    requires Possible(Init(threads), run) && OnlyGo(more) && Possible(End(Init(threads), run), more)
    ensures var s := End(Init(threads), run); var e := End(s, more);
            |more| <= Left(s) && ((forall t: nat :: !Enabled(e, t, Go)) ==> forall t :: 0 <= t < |e.places| ==> e.places[t].Idle?)
  {
    hide Possible, End, Left, Enabled;
    InitInv(threads);
    RunKeeps(Init(threads), run);
    var s := End(Init(threads), run);
    RunsEnd(s, more);
    RunKeeps(s, more);
    InvAlive(End(s, more));
  }

  /** A thread outside can get the lock for itself whenever all are outside. */
  lemma WriterEnters(n: nat, t: nat) returns (run: seq<Move>)
    requires t < n
    ensures Possible(Init(n), run) && Holding(End(Init(n), run), t, Write)
  {
    var s := Init(n);
    run := [(t, Begin(Write)), (t, Go), (t, Go), (t, Go)];
    var s1 := After(s, t, Begin(Write));
    var s2 := After(s1, t, Go);
    var s3 := After(s2, t, Go);
    var s4 := After(s3, t, Go);
    assert Holding(s4, t, Write);
    hide Enabled, After;
    assert run[1..] == [(t, Go), (t, Go), (t, Go)] && run[1..][1..] == [(t, Go), (t, Go)];
    OneMove(s3, t, Go);
    assert run[1..][1..][1..] == [(t, Go)];
    assert Possible(s2, run[1..][1..]) && End(s2, run[1..][1..]) == s4;
    assert Possible(s1, run[1..]) && End(s1, run[1..]) == s4;
  }
}
