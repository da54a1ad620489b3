/** The recursive mutex (pthread build) as a step system.

    Any number of threads run `lock`, `tryLock` and `unlock` at once.  One step is one read or
    write of a field, or one call on the pthread mutex; steps of different threads interleave
    freely.  `_thread_id` is read outside the lock, which is what makes it interesting. */
module Mutex {

  type Thread = t: int | t > 0 witness 1

  const NULL_THREAD := 0

  /** Where a thread is inside an operation; `Idle` between operations. */
  datatype Pc =
    | Idle
    | LockRead                    // lock: compare _thread_id
    | LockAcquire                 // lock: pthread_mutex_lock
    | TryRead                     // tryLock: compare _thread_id
    | TryAcquire                  // tryLock: pthread_mutex_trylock
    | TakeOwner                   // _thread_id = id
    | SetFlag                     // _is_locked = true
    | CountRead | CountWrite(n: int)     // ++_counter
    | UnlockRead                  // unlock: compare _thread_id
    | UnlockCheck                 // unlock: _counter == 0 throws
    | DecRead | DecWrite(m: int)  // --_counter
    | UnlockTest                  // _counter == 0
    | ClearFlag | ClearOwner      // _is_locked = false; _thread_id = NULL_THREAD
    | ReleaseTest                 // _counter == 0, second read
    | Release                     // pthread_mutex_unlock

  /** The fields, the pthread mutex (holder and recursion count), every thread's place, and how
      deep each thread is nested: completed locks minus completed unlocks. */
  datatype State = State(owner: int, flag: bool, counter: int, holder: int, holds: int,
                         pc: map<Thread, Pc>, depth: map<Thread, nat>) {
    function At(t: Thread): (pc: Pc) {
      if t in pc then pc[t] else Idle
    }
    function Depth(t: Thread): (n: nat) {
      if t in depth then depth[t] else 0
    }
    function Goto(t: Thread, p: Pc): (next: State) {
      this.(pc := pc[t := p])
    }
    /** A lock that has returned. */
    function Entered(t: Thread): (next: State) {
      this.(pc := pc[t := Idle], depth := depth[t := Depth(t) + 1])
    }
    /** An unlock that has returned. */
    function Left(t: Thread): (next: State) {
      this.(pc := pc[t := Idle], depth := depth[t := if Depth(t) > 0 then Depth(t) - 1 else 0])
    }
    function Acquired(t: Thread): (next: State) {
      this.(holder := t, holds := holds + 1)
    }
  }

  function Init(): (s: State) {
    State(NULL_THREAD, false, 0, NULL_THREAD, 0, map[], map[])
  }

  /** The step of a thread that is inside an operation. */
  function Move(s: State, t: Thread): (next: State) {
    match s.At(t)
    case Idle => s
    case LockRead => s.Goto(t, if s.owner != t then LockAcquire else SetFlag)
    case TryRead => s.Goto(t, if s.owner != t then TryAcquire else SetFlag)
    case LockAcquire => s.Acquired(t).Goto(t, TakeOwner)
    case TryAcquire =>
      if s.holder == NULL_THREAD || s.holder == t then s.Acquired(t).Goto(t, TakeOwner) else s.Goto(t, Idle)
    case TakeOwner => s.(owner := t).Goto(t, SetFlag)
    case SetFlag => s.(flag := true).Goto(t, CountRead)
    case CountRead => s.Goto(t, CountWrite(s.counter))
    case CountWrite(n) => s.(counter := (n + 1) % 0x1_0000_0000).Entered(t)
    case UnlockRead => s.Goto(t, if s.owner != t then Idle else UnlockCheck)
    case UnlockCheck => s.Goto(t, if s.counter == 0 then Idle else DecRead)
    case DecRead => s.Goto(t, DecWrite(s.counter))
    case DecWrite(m) => s.(counter := (m - 1) % 0x1_0000_0000).Goto(t, UnlockTest)
    case UnlockTest => s.Goto(t, if s.counter == 0 then ClearFlag else ReleaseTest)
    case ClearFlag => s.(flag := false).Goto(t, ClearOwner)
    case ClearOwner => s.(owner := NULL_THREAD).Goto(t, ReleaseTest)
    case ReleaseTest => if s.counter == 0 then s.Goto(t, Release) else s.Left(t)
    case Release =>
      (if s.holder == t then s.(holds := s.holds - 1, holder := if s.holds == 1 then NULL_THREAD else t) else s).Left(t)
  }

  /** One step of thread `t`.  `pthread_mutex_lock` waits while another thread holds the mutex. */
  ghost predicate Step(s: State, s': State, t: Thread) {
    if s.At(t) == Idle then
      s' == s.Goto(t, LockRead) || s' == s.Goto(t, TryRead) || s' == s.Goto(t, UnlockRead)
    else
      (s.At(t) == LockAcquire ==> s.holder == NULL_THREAD || s.holder == t) && s' == Move(s, t)
  }

  /** The two places at which an unlock throws. */
  predicate Throws(s: State, t: Thread) {
    (s.At(t) == UnlockRead && s.owner != t) || (s.At(t) == UnlockCheck && s.counter == 0)
  }

  // ----- the invariant ---------------------------------------------------------------------------

  /** What holds of the thread that has the pthread mutex. */
  ghost predicate HolderInv(s: State, t: Thread) {
    var d := s.Depth(t);
    match s.At(t)
    case Idle => d > 0 && s.owner == t && s.flag && s.counter == d
    case LockRead => d > 0 && s.owner == t && s.flag && s.counter == d
    case TryRead => d > 0 && s.owner == t && s.flag && s.counter == d
    case LockAcquire => false
    case TryAcquire => false
    case TakeOwner => d == 0 && s.owner == NULL_THREAD && s.counter == 0
    case SetFlag => s.owner == t && s.counter == d
    case CountRead => s.owner == t && s.flag && s.counter == d
    case CountWrite(n) => s.owner == t && s.flag && s.counter == d && n == d
    case UnlockRead => d > 0 && s.owner == t && s.flag && s.counter == d
    case UnlockCheck => d > 0 && s.owner == t && s.flag && s.counter == d
    case DecRead => d > 0 && s.owner == t && s.flag && s.counter == d
    case DecWrite(m) => d > 0 && s.owner == t && s.flag && s.counter == d && m == d
    case UnlockTest => d > 0 && s.owner == t && s.flag && s.counter == d - 1
    case ClearFlag => d == 1 && s.owner == t && s.counter == 0
    case ClearOwner => d == 1 && s.owner == t && s.counter == 0 && !s.flag
    case ReleaseTest =>
      d > 0 && s.counter == d - 1
      && (if d == 1 then s.owner == NULL_THREAD && !s.flag else s.owner == t && s.flag)
    case Release => d == 1 && s.owner == NULL_THREAD && s.counter == 0 && !s.flag
  }

  /** What holds of every other thread: it is outside, or at a point where it has not got in. */
  ghost predicate OutsiderInv(s: State, t: Thread) {
    s.Depth(t) == 0 && s.owner != t &&
    (s.At(t) == Idle || s.At(t) == LockRead || s.At(t) == LockAcquire || s.At(t) == TryRead
          || s.At(t) == TryAcquire || s.At(t) == UnlockRead)
  }

  ghost predicate ThreadInv(s: State, t: Thread) {
    if s.holder == t then HolderInv(s, t) else OutsiderInv(s, t)
  }

  ghost predicate Inv(s: State) {
    && s.holder >= 0
    && s.holds == (if s.holder == NULL_THREAD then 0 else 1)
    && (s.holder == NULL_THREAD ==> s.owner == NULL_THREAD && !s.flag && s.counter == 0)
    && (forall t: Thread :: ThreadInv(s, t))
  }

  /** Nobody is nested as deep as the 32-bit counter is wide. */
  ghost predicate Bounded(s: State) {
    forall t: Thread :: s.Depth(t) < 0x1_0000_0000
  }

  /** A step leaves the other threads where they are. */
  lemma OthersStay(s: State, s': State, t: Thread)
    requires Step(s, s', t)
    ensures forall u: Thread :: u != t ==> s'.At(u) == s.At(u) && s'.Depth(u) == s.Depth(u)
  {
    assert s' == s.Goto(t, s'.At(t)).(owner := s'.owner, flag := s'.flag, counter := s'.counter, holder := s'.holder, holds := s'.holds, depth := s'.depth);
  }

  /** What the moving thread does to its own part of the invariant and to the shared fields. */
  ghost predicate Moved(s: State, s': State, t: Thread) {
    && ThreadInv(s', t)
    && s'.holder >= 0
    && s'.holds == (if s'.holder == NULL_THREAD then 0 else 1)
    && (s'.holder == NULL_THREAD ==> s'.owner == NULL_THREAD && !s'.flag && s'.counter == 0)
    && (s.holder != t && s'.holder != t ==>
          s'.owner == s.owner && s'.flag == s.flag && s'.counter == s.counter && s'.holder == s.holder)
    && (s'.holder != s.holder ==>
          (s'.holder == t && s.holder == NULL_THREAD) || (s.holder == t && s'.holder == NULL_THREAD))
    && (s'.holder == t || s.holder == t ==> s'.owner == NULL_THREAD || s'.owner == t)
  }

  lemma LockMoves(s: State, s': State, t: Thread)
    requires Inv(s) && Step(s, s', t) && s'.Depth(t) < 0x1_0000_0000
    requires s.At(t) == Idle || s.At(t) == LockRead || s.At(t) == TryRead || s.At(t) == LockAcquire
          || s.At(t) == TryAcquire || s.At(t) == TakeOwner
    ensures Moved(s, s', t)
  {
    assert ThreadInv(s, t);
  }

  lemma EnterMoves(s: State, s': State, t: Thread)
    requires Inv(s) && Step(s, s', t) && s'.Depth(t) < 0x1_0000_0000
    requires s.At(t) == SetFlag || s.At(t) == CountRead || s.At(t).CountWrite? || s.At(t) == UnlockRead
          || s.At(t) == UnlockCheck || s.At(t) == DecRead
    ensures Moved(s, s', t)
  {
    assert ThreadInv(s, t);
  }

  lemma LeaveMoves(s: State, s': State, t: Thread)
    requires Inv(s) && Step(s, s', t) && s'.Depth(t) < 0x1_0000_0000
    requires s.At(t).DecWrite? || s.At(t) == UnlockTest || s.At(t) == ClearFlag || s.At(t) == ClearOwner
          || s.At(t) == ReleaseTest || s.At(t) == Release
    ensures Moved(s, s', t)
  {
    assert ThreadInv(s, t);
  }

  lemma MoverKeeps(s: State, s': State, t: Thread)
    requires Inv(s) && Step(s, s', t) && s'.Depth(t) < 0x1_0000_0000
    ensures Moved(s, s', t)
  {
    hide Inv, Step, Moved;
    match s.At(t)
    case Idle => LockMoves(s, s', t);
    case LockRead => LockMoves(s, s', t);
    case TryRead => LockMoves(s, s', t);
    case LockAcquire => LockMoves(s, s', t);
    case TryAcquire => LockMoves(s, s', t);
    case TakeOwner => LockMoves(s, s', t);
    case DecWrite(m) => LeaveMoves(s, s', t);
    case UnlockTest => LeaveMoves(s, s', t);
    case ClearFlag => LeaveMoves(s, s', t);
    case ClearOwner => LeaveMoves(s, s', t);
    case ReleaseTest => LeaveMoves(s, s', t);
    case Release => LeaveMoves(s, s', t);
    case _ => EnterMoves(s, s', t);
  }

  /** Every step of every thread keeps the invariant. */
  lemma StepKeeps(s: State, s': State, t: Thread)
    requires Inv(s) && Step(s, s', t) && s'.Depth(t) < 0x1_0000_0000
    ensures Inv(s')
  {
    hide Step, Move;
    MoverKeeps(s, s', t);
    OthersStay(s, s', t);
    forall u: Thread ensures ThreadInv(s', u) {
      if u != t {
        assert ThreadInv(s, u);
        if s.holder == u {
          assert ThreadInv(s, t);
        }
      }
    }
  }

  // ----- runs --------------------------------------------------------------------------------------

  /** A run: it starts from the constructed mutex and takes one step of some thread at a time. */
  ghost predicate Run(states: seq<State>, who: seq<Thread>) {
    && |states| == |who| + 1
    && states[0] == Init()
    && (forall i :: 0 <= i < |who| ==> Step(states[i], states[i + 1], who[i]))
  }

  lemma {:induction false} RunKeeps(states: seq<State>, who: seq<Thread>, i: nat)
    requires Run(states, who) && i < |states| && forall k :: 0 <= k < |states| ==> Bounded(states[k])
    ensures Inv(states[i])
    decreases i
  {
    if i == 0 {
      forall t: Thread ensures ThreadInv(states[0], t) {
      }
    } else {
      RunKeeps(states, who, i - 1);
      assert Step(states[i - 1], states[i - 1 + 1], who[i - 1]);
      assert states[i - 1 + 1] == states[i];
      StepKeeps(states[i - 1], states[i], who[i - 1]);
    }
  }

  /** Between a lock that has returned and the matching unlock's return. */
  predicate Inside(s: State, t: Thread) {
    s.Depth(t) > 0
  }

  /** What a state promises any two threads. */
  predicate Safe(s: State, t: Thread, u: Thread) {
    && (Inside(s, t) && Inside(s, u) ==> t == u)
    && (Inside(s, t) ==> s.holder == t)
    && (s.owner == t ==> s.holder == t && s.holds == 1)
    && (s.At(t) == Idle && Inside(s, t) ==> s.counter == s.Depth(t) && s.owner == t && s.flag)
    && (s.At(t) == UnlockRead || s.At(t) == UnlockCheck ==> (Throws(s, t) <==> !Inside(s, t)))
  }

  /** Safety over every interleaving.  In each state of each run: two threads are never inside at
      once; `_thread_id` names only the holder of the pthread mutex; between operations the counter
      is the nesting depth of the thread inside; and an unlock throws exactly when its thread is
      not inside. */
  lemma RunSafe(states: seq<State>, who: seq<Thread>, i: nat, t: Thread, u: Thread)
    requires Run(states, who) && i < |states| && forall k :: 0 <= k < |states| ==> Bounded(states[k])
    ensures Safe(states[i], t, u)
  {
    RunKeeps(states, who, i);
    assert ThreadInv(states[i], t) && ThreadInv(states[i], u);
  }

  /** In every run, the first step of an unlock goes back to the caller with every field as it was if
      its thread is not inside, and goes on otherwise. */
  lemma ThrowChangesNothing(states: seq<State>, who: seq<Thread>, i: nat, s': State, t: Thread)
    requires Run(states, who) && i < |states| && forall k :: 0 <= k < |states| ==> Bounded(states[k])
    requires states[i].At(t) == UnlockRead && Step(states[i], s', t)
    ensures s' == states[i].Goto(t, if Inside(states[i], t) then UnlockCheck else Idle)
  {
    RunSafe(states, who, i, t, t);
    RunKeeps(states, who, i);
    assert ThreadInv(states[i], t);
  }

  // ----- what each operation comes to ----------------------------------------------------------------

  /** Thread `t` is past the point of no return of its operation: after `m` more steps of its own it is
      back with its caller, nested `d` deep. */
  predicate Due(s: State, t: Thread, m: nat, d: nat) {
    var now := s.Depth(t);
    match s.At(t)
    case Idle => m == 0 && d == now
    case TakeOwner => m == 4 && d == now + 1
    case SetFlag => m == 3 && d == now + 1
    case CountRead => m == 2 && d == now + 1
    case CountWrite(n) => m == 1 && d == now + 1
    case UnlockCheck => m == (if now == 1 then 8 else 5) && d + 1 == now
    case DecRead => m == (if now == 1 then 7 else 4) && d + 1 == now
    case DecWrite(n) => m == (if now == 1 then 6 else 3) && d + 1 == now
    case UnlockTest => m == (if now == 1 then 5 else 2) && d + 1 == now
    case ClearFlag => m == 4 && d + 1 == now
    case ClearOwner => m == 3 && d + 1 == now
    case ReleaseTest => m == (if now == 1 then 2 else 1) && d + 1 == now
    case Release => m == 1 && d + 1 == now
    case _ => false
  }

  lemma EnterDue(s: State, s': State, t: Thread, m: nat, d: nat)
    requires Inv(s) && Step(s, s', t) && Due(s, t, m, d) && m > 0
    requires s.At(t) == TakeOwner || s.At(t) == SetFlag || s.At(t) == CountRead || s.At(t).CountWrite?
    ensures Due(s', t, m - 1, d)
  {
    assert ThreadInv(s, t);
  }

  lemma LeaveDue(s: State, s': State, t: Thread, m: nat, d: nat)
    requires Inv(s) && Step(s, s', t) && Due(s, t, m, d) && m > 0 && s.Depth(t) < 0x1_0000_0000
    requires !(s.At(t) == TakeOwner || s.At(t) == SetFlag || s.At(t) == CountRead || s.At(t).CountWrite?)
    ensures Due(s', t, m - 1, d)
  {
    assert ThreadInv(s, t);
  }

  /** The steps thread `t` takes in a stretch of a run. */
  function Own(who: seq<Thread>, t: Thread): (n: nat)
    ensures n <= |who|
  {
    if who == [] then 0 else (if who[0] == t then 1 else 0) + Own(who[1..], t)
  }

  /** Whatever the other threads do in between, such an operation ends as it has to. */
  lemma {:induction false} DueRuns(states: seq<State>, who: seq<Thread>, i: nat, j: nat, t: Thread, m: nat, d: nat)
    requires Run(states, who) && i <= j < |states| && forall k :: 0 <= k < |states| ==> Bounded(states[k])
    requires Due(states[i], t, m, d) && Own(who[i..j], t) <= m
    ensures Due(states[j], t, m - Own(who[i..j], t), d)
    decreases j - i
  {
    hide Due, Inv, Step, Bounded;
    if i < j {
      var s, s' := states[i], states[i + 1];
      RunKeeps(states, who, i);
      assert Step(s, s', who[i]);
      assert who[i..j][0] == who[i] && who[i..j][1..] == who[i + 1..j];
      if who[i] == t {
        DueMoves(s, s', t, m, d);
        DueRuns(states, who, i + 1, j, t, m - 1, d);
      } else {
        OthersStay(s, s', who[i]);
        DueStays(s, s', t, m, d);
        DueRuns(states, who, i + 1, j, t, m, d);
      }
    }
  }

  lemma DueMoves(s: State, s': State, t: Thread, m: nat, d: nat)
    requires Inv(s) && Bounded(s) && Step(s, s', t) && Due(s, t, m, d) && m > 0
    ensures Due(s', t, m - 1, d)
  {
    hide Inv, Step;
    assert s.Depth(t) < 0x1_0000_0000;
    if s.At(t) == TakeOwner || s.At(t) == SetFlag || s.At(t) == CountRead || s.At(t).CountWrite? {
      EnterDue(s, s', t, m, d);
    } else {
      LeaveDue(s, s', t, m, d);
    }
  }

  lemma DueStays(s: State, s': State, t: Thread, m: nat, d: nat)
    requires Due(s, t, m, d) && s'.At(t) == s.At(t) && s'.Depth(t) == s.Depth(t)
    ensures Due(s', t, m, d)
  {
  }

  /** In every run, what the next step of a thread inside an operation decides.  A lock or tryLock of a
      thread already inside is bound to enter.  Of another thread, a lock enters once it takes the pthread
      mutex, and a tryLock comes back empty-handed, with every field as it was, if and only if some other
      thread has it.  An unlock of a thread inside is bound to leave. */
  lemma Decides(states: seq<State>, who: seq<Thread>, i: nat, s': State, t: Thread)
    requires Run(states, who) && i < |states| && forall k :: 0 <= k < |states| ==> Bounded(states[k])
    requires Step(states[i], s', t)
    ensures
      var s := states[i];
      var d := s.Depth(t);
      match s.At(t)
      case LockRead => if Inside(s, t) then Due(s', t, 3, d + 1) else s' == s.Goto(t, LockAcquire)
      case TryRead => if Inside(s, t) then Due(s', t, 3, d + 1) else s' == s.Goto(t, TryAcquire)
      case LockAcquire => s.holder == NULL_THREAD && s'.holder == t && Due(s', t, 4, d + 1)
      case TryAcquire =>
        && (s'.At(t) == Idle <==> s.holder != NULL_THREAD && s.holder != t)
        && (if s'.At(t) == Idle then s' == s.Goto(t, Idle) else s'.holder == t && Due(s', t, 4, d + 1))
      case UnlockRead => Inside(s, t) ==> Due(s', t, if d == 1 then 8 else 5, d - 1)
      case Release => s'.holder == NULL_THREAD && s'.holds == 0 && Due(s', t, 0, 0)
      case _ => true
  {
    RunKeeps(states, who, i);
    assert ThreadInv(states[i], t);
    assert Bounded(states[i]);
  }

  /** A tryLock in any run, whatever the other threads do meanwhile: when its step at the pthread mutex
      finds no other thread there, then after four more steps of its own it is back, nested one deeper. */
  lemma TryLockEnters(states: seq<State>, who: seq<Thread>, i: nat, j: nat, t: Thread)
    requires Run(states, who) && i < j < |states| && forall k :: 0 <= k < |states| ==> Bounded(states[k])
    requires who[i] == t && states[i].At(t) == TryAcquire && Own(who[i + 1..j], t) == 4
    requires states[i].holder == NULL_THREAD || states[i].holder == t
    ensures states[j].At(t) == Idle && states[j].Depth(t) == states[i].Depth(t) + 1
  {
    Decides(states, who, i, states[i + 1], t);
    DueRuns(states, who, i + 1, j, t, 4, states[i].Depth(t) + 1);
  }

  /** A thread between operations may start any of the three. */
  lemma MayStart(s: State, t: Thread)
    requires s.At(t) == Idle
    ensures forall p :: p == LockRead || p == TryRead || p == UnlockRead ==> Step(s, s.Goto(t, p), t)
  {
  }

  /** Consecutive steps of one thread while the others stand still. */
  ghost predicate Alone(states: seq<State>, t: Thread) {
    |states| > 0 && forall i :: 0 <= i < |states| - 1 ==> Step(states[i], states[i + 1], t)
  }

  /** A lock or a tryLock that runs alone when no other thread has the mutex ends inside, one deeper. */
  lemma EntersAlone(s: State, t: Thread, p: Pc) returns (states: seq<State>)
    requires Inv(s) && s.At(t) == Idle && (s.holder == NULL_THREAD || s.holder == t)
    requires p == LockRead || p == TryRead
    ensures Alone(states, t) && |states| > 1 && states[0] == s && states[1] == s.Goto(t, p)
    ensures Seen(states[|states| - 1], t) == View(t, true, (s.counter + 1) % 0x1_0000_0000, t, 1, Idle, s.Depth(t) + 1)
  {
    assert ThreadInv(s, t);
    if s.holder == NULL_THREAD {
      states := FirstAlone(s, t, p);
    } else {
      states := AgainAlone(s, t, p);
    }
  }

  /** The shared fields, and where thread `t` is. */
  datatype View = View(owner: int, flag: bool, counter: int, holder: int, holds: int, at: Pc, depth: nat)

  function Seen(s: State, t: Thread): (v: View) {
    View(s.owner, s.flag, s.counter, s.holder, s.holds, s.At(t), s.Depth(t))
  }

  /** One step on the way in, with nobody else at the pthread mutex. */
  lemma StepIn(s: State, t: Thread) returns (e: State)
    requires s.holder == NULL_THREAD || s.holder == t
    requires s.At(t) == LockRead || s.At(t) == LockAcquire || s.At(t) == TryRead || s.At(t) == TryAcquire
          || s.At(t) == TakeOwner || s.At(t) == SetFlag || s.At(t) == CountRead || s.At(t) == CountWrite(s.counter)
    ensures Step(s, e, t)
    ensures
      var v := Seen(s, t);
      Seen(e, t) ==
        match v.at
        case LockRead => v.(at := if v.owner == t then SetFlag else LockAcquire)
        case TryRead => v.(at := if v.owner == t then SetFlag else TryAcquire)
        case LockAcquire => v.(holder := t, holds := v.holds + 1, at := TakeOwner)
        case TryAcquire => v.(holder := t, holds := v.holds + 1, at := TakeOwner)
        case TakeOwner => v.(owner := t, at := SetFlag)
        case SetFlag => v.(flag := true, at := CountRead)
        case CountRead => v.(at := CountWrite(v.counter))
        case _ => v.(counter := (v.counter + 1) % 0x1_0000_0000, at := Idle, depth := v.depth + 1)
  {
    e := Move(s, t);
  }

  /** The three steps a lock ends with, or is all of when the thread is inside already. */
  lemma LastStepsIn(s: State, t: Thread) returns (a: State, b: State, c: State)
    requires s.holder == t && s.At(t) == SetFlag
    ensures Step(s, a, t) && Step(a, b, t) && Step(b, c, t)
    ensures Seen(c, t) == Seen(s, t).(flag := true, counter := (s.counter + 1) % 0x1_0000_0000, at := Idle,
                                      depth := s.Depth(t) + 1)
  {
    hide Step, Move;
    a := StepIn(s, t);
    b := StepIn(a, t);
    c := StepIn(b, t);
  }

  lemma StartsAlone(s: State, t: Thread, p: Pc) returns (e: State)
    requires s.At(t) == Idle && (p == LockRead || p == TryRead)
    ensures e == s.Goto(t, p) && Step(s, e, t) && Seen(e, t) == Seen(s, t).(at := p)
  {
    e := s.Goto(t, p);
  }

  lemma FirstAlone(s: State, t: Thread, p: Pc) returns (states: seq<State>)
    requires s.At(t) == Idle && s.holder == NULL_THREAD && s.owner == NULL_THREAD && s.holds == 0
    requires p == LockRead || p == TryRead
    ensures Alone(states, t) && |states| == 8 && states[0] == s && states[1] == s.Goto(t, p)
    ensures Seen(states[7], t) == View(t, true, (s.counter + 1) % 0x1_0000_0000, t, 1, Idle, s.Depth(t) + 1)
  {
    hide Step, Move;
    var s1 := StartsAlone(s, t, p);
    var s2 := StepIn(s1, t);
    var s3 := StepIn(s2, t);
    var s4 := StepIn(s3, t);
    var s5, s6, s7 := LastStepsIn(s4, t);
    states := [s, s1, s2, s3, s4, s5, s6, s7];
  }

  lemma AgainAlone(s: State, t: Thread, p: Pc) returns (states: seq<State>)
    requires s.At(t) == Idle && s.owner == t && s.holder == t && s.holds == 1
    requires p == LockRead || p == TryRead
    ensures Alone(states, t) && |states| == 6 && states[0] == s && states[1] == s.Goto(t, p)
    ensures Seen(states[5], t) == View(t, true, (s.counter + 1) % 0x1_0000_0000, t, 1, Idle, s.Depth(t) + 1)
  {
    hide Step, Move;
    var s1 := StartsAlone(s, t, p);
    var s2 := StepIn(s1, t);
    var s3, s4, s5 := LastStepsIn(s2, t);
    states := [s, s1, s2, s3, s4, s5];
  }

  /** When every thread is between operations and nobody is inside, the mutex is as constructed. */
  lemma Quiescent(s: State)
    requires Inv(s) && forall t: Thread :: s.At(t) == Idle && s.Depth(t) == 0
    ensures s.owner == NULL_THREAD && !s.flag && s.counter == 0 && s.holder == NULL_THREAD && s.holds == 0
  {
    assert s.holder > 0 ==> ThreadInv(s, s.holder);
  }

  /** No deadlock inside the operations: a thread can always take its next step unless it waits in
      `pthread_mutex_lock` for a thread that is inside or is on its way in or out and can move. */
  lemma Progress(s: State, t: Thread)
    requires Inv(s)
    ensures (exists s' :: Step(s, s', t)) ||
      (s.At(t) == LockAcquire && s.holder > 0 && s.holder != t &&
       (exists s' :: Step(s, s', s.holder)) && (s.At(s.holder) == Idle ==> Inside(s, s.holder)))
  {
    if s.At(t) == LockAcquire && s.holder != NULL_THREAD && s.holder != t {
      var h: Thread := s.holder;
      assert ThreadInv(s, h) && ThreadInv(s, t);
      Enabled(s, h);
    } else {
      Enabled(s, t);
    }
  }

  lemma Enabled(s: State, t: Thread)
    requires s.At(t) == LockAcquire ==> s.holder == NULL_THREAD || s.holder == t
    ensures exists s' :: Step(s, s', t)
  {
    assert Step(s, if s.At(t) == Idle then s.Goto(t, LockRead) else Move(s, t), t);
  }

  // ----- how deep the nesting may go -----------------------------------------------------------------

  /** Nobody is ever nested deeper than `n`. */
  ghost predicate Nesting(states: seq<State>, n: nat) {
    forall i, t: Thread :: 0 <= i < |states| ==> states[i].Depth(t) <= n
  }

  lemma Extend(states: seq<State>, who: seq<Thread>, s': State, t: Thread)
    requires Run(states, who) && Step(states[|states| - 1], s', t)
    ensures Run(states + [s'], who + [t])
    ensures forall n: nat :: Nesting(states, n) && (forall u: Thread :: s'.Depth(u) <= n) ==> Nesting(states + [s'], n)
  {
  }

  /** One more step of `t`, which stays as deep as it was. */
  lemma ExtendFlat(states: seq<State>, who: seq<Thread>, s': State, t: Thread, n: nat)
    requires Run(states, who) && Nesting(states, n) && Step(states[|states| - 1], s', t)
    requires s'.Depth(t) <= n
    ensures Run(states + [s'], who + [t]) && Nesting(states + [s'], n)
  {
    var s := states[|states| - 1];
    Extend(states, who, s', t);
    OthersStay(s, s', t);
    forall u: Thread
      ensures s'.Depth(u) <= n
    {
      assert states[|states| - 1].Depth(u) <= n;
      assert u == t || s'.Depth(u) == s.Depth(u);
    }
  }

  /** A thread between operations takes the lock once more: five steps when it is already inside. */
  lemma NestOnce(states: seq<State>, who: seq<Thread>, t: Thread, n: nat)
    returns (states': seq<State>, who': seq<Thread>)
    requires Run(states, who) && Nesting(states, n)
    requires var s := states[|states| - 1]; s.At(t) == Idle && s.owner == t && s.Depth(t) < n
    ensures Run(states', who') && Nesting(states', n)
    ensures var s, s' := states[|states| - 1], states'[|states'| - 1];
            s'.At(t) == Idle && s'.owner == t && s'.Depth(t) == s.Depth(t) + 1
            && s'.counter == (s.counter + 1) % 0x1_0000_0000
  {
    assert |states| > 0;
    hide Run, Nesting;
    var s := states[|states| - 1];
    var s1 := s.Goto(t, LockRead);
    var s2, s3 := Move(s1, t), Move(Move(s1, t), t);
    var s4 := Move(s3, t);
    ExtendFlat(states, who, s1, t, n);
    ExtendFlat(states + [s1], who + [t], s2, t, n);
    ExtendFlat(states + [s1] + [s2], who + [t] + [t], s3, t, n);
    ExtendFlat(states + [s1] + [s2] + [s3], who + [t] + [t] + [t], s4, t, n);
    states', who' := states + [s1] + [s2] + [s3] + [s4], who + [t] + [t] + [t] + [t];
    ExtendFlat(states', who', Move(s4, t), t, n);
    states', who' := states' + [Move(s4, t)], who' + [t];
  }

  /** The first lock of an unlocked mutex. */
  lemma LockFirst(t: Thread) returns (states: seq<State>, who: seq<Thread>)
    ensures Run(states, who) && Nesting(states, 1)
    ensures var s := states[|states| - 1]; s.At(t) == Idle && s.owner == t && s.Depth(t) == 1 && s.counter == 1
  {
    var s1 := Init().Goto(t, LockRead);
    var s2 := Move(s1, t);
    var s3 := Move(s2, t);
    var s4 := Move(s3, t);
    var s5 := Move(s4, t);
    var s6 := Move(s5, t);
    states, who := [Init(), s1, s2, s3, s4, s5, s6], [t, t, t, t, t, t];
    states, who := states + [Move(s6, t)], who + [t];
  }

  lemma {:induction false} NestedRun(t: Thread, k: nat) returns (states: seq<State>, who: seq<Thread>)
    requires k >= 1
    ensures Run(states, who) && Nesting(states, k)
    ensures var s := states[|states| - 1];
            s.At(t) == Idle && s.owner == t && s.Depth(t) == k && s.counter == k % 0x1_0000_0000
    decreases k
  {
    if k == 1 {
      states, who := LockFirst(t);
    } else {
      states, who := NestedRun(t, k - 1);
      states, who := NestOnce(states, who, t, k);
    }
  }

  /** The bound is sharp: at a nesting of 2^32 the counter has wrapped to 0, and the next unlock of
      the thread that is inside throws and leaves it there. */
  lemma DeepNestingBreaks(t: Thread) returns (states: seq<State>, who: seq<Thread>)
    ensures Run(states, who) && Nesting(states, 0x1_0000_0000) && |states| > 1
    ensures var s := states[|states| - 2];
            Inside(s, t) && s.Depth(t) == 0x1_0000_0000 && s.counter == 0 && s.At(t) == UnlockCheck && Throws(s, t)
            && states[|states| - 1] == s.Goto(t, Idle)
  {
    states, who := NestedRun(t, 0x1_0000_0000);
    assert |states| > 0;
    hide Run, Nesting;
    var s := states[|states| - 1];
    var s1 := s.Goto(t, UnlockRead);
    ExtendFlat(states, who, s1, t, 0x1_0000_0000);
    var s2 := Move(s1, t);
    ExtendFlat(states + [s1], who + [t], s2, t, 0x1_0000_0000);
    states, who := states + [s1] + [s2], who + [t] + [t];
    ExtendFlat(states, who, Move(s2, t), t, 0x1_0000_0000);
    states, who := states + [Move(s2, t)], who + [t];
  }

  /** Every state of every run of nesting at most `n` is safe. */
  ghost predicate AllSafe(n: nat) {
    forall states: seq<State>, who: seq<Thread>, i: nat, t: Thread, u: Thread ::
      Run(states, who) && Nesting(states, n) && i < |states| ==> Safe(states[i], t, u)
  }

  /** The runs of nesting at most `n` are all safe if and only if the 32-bit counter can hold `n`. */
  lemma SafeExactly(n: nat)
    ensures AllSafe(n) <==> n < 0x1_0000_0000
  {
    if n < 0x1_0000_0000 {
      forall states: seq<State>, who: seq<Thread>, i: nat, t: Thread, u: Thread
        | Run(states, who) && Nesting(states, n) && i < |states|
        ensures Safe(states[i], t, u)
      {
        RunSafe(states, who, i, t, u);
      }
    } else {
      var t: Thread := 1;
      var states, who := DeepNestingBreaks(t);
      hide Run;
      assert Nesting(states, n);
      assert !Safe(states[|states| - 2], t, t);
    }
  }
}
