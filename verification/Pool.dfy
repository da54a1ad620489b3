/** The worker pool of `ThreadPool` and of `HttpServer`, which has no waiter semaphore (`waits`).

    One dispatcher calls `runTask` (or is the accept loop); any number of workers call
    `task_completed`.  One step is one operation on a list, a counter, a semaphore or the pool lock. */
module Pool {

  datatype Holder = Free | ByDispatcher | ByWorker(id: nat)

  datatype DispatcherPc =
    | DIdle          // about to call _getThread
    | DLock          // _pool_lock.lock()
    | DPick          // pop, create, or give up
    | DFail          // unlock and return NULL
    | DWait          // _blocker.acquire()
    | DCap           // is the pool at capacity?
    | DTry           // _blocker.tryAcquire()
    | DFirst         // is this the first active task?
    | DFirstTry      // _waiter.tryAcquire()
    | DAdd           // _busy_pool.add
    | DUnlock        // _pool_lock.unlock()
    | DGive          // setRunnable, unpause
    | DCrash         // the retried call returned NULL and the result is used

  datatype WorkerPc =
    | Paused
    | Running
    | WLock          // ScopedLock
    | WRemove        // _busy_pool.remove
    | WPut           // _available_pool.add
    | WCap           // first available worker of a full pool?
    | WTest          // testAcquire: its tryAcquire
    | WTestBack      // testAcquire: its release
    | WPost          // _blocker.release()
    | WLast          // no busy worker left?
    | WLastTest | WLastBack | WLastPost   // while (!_waiter.testAcquire()) _waiter.release()
    | WUnlock

  datatype State = State(waits: bool, maxSize: nat, size: nat, avail: seq<nat>, busy: seq<nat>,
                         permits: nat, waiter: nat, lock: Holder,
                         dpc: DispatcherPc, retry: bool, hand: nat, wpc: map<nat, WorkerPc>) {
    function At(w: nat): (pc: WorkerPc) {
      if w in wpc then wpc[w] else Paused
    }
    function Goto(w: nat, p: WorkerPc): (next: State) {
      this.(wpc := wpc[w := p])
    }
  }

  /** The constructor: `start` paused workers, one permit in each semaphore. */
  function Init(maxSize: nat, start: nat, waits: bool): (s: State) {
    State(waits, maxSize, start, Upto(start), [], 1, 1, Free, DIdle, false, 0, map[])
  }

  /** The workers the constructor's loop adds. */
  function Upto(n: nat): (s: seq<nat>)
    ensures |s| == n && forall w: nat :: multiset(s)[w] == if w < n then 1 else 0
  {
    if n == 0 then [] else Upto(n - 1) + [n - 1]
  }

  /** `Vector::remove` of the first occurrence. */
  function Without(s: seq<nat>, w: nat): (r: seq<nat>)
    ensures w in s ==> |r| == |s| - 1 && multiset(r) == multiset(s) - multiset{w}
    ensures w !in s ==> r == s
  {
    if s == [] then []
    else if s[0] == w then
      assert s == [w] + s[1..];
      s[1..]
    else
      assert s == [s[0]] + s[1..];
      [s[0]] + Without(s[1..], w)
  }

  predicate DispatcherMayStep(s: State) {
    match s.dpc
    case DLock => s.lock == Free
    case DWait => s.permits > 0
    case DCrash => false
    case _ => true
  }

  function DispatcherMove(s: State): (next: State) {
    match s.dpc
    case DIdle => s.(dpc := DLock, retry := false)
    case DLock => s.(lock := ByDispatcher, dpc := DPick)
    case DPick =>
      if |s.avail| > 0 then s.(hand := s.avail[|s.avail| - 1], avail := s.avail[..|s.avail| - 1], dpc := DCap)
      else if s.size < s.maxSize then s.(hand := s.size, size := s.size + 1, dpc := DCap)
      else s.(dpc := DFail)
    case DFail => s.(lock := Free, dpc := if s.retry then DCrash else DWait)
    case DWait => if s.permits > 0 then s.(permits := s.permits - 1, dpc := DLock, retry := true) else s
    case DCap => s.(dpc := if |s.avail| == 0 && s.size == s.maxSize then DTry else DFirst)
    case DTry => s.(permits := if s.permits > 0 then s.permits - 1 else 0, dpc := DFirst)
    case DFirst => s.(dpc := if s.waits && |s.busy| == 0 then DFirstTry else DAdd)
    case DFirstTry => s.(waiter := if s.waiter > 0 then s.waiter - 1 else 0, dpc := DAdd)
    case DAdd => s.(busy := s.busy + [s.hand], dpc := DUnlock)
    case DUnlock => s.(lock := Free, dpc := DGive)
    case DGive => s.Goto(s.hand, Running).(dpc := DIdle)
    case DCrash => s
  }

  predicate WorkerMayStep(s: State, w: nat) {
    match s.At(w)
    case Paused => false
    case WLock => s.lock == Free
    case _ => true
  }

  function WorkerMove(s: State, w: nat): (next: State) {
    match s.At(w)
    case Paused => s
    case Running => s.Goto(w, WLock)
    case WLock => s.(lock := ByWorker(w)).Goto(w, WRemove)
    case WRemove => s.(busy := Without(s.busy, w)).Goto(w, WPut)
    case WPut => s.(avail := s.avail + [w]).Goto(w, WCap)
    case WCap => s.Goto(w, if |s.avail| == 1 && s.size == s.maxSize then WTest else WLast)
    case WTest => if s.permits > 0 then s.(permits := s.permits - 1).Goto(w, WTestBack) else s.Goto(w, WPost)
    case WTestBack => s.(permits := s.permits + 1).Goto(w, WLast)
    case WPost => s.(permits := s.permits + 1).Goto(w, WLast)
    case WLast => s.Goto(w, if s.waits && |s.busy| == 0 then WLastTest else WUnlock)
    case WLastTest => if s.waiter > 0 then s.(waiter := s.waiter - 1).Goto(w, WLastBack) else s.Goto(w, WLastPost)
    case WLastBack => s.(waiter := s.waiter + 1).Goto(w, WUnlock)
    case WLastPost => s.(waiter := s.waiter + 1).Goto(w, WLastTest)
    case WUnlock => s.(lock := Free).Goto(w, Paused)
  }

  ghost predicate Step(s: State, s': State) {
    || (DispatcherMayStep(s) && s' == DispatcherMove(s))
    || (exists w :: WorkerMayStep(s, w) && s' == WorkerMove(s, w))
  }

  // ----- the invariant ------------------------------------------------------------------------------

  /** The dispatcher holds a worker that is on neither list. */
  predicate Holding(s: State) {
    s.dpc == DCap || s.dpc == DTry || s.dpc == DFirst || s.dpc == DFirstTry || s.dpc == DAdd
  }

  predicate DispatcherLocked(s: State) {
    s.dpc == DPick || s.dpc == DFail || Holding(s) || s.dpc == DUnlock
  }

  predicate WorkerLocked(p: WorkerPc) {
    p != Paused && p != Running && p != WLock
  }

  /** In how many places worker `w` is. */
  function Places(s: State, w: nat): (n: nat) {
    multiset(s.avail)[w] + multiset(s.busy)[w] +
    (if Holding(s) && s.hand == w then 1 else 0) + (if s.At(w) == WPut then 1 else 0)
  }

  /** What the worker that has the pool lock is doing. */
  function Locker(s: State): (pc: WorkerPc) {
    if s.lock.ByWorker? then s.At(s.lock.id) else Paused
  }

  /** How many members are on neither list. */
  function Between(s: State): (n: nat) {
    (if Holding(s) then 1 else 0) + (if Locker(s) == WPut then 1 else 0)
  }

  /** Where a worker at `p` has to be. */
  predicate Fits(s: State, w: nat, p: WorkerPc) {
    match p
    case Paused => multiset(s.busy)[w] > 0 ==> (s.dpc == DUnlock || s.dpc == DGive) && s.hand == w
    case Running => multiset(s.busy)[w] > 0
    case WLock => multiset(s.busy)[w] > 0
    case WRemove => multiset(s.busy)[w] > 0
    case WPut => true
    case _ => multiset(s.avail)[w] > 0
  }

  /** A created worker is in exactly one place, and the place fits what it is doing. */
  ghost predicate PlacedAt(s: State, w: nat) {
    Places(s, w) == (if w < s.size then 1 else 0) && Fits(s, w, s.At(w))
  }

  ghost predicate Placed(s: State) {
    && (forall w: nat :: PlacedAt(s, w))
    && |s.avail| + |s.busy| + Between(s) == s.size
    && (s.dpc == DUnlock || s.dpc == DGive ==> multiset(s.busy)[s.hand] > 0 && s.At(s.hand) == Paused)
    && (Holding(s) ==> s.At(s.hand) == Paused)
  }

  ghost predicate LockInv(s: State) {
    && (DispatcherLocked(s) <==> s.lock == ByDispatcher)
    && (forall w: nat :: WorkerLocked(s.At(w)) <==> s.lock == ByWorker(w))
  }

  /** Permits of `_blocker`, counting one a worker has taken for a moment in testAcquire. */
  function Permits(s: State): (n: nat) {
    s.permits + (if Locker(s) == WTestBack then 1 else 0)
  }

  /** The worker that made the first member available is still on its way to post the permit. */
  predicate Posting(s: State) {
    |s.avail| == 1 && (Locker(s) == WCap || Locker(s) == WTest || Locker(s) == WPost)
  }

  predicate Full(s: State) {
    |s.avail| == 0 && s.size == s.maxSize
  }

  predicate BlockerInv(s: State) {
    && Permits(s) <= 1
    && (Full(s) && s.dpc != DCap && s.dpc != DTry ==> Permits(s) == 0)
    && (s.dpc == DFail ==> Full(s) && !s.retry)
    && (s.dpc == DWait ==> s.size == s.maxSize && (|s.avail| > 0 ==> Permits(s) == 1 || Posting(s)))
    && (s.retry && (s.dpc == DLock || s.dpc == DPick) ==> |s.avail| > 0)
    && (s.dpc == DTry ==> Full(s))
    && (Locker(s) == WPost ==> s.permits == 0)
    && (Locker(s) == WCap || Locker(s) == WTest || Locker(s) == WTestBack || Locker(s) == WPost ==> |s.avail| > 0)
    && (Locker(s) == WTest || Locker(s) == WTestBack || Locker(s) == WPost ==> |s.avail| == 1)
    && s.dpc != DCrash
  }

  /** How many permits the waiter semaphore has at each point: one exactly when no worker is busy. */
  predicate WaiterInv(s: State) {
    if s.waits then Waiting(s)
    else s.dpc != DFirstTry && Locker(s) != WLastTest && Locker(s) != WLastBack && Locker(s) != WLastPost
  }

  predicate Waiting(s: State) {
    var idle := if |s.busy| == 0 then 1 else 0;
    match s.lock
    case Free => s.waiter == idle
    case ByDispatcher =>
      if s.dpc == DAdd then s.waiter == 0
      else if s.dpc == DFirstTry then s.waiter == 1 && idle == 1
      else s.waiter == idle
    case ByWorker(w) =>
      match s.At(w)
      case WRemove => s.waiter == 0 && idle == 0
      case WLastTest => s.waiter <= 1 && idle == 1
      case WLastBack => s.waiter == 0 && idle == 1
      case WLastPost => s.waiter == 0 && idle == 1
      case WUnlock => s.waiter == idle
      case _ => s.waiter == 0
  }

  ghost predicate Inv(s: State) {
    && 1 <= s.maxSize && s.size <= s.maxSize
    && LockInv(s) && Placed(s) && BlockerInv(s) && WaiterInv(s)
  }

  lemma DispatcherKeepsLock(s: State)
    requires Inv(s) && DispatcherMayStep(s)
    ensures LockInv(DispatcherMove(s)) && Locker(DispatcherMove(s)) == Locker(s)
    ensures DispatcherLocked(s) ==> Locker(s) == Paused
  {
    assert s.dpc == DGive ==> s.At(s.hand) == Paused;
    hide BlockerInv, WaiterInv, Placed;
    var s' := DispatcherMove(s);
    forall w: nat ensures WorkerLocked(s'.At(w)) <==> s'.lock == ByWorker(w) {
      assert WorkerLocked(s.At(w)) <==> s.lock == ByWorker(w);
    }
    if s.lock.ByWorker? {
      assert WorkerLocked(s.At(s.lock.id));
    }
  }

  lemma WorkerKeepsLock(s: State, w: nat)
    requires Inv(s) && WorkerMayStep(s, w)
    ensures LockInv(WorkerMove(s, w))
    ensures if s.At(w) == Running then Locker(WorkerMove(s, w)) == Locker(s) && s.lock != ByWorker(w)
            else Locker(WorkerMove(s, w)) == WorkerMove(s, w).At(w) && (s.At(w) == WLock || (s.lock == ByWorker(w)
                  && Locker(s) == s.At(w)))
    ensures s.At(w) != Running ==> !DispatcherLocked(s)
    ensures s.At(w) == WLock ==> Locker(s) == Paused
  {
    hide BlockerInv, WaiterInv, Placed, WorkerMove;
    var s' := WorkerMove(s, w);
    WorkerShape(s, w);
    assert WorkerLocked(s.At(w)) <==> s.lock == ByWorker(w);
    forall u: nat ensures WorkerLocked(s'.At(u)) <==> s'.lock == ByWorker(u) {
      assert WorkerLocked(s.At(u)) <==> s.lock == ByWorker(u);
    }
  }

  /** What a worker's step does to its own state and to the pool lock. */
  ghost predicate Shape(s: State, s': State, w: nat) {
    && s'.wpc == s.wpc[w := s'.At(w)] && s'.dpc == s.dpc && s'.waits == s.waits
    && match s.At(w)
       case Running => s'.lock == s.lock && s'.At(w) == WLock
       case WLock => s.lock == Free && s'.lock == ByWorker(w) && s'.At(w) == WRemove
       case WUnlock => s'.lock == Free && s'.At(w) == Paused
       case _ => s'.lock == s.lock && WorkerLocked(s.At(w)) && WorkerLocked(s'.At(w))
  }

  lemma WorkerShape(s: State, w: nat)
    requires WorkerMayStep(s, w)
    ensures Shape(s, WorkerMove(s, w), w)
  {
    hide WorkerMove, Shape;
    match s.At(w)
    case WCap => PostingShape(s, w);
    case WTest => PostingShape(s, w);
    case WTestBack => PostingShape(s, w);
    case WPost => PostingShape(s, w);
    case WLast => LastShape(s, w);
    case WLastTest => LastShape(s, w);
    case WLastBack => LastShape(s, w);
    case WLastPost => LastShape(s, w);
    case _ => OtherShape(s, w);
  }

  lemma PostingShape(s: State, w: nat)
    requires s.At(w) == WCap || s.At(w) == WTest || s.At(w) == WTestBack || s.At(w) == WPost
    ensures Shape(s, WorkerMove(s, w), w)
  {
  }

  lemma LastShape(s: State, w: nat)
    requires s.At(w) == WLast || s.At(w) == WLastTest || s.At(w) == WLastBack || s.At(w) == WLastPost
    ensures Shape(s, WorkerMove(s, w), w)
  {
  }

  lemma OtherShape(s: State, w: nat)
    requires WorkerMayStep(s, w)
    requires s.At(w) == Running || s.At(w) == WLock || s.At(w) == WRemove || s.At(w) == WPut || s.At(w) == WUnlock
    ensures Shape(s, WorkerMove(s, w), w)
  {
    hide Without;
  }

  lemma DispatcherKeepsPlaced(s: State)
    requires Inv(s) && DispatcherMayStep(s)
    ensures Placed(DispatcherMove(s))
  {
    hide BlockerInv, WaiterInv, LockInv, Placed, DispatcherMove;
    DispatcherKeepsLock(s);
    if s.dpc == DPick && |s.avail| > 0 {
      DispatcherPops(s);
    } else if s.dpc == DPick {
      DispatcherCreates(s);
    } else if s.dpc == DAdd {
      DispatcherAdds(s);
    } else if s.dpc == DGive {
      DispatcherGives(s);
    } else {
      DispatcherMoves(s);
    }
  }

  lemma DispatcherMoves(s: State)
    requires Placed(s) && DispatcherMayStep(s) && s.dpc != DPick && s.dpc != DAdd && s.dpc != DGive
    requires Locker(DispatcherMove(s)) == Locker(s)
    ensures Placed(DispatcherMove(s))
  {
    hide Placed, Locker;
    DispatcherElsewhere(s, DispatcherMove(s));
  }

  /** Steps that touch neither list. */
  lemma DispatcherElsewhere(s: State, s': State)
    requires Placed(s) && s'.avail == s.avail && s'.busy == s.busy && s'.size == s.size && s'.hand == s.hand
          && s'.wpc == s.wpc
    requires Locker(s') == Locker(s) && Holding(s') == Holding(s)
    requires (s.dpc == DUnlock || s.dpc == DGive) == (s'.dpc == DUnlock || s'.dpc == DGive)
    ensures Placed(s')
  {
    forall w: nat ensures PlacedAt(s', w) {
      assert PlacedAt(s, w);
    }
  }

  lemma DispatcherPops(s: State)
    requires Placed(s) && s.dpc == DPick && |s.avail| > 0 && Locker(DispatcherMove(s)) == Locker(s)
          && Locker(s) == Paused
    requires LockInv(s)
    ensures Placed(DispatcherMove(s))
  {
    var s' := DispatcherMove(s);
    var n := |s.avail| - 1;
    var h := s.avail[n];
    assert s.avail == s.avail[..n] + [h];
    assert multiset(s.avail) == multiset(s.avail[..n]) + multiset{h};
    assert PlacedAt(s, h);
    assert WorkerLocked(s.At(h)) <==> s.lock == ByWorker(h);
    forall w: nat ensures PlacedAt(s', w) {
      assert PlacedAt(s, w);
      assert WorkerLocked(s.At(w)) <==> s.lock == ByWorker(w);
    }
  }

  lemma DispatcherCreates(s: State)
    requires Placed(s) && s.dpc == DPick && |s.avail| == 0
    requires Locker(DispatcherMove(s)) == Locker(s) && s.size <= s.maxSize
    ensures Placed(DispatcherMove(s))
  {
    var s' := DispatcherMove(s);
    assert PlacedAt(s, s.size);
    forall w: nat ensures PlacedAt(s', w) {
      assert PlacedAt(s, w);
    }
  }

  lemma DispatcherAdds(s: State)
    requires Placed(s) && s.dpc == DAdd && Locker(DispatcherMove(s)) == Locker(s)
    ensures Placed(DispatcherMove(s))
  {
    var s' := DispatcherMove(s);
    assert multiset(s'.busy) == multiset(s.busy) + multiset{s.hand};
    assert PlacedAt(s, s.hand);
    forall w: nat ensures PlacedAt(s', w) {
      assert PlacedAt(s, w);
    }
  }

  lemma DispatcherGives(s: State)
    requires Placed(s) && s.dpc == DGive && Locker(DispatcherMove(s)) == Locker(s)
    ensures Placed(DispatcherMove(s))
  {
    var s' := DispatcherMove(s);
    forall w: nat ensures PlacedAt(s', w) {
      assert PlacedAt(s, w);
    }
  }

  lemma WorkerKeepsPlaced(s: State, w: nat)
    requires Inv(s) && WorkerMayStep(s, w)
    ensures Placed(WorkerMove(s, w))
  {
    hide BlockerInv, WaiterInv, LockInv, Placed;
    WorkerKeepsLock(s, w);
    if s.At(w) == WRemove {
      WorkerRemoves(s, w);
    } else if s.At(w) == WPut {
      WorkerPuts(s, w);
    } else {
      WorkerElsewhere(s, w);
    }
  }

  lemma WorkerRemoves(s: State, w: nat)
    requires Placed(s) && s.At(w) == WRemove && !DispatcherLocked(s) && Locker(s) == WRemove
          && Locker(WorkerMove(s, w)) == WPut
    ensures Placed(WorkerMove(s, w))
  {
    var s' := WorkerMove(s, w);
    assert PlacedAt(s, w);
    forall u: nat ensures PlacedAt(s', u) {
      assert PlacedAt(s, u);
    }
  }

  lemma WorkerPuts(s: State, w: nat)
    requires Placed(s) && s.At(w) == WPut && !DispatcherLocked(s) && Locker(s) == WPut
          && Locker(WorkerMove(s, w)) == WCap
    ensures Placed(WorkerMove(s, w))
  {
    var s' := WorkerMove(s, w);
    assert PlacedAt(s, w);
    assert multiset(s'.avail) == multiset(s.avail) + multiset{w};
    forall u: nat ensures PlacedAt(s', u) {
      assert PlacedAt(s, u);
    }
  }

  lemma WorkerElsewhere(s: State, w: nat)
    requires Placed(s) && WorkerMayStep(s, w) && s.At(w) != WRemove && s.At(w) != WPut
    requires (Locker(s) == WPut) == (Locker(WorkerMove(s, w)) == WPut)
    ensures Placed(WorkerMove(s, w))
  {
    hide Locker, WorkerMove;
    assert PlacedAt(s, w);
    MoverFits(s, w);
    WorkerShape(s, w);
    WorkerLeavesLists(s, w);
    StaysPlaced(s, WorkerMove(s, w), w);
  }

  lemma WorkerLeavesLists(s: State, w: nat)
    requires WorkerMayStep(s, w) && s.At(w) != WRemove && s.At(w) != WPut
    ensures
      var s' := WorkerMove(s, w);
      s'.avail == s.avail && s'.busy == s.busy && s'.hand == s.hand && s'.size == s.size && s'.At(w) != WPut
  {
  }

  /** Moving one worker along while both lists stay as they are. */
  lemma StaysPlaced(s: State, s': State, w: nat)
    requires Placed(s) && (Locker(s) == WPut) == (Locker(s') == WPut)
    requires s'.avail == s.avail && s'.busy == s.busy && s'.dpc == s.dpc && s'.hand == s.hand && s'.size == s.size
    requires s'.wpc == s.wpc[w := s'.At(w)] && s.At(w) != Paused && s.At(w) != WPut && s'.At(w) != WPut
    requires Fits(s', w, s'.At(w))
    ensures Placed(s')
  {
    hide Locker;
    forall u: nat ensures PlacedAt(s', u) {
      assert PlacedAt(s, u);
    }
  }

  lemma MoverFits(s: State, w: nat)
    requires PlacedAt(s, w) && WorkerMayStep(s, w) && s.At(w) != WRemove && s.At(w) != WPut
    ensures Fits(WorkerMove(s, w), w, WorkerMove(s, w).At(w))
  {
  }

  lemma DispatcherKeepsBlocker(s: State)
    requires Inv(s) && DispatcherMayStep(s)
    ensures BlockerInv(DispatcherMove(s))
  {
    hide WaiterInv, Placed, LockInv, Locker;
    DispatcherKeepsLock(s);
  }

  lemma WorkerKeepsBlocker(s: State, w: nat)
    requires Inv(s) && WorkerMayStep(s, w)
    ensures BlockerInv(WorkerMove(s, w))
  {
    hide WaiterInv, Placed, LockInv, Locker, BlockerInv, WorkerMove, DispatcherLocked;
    WorkerKeepsLock(s, w);
    match s.At(w)
    case Running => StarterKeepsBlocker(s, w);
    case WLock => EntererKeepsBlocker(s, w);
    case WRemove => EntererKeepsBlocker(s, w);
    case WPut => EntererKeepsBlocker(s, w);
    case WCap => PosterKeepsBlocker(s, w);
    case WTest => PosterKeepsBlocker(s, w);
    case WTestBack => PosterKeepsBlocker(s, w);
    case WPost => PosterKeepsBlocker(s, w);
    case _ => LeaverKeepsBlocker(s, w);
  }

  lemma StarterKeepsBlocker(s: State, w: nat)
    requires BlockerInv(s) && s.At(w) == Running && Locker(WorkerMove(s, w)) == Locker(s)
    ensures BlockerInv(WorkerMove(s, w))
  {
    hide Locker;
  }

  lemma EntererKeepsBlocker(s: State, w: nat)
    requires BlockerInv(s) && (s.At(w) == WLock || s.At(w) == WRemove || s.At(w) == WPut) && !DispatcherLocked(s)
    requires Locker(WorkerMove(s, w)) == WorkerMove(s, w).At(w)
    requires Locker(s) == if s.At(w) == WLock then Paused else s.At(w)
    ensures BlockerInv(WorkerMove(s, w))
  {
    hide Locker, Without;
  }

  lemma PosterKeepsBlocker(s: State, w: nat)
    requires BlockerInv(s) && !DispatcherLocked(s) && Locker(s) == s.At(w)
    requires s.At(w) == WCap || s.At(w) == WTest || s.At(w) == WTestBack || s.At(w) == WPost
    requires Locker(WorkerMove(s, w)) == WorkerMove(s, w).At(w)
    ensures BlockerInv(WorkerMove(s, w))
  {
    hide Locker;
  }

  lemma LeaverKeepsBlocker(s: State, w: nat)
    requires BlockerInv(s) && !DispatcherLocked(s) && Locker(s) == s.At(w)
    requires s.At(w) == WLast || s.At(w) == WLastTest || s.At(w) == WLastBack || s.At(w) == WLastPost
          || s.At(w) == WUnlock
    requires Locker(WorkerMove(s, w)) == WorkerMove(s, w).At(w)
    ensures BlockerInv(WorkerMove(s, w))
  {
    hide Locker;
  }

  lemma DispatcherKeepsWaiter(s: State)
    requires Inv(s) && DispatcherMayStep(s)
    ensures WaiterInv(DispatcherMove(s))
  {
    hide BlockerInv, Placed;
    DispatcherKeepsLock(s);
  }

  lemma WorkerKeepsWaiter(s: State, w: nat)
    requires Inv(s) && WorkerMayStep(s, w)
    ensures WaiterInv(WorkerMove(s, w))
  {
    hide BlockerInv, WaiterInv;
    WorkerKeepsLock(s, w);
    assert PlacedAt(s, w);
    assert s.At(w) == WLock ==> w in s.busy;
    hide Placed, LockInv, Without, DispatcherLocked, PlacedAt, WorkerMove;
    if s.At(w) == Running {
      StarterKeepsWaiter(s, w);
    } else {
      LockerKeepsWaiter(s, w);
    }
  }

  lemma StarterKeepsWaiter(s: State, w: nat)
    requires WaiterInv(s) && s.At(w) == Running && s.lock != ByWorker(w)
    ensures WaiterInv(WorkerMove(s, w))
  {
  }

  lemma LockerKeepsWaiter(s: State, w: nat)
    requires WaiterInv(s) && WorkerMayStep(s, w) && s.At(w) != Running
    requires if s.At(w) == WLock then |s.busy| > 0 else s.lock == ByWorker(w)
    ensures WaiterInv(WorkerMove(s, w))
  {
    hide Without;
  }

  /** Every step keeps the invariant. */
  lemma StepKeeps(s: State, s': State)
    requires Inv(s) && Step(s, s')
    ensures Inv(s') && s'.waits == s.waits && s'.maxSize == s.maxSize
  {
    if DispatcherMayStep(s) && s' == DispatcherMove(s) {
      DispatcherKeeps(s);
    } else {
      var w :| WorkerMayStep(s, w) && s' == WorkerMove(s, w);
      WorkerKeeps(s, w);
    }
  }

  lemma DispatcherKeeps(s: State)
    requires Inv(s) && DispatcherMayStep(s)
    ensures Inv(DispatcherMove(s)) && DispatcherMove(s).waits == s.waits
    ensures DispatcherMove(s).maxSize == s.maxSize
  {
    hide LockInv, Placed, BlockerInv, WaiterInv, Locker, DispatcherLocked;
    DispatcherKeepsLock(s);
    DispatcherKeepsPlaced(s);
    DispatcherKeepsBlocker(s);
    DispatcherKeepsWaiter(s);
  }

  lemma WorkerKeeps(s: State, w: nat)
    requires Inv(s) && WorkerMayStep(s, w)
    ensures Inv(WorkerMove(s, w)) && WorkerMove(s, w).waits == s.waits
    ensures WorkerMove(s, w).maxSize == s.maxSize
  {
    hide LockInv, Placed, BlockerInv, WaiterInv, Locker, DispatcherLocked;
    WorkerKeepsLock(s, w);
    WorkerKeepsPlaced(s, w);
    WorkerKeepsBlocker(s, w);
    WorkerKeepsWaiter(s, w);
  }

  // ----- runs ---------------------------------------------------------------------------------------

  ghost predicate Run(states: seq<State>, maxSize: nat, start: nat, waits: bool) {
    && |states| > 0 && states[0] == Init(maxSize, start, waits)
    && (forall i :: 0 < i < |states| ==> Step(states[i - 1], states[i]))
  }

  /** A pool that can ever be full and starts no larger than it may be. */
  predicate Sized(maxSize: nat, start: nat) {
    1 <= maxSize && start <= maxSize
  }

  lemma InitKeeps(maxSize: nat, start: nat, waits: bool)
    requires Sized(maxSize, start)
    ensures Inv(Init(maxSize, start, waits))
  {
    var s := Init(maxSize, start, waits);
    forall w: nat ensures PlacedAt(s, w) {
    }
  }

  lemma {:induction false} RunKeeps(states: seq<State>, maxSize: nat, start: nat, waits: bool, i: nat)
    requires Run(states, maxSize, start, waits) && Sized(maxSize, start) && i < |states|
    ensures Inv(states[i]) && states[i].waits == waits && states[i].maxSize == maxSize
    decreases i
  {
    if i == 0 {
      InitKeeps(maxSize, start, waits);
    } else {
      RunKeeps(states, maxSize, start, waits, i - 1);
      hide Inv, Step;
      StepKeeps(states[i - 1], states[i]);
    }
  }

  /** Safety over every run: no worker is available and busy at once, the two lists together with
      the worker being moved are all there is, the pool never outgrows its maximum, each semaphore
      holds at most one permit, and the retried `_getThread` never returns NULL. */
  lemma RunSafe(states: seq<State>, maxSize: nat, start: nat, waits: bool, i: nat)
    requires Run(states, maxSize, start, waits) && Sized(maxSize, start) && i < |states|
    ensures var s := states[i];
      && (forall w :: !(w in s.avail && w in s.busy))
      && (forall w: nat :: w in s.avail || w in s.busy ==> w < s.size)
      && (s.lock == Free ==> |s.avail| + |s.busy| == s.size)
      && s.size <= s.maxSize
      && s.permits <= 1 && (waits ==> s.waiter <= 1)
      && (waits && s.lock == Free ==> (s.waiter == 1 <==> |s.busy| == 0))
      && s.dpc != DCrash
  {
    RunKeeps(states, maxSize, start, waits, i);
    var s := states[i];
    forall w: nat ensures Places(s, w) == if w < s.size then 1 else 0 {
      assert PlacedAt(s, w);
    }
    forall w ensures !(w in s.avail && w in s.busy) {
      assert Places(s, w) <= 1;
    }
    forall w: nat | w in s.avail || w in s.busy ensures w < s.size {
      assert Places(s, w) >= 1;
    }
  }

  // ----- no lost wake-up -----------------------------------------------------------------------------

  /** A worker whose completion is under way or still to come, with nothing in its way. */
  predicate Coming(s: State, w: nat) {
    match s.At(w)
    case Running => s.lock == Free
    case WLock => s.lock == Free
    case WRemove => s.lock == ByWorker(w)
    case WPut => s.lock == ByWorker(w)
    case WCap => s.lock == ByWorker(w)
    case WTest => s.lock == ByWorker(w)
    case WTestBack => s.lock == ByWorker(w)
    case WPost => s.lock == ByWorker(w)
    case _ => false
  }

  /** While the dispatcher waits without a permit there is such a worker. */
  lemma SomeoneComes(s: State) returns (w: nat)
    requires Inv(s) && s.dpc == DWait && s.permits == 0
    ensures Coming(s, w)
  {
    hide WaiterInv;
    if s.lock.ByWorker? {
      w := s.lock.id;
      assert WorkerLocked(s.At(w)) <==> s.lock == ByWorker(w);
      assert PlacedAt(s, w);
      if |s.avail| == 0 {
        assert multiset(s.avail)[w] == 0;
      }
    } else {
      w := 0;
      assert PlacedAt(s, w);
      assert WorkerLocked(s.At(w)) <==> s.lock == ByWorker(w);
      assert |s.avail| == 0;
      assert multiset(s.avail)[w] == 0;
    }
  }

  /** How many steps a worker has before it at most, until it is paused again. */
  function Rank(s: State, w: nat): (r: nat)
    ensures r <= 13
  {
    match s.At(w)
    case Paused => 0
    case Running => 13
    case WLock => 12
    case WRemove => 11
    case WPut => 10
    case WCap => 9
    case WTest => 8
    case WTestBack => 7
    case WPost => 7
    case WLast => 6
    case WLastTest => if s.waiter == 0 then 5 else 3
    case WLastPost => 4
    case WLastBack => 2
    case WUnlock => 1
  }

  /** The ranks of the first `n` workers. */
  function Ranks(s: State, n: nat): (r: nat)
    ensures r <= 13 * n
  {
    if n == 0 then 0 else Ranks(s, n - 1) + Rank(s, n - 1)
  }

  lemma OwnRankFalls(s: State, w: nat)
    requires WorkerMayStep(s, w)
    ensures Rank(WorkerMove(s, w), w) < Rank(s, w)
  {
    hide WorkerMove, Rank;
    match s.At(w)
    case Running => EarlyRankFalls(s, w);
    case WLock => EarlyRankFalls(s, w);
    case WRemove => EarlyRankFalls(s, w);
    case WPut => EarlyRankFalls(s, w);
    case WCap => EarlyRankFalls(s, w);
    case WTest => MiddleRankFalls(s, w);
    case WTestBack => MiddleRankFalls(s, w);
    case WPost => MiddleRankFalls(s, w);
    case _ => LateRankFalls(s, w);
  }

  lemma EarlyRankFalls(s: State, w: nat)
    requires s.At(w) == Running || s.At(w) == WLock || s.At(w) == WRemove || s.At(w) == WPut || s.At(w) == WCap
    ensures Rank(WorkerMove(s, w), w) < Rank(s, w)
  {
    hide Without;
  }

  lemma MiddleRankFalls(s: State, w: nat)
    requires s.At(w) == WTest || s.At(w) == WTestBack || s.At(w) == WPost
    ensures Rank(WorkerMove(s, w), w) < Rank(s, w)
  {
  }

  lemma LateRankFalls(s: State, w: nat)
    requires s.At(w) == WLast || s.At(w) == WLastTest || s.At(w) == WLastBack || s.At(w) == WLastPost
      || s.At(w) == WUnlock
    ensures Rank(WorkerMove(s, w), w) < Rank(s, w)
  {
  }

  /** A worker's step leaves the ranks of the others: only the holder of the pool lock is at the waiter. */
  lemma OtherRanksStay(s: State, w: nat, u: nat)
    requires Inv(s) && WorkerMayStep(s, w) && u != w
    ensures Rank(WorkerMove(s, w), u) == Rank(s, u)
  {
    hide WaiterInv, BlockerInv, Placed, WorkerMove;
    WorkerShape(s, w);
    assert WorkerLocked(s.At(u)) <==> s.lock == ByWorker(u);
    assert WorkerLocked(s.At(w)) <==> s.lock == ByWorker(w);
    if s.At(w) == Running || s.At(w) == WLock {
      WaiterStays(s, w);
    }
  }

  lemma WaiterStays(s: State, w: nat)
    requires s.At(w) == Running || s.At(w) == WLock
    ensures WorkerMove(s, w).waiter == s.waiter
  {
  }

  lemma {:induction false} RanksFall(s: State, s': State, w: nat, n: nat)
    requires Rank(s', w) < Rank(s, w) && forall u: nat :: u != w ==> Rank(s', u) == Rank(s, u)
    ensures w < n ==> Ranks(s', n) < Ranks(s, n)
    ensures w >= n ==> Ranks(s', n) == Ranks(s, n)
  {
    hide Rank;
    if n > 0 {
      RanksFall(s, s', w, n - 1);
    }
  }

  /** Only created workers move. */
  lemma MoverIsCreated(s: State, w: nat)
    requires Inv(s) && WorkerMayStep(s, w)
    ensures w < s.size
  {
    hide WaiterInv, BlockerInv, LockInv;
    assert PlacedAt(s, w);
  }

  predicate Stranded(s: State) {
    s.dpc == DWait && s.permits == 0
  }

  /** Whoever steps while the dispatcher waits without a permit, it is a worker, the dispatcher goes on
      waiting, and the ranks fall. */
  lemma StrandedStep(s: State, s': State)
    requires Inv(s) && Stranded(s) && Step(s, s')
    ensures Inv(s') && s'.dpc == DWait && s'.size == s.size && Ranks(s', s.size) < Ranks(s, s.size)
  {
    StepKeeps(s, s');
    var w :| WorkerMayStep(s, w) && s' == WorkerMove(s, w);
    hide Inv, WorkerMayStep, Rank, Ranks;
    MoverIsCreated(s, w);
    OwnRankFalls(s, w);
    forall u: nat | u != w
      ensures Rank(s', u) == Rank(s, u)
    {
      OtherRanksStay(s, w, u);
    }
    RanksFall(s, s', w, s.size);
    WorkerLeavesDispatcher(s, w);
  }

  lemma WorkerLeavesDispatcher(s: State, w: nat)
    ensures WorkerMove(s, w).dpc == s.dpc && WorkerMove(s, w).size == s.size
  {
    hide Without;
  }

  /** A schedule: any steps of anyone, one after the other. */
  ghost predicate Schedule(states: seq<State>) {
    |states| > 0 && forall i :: 0 < i < |states| ==> Step(states[i - 1], states[i])
  }

  /** While no permit has come, a schedule is no longer than the ranks allow, and it can go on. */
  lemma {:induction false} StrandedSchedule(states: seq<State>)
    requires Schedule(states) && Inv(states[0]) && forall i :: 0 <= i < |states| ==> Stranded(states[i])
    ensures
      var s := states[|states| - 1];
      Inv(s) && s.size == states[0].size && |states| - 1 + Ranks(s, s.size) <= Ranks(states[0], s.size)
    decreases |states|
  {
    hide Inv, Step, Ranks;
    var n := |states| - 1;
    if n > 0 {
      var before := states[..n];
      forall i | 0 < i < |before|
        ensures Step(before[i - 1], before[i])
      {
        assert Step(states[i - 1], states[i]);
      }
      StrandedSchedule(before);
      assert Step(states[n - 1], states[n]);
      StrandedStep(states[n - 1], states[n]);
    }
  }

  /** Somebody can take a step. */
  ghost predicate CanStep(s: State) {
    DispatcherMayStep(s) || exists w :: WorkerMayStep(s, w)
  }

  lemma StrandedCanStep(s: State)
    requires Inv(s) && Stranded(s)
    ensures CanStep(s)
  {
    hide Inv;
    var w := SomeoneComes(s);
    assert WorkerMayStep(s, w);
  }

  /** Under every schedule a waiting dispatcher gets its permit: as long as there is none some step can
      be taken, and after 13 steps a member a permit has been posted while it waited. */
  lemma NoLostWakeUp(states: seq<State>)
    requires Schedule(states) && Inv(states[0]) && states[0].dpc == DWait
    requires |states| > 13 * states[0].size + 1 || !CanStep(states[|states| - 1])
    ensures exists i :: 0 <= i < |states| && states[i].dpc == DWait && states[i].permits == 1
  {
    hide Inv, Step, Ranks, CanStep;
    if forall i :: 0 <= i < |states| ==> Stranded(states[i]) {
      StrandedSchedule(states);
      StrandedCanStep(states[|states| - 1]);
    } else {
      var i := FirstPermit(states, |states| - 1);
    }
  }

  /** The same inside any run of a pool of good sizes: no wake-up is lost whoever is scheduled when. */
  lemma EveryRunWakes(states: seq<State>, maxSize: nat, start: nat, waits: bool, i: nat)
    requires Run(states, maxSize, start, waits) && Sized(maxSize, start) && i < |states|
    requires states[i].dpc == DWait
    requires |states| - i > 13 * maxSize + 1 || !CanStep(states[|states| - 1])
    ensures exists k :: i <= k < |states| && states[k].dpc == DWait && states[k].permits == 1
  {
    RunKeeps(states, maxSize, start, waits, i);
    assert states[i].size <= maxSize;
    hide Inv, Step, CanStep;
    var later := states[i..];
    forall k | 0 < k < |later|
      ensures Step(later[k - 1], later[k])
    {
      assert Step(states[i + k - 1], states[i + k]);
    }
    NoLostWakeUp(later);
    var k :| 0 <= k < |later| && later[k].dpc == DWait && later[k].permits == 1;
    assert states[i + k] == later[k];
  }

  /** The first state of a schedule that is not stranded is one in which the dispatcher waits with a permit. */
  lemma {:induction false} FirstPermit(states: seq<State>, k: nat) returns (i: nat)
    requires Schedule(states) && Inv(states[0]) && states[0].dpc == DWait && k < |states|
    requires exists j :: 0 <= j <= k && !Stranded(states[j])
    ensures i <= k && states[i].dpc == DWait && states[i].permits == 1
    decreases k
  {
    hide Inv, Step;
    if j :| 0 <= j < k && !Stranded(states[j]) {
      i := FirstPermit(states, k - 1);
    } else {
      i := k;
      var before := states[..k];
      if k > 0 {
        forall j | 0 < j < |before|
          ensures Step(before[j - 1], before[j])
        {
          assert Step(states[j - 1], states[j]);
        }
        StrandedSchedule(before);
        assert Step(states[k - 1], states[k]);
        StrandedStep(states[k - 1], states[k]);
      }
      OnePermit(states[k]);
    }
  }

  lemma OnePermit(s: State)
    requires Inv(s)
    ensures s.permits <= 1
  {
  }

  // ----- the sizes for which this holds -----------------------------------------------------------------

  lemma Extend(states: seq<State>, maxSize: nat, start: nat, waits: bool) returns (states': seq<State>)
    requires Run(states, maxSize, start, waits) && DispatcherMayStep(states[|states| - 1])
    ensures Run(states', maxSize, start, waits) && states'[|states'| - 1] == DispatcherMove(states[|states| - 1])
  {
    states' := states + [DispatcherMove(states[|states| - 1])];
  }

  /** Between two dispatches of a pool that can never be full. */
  predicate Unbounded(s: State) {
    s.dpc == DIdle && s.lock == Free && s.permits == 1 && s.size >= s.maxSize
          && (s.size == s.maxSize ==> |s.avail| == 0)
  }

  lemma DispatchOne(states: seq<State>, maxSize: nat, start: nat, waits: bool) returns (states': seq<State>)
    requires Run(states, maxSize, start, waits) && Unbounded(states[|states| - 1]) && |states[|states| - 1].avail| > 0
    ensures Run(states', maxSize, start, waits) && Unbounded(states'[|states'| - 1])
    ensures |states'[|states'| - 1].avail| == |states[|states| - 1].avail| - 1
  {
    hide Run;
    states' := Extend(states, maxSize, start, waits);
    states' := Extend(states', maxSize, start, waits);
    states' := Extend(states', maxSize, start, waits);
    states' := Extend(states', maxSize, start, waits);
    states' := Extend(states', maxSize, start, waits);
    if states'[|states'| - 1].dpc == DFirstTry {
      states' := Extend(states', maxSize, start, waits);
    }
    states' := Extend(states', maxSize, start, waits);
    states' := Extend(states', maxSize, start, waits);
    states' := Extend(states', maxSize, start, waits);
  }

  lemma {:induction false} DispatchAll(states: seq<State>, maxSize: nat, start: nat, waits: bool) returns (states': seq<State>)
    requires Run(states, maxSize, start, waits) && Unbounded(states[|states| - 1])
    ensures Run(states', maxSize, start, waits) && Unbounded(states'[|states'| - 1])
          && |states'[|states'| - 1].avail| == 0
    decreases |states[|states| - 1].avail|
  {
    states' := states;
    if |states[|states| - 1].avail| > 0 {
      states' := DispatchOne(states, maxSize, start, waits);
      states' := DispatchAll(states', maxSize, start, waits);
    }
  }

  /** For every other pair of sizes there is a run, of the dispatcher alone, in which the retried
      call returns NULL. */
  lemma OtherSizesFail(maxSize: nat, start: nat, waits: bool) returns (states: seq<State>)
    requires !Sized(maxSize, start)
    ensures Run(states, maxSize, start, waits) && states[|states| - 1].dpc == DCrash
  {
    states := DispatchAll([Init(maxSize, start, waits)], maxSize, start, waits);
    hide Run;
    states := Extend(states, maxSize, start, waits);
    states := Extend(states, maxSize, start, waits);
    states := Extend(states, maxSize, start, waits);
    states := Extend(states, maxSize, start, waits);
    states := Extend(states, maxSize, start, waits);
    states := Extend(states, maxSize, start, waits);
    states := Extend(states, maxSize, start, waits);
    states := Extend(states, maxSize, start, waits);
  }

  /** The pool never hands out NULL after a wait, in any run, if and only if its maximum is at least
      one and at least its starting size. */
  lemma RetryIsSafeExactly(maxSize: nat, start: nat, waits: bool)
    ensures (forall states: seq<State> :: Run(states, maxSize, start, waits) ==> states[|states| - 1].dpc != DCrash) <==> Sized(maxSize, start)
  {
    if Sized(maxSize, start) {
      forall states: seq<State> | Run(states, maxSize, start, waits) ensures states[|states| - 1].dpc != DCrash {
        RunSafe(states, maxSize, start, waits, |states| - 1);
      }
    } else {
      var states := OtherSizesFail(maxSize, start, waits);
    }
  }
}
