/** The asynchronous writer of src/base/system.cpp: any number of callers and one worker thread
    share a ring under a lock and a counting semaphore. Every step below is one action on the
    lock, the semaphore, the file, or the memory that the lock protects; a run takes the steps of
    the threads in any order.

    The steps on the ring are the contracts of `AsyncIo.WriteUnlocked` and `AsyncIo.Drain`. */
module AsyncWriter {
  import opened AsyncRing
  import opened Bytes

  type Tid = nat

  datatype Finish = Running | Close | Exit

  /** `WriteOp` is `aio_lock`, any number of `aio_write_unlocked`, then `aio_unlock`. */
  datatype Op = WriteOp | ErrorOp | CloseOp | WaitOp | FreeOp

  datatype CallerPc =
    | Idle
    | Locking(op: Op)       // waits for the lock
    | Inside(op: Op)        // holds the lock
    | Leaving(op: Op)       // holds the lock, its change is made
    | Signalling(op: Op)    // released the lock, has not yet signalled
    | Joining               // waits for the worker to end
    | Releasing(last: bool) // holds the lock, its reference is gone
    | Freeing               // frees the structure

  datatype WorkerPc =
    | Waking                // waits for the lock
    | Top                   // holds the lock, at the head of its loop
    | Sleeping              // waits for the semaphore
    | Writing               // writes its own buffer to the file
    | Ending(last: bool)    // holds the lock, its reference is gone
    | WorkerFreeing
    | Ended

  datatype Holder = Nobody | Worker | Caller(t: Tid)

  datatype State = State(
    ring: Ring, sem: nat, lock: Holder, finish: Finish, refcount: int, joinable: bool,
    worker: WorkerPc, local: seq<byte>,
    callers: map<Tid, CallerPc>,
    freer: Holder,           // the caller that has begun to free the handle, if one has
    file: seq<byte>,         // what the file got
    log: seq<byte>,          // what was written, in the order of the lock
    closings: nat, frees: nat)

  predicate AllIdle(s: State) {
    forall t | t in s.callers :: s.callers[t] == Idle
  }

  predicate Init(s: State) {
    && s.ring.Valid() && s.ring.Contents() == []
    && s.sem == 0 && s.lock == Nobody && s.finish == Running && s.refcount == 2 && s.joinable
    && s.worker == Waking && s.local == [] && AllIdle(s) && s.freer == Nobody
    && s.file == [] && s.log == [] && s.closings == 0 && s.frees == 0
  }

  // ----- Steps of the callers ------------------------------------------------------------------

  function Goto(s: State, t: Tid, pc: CallerPc): State {
    s.(callers := s.callers[t := pc])
  }

  /** A caller begins an operation. The handle is waited for at most once, and whoever frees it
      does so when no other caller uses it, and no one does so afterwards. */
  predicate Begin(s: State, t: Tid, op: Op, s': State) {
    && t in s.callers && s.callers[t] == Idle && s.freer == Nobody
    && (op == WaitOp ==> s.joinable && forall u | u in s.callers :: s.callers[u] != Locking(WaitOp) && s.callers[u] != Inside(WaitOp))
    && (op == FreeOp ==> AllIdle(s))
    && s' == Goto(s, t, Locking(op)).(freer := if op == FreeOp then Caller(t) else s.freer)
  }

  predicate Acquire(s: State, t: Tid, s': State) {
    && t in s.callers && s.callers[t].Locking? && s.lock == Nobody
    && s' == Goto(s, t, Inside(s.callers[t].op)).(lock := Caller(t))
  }

  ghost predicate Write(s: State, t: Tid, data: seq<byte>, s': State) {
    && t in s.callers && s.callers[t] == Inside(WriteOp)
    && Appends(s.ring, data, s'.ring)
    && s' == s.(ring := s'.ring, log := s.log + data)
  }

  /** The change that an operation other than writing makes with the lock. */
  predicate Body(s: State, t: Tid, s': State) {
    && t in s.callers && s.callers[t].Inside?
    && match s.callers[t].op
       case WriteOp => s' == Goto(s, t, Leaving(WriteOp))
       case ErrorOp => s' == Goto(s, t, Leaving(ErrorOp))
       case CloseOp => s' == Goto(s, t, Leaving(CloseOp)).(finish := Close)
       case WaitOp =>
         s' == Goto(s, t, Leaving(WaitOp)).(joinable := false, finish := if s.finish == Running then Exit else s.finish)
       case FreeOp =>
         s' == Goto(s, t, Releasing(s.refcount - 1 == 0)).(joinable := false, refcount := s.refcount - 1)
  }

  predicate Unlock(s: State, t: Tid, s': State) {
    && t in s.callers
    && match s.callers[t]
       case Leaving(op) =>
         s' == Goto(s, t, if op == ErrorOp then Idle else Signalling(op)).(lock := Nobody)
       case Releasing(last) =>
         s' == Goto(s, t, if last then Freeing else Idle).(lock := Nobody)
       case _ => false
  }

  predicate Signal(s: State, t: Tid, s': State) {
    && t in s.callers && s.callers[t].Signalling?
    && s' == Goto(s, t, if s.callers[t].op == WaitOp then Joining else Idle).(sem := s.sem + 1)
  }

  predicate Join(s: State, t: Tid, s': State) {
    && t in s.callers && s.callers[t] == Joining && s.worker == Ended
    && s' == Goto(s, t, Idle)
  }

  predicate CallerFrees(s: State, t: Tid, s': State) {
    && t in s.callers && s.callers[t] == Freeing
    && s' == Goto(s, t, Idle).(frees := s.frees + 1)
  }

  datatype Action = DoBegin(op: Op) | DoAcquire | DoWrite(data: seq<byte>) | DoBody | DoUnlock | DoSignal | DoJoin | DoFree

  ghost predicate CallerActs(s: State, t: Tid, a: Action, s': State) {
    match a
    case DoBegin(op) => Begin(s, t, op, s')
    case DoAcquire => Acquire(s, t, s')
    case DoWrite(data) => Write(s, t, data, s')
    case DoBody => Body(s, t, s')
    case DoUnlock => Unlock(s, t, s')
    case DoSignal => Signal(s, t, s')
    case DoJoin => Join(s, t, s')
    case DoFree => CallerFrees(s, t, s')
  }

  // ----- Steps of the worker -------------------------------------------------------------------

  predicate WorkerAcquires(s: State, s': State) {
    && s.worker == Waking && s.lock == Nobody
    && s' == s.(worker := Top, lock := Worker)
  }

  /** With nothing to do the worker ends if it was asked to, and else sleeps. */
  predicate WorkerIdles(s: State, s': State)
    requires s.ring.Valid()
  {
    && s.worker == Top && s.ring.Contents() == []
    && if s.finish != Running then
         s' == s.(worker := Ending(s.refcount - 1 == 0), refcount := s.refcount - 1,
           closings := if s.finish == Close then s.closings + 1 else s.closings)
       else
         s' == s.(worker := Sleeping, lock := Nobody)
  }

  ghost predicate WorkerDrains(s: State, cap: nat, s': State)
    requires s.ring.Valid()
  {
    && s.worker == Top && s.ring.Contents() != []
    && Drains(s.ring, cap, s'.local, s'.ring)
    && s' == s.(worker := Writing, lock := Nobody, ring := s'.ring, local := s'.local)
  }

  predicate WorkerWrites(s: State, s': State) {
    && s.worker == Writing
    && s' == s.(worker := Waking, file := s.file + s.local, local := [])
  }

  predicate WorkerWakes(s: State, s': State) {
    && s.worker == Sleeping && s.sem > 0
    && s' == s.(worker := Waking, sem := s.sem - 1)
  }

  predicate WorkerUnlocks(s: State, s': State) {
    && s.worker.Ending?
    && s' == s.(worker := if s.worker.last then WorkerFreeing else Ended, lock := Nobody)
  }

  predicate WorkerFrees(s: State, s': State) {
    && s.worker == WorkerFreeing
    && s' == s.(worker := Ended, frees := s.frees + 1)
  }

  ghost predicate WorkerStep(s: State, cap: nat, s': State) {
    && s.ring.Valid()
    && (|| WorkerAcquires(s, s') || WorkerIdles(s, s') || WorkerDrains(s, cap, s') || WorkerWrites(s, s')
        || WorkerWakes(s, s') || WorkerUnlocks(s, s') || WorkerFrees(s, s'))
  }

  /** A step of any thread; `cap` is the size of the worker's own buffer. */
  ghost predicate Step(s: State, cap: nat, s': State) {
    (exists t, a :: CallerActs(s, t, a, s')) || WorkerStep(s, cap, s')
  }

  ghost predicate Run(run: seq<State>, cap: nat) {
    && |run| > 0 && Init(run[0])
    && forall i | 0 <= i < |run| - 1 :: Step(run[i], cap, run[i + 1])
  }

  // ----- The invariant ---------------------------------------------------------------------------

  /** Nothing is lost, doubled or reordered on the way to the file. */
  ghost predicate InOrder(s: State) {
    && s.ring.Valid()
    && s.file + s.local + s.ring.Contents() == s.log
    && (s.worker != Writing ==> s.local == [])
  }

  predicate HoldsLock(pc: CallerPc) {
    pc.Inside? || pc.Leaving? || pc.Releasing?
  }

  /** Those who are past taking the lock and before releasing it are exactly its holder. */
  predicate Exclusion(s: State) {
    && (s.lock == Worker <==> s.worker == Top || s.worker.Ending?)
    && (forall t | t in s.callers :: s.lock == Caller(t) <==> HoldsLock(s.callers[t]))
    && (s.lock.Caller? ==> s.lock.t in s.callers)
  }

  /** A caller that will still signal the semaphore. */
  predicate Owes(pc: CallerPc) {
    || pc == Inside(WriteOp)
    || (pc.Leaving? && pc.op != ErrorOp)
    || pc.Signalling?
  }

  predicate Pending(s: State)
    requires s.ring.Valid()
  {
    s.ring.Contents() != [] || s.finish != Running
  }

  /** A sleeping worker with something to do has been, or will be, signalled. */
  ghost predicate WillWake(s: State)
    requires s.ring.Valid()
  {
    s.worker == Sleeping && Pending(s) ==> s.sem > 0 || exists t :: t in s.callers && Owes(s.callers[t])
  }

  predicate WorkerLetGo(s: State) {
    s.worker.Ending? || s.worker == WorkerFreeing || s.worker == Ended
  }

  predicate OwnerLetGo(s: State) {
    s.freer.Caller? && s.freer.t in s.callers &&
    (s.callers[s.freer.t] == Idle || s.callers[s.freer.t].Releasing? || s.callers[s.freer.t] == Freeing)
  }

  function WorkerDuty(s: State): nat {
    if s.worker == Ending(true) || s.worker == WorkerFreeing then 1 else 0
  }

  function OwnerDuty(s: State): nat {
    if s.freer.Caller? && s.freer.t in s.callers
      && (s.callers[s.freer.t] == Releasing(true) || s.callers[s.freer.t] == Freeing) then 1 else 0
  }

  /** The references count those who have not let go, and one who let go last frees. */
  predicate Counted(s: State) {
    && s.refcount == (if WorkerLetGo(s) then 0 else 1) + (if OwnerLetGo(s) then 0 else 1)
    && s.frees + WorkerDuty(s) + OwnerDuty(s) == (if WorkerLetGo(s) && OwnerLetGo(s) then 1 else 0)
    && (WorkerLetGo(s) ==> s.finish != Running)
  }

  /** Whoever frees the handle is the last caller to use it. */
  predicate Owned(s: State) {
    && s.freer != Worker
    && (s.freer.Caller? ==>
          && s.freer.t in s.callers
          && (forall t | t in s.callers && t != s.freer.t :: s.callers[t] == Idle)
          && (var pc := s.callers[s.freer.t];
              pc == Idle || pc == Locking(FreeOp) || pc == Inside(FreeOp) || pc.Releasing? || pc == Freeing))
    && (forall t | t in s.callers ::
          var pc := s.callers[t];
          (pc == Locking(FreeOp) || pc == Inside(FreeOp) || pc.Releasing? || pc == Freeing ==> s.freer == Caller(t))
          && pc != Leaving(FreeOp) && pc != Signalling(FreeOp))
  }

  /** The file is closed at most once, and only when everything is written. */
  predicate Closed(s: State) {
    s.closings <= 1 && (s.closings == 1 ==> WorkerLetGo(s))
  }

  /** Whoever is to free the structure is alone with it. */
  predicate LastAlone(s: State) {
    && (OwnerDuty(s) == 1 || s.frees == 1 ==> s.worker == Ended)
    && (WorkerDuty(s) == 1 || s.frees == 1 ==> AllIdle(s))
  }

  /** What the bytes, the lock and the semaphore keep. */
  ghost predicate Flow(s: State) {
    InOrder(s) && Exclusion(s) && WillWake(s)
  }

  /** What the references to the structure keep. */
  predicate Life(s: State) {
    Owned(s) && Counted(s) && Closed(s) && LastAlone(s)
  }

  ghost predicate Inv(s: State) {
    Flow(s) && Life(s)
  }

  // ----- Every step keeps the invariant ----------------------------------------------------------

  lemma BeginFlow(s: State, t: Tid, op: Op, s': State)
    requires Flow(s) && Begin(s, t, op, s')
    ensures Flow(s')
  {
    assert forall u | u in s.callers && Owes(s.callers[u]) :: u != t && s'.callers[u] == s.callers[u];
  }

  lemma BeginLife(s: State, t: Tid, op: Op, s': State)
    requires Life(s) && Begin(s, t, op, s')
    ensures Life(s')
  {
    assert forall u | u in s.callers && u != t :: s'.callers[u] == s.callers[u];
  }

  lemma BeginKeeps(s: State, t: Tid, op: Op, s': State)
    requires Inv(s) && Begin(s, t, op, s')
    ensures Inv(s')
  {
    hide Flow, Life;
    BeginFlow(s, t, op, s');
    BeginLife(s, t, op, s');
  }

  lemma AcquireKeeps(s: State, t: Tid, s': State)
    requires Inv(s) && Acquire(s, t, s')
    ensures Inv(s')
  {
    assert forall u | u in s.callers && Owes(s.callers[u]) :: u != t && s'.callers[u] == s.callers[u];
  }

  lemma WriteKeeps(s: State, t: Tid, data: seq<byte>, s': State)
    requires Inv(s) && Write(s, t, data, s')
    ensures Inv(s')
  {
    assert Owes(s'.callers[t]);
    assert s.file + s.local + s'.ring.Contents() == (s.file + s.local + s.ring.Contents()) + data;
  }

  lemma BodyFlow(s: State, t: Tid, s': State)
    requires Flow(s) && Body(s, t, s') && s.callers[t].op != FreeOp
    ensures Flow(s')
  {
    assert s.callers[t].op != ErrorOp ==> Owes(s'.callers[t]);
    assert forall u | u in s.callers && u != t :: s'.callers[u] == s.callers[u];
  }

  lemma BodyLife(s: State, t: Tid, s': State)
    requires Life(s) && Body(s, t, s') && s.callers[t].op != FreeOp
    ensures Life(s')
  {
    assert forall u | u in s.callers && u != t :: s'.callers[u] == s.callers[u];
  }

  lemma BodyKeeps(s: State, t: Tid, s': State)
    requires Inv(s) && Body(s, t, s') && s.callers[t].op != FreeOp
    ensures Inv(s')
  {
    hide Flow, Life;
    BodyFlow(s, t, s');
    BodyLife(s, t, s');
  }

  lemma FreeBodyKeeps(s: State, t: Tid, s': State)
    requires Inv(s) && Body(s, t, s') && s.callers[t].op == FreeOp
    ensures Inv(s')
  {
    assert forall u | u in s.callers && u != t :: s'.callers[u] == s.callers[u];
  }

  lemma LeaveKeeps(s: State, t: Tid, s': State)
    requires Inv(s) && Unlock(s, t, s') && s.callers[t].Leaving?
    ensures Inv(s')
  {
    assert Owes(s.callers[t]) ==> Owes(s'.callers[t]);
    assert forall u | u in s.callers && u != t :: s'.callers[u] == s.callers[u];
  }

  lemma ReleaseFlow(s: State, t: Tid, s': State)
    requires Flow(s) && Unlock(s, t, s') && s.callers[t].Releasing?
    ensures Flow(s')
  {
    assert forall u | u in s.callers && u != t :: s'.callers[u] == s.callers[u];
  }

  lemma ReleaseLife(s: State, t: Tid, s': State)
    requires Life(s) && Unlock(s, t, s') && s.callers[t].Releasing?
    ensures Life(s')
  {
    assert forall u | u in s.callers && u != t :: s'.callers[u] == s.callers[u];
  }

  lemma ReleaseKeeps(s: State, t: Tid, s': State)
    requires Inv(s) && Unlock(s, t, s') && s.callers[t].Releasing?
    ensures Inv(s')
  {
    hide Flow, Life;
    ReleaseFlow(s, t, s');
    ReleaseLife(s, t, s');
  }

  lemma SignalKeeps(s: State, t: Tid, s': State)
    requires Inv(s) && Signal(s, t, s')
    ensures Inv(s')
  {
  }

  lemma JoinKeeps(s: State, t: Tid, s': State)
    requires Inv(s) && Join(s, t, s')
    ensures Inv(s')
  {
    assert forall u | u in s.callers && u != t :: s'.callers[u] == s.callers[u];
  }

  lemma CallerFreesKeeps(s: State, t: Tid, s': State)
    requires Inv(s) && CallerFrees(s, t, s')
    ensures Inv(s')
  {
    assert forall u | u in s.callers && u != t :: s'.callers[u] == s.callers[u];
  }

  lemma WorkerIdlesKeeps(s: State, s': State)
    requires Inv(s) && WorkerIdles(s, s')
    ensures Inv(s')
  {
  }

  lemma DrainsInOrder(s: State, cap: nat, s': State)
    requires InOrder(s) && WorkerDrains(s, cap, s')
    ensures InOrder(s')
  {
    hide Ring.Contents;
    assert s.file + s'.local + s'.ring.Contents() == s.file + (s'.local + s'.ring.Contents());
    assert s.file + [] == s.file;
  }

  lemma WorkerDrainsFlow(s: State, cap: nat, s': State)
    requires Flow(s) && WorkerDrains(s, cap, s')
    ensures Flow(s')
  {
    DrainsInOrder(s, cap, s');
    hide Ring.Contents, Drains;
  }

  lemma WorkerDrainsLife(s: State, cap: nat, s': State)
    requires Life(s) && s.ring.Valid() && WorkerDrains(s, cap, s')
    ensures Life(s')
  {
  }

  lemma WorkerDrainsKeeps(s: State, cap: nat, s': State)
    requires Inv(s) && WorkerDrains(s, cap, s')
    ensures Inv(s')
  {
    hide Flow, Life;
    WorkerDrainsFlow(s, cap, s');
    WorkerDrainsLife(s, cap, s');
  }

  lemma WorkerFreesKeeps(s: State, s': State)
    requires Inv(s) && (WorkerUnlocks(s, s') || WorkerFrees(s, s'))
    ensures Inv(s')
  {
  }

  lemma WorkerMovesFlow(s: State, s': State)
    requires Flow(s) && (WorkerAcquires(s, s') || WorkerWrites(s, s') || WorkerWakes(s, s'))
    ensures Flow(s')
  {
  }

  lemma WorkerMovesLife(s: State, s': State)
    requires Life(s) && (WorkerAcquires(s, s') || WorkerWrites(s, s') || WorkerWakes(s, s'))
    ensures Life(s')
  {
  }

  lemma WorkerMovesKeeps(s: State, s': State)
    requires Inv(s) && (WorkerAcquires(s, s') || WorkerWrites(s, s') || WorkerWakes(s, s'))
    ensures Inv(s')
  {
    hide Flow, Life;
    WorkerMovesFlow(s, s');
    WorkerMovesLife(s, s');
  }

  lemma InitHolds(s: State)
    requires Init(s)
    ensures Inv(s)
  {
  }

  lemma CallerKeeps(s: State, t: Tid, a: Action, s': State)
    requires Inv(s) && CallerActs(s, t, a, s')
    ensures Inv(s')
  {
    match a
    case DoBegin(op) => BeginKeeps(s, t, op, s');
    case DoAcquire => AcquireKeeps(s, t, s');
    case DoWrite(data) => WriteKeeps(s, t, data, s');
    case DoBody =>
      if s.callers[t].op == FreeOp {
        FreeBodyKeeps(s, t, s');
      } else {
        BodyKeeps(s, t, s');
      }
    case DoUnlock =>
      if s.callers[t].Leaving? {
        LeaveKeeps(s, t, s');
      } else {
        ReleaseKeeps(s, t, s');
      }
    case DoSignal => SignalKeeps(s, t, s');
    case DoJoin => JoinKeeps(s, t, s');
    case DoFree => CallerFreesKeeps(s, t, s');
  }

  lemma WorkerKeeps(s: State, cap: nat, s': State)
    requires Inv(s) && WorkerStep(s, cap, s')
    ensures Inv(s')
  {
    if WorkerIdles(s, s') {
      WorkerIdlesKeeps(s, s');
    } else if WorkerDrains(s, cap, s') {
      WorkerDrainsKeeps(s, cap, s');
    } else if WorkerUnlocks(s, s') || WorkerFrees(s, s') {
      WorkerFreesKeeps(s, s');
    } else {
      WorkerMovesKeeps(s, s');
    }
  }

  lemma StepKeeps(s: State, cap: nat, s': State)
    requires Inv(s) && Step(s, cap, s')
    ensures Inv(s')
  {
    if WorkerStep(s, cap, s') {
      WorkerKeeps(s, cap, s');
    } else {
      var t, a :| CallerActs(s, t, a, s');
      CallerKeeps(s, t, a, s');
    }
  }

  lemma {:induction false} RunKeeps(run: seq<State>, cap: nat, i: nat)
    requires Run(run, cap) && i < |run|
    ensures Inv(run[i])
  {
    if i == 0 {
      InitHolds(run[0]);
    } else {
      RunKeeps(run, cap, i - 1);
      assert Step(run[i - 1], cap, run[i - 1 + 1]);
      StepKeeps(run[i - 1], cap, run[i]);
    }
  }

  // ----- What every run keeps --------------------------------------------------------------------

  /** In every interleaving the file has what was written first, the worker's buffer what follows,
      and the ring the rest, in the order in which the writers had the lock. */
  lemma BytesInOrder(run: seq<State>, cap: nat, i: nat)
    requires Run(run, cap) && i < |run|
    ensures run[i].ring.Valid()
    ensures run[i].file + run[i].local + run[i].ring.Contents() == run[i].log
    ensures run[i].file <= run[i].log
  {
    RunKeeps(run, cap, i);
    var s := run[i];
    assert s.file + s.local + s.ring.Contents() == s.file + (s.local + s.ring.Contents());
  }

  /** If the worker is blocked on the semaphore although there is something to do, a caller still
      owes its signal. */
  lemma NoLostWakeUp(run: seq<State>, cap: nat, i: nat)
    requires Run(run, cap) && i < |run|
    requires run[i].worker == Sleeping && run[i].sem == 0
    ensures run[i].ring.Valid()
    ensures Pending(run[i]) ==> exists t :: t in run[i].callers && Owes(run[i].callers[t])
  {
    RunKeeps(run, cap, i);
  }

  /** At most one thread is past taking the lock and before releasing it. */
  lemma MutualExclusion(run: seq<State>, cap: nat, i: nat, t: Tid, u: Tid)
    requires Run(run, cap) && i < |run|
    requires t in run[i].callers && u in run[i].callers && HoldsLock(run[i].callers[t])
    ensures HoldsLock(run[i].callers[u]) ==> t == u
    ensures run[i].worker != Top && !run[i].worker.Ending?
  {
    RunKeeps(run, cap, i);
    assert run[i].lock == Caller(t);
  }

  /** The structure is freed at most once, when the worker has ended, the handle was given up and no
      caller uses it; after that no thread takes any step on it. */
  lemma FreedOnce(run: seq<State>, cap: nat, i: nat)
    requires Run(run, cap) && i < |run|
    ensures run[i].frees <= 1
    ensures run[i].frees == 1 ==>
      && run[i].worker == Ended && run[i].freer.Caller? && AllIdle(run[i]) && run[i].lock == Nobody
      && forall s' :: !Step(run[i], cap, s')
  {
    RunKeeps(run, cap, i);
    var s := run[i];
    if s.frees == 1 {
      forall s' ensures !Step(s, cap, s') {
        forall t, a ensures !CallerActs(s, t, a, s') {
          assert t in s.callers ==> s.callers[t] == Idle;
        }
      }
    }
  }

  /** When both the worker and the owner have let go and all freeing is done, it was freed. */
  lemma NotLeaked(run: seq<State>, cap: nat, i: nat)
    requires Run(run, cap) && i < |run|
    requires run[i].worker == Ended && run[i].freer.Caller? && AllIdle(run[i])
    ensures run[i].frees == 1
  {
    RunKeeps(run, cap, i);
  }

  /** The worker lets go only with everything written so far in the file, and closes the file then
      exactly if it was asked to. */
  lemma EndsWithAllWritten(run: seq<State>, cap: nat, i: nat)
    requires Run(run, cap) && i + 1 < |run|
    requires !WorkerLetGo(run[i]) && WorkerLetGo(run[i + 1])
    ensures run[i + 1].file == run[i + 1].log
    ensures run[i + 1].closings == if run[i + 1].finish == Close then 1 else 0
  {
    RunKeeps(run, cap, i);
    var s, s' := run[i], run[i + 1];
    assert Step(s, cap, s');
    if WorkerStep(s, cap, s') {
      WorkerLeaves(s, cap, s');
    } else {
      var t, a :| CallerActs(s, t, a, s');
      CallerLeavesWorker(s, t, a, s');
      assert false;
    }
  }

  lemma CallerLeavesWorker(s: State, t: Tid, a: Action, s': State)
    requires CallerActs(s, t, a, s')
    ensures s'.worker == s.worker && s'.file == s.file
  {
  }

  lemma EmptyIsWritten(s: State)
    requires InOrder(s) && s.worker == Top && s.ring.Contents() == []
    ensures s.file == s.log
  {
    hide Ring.Contents;
    assert s.file + [] + [] == s.file;
  }

  lemma WorkerLeaves(s: State, cap: nat, s': State)
    requires Inv(s) && WorkerStep(s, cap, s')
    ensures s'.log == s.log && s'.finish == s.finish
    ensures WorkerLetGo(s) ==> WorkerLetGo(s') && s'.file == s.file
    ensures !WorkerLetGo(s) && WorkerLetGo(s') ==>
      s'.file == s'.log && s'.closings == if s'.finish == Close then 1 else 0
  {
    hide Ring.Contents, Drains, InOrder, Exclusion, WillWake, Owned, Counted, LastAlone;
    if WorkerIdles(s, s') {
      EmptyIsWritten(s);
    }
  }

  // ----- What callers ask for, and get -----------------------------------------------------------

  /** In the step from `s` to `s'` a caller makes the change of operation `op`. */
  ghost predicate Does(s: State, op: Op, s': State) {
    exists t :: t in s.callers && t in s'.callers && s.callers[t] == Inside(op) && s'.callers[t] == Leaving(op)
  }

  /** Up to state `j`, and before the worker let go, a caller made the change of `op`. */
  ghost predicate Asked(run: seq<State>, op: Op, j: nat)
    requires j < |run|
  {
    exists i :: 0 <= i < j && !WorkerLetGo(run[i]) && Does(run[i], op, run[i + 1])
  }

  lemma AskedNext(run: seq<State>, op: Op, j: nat)
    requires j + 1 < |run|
    ensures Asked(run, op, j + 1) <==> Asked(run, op, j) || (!WorkerLetGo(run[j]) && Does(run[j], op, run[j + 1]))
  {
    hide WorkerLetGo, Does;
  }

  /** What a step does to the request, by the operation that is made in it. */
  lemma RequestStep(s: State, cap: nat, s': State)
    requires Inv(s) && Step(s, cap, s')
    ensures Does(s, CloseOp, s') ==> s'.finish == Close
    ensures Does(s, WaitOp, s') ==> s'.finish == if s.finish == Running then Exit else s.finish
    ensures !Does(s, CloseOp, s') && !Does(s, WaitOp, s') ==> s'.finish == s.finish
    ensures WorkerLetGo(s) ==> WorkerLetGo(s') && s'.closings == s.closings
    ensures !WorkerLetGo(s) ==>
      s'.closings == s.closings + if WorkerLetGo(s') && s.finish == Close then 1 else 0
    ensures !WorkerLetGo(s) && WorkerLetGo(s') ==> s'.finish == s.finish != Running
  {
    if WorkerStep(s, cap, s') {
      WorkerRequest(s, cap, s');
    } else {
      var t, a :| CallerActs(s, t, a, s');
      CallerRequest(s, t, a, s');
    }
  }

  lemma WorkerRequest(s: State, cap: nat, s': State)
    requires WorkerStep(s, cap, s')
    ensures s'.finish == s.finish && s'.callers == s.callers
    ensures WorkerLetGo(s) ==> WorkerLetGo(s') && s'.closings == s.closings
    ensures !WorkerLetGo(s) ==>
      s'.closings == s.closings + if WorkerLetGo(s') && s.finish == Close then 1 else 0
    ensures !WorkerLetGo(s) && WorkerLetGo(s') ==> s.finish != Running
  {
    hide Ring.Contents, Drains;
  }

  lemma CallerRequest(s: State, t: Tid, a: Action, s': State)
    requires CallerActs(s, t, a, s')
    ensures Does(s, CloseOp, s') ==> s'.finish == Close
    ensures Does(s, WaitOp, s') ==> s'.finish == if s.finish == Running then Exit else s.finish
    ensures !Does(s, CloseOp, s') && !Does(s, WaitOp, s') ==> s'.finish == s.finish
    ensures s'.worker == s.worker && s'.closings == s.closings
  {
    hide Appends;
    if a.DoBody? {
      BodyRequest(s, t, s');
    } else {
      OtherRequest(s, t, a, s', CloseOp);
      OtherRequest(s, t, a, s', WaitOp);
      hide Does;
    }
  }

  lemma BodyRequest(s: State, t: Tid, s': State)
    requires Body(s, t, s')
    ensures Does(s, CloseOp, s') ==> s'.finish == Close
    ensures Does(s, WaitOp, s') ==> s'.finish == if s.finish == Running then Exit else s.finish
    ensures !Does(s, CloseOp, s') && !Does(s, WaitOp, s') ==> s'.finish == s.finish
    ensures s'.worker == s.worker && s'.closings == s.closings
  {
    var op := s.callers[t].op;
    assert forall u | u in s.callers && u != t :: u in s'.callers && s'.callers[u] == s.callers[u];
    assert op == CloseOp || op == WaitOp ==> s'.callers[t] == Leaving(op) && Does(s, op, s');
    assert forall o | o != op :: !Does(s, o, s');
  }

  lemma OtherRequest(s: State, t: Tid, a: Action, s': State, op: Op)
    requires CallerActs(s, t, a, s') && !a.DoBody?
    ensures !Does(s, op, s') && s'.finish == s.finish
  {
    hide Appends;
    assert forall u | u in s.callers && u != t :: u in s'.callers && s'.callers[u] == s.callers[u];
  }

  /** As long as the worker has not let go, the request is what the callers asked for: closing if any
      of them did, whatever came later. After that the file has been closed exactly if one did. */
  lemma {:induction false} RequestKept(run: seq<State>, cap: nat, j: nat)
    requires Run(run, cap) && j < |run|
    ensures !WorkerLetGo(run[j]) ==>
      && (run[j].finish == Close <==> Asked(run, CloseOp, j))
      && (run[j].finish != Running <==> Asked(run, CloseOp, j) || Asked(run, WaitOp, j))
    ensures run[j].closings == if WorkerLetGo(run[j]) && Asked(run, CloseOp, j) then 1 else 0
    ensures WorkerLetGo(run[j]) ==> Asked(run, CloseOp, j) || Asked(run, WaitOp, j)
  {
    hide Inv, Step, Asked, Does;
    if j == 0 {
      RequestStart(run, cap);
    } else {
      RequestKept(run, cap, j - 1);
      RunKeeps(run, cap, j - 1);
      AskedNext(run, CloseOp, j - 1);
      AskedNext(run, WaitOp, j - 1);
      RequestStep(run[j - 1], cap, run[j]);
    }
  }

  lemma RequestStart(run: seq<State>, cap: nat)
    requires Run(run, cap)
    ensures run[0].finish == Running && run[0].closings == 0 && !WorkerLetGo(run[0])
    ensures forall op :: !Asked(run, op, 0)
  {
  }

  /** The file is closed exactly if a caller asked for it before the worker let go; a later wait does
      not undo that. */
  lemma ClosedIffAsked(run: seq<State>, cap: nat, j: nat)
    requires Run(run, cap) && j < |run| && WorkerLetGo(run[j])
    ensures (exists i :: 0 <= i < j && !WorkerLetGo(run[i]) && Does(run[i], CloseOp, run[i + 1])) ==> run[j].closings == 1
    ensures (forall i | 0 <= i < j && !WorkerLetGo(run[i]) :: !Does(run[i], CloseOp, run[i + 1])) ==> run[j].closings == 0
  {
    hide Run, Does, WorkerLetGo;
    RequestKept(run, cap, j);
  }

  /** The worker lets go only if a caller asked it to, by closing or by waiting. */
  lemma EndsOnlyWhenAsked(run: seq<State>, cap: nat, j: nat)
    requires Run(run, cap) && j < |run| && WorkerLetGo(run[j])
    ensures exists i :: 0 <= i < j && (Does(run[i], CloseOp, run[i + 1]) || Does(run[i], WaitOp, run[i + 1]))
  {
    hide Run, Does, WorkerLetGo;
    RequestKept(run, cap, j);
  }

  /** Whatever was written while the worker had not let go is in the file once it has. */
  lemma {:induction false} WrittenBefore(run: seq<State>, cap: nat, k: nat, j: nat)
    requires Run(run, cap) && k <= j < |run| && !WorkerLetGo(run[k]) && WorkerLetGo(run[j])
    ensures run[k].log <= run[j].file
  {
    hide Run, WorkerLetGo;
    StepOf(run, cap, j - 1);
    RunKeeps(run, cap, j - 1);
    if WorkerLetGo(run[j - 1]) {
      WrittenBefore(run, cap, k, j - 1);
      FileStays(run[j - 1], cap, run[j]);
    } else {
      EndsWithAllWritten(run, cap, j - 1);
      LogGrows(run, cap, k, j);
    }
  }

  lemma StepOf(run: seq<State>, cap: nat, i: nat)
    requires Run(run, cap) && i + 1 < |run|
    ensures Step(run[i], cap, run[i + 1])
  {
  }

  lemma FileStays(s: State, cap: nat, s': State)
    requires Inv(s) && Step(s, cap, s') && WorkerLetGo(s)
    ensures s'.file == s.file
  {
    if WorkerStep(s, cap, s') {
      WorkerLeaves(s, cap, s');
    } else {
      var t, a :| CallerActs(s, t, a, s');
      CallerLeavesWorker(s, t, a, s');
    }
  }

  lemma {:induction false} LogGrows(run: seq<State>, cap: nat, k: nat, j: nat)
    requires Run(run, cap) && k <= j < |run|
    ensures run[k].log <= run[j].log
  {
    hide Run, Step, Inv;
    if k < j {
      LogGrows(run, cap, k, j - 1);
      StepOf(run, cap, j - 1);
      RunKeeps(run, cap, j - 1);
      LogStep(run[j - 1], cap, run[j]);
    }
  }

  lemma LogStep(s: State, cap: nat, s': State)
    requires Inv(s) && Step(s, cap, s')
    ensures s.log <= s'.log
  {
    if WorkerStep(s, cap, s') {
      WorkerLeaves(s, cap, s');
    } else {
      var t, a :| CallerActs(s, t, a, s');
      CallerLog(s, t, a, s');
    }
  }

  lemma CallerLog(s: State, t: Tid, a: Action, s': State)
    requires CallerActs(s, t, a, s')
    ensures s'.log == s.log + if a.DoWrite? then a.data else []
  {
    hide Appends;
  }

  /** Between the call of wait and its return. */
  predicate InWait(pc: CallerPc) {
    pc == Locking(WaitOp) || pc == Inside(WaitOp) || pc == Leaving(WaitOp) || pc == Signalling(WaitOp) || pc == Joining
  }

  lemma InWaitStep(s: State, cap: nat, s': State, t: Tid)
    requires Step(s, cap, s') && t in s.callers && InWait(s.callers[t])
    ensures t in s'.callers && (InWait(s'.callers[t]) || s.worker == Ended)
  {
    if WorkerStep(s, cap, s') {
      WorkerRequest(s, cap, s');
    } else {
      var u, a :| CallerActs(s, u, a, s');
      CallerInWait(s, u, a, s', t);
    }
    hide WorkerStep, CallerActs;
  }

  lemma CallerInWait(s: State, u: Tid, a: Action, s': State, t: Tid)
    requires CallerActs(s, u, a, s') && t in s.callers && InWait(s.callers[t])
    ensures t in s'.callers && (InWait(s'.callers[t]) || s.worker == Ended)
  {
    OthersStay(s, u, a, s');
    if t == u {
      OwnInWait(s, t, a, s');
    }
    hide CallerActs, InWait;
  }

  lemma OwnInWait(s: State, t: Tid, a: Action, s': State)
    requires CallerActs(s, t, a, s') && t in s'.callers && InWait(s.callers[t])
    ensures InWait(s'.callers[t]) || s.worker == Ended
  {
    hide Appends, Ring.Contents;
  }

  lemma EndedStays(s: State, cap: nat, s': State)
    requires Step(s, cap, s') && s.worker == Ended
    ensures s'.worker == Ended
  {
    if WorkerStep(s, cap, s') {
      assert false;
    } else {
      var u, a :| CallerActs(s, u, a, s');
      CallerLeavesWorker(s, u, a, s');
    }
  }

  lemma {:induction false} WaitGoesOn(run: seq<State>, cap: nat, i: nat, j: nat, t: Tid)
    requires Run(run, cap) && i <= j < |run| && t in run[i].callers && run[i].callers[t] == Locking(WaitOp)
    ensures run[j].worker == Ended || (t in run[j].callers && InWait(run[j].callers[t]))
  {
    hide Step;
    if i < j {
      WaitGoesOn(run, cap, i, j - 1, t);
      StepOf(run, cap, j - 1);
      if run[j - 1].worker == Ended {
        EndedStays(run[j - 1], cap, run[j]);
      } else {
        InWaitStep(run[j - 1], cap, run[j], t);
      }
    }
  }

  /** A caller that calls wait is not back before the worker has ended, and then the file has all that
      was written while the worker had not let go. */
  lemma WaitsForAll(run: seq<State>, cap: nat, i: nat, j: nat, t: Tid)
    requires Run(run, cap) && i <= j < |run| && t in run[i].callers && t in run[j].callers
    requires run[i].callers[t] == Locking(WaitOp) && run[j].callers[t] == Idle
    ensures run[j].worker == Ended
    ensures forall k | 0 <= k <= j && !WorkerLetGo(run[k]) :: run[k].log <= run[j].file
  {
    WaitGoesOn(run, cap, i, j, t);
    forall k | 0 <= k <= j && !WorkerLetGo(run[k]) ensures run[k].log <= run[j].file {
      WrittenBefore(run, cap, k, j);
    }
  }

  // ----- What the worker does when it is left alone ----------------------------------------------

  /** No caller holds the lock or owes a signal. */
  predicate Quiet(s: State) {
    forall t | t in s.callers :: !HoldsLock(s.callers[t]) && !Owes(s.callers[t])
  }

  function Rank(w: WorkerPc): nat {
    match w
    case Ended => 0
    case WorkerFreeing => 1
    case Ending(_) => 2
    case Sleeping => 1
    case Top => 3
    case Waking => 4
    case Writing => 5
  }

  /** What is left to do for the worker. */
  function Work(s: State): nat
    requires s.ring.Valid()
  {
    4 * s.sem + 4 * |s.ring.Contents()| + Rank(s.worker)
  }

  lemma WorkerProgress(s: State, cap: nat, s': State)
    requires Inv(s) && WorkerStep(s, cap, s') && cap > 0
    ensures Inv(s') && Work(s') < Work(s) && (Quiet(s) ==> Quiet(s'))
  {
    WorkerKeeps(s, cap, s');
    if WorkerDrains(s, cap, s') {
      DrainsLess(s, cap, s');
    } else {
      MovesLess(s, cap, s');
    }
    hide WorkerStep, Inv, Work;
  }

  lemma MovesLess(s: State, cap: nat, s': State)
    requires WorkerStep(s, cap, s') && !WorkerDrains(s, cap, s')
    ensures s'.ring.Valid() && Work(s') < Work(s) && s'.callers == s.callers
  {
    hide Ring.Contents, WorkerDrains;
  }

  lemma DrainsLess(s: State, cap: nat, s': State)
    requires s.ring.Valid() && WorkerDrains(s, cap, s') && cap > 0
    ensures s'.ring.Valid() && Work(s') < Work(s) && s'.callers == s.callers
  {
    hide Ring.Contents;
    assert |s'.local| > 0;
    assert |s'.local + s'.ring.Contents()| == |s.ring.Contents()|;
  }

  /** The worker can go on unless it has ended or waits for a signal. */
  lemma WorkerCanStep(s: State, cap: nat) returns (s': State)
    requires Inv(s) && !s.lock.Caller? && s.worker != Ended && !(s.worker == Sleeping && s.sem == 0)
    ensures WorkerStep(s, cap, s')
  {
    match s.worker
    case Waking =>
      s' := s.(worker := Top, lock := Worker);
    case Top =>
      if s.ring.Contents() != [] {
        var r', local := DrainExists(s.ring, cap);
        s' := s.(worker := Writing, lock := Nobody, ring := r', local := local);
      } else if s.finish != Running {
        s' := s.(worker := Ending(s.refcount - 1 == 0), refcount := s.refcount - 1,
                 closings := if s.finish == Close then s.closings + 1 else s.closings);
      } else {
        s' := s.(worker := Sleeping, lock := Nobody);
      }
    case Sleeping =>
      s' := s.(worker := Waking, sem := s.sem - 1);
    case Writing =>
      s' := s.(worker := Waking, file := s.file + s.local, local := []);
    case Ending(last) =>
      s' := s.(worker := if last then WorkerFreeing else Ended, lock := Nobody);
    case WorkerFreeing =>
      s' := s.(worker := Ended, frees := s.frees + 1);
  }

  lemma DrainExists(r: Ring, cap: nat) returns (r': Ring, local: seq<byte>)
    requires r.Valid()
    ensures Drains(r, cap, local, r')
  {
    ContentsAt(r);
    var k := if |r.Contents()| <= cap then |r.Contents()| else cap;
    local := r.Contents()[..k];
    r' := r.(readPos := Slot(|r.bytes|, r.readPos, k));
    Taken(r, cap, local, r');
  }

  ghost predicate WorkerRun(run: seq<State>, cap: nat) {
    && |run| > 0
    && forall i | 0 <= i < |run| - 1 :: WorkerStep(run[i], cap, run[i + 1])
  }

  /** Left alone by the callers, the worker comes to rest after a bounded number of steps; then all
      bytes are in the file, and if an end was requested, the worker has ended. */
  lemma {:induction false} WorkerFlushes(run: seq<State>, cap: nat)
    requires WorkerRun(run, cap) && cap > 0 && Inv(run[0]) && Quiet(run[0])
    ensures |run| <= Work(run[0]) + 1
    ensures
      var last := run[|run| - 1];
      (forall s' :: !WorkerStep(last, cap, s')) && !WorkerLetGo(run[0]) ==>
        && last.file == run[0].log == last.log
        && (run[0].finish != Running ==> last.worker == Ended)
  {
    WorkerRunsDown(run, cap, |run| - 1);
    var last := run[|run| - 1];
    if (forall s' :: !WorkerStep(last, cap, s')) {
      if last.worker != Ended && !(last.worker == Sleeping && last.sem == 0) {
        assert forall t | t in last.callers :: last.lock != Caller(t);
        var s' := WorkerCanStep(last, cap);
        assert false;
      }
      if last.worker == Sleeping {
        assert !Pending(last);
        assert last.file + last.local + last.ring.Contents() == last.file;
      }
    }
  }

  /** Along the worker's own steps. */
  lemma {:induction false} WorkerRunsDown(run: seq<State>, cap: nat, i: nat)
    requires WorkerRun(run, cap) && cap > 0 && Inv(run[0]) && Quiet(run[0]) && i < |run|
    ensures Inv(run[i]) && Quiet(run[i]) && Work(run[i]) + i <= Work(run[0])
    ensures run[i].log == run[0].log && run[i].finish == run[0].finish
    ensures !WorkerLetGo(run[0]) && WorkerLetGo(run[i]) ==> run[i].file == run[i].log
  {
    if i > 0 {
      WorkerRunsDown(run, cap, i - 1);
      var s, s' := run[i - 1], run[i - 1 + 1];
      assert WorkerStep(s, cap, s');
      WorkerProgress(s, cap, s');
      WorkerLeaves(s, cap, s');
    }
  }

  // ----- Signals ---------------------------------------------------------------------------------

  /** In the step from `s` to `s'` a caller is done with signalling. */
  ghost predicate Signals(s: State, s': State) {
    exists t :: t in s.callers && t in s'.callers && s.callers[t].Signalling? && !s'.callers[t].Signalling?
  }

  ghost function SignalsIn(run: seq<State>, j: nat): nat
    requires j < |run|
  {
    if j == 0 then 0 else SignalsIn(run, j - 1) + if Signals(run[j - 1], run[j]) then 1 else 0
  }

  ghost function WakesIn(run: seq<State>, j: nat): nat
    requires j < |run|
  {
    if j == 0 then 0
    else WakesIn(run, j - 1) + if run[j - 1].worker == Sleeping && run[j].worker != Sleeping then 1 else 0
  }

  /** The semaphore counts the signals that the worker has not yet used up by waking. */
  lemma {:induction false} SignalsCounted(run: seq<State>, cap: nat, j: nat)
    requires Run(run, cap) && j < |run|
    ensures run[j].sem + WakesIn(run, j) == SignalsIn(run, j)
  {
    if j > 0 {
      SignalsCounted(run, cap, j - 1);
      StepOf(run, cap, j - 1);
      SignalStep(run[j - 1], cap, run[j]);
      hide Run, Step, Signals;
    }
  }

  lemma SignalStep(s: State, cap: nat, s': State)
    requires Step(s, cap, s')
    ensures
      var wakes, signals := s.worker == Sleeping && s'.worker != Sleeping, Signals(s, s');
      s'.sem + (if wakes then 1 else 0) == s.sem + if signals then 1 else 0
  {
    if WorkerStep(s, cap, s') {
      WorkerWakesOnce(s, cap, s');
    } else {
      var t, a :| CallerActs(s, t, a, s');
      CallerSignals(s, t, a, s');
    }
  }

  lemma WorkerWakesOnce(s: State, cap: nat, s': State)
    requires WorkerStep(s, cap, s')
    ensures s'.callers == s.callers && !Signals(s, s')
    ensures s'.sem == s.sem - if s.worker == Sleeping && s'.worker != Sleeping then 1 else 0
  {
    hide Ring.Contents, Drains;
  }

  lemma CallerSignals(s: State, t: Tid, a: Action, s': State)
    requires CallerActs(s, t, a, s')
    ensures s'.worker == s.worker && s'.sem == s.sem + if Signals(s, s') then 1 else 0
  {
    hide Appends;
    assert forall u | u in s.callers && u != t :: u in s'.callers && s'.callers[u] == s.callers[u];
    assert a.DoSignal? ==> s.callers[t].Signalling? && !s'.callers[t].Signalling?;
  }

  // ----- Which calls can be made -----------------------------------------------------------------

  /** Until the handle is given up, the worker can be joined exactly as long as nobody has waited for it. */
  lemma {:induction false} JoinableUntilWait(run: seq<State>, cap: nat, j: nat)
    requires Run(run, cap) && j < |run|
    ensures run[j].freer == Nobody ==>
      (run[j].joinable <==> forall i | 0 <= i < j :: !Does(run[i], WaitOp, run[i + 1]))
  {
    hide Inv, Step, Does;
    if j > 0 && run[j].freer == Nobody {
      JoinableUntilWait(run, cap, j - 1);
      RunKeeps(run, cap, j - 1);
      StepOf(run, cap, j - 1);
      JoinableStep(run[j - 1], cap, run[j]);
      assert run[j] == run[j - 1 + 1];
    }
  }

  lemma JoinableStep(s: State, cap: nat, s': State)
    requires Inv(s) && Step(s, cap, s') && s'.freer == Nobody
    ensures s.freer == Nobody && s'.joinable == (s.joinable && !Does(s, WaitOp, s'))
  {
    if WorkerStep(s, cap, s') {
      WorkerJoinable(s, cap, s');
    } else {
      var t, a :| CallerActs(s, t, a, s');
      CallerJoinable(s, t, a, s');
    }
  }

  lemma WorkerJoinable(s: State, cap: nat, s': State)
    requires WorkerStep(s, cap, s')
    ensures s'.freer == s.freer && s'.joinable == s.joinable && !Does(s, WaitOp, s')
  {
    hide Ring.Contents, Drains;
  }

  lemma CallerJoinable(s: State, t: Tid, a: Action, s': State)
    requires Owned(s) && CallerActs(s, t, a, s') && s'.freer == Nobody
    ensures s.freer == Nobody && s'.joinable == (s.joinable && !Does(s, WaitOp, s'))
  {
    hide Appends;
    OthersStay(s, t, a, s');
    assert a.DoBody? && s.callers[t] == Inside(WaitOp) ==> s'.callers[t] == Leaving(WaitOp) && Does(s, WaitOp, s');
  }

  /** Until the handle is given up, an idle caller can always write, look for an error or close, and wait
      unless someone has waited before; it can give the handle up when no one uses it. */
  lemma MayBegin(run: seq<State>, cap: nat, j: nat, t: Tid)
    requires Run(run, cap) && j < |run| && t in run[j].callers && run[j].callers[t] == Idle && run[j].freer == Nobody
    ensures CanBegin(run[j], t, WriteOp) && CanBegin(run[j], t, ErrorOp) && CanBegin(run[j], t, CloseOp)
    ensures CanBegin(run[j], t, WaitOp) <==>
      && (forall i | 0 <= i < j :: !Does(run[i], WaitOp, run[i + 1]))
      && (forall u | u in run[j].callers :: run[j].callers[u] != Locking(WaitOp) && run[j].callers[u] != Inside(WaitOp))
    ensures CanBegin(run[j], t, FreeOp) <==> AllIdle(run[j])
  {
    JoinableUntilWait(run, cap, j);
    hide Run, Does;
    var s := run[j];
    assert forall op ::
      Begin(s, t, op, Goto(s, t, Locking(op)).(freer := if op == FreeOp then Caller(t) else Nobody)) <==> CanBegin(s, t, op);
  }

  ghost predicate CanBegin(s: State, t: Tid, op: Op) {
    exists s' :: Begin(s, t, op, s')
  }

  // ----- All calls return ------------------------------------------------------------------------

  /** A step of the worker, or of a caller who neither begins an operation nor writes more. */
  ghost predicate GoesOn(s: State, cap: nat, s': State) {
    WorkerStep(s, cap, s') || exists t, a: Action :: !a.DoBegin? && !a.DoWrite? && CallerActs(s, t, a, s')
  }

  lemma CallerGoesOn(s: State, cap: nat, t: Tid, a: Action, s': State)
    requires !a.DoBegin? && !a.DoWrite? && CallerActs(s, t, a, s')
    ensures GoesOn(s, cap, s')
  {
    hide CallerActs, WorkerStep;
  }

  /** A caller in an operation can go on unless it waits for the lock or for the end of the worker. */
  lemma CallerCanStep(s: State, cap: nat, t: Tid) returns (s': State)
    requires Inv(s) && t in s.callers && s.callers[t] != Idle
    requires s.callers[t].Locking? ==> s.lock == Nobody
    requires s.callers[t] == Joining ==> s.worker == Ended
    ensures GoesOn(s, cap, s')
  {
    var a: Action;
    match s.callers[t] {
      case Locking(op) =>
        a, s' := DoAcquire, Goto(s, t, Inside(op)).(lock := Caller(t));
      case Inside(op) =>
        a, s' := DoBody, BodyOf(s, t, op);
      case Leaving(op) =>
        a, s' := DoUnlock, Goto(s, t, if op == ErrorOp then Idle else Signalling(op)).(lock := Nobody);
      case Signalling(op) =>
        a, s' := DoSignal, Goto(s, t, if op == WaitOp then Joining else Idle).(sem := s.sem + 1);
      case Joining =>
        a, s' := DoJoin, Goto(s, t, Idle);
      case Releasing(last) =>
        a, s' := DoUnlock, Goto(s, t, if last then Freeing else Idle).(lock := Nobody);
      case Freeing =>
        a, s' := DoFree, Goto(s, t, Idle).(frees := s.frees + 1);
    }
    CallerGoesOn(s, cap, t, a, s');
  }

  function BodyOf(s: State, t: Tid, op: Op): State {
    match op
    case CloseOp => Goto(s, t, Leaving(op)).(finish := Close)
    case WaitOp => Goto(s, t, Leaving(op)).(joinable := false, finish := if s.finish == Running then Exit else s.finish)
    case FreeOp => Goto(s, t, Releasing(s.refcount - 1 == 0)).(joinable := false, refcount := s.refcount - 1)
    case _ => Goto(s, t, Leaving(op))
  }

  /** Who waits, or is about to, has asked the worker to end. */
  predicate WaitersAsked(s: State) {
    forall t | t in s.callers ::
      s.callers[t] == Leaving(WaitOp) || s.callers[t] == Signalling(WaitOp) || s.callers[t] == Joining ==> s.finish != Running
  }

  lemma CallerKeepsAsked(s: State, t: Tid, a: Action, s': State)
    requires CallerActs(s, t, a, s') && WaitersAsked(s)
    ensures WaitersAsked(s')
  {
    OwnAsked(s, t, a, s');
    OthersStay(s, t, a, s');
    hide CallerActs;
  }

  lemma OwnAsked(s: State, t: Tid, a: Action, s': State)
    requires CallerActs(s, t, a, s') && WaitersAsked(s)
    ensures s.finish != Running ==> s'.finish != Running
    ensures t in s'.callers
    ensures s'.callers[t] == Leaving(WaitOp) || s'.callers[t] == Signalling(WaitOp) || s'.callers[t] == Joining ==>
      s'.finish != Running
  {
    hide Appends, Ring.Contents, Owes;
    assert a.DoBody? || a.DoWrite? || s'.finish == s.finish;
  }

  lemma OthersStay(s: State, t: Tid, a: Action, s': State)
    requires CallerActs(s, t, a, s')
    ensures t in s.callers && t in s'.callers && s'.callers == s.callers[t := s'.callers[t]]
  {
    hide Appends, Ring.Contents;
  }

  lemma {:induction false} RunKeepsAsked(run: seq<State>, cap: nat, i: nat)
    requires Run(run, cap) && i < |run|
    ensures WaitersAsked(run[i])
  {
    if i > 0 {
      RunKeepsAsked(run, cap, i - 1);
      StepOf(run, cap, i - 1);
      var s, s' := run[i - 1], run[i];
      if WorkerStep(s, cap, s') {
        WorkerRequest(s, cap, s');
      } else {
        var t, a :| CallerActs(s, t, a, s');
        CallerKeepsAsked(s, t, a, s');
      }
      hide Run, Step, CallerActs, WorkerStep;
    }
  }

  /** As long as any caller is in an operation, some thread can go on. */
  lemma NoDeadlock(run: seq<State>, cap: nat, i: nat, t: Tid) returns (s': State)
    requires Run(run, cap) && i < |run| && t in run[i].callers && run[i].callers[t] != Idle
    ensures GoesOn(run[i], cap, s')
  {
    RunKeeps(run, cap, i);
    RunKeepsAsked(run, cap, i);
    var s := run[i];
    if s.lock.Caller? {
      s' := CallerCanStep(s, cap, s.lock.t);
    } else if s.worker != Ended && !(s.worker == Sleeping && s.sem == 0) {
      s' := WorkerCanStep(s, cap);
    } else if s.callers[t] == Joining && s.worker != Ended {
      var u :| u in s.callers && Owes(s.callers[u]);
      s' := CallerCanStep(s, cap, u);
    } else {
      s' := CallerCanStep(s, cap, t);
    }
  }

  /** How far a caller is from being back. */
  function Stage(pc: CallerPc): nat {
    match pc
    case Idle => 0
    case Joining => 1
    case Freeing => 1
    case Releasing(_) => 2
    case Signalling(_) => 6
    case Leaving(_) => 7
    case Inside(_) => 8
    case Locking(_) => 9
  }

  ghost function Stages(pcs: map<Tid, CallerPc>): nat {
    if pcs == map[] then 0 else
      var t :| t in pcs;
      Stage(pcs[t]) + Stages(pcs - {t})
  }

  lemma {:induction false} StagesWithout(pcs: map<Tid, CallerPc>, t: Tid)
    requires t in pcs
    ensures Stages(pcs) == Stage(pcs[t]) + Stages(pcs - {t})
    decreases |pcs|
  {
    hide Stage;
    var u :| t in pcs && u in pcs && Stages(pcs) == Stage(pcs[u]) + Stages(pcs - {u});
    if u != t {
      StagesWithout(pcs - {u}, t);
      StagesWithout(pcs - {t}, u);
      assert pcs - {u} - {t} == pcs - {t} - {u};
    }
  }

  lemma StagesNext(pcs: map<Tid, CallerPc>, t: Tid, pc: CallerPc)
    requires t in pcs
    ensures Stages(pcs[t := pc]) + Stage(pcs[t]) == Stages(pcs) + Stage(pc)
  {
    StagesWithout(pcs, t);
    StagesWithout(pcs[t := pc], t);
    hide Stage, Stages;
    assert pcs[t := pc] - {t} == pcs - {t};
  }

  /** What is left to do for all threads. */
  ghost function AllWork(s: State): nat
    requires s.ring.Valid()
  {
    Work(s) + Stages(s.callers)
  }

  lemma CallerProgress(s: State, t: Tid, a: Action, s': State)
    requires s.ring.Valid() && CallerActs(s, t, a, s') && !a.DoBegin? && !a.DoWrite?
    ensures s'.ring.Valid() && AllWork(s') < AllWork(s)
  {
    hide Ring.Contents, Stages, Appends;
    OthersStay(s, t, a, s');
    StagesNext(s.callers, t, s'.callers[t]);
  }

  lemma Progress(s: State, cap: nat, s': State)
    requires Inv(s) && GoesOn(s, cap, s') && cap > 0
    ensures s'.ring.Valid() && AllWork(s') < AllWork(s)
  {
    if WorkerStep(s, cap, s') {
      WorkerProgress(s, cap, s');
      WorkerRequest(s, cap, s');
      hide Work;
    } else {
      var t, a: Action :| !a.DoBegin? && !a.DoWrite? && CallerActs(s, t, a, s');
      CallerProgress(s, t, a, s');
    }
  }

  lemma RunIsValid(run: seq<State>, cap: nat, i: nat)
    requires Run(run, cap) && i < |run|
    ensures Inv(run[i]) && run[i].ring.Valid()
  {
    RunKeeps(run, cap, i);
  }

  lemma {:induction false} AllGoDown(run: seq<State>, cap: nat, k: nat, j: nat)
    requires Run(run, cap) && k <= j < |run| && cap > 0
    requires forall i | k <= i < j :: GoesOn(run[i], cap, run[i + 1])
    ensures run[j].ring.Valid() && run[k].ring.Valid()
    ensures AllWork(run[j]) + (j - k) <= AllWork(run[k])
  {
    hide GoesOn, Step, AllWork, Inv;
    RunIsValid(run, cap, j);
    if k < j {
      AllGoDown(run, cap, k, j - 1);
      RunKeeps(run, cap, j - 1);
      assert GoesOn(run[j - 1], cap, run[j - 1 + 1]);
      Progress(run[j - 1], cap, run[j]);
    }
  }

  /** When no more is begun or written, in whatever order the threads go on: they do so for a bounded
      number of steps only, and then all calls have returned. The worker has ended if it was asked to, and
      sleeps with everything in the file if not. */
  lemma AllCallsReturn(run: seq<State>, cap: nat, k: nat)
    requires Run(run, cap) && k < |run| && cap > 0
    requires forall i | k <= i < |run| - 1 :: GoesOn(run[i], cap, run[i + 1])
    ensures run[k].ring.Valid() && |run| - k <= AllWork(run[k]) + 1
    ensures (exists s' :: GoesOn(Last(run), cap, s')) || Returned(Last(run))
  {
    AllGoDown(run, cap, k, |run| - 1);
    hide GoesOn, AllWork, Run, Returned;
    AtEnd(run, cap);
  }

  function Last(run: seq<State>): State
    requires |run| > 0
  {
    run[|run| - 1]
  }

  predicate Returned(s: State) {
    AllIdle(s) && if s.finish != Running then s.worker == Ended else s.worker == Sleeping && s.file == s.log
  }

  lemma AtEnd(run: seq<State>, cap: nat)
    requires Run(run, cap)
    ensures (exists s' :: GoesOn(Last(run), cap, s')) || Returned(Last(run))
  {
    RunIsValid(run, cap, |run| - 1);
    AllAreIdle(run, cap, Last(run));
    hide GoesOn, Inv, Run;
    if !exists s' :: GoesOn(Last(run), cap, s') {
      AtRest(Last(run), cap);
    }
  }

  lemma AllAreIdle(run: seq<State>, cap: nat, last: State)
    requires Run(run, cap) && last == run[|run| - 1]
    ensures AllIdle(last) || exists s' :: GoesOn(last, cap, s')
  {
    hide GoesOn, Step;
    if t :| t in last.callers && last.callers[t] != Idle {
      var s' := NoDeadlock(run, cap, |run| - 1, t);
      assert GoesOn(last, cap, s');
    }
  }

  lemma AtRest(s: State, cap: nat)
    requires Inv(s) && AllIdle(s) && !exists s' :: GoesOn(s, cap, s')
    ensures Returned(s)
  {
    assert !s.lock.Caller?;
    if s.worker != Ended && !(s.worker == Sleeping && s.sem == 0) {
      var s' := WorkerCanStep(s, cap);
      assert GoesOn(s, cap, s');
    }
    if s.worker == Sleeping {
      assert !Pending(s);
      assert s.file + s.local + s.ring.Contents() == s.file;
    }
  }
}
