/**
 The pool of handler threads as a step system: assign_thread (src/chk/helpers.c), the exit paths of handle_peers and
 peer_disconnect (src/peer.c). Each read or write of a shared array and each lock operation is a step of its own; any
 number of client threads (the command loop and the listener) and handlers take steps in any order.
 */
module HandlerPool {
  import opened Bytes

  type Tid = nat

  /** Where a handler stands; it is live until it has cleared its status. */
  datatype Phase =
    | Running      // in the receive loop
    | WantsLock    // on an exit path that takes the status lock
    | HasLock
    | Wrote        // cleared its status, still holds the lock
    | Unlocked     // on the exit path that clears the status without the lock
    | Cleared      // only pthread_exit is left
    | Exited

  datatype Handler = Handler(slot: nat, phase: Phase) {
    predicate Live() {
      phase in {Running, WantsLock, HasLock, Unlocked}
    }
  }

  /** Where a client thread stands. */
  datatype Pc =
    | Idle
    // assign_thread
    | Scanning(j: nat)
    | Claiming(j: nat)
    | Creating(j: nat)
    | Recording(j: nat, t: Tid)   // in pthread_create: the handler runs, thread_array does not name it yet
    | Created
    // peer_disconnect
    | WantsJoin(id: nat)
    | Joining(id: nat)
    | Joined(id: nat)
    | JoinDone
  {
    predicate HoldsLock() {
      !Idle? && !WantsJoin?
    }
  }

  datatype Lock = Free | ByClient(a: nat) | ByHandler(t: Tid)

  datatype State = State(maxPeers: nat, status: seq<int>, threads: seq<Option<Tid>>, handlers: map<Tid, Handler>,
                         lock: Lock, clients: seq<Pc>)
  {
    /** The handler that slot j was last given to: the one being recorded, else the one that thread_array names. */
    function Owner(j: nat): Option<Tid> {
      if lock.ByClient? && lock.a < |clients| && clients[lock.a].Recording? && clients[lock.a].j == j then
        Some(clients[lock.a].t)
      else if j < |threads| then threads[j]
      else None
    }

    ghost predicate LiveAt(t: Tid, j: nat) {
      t in handlers && handlers[t].Live() && handlers[t].slot == j
    }

    function At(a: nat, pc: Pc): State
      requires a < |clients|
    {
      this.(clients := clients[a := pc])
    }

    function Move(t: Tid, phase: Phase): State
      requires t in handlers
    {
      this.(handlers := handlers[t := handlers[t].(phase := phase)])
    }
  }

  predicate Init(s: State) {
    && s.status == seq(s.maxPeers, _ => 0)
    && s.threads == seq(s.maxPeers, _ => None)
    && s.handlers == map[]
    && s.lock == Free
    && s.clients == seq(|s.clients|, _ => Idle)
  }

  datatype Step =
    | StartAssign(a: nat) | Scan(a: nat) | GiveUp(a: nat) | Claim(a: nat)
    | Spawn(a: nat, t: Tid) | Record(a: nat) | FinishAssign(a: nat)
    | StartDisconnect(a: nat, id: nat) | LockForJoin(a: nat) | Join(a: nat) | Release(a: nat) | FinishDisconnect(a: nat)
    | LeaveLocked(t: Tid) | LeaveUnlocked(t: Tid) | HandlerLock(t: Tid) | HandlerClear(t: Tid) | HandlerUnlock(t: Tid)
    | ClearUnlocked(t: Tid) | Exit(t: Tid)
  {
    predicate OfHandler() {
      LeaveLocked? || LeaveUnlocked? || HandlerLock? || HandlerClear? || HandlerUnlock? || ClearUnlocked? || Exit?
    }
  }

  predicate ClientStep(s: State, s': State, step: Step) {
    match step
    // assign_thread
    case StartAssign(a) =>
      a < |s.clients| && s.clients[a] == Idle && s.lock == Free && s' == s.At(a, Scanning(0)).(lock := ByClient(a))
    case Scan(a) =>
      && a < |s.clients| && s.clients[a].Scanning? && s.clients[a].j < |s.status|
      && var j := s.clients[a].j;
         s' == s.At(a, if s.status[j] == 0 then Claiming(j) else Scanning(j + 1))
    case GiveUp(a) =>
      && a < |s.clients| && s.clients[a].Scanning? && s.clients[a].j >= s.maxPeers
      && s' == s.At(a, Idle).(lock := Free)
    case Claim(a) =>
      && a < |s.clients| && s.clients[a].Claiming? && s.clients[a].j < |s.status|
      && var j := s.clients[a].j;
         s' == s.At(a, Creating(j)).(status := s.status[j := 1])
    case Spawn(a, t) =>
      && a < |s.clients| && s.clients[a].Creating? && t !in s.handlers
      && var j := s.clients[a].j;
         s' == s.At(a, Recording(j, t)).(handlers := s.handlers[t := Handler(j, Running)])
    case Record(a) =>
      && a < |s.clients| && s.clients[a].Recording? && s.clients[a].j < |s.threads|
      && s' == s.At(a, Created).(threads := s.threads[s.clients[a].j := Some(s.clients[a].t)])
    case FinishAssign(a) =>
      a < |s.clients| && s.clients[a] == Created && s' == s.At(a, Idle).(lock := Free)
    // peer_disconnect: the thread id is read before the lock is taken, so any id may be seen
    case StartDisconnect(a, id) =>
      a < |s.clients| && s.clients[a] == Idle && id < s.maxPeers && s' == s.At(a, WantsJoin(id))
    case LockForJoin(a) =>
      && a < |s.clients| && s.clients[a].WantsJoin? && s.lock == Free
      && s' == s.At(a, Joining(s.clients[a].id)).(lock := ByClient(a))
    case Join(a) =>
      && a < |s.clients| && s.clients[a].Joining? && s.clients[a].id < |s.threads|
      && var t := s.threads[s.clients[a].id];
         && (t.Some? ==> t.value in s.handlers && s.handlers[t.value].phase == Exited)
         && s' == s.At(a, Joined(s.clients[a].id))
    case Release(a) =>
      && a < |s.clients| && s.clients[a].Joined? && s.clients[a].id < |s.status|
      && s' == s.At(a, JoinDone).(status := s.status[s.clients[a].id := 0])
    case FinishDisconnect(a) =>
      a < |s.clients| && s.clients[a] == JoinDone && s' == s.At(a, Idle).(lock := Free)
    case _ => false
  }

  predicate HandlerStep(s: State, s': State, step: Step) {
    match step
    case LeaveLocked(t) =>
      t in s.handlers && s.handlers[t].phase == Running && s' == s.Move(t, WantsLock)
    case LeaveUnlocked(t) =>
      t in s.handlers && s.handlers[t].phase == Running && s' == s.Move(t, Unlocked)
    case HandlerLock(t) =>
      && t in s.handlers && s.handlers[t].phase == WantsLock && s.lock == Free
      && s' == s.Move(t, HasLock).(lock := ByHandler(t))
    case HandlerClear(t) =>
      && t in s.handlers && s.handlers[t].phase == HasLock && s.handlers[t].slot < |s.status|
      && s' == s.Move(t, Wrote).(status := s.status[s.handlers[t].slot := 0])
    case HandlerUnlock(t) =>
      t in s.handlers && s.handlers[t].phase == Wrote && s' == s.Move(t, Cleared).(lock := Free)
    case ClearUnlocked(t) =>
      && t in s.handlers && s.handlers[t].phase == Unlocked && s.handlers[t].slot < |s.status|
      && s' == s.Move(t, Cleared).(status := s.status[s.handlers[t].slot := 0])
    case Exit(t) =>
      t in s.handlers && s.handlers[t].phase == Cleared && s' == s.Move(t, Exited)
    case _ => false
  }

  ghost predicate Next(s: State, s': State) {
    exists step :: ClientStep(s, s', step) || HandlerStep(s, s', step)
  }

  // The invariant

  ghost predicate LockInv(s: State) {
    && (forall a :: 0 <= a < |s.clients| ==> (s.clients[a].HoldsLock() <==> s.lock == ByClient(a)))
    && (forall t :: t in s.handlers ==> (s.handlers[t].phase in {HasLock, Wrote} <==> s.lock == ByHandler(t)))
  }

  ghost predicate SlotInv(s: State) {
    && |s.status| == |s.threads| == s.maxPeers
    && (forall j: nat :: j < s.maxPeers && s.Owner(j).Some? ==>
          s.Owner(j).value in s.handlers && s.handlers[s.Owner(j).value].slot == j)
    && (forall t :: t in s.handlers && s.handlers[t].Live() ==> s.Owner(s.handlers[t].slot) == Some(t))
    && (forall t :: t in s.handlers ==> s.handlers[t].slot < s.maxPeers)
  }

  /** The owner of slot j is live. */
  ghost predicate Occupied(s: State, j: nat) {
    s.Owner(j).Some? && s.Owner(j).value in s.handlers && s.handlers[s.Owner(j).value].Live()
  }

  /** Slot j is being assigned: its status is set, its handler not yet created. Only the lock holder can be doing that. */
  ghost predicate Pending(s: State, j: nat) {
    s.lock.ByClient? && s.lock.a < |s.clients| && s.clients[s.lock.a] == Creating(j)
  }

  /** A slot is marked busy exactly while it has a live handler or one is about to be created. */
  ghost predicate StatusInv(s: State) {
    && |s.status| == s.maxPeers
    && (forall j :: 0 <= j < s.maxPeers ==> s.status[j] == if Occupied(s, j) || Pending(s, j) then 1 else 0)
  }

  ghost predicate PcOk(s: State, pc: Pc) {
    match pc
    case Claiming(j) => j < |s.status| && s.status[j] == 0
    case Creating(j) => j < s.maxPeers && !Occupied(s, j)
    case Recording(j, t) => j < s.maxPeers && t in s.handlers && s.handlers[t].slot == j
    case Joining(id) => id < s.maxPeers
    case Joined(id) => id < s.maxPeers && !Occupied(s, id)
    case WantsJoin(id) => id < s.maxPeers
    case _ => true
  }

  ghost predicate PcInv(s: State) {
    forall a :: 0 <= a < |s.clients| ==> PcOk(s, s.clients[a])
  }

  ghost predicate Inv(s: State) {
    LockInv(s) && SlotInv(s) && StatusInv(s) && PcInv(s)
  }

  lemma InitInv(s: State)
    requires Init(s)
    ensures Inv(s)
  {}

  lemma ClientKeepsLock(s: State, s': State, step: Step)
    requires Inv(s) && ClientStep(s, s', step)
    ensures LockInv(s')
  {}

  lemma HandlerKeepsLock(s: State, s': State, step: Step)
    requires Inv(s) && HandlerStep(s, s', step)
    ensures LockInv(s')
  {}

  // What a step does to owners, occupied slots and pending slots

  /** The slot that a step hands to a new handler. */
  predicate Spawns(s: State, step: Step, j: nat) {
    step.Spawn? && step.a < |s.clients| && s.clients[step.a] == Creating(j)
  }

  /** The slot whose status a handler step clears. */
  predicate Clears(s: State, step: Step, j: nat) {
    (step.HandlerClear? || step.ClearUnlocked?) && step.t in s.handlers && s.handlers[step.t].slot == j
  }

  lemma OwnerAfterClient(s: State, s': State, step: Step, j: nat)
    requires LockInv(s) && ClientStep(s, s', step)
    ensures s'.Owner(j) == if Spawns(s, step, j) then Some(step.t) else s.Owner(j)
  {}

  lemma OwnerAfterHandler(s: State, s': State, step: Step, j: nat)
    requires LockInv(s) && HandlerStep(s, s', step)
    ensures s'.Owner(j) == s.Owner(j)
  {}

  lemma HandlersAfterClient(s: State, s': State, step: Step)
    requires ClientStep(s, s', step)
    ensures |s'.status| == |s.status| && |s'.threads| == |s.threads| && s'.maxPeers == s.maxPeers
    ensures !step.Spawn? ==> s'.handlers == s.handlers
    ensures step.Spawn? ==>
              step.a < |s.clients| && s.clients[step.a].Creating? && step.t !in s.handlers
              && s'.handlers == s.handlers[step.t := Handler(s.clients[step.a].j, Running)]
  {}

  lemma HandlersAfterHandler(s: State, s': State, step: Step, t: Tid)
    requires HandlerStep(s, s', step) && t in s.handlers
    ensures |s'.status| == |s.status| && |s'.threads| == |s.threads| && s'.maxPeers == s.maxPeers
    ensures s'.handlers.Keys == s.handlers.Keys && s'.handlers[t].slot == s.handlers[t].slot
    ensures s'.handlers[t].Live() <==>
            s.handlers[t].Live() && !((step.HandlerClear? || step.ClearUnlocked?) && step.t == t)
  {}

  lemma OccupiedAfterClient(s: State, s': State, step: Step, j: nat)
    requires LockInv(s) && SlotInv(s) && ClientStep(s, s', step) && j < s.maxPeers
    ensures Occupied(s', j) <==> Occupied(s, j) || Spawns(s, step, j)
  {
    hide State.Owner, ClientStep, LockInv;
    OwnerAfterClient(s, s', step, j);
    HandlersAfterClient(s, s', step);
  }

  lemma OccupiedAfterHandler(s: State, s': State, step: Step, j: nat)
    requires LockInv(s) && SlotInv(s) && HandlerStep(s, s', step) && j < s.maxPeers
    ensures Occupied(s', j) <==> Occupied(s, j) && !Clears(s, step, j)
  {
    OwnerAfterHandler(s, s', step, j);
    if Clears(s, step, j) {
      ClearedIsOwner(s, s', step);
    }
    hide State.Owner, HandlerStep, LockInv;
    if s.Owner(j).Some? && s.Owner(j).value in s.handlers {
      HandlersAfterHandler(s, s', step, s.Owner(j).value);
    }
  }

  /** A handler that clears a status owns that slot. */
  lemma ClearedIsOwner(s: State, s': State, step: Step)
    requires SlotInv(s) && HandlerStep(s, s', step) && (step.HandlerClear? || step.ClearUnlocked?)
    ensures step.t in s.handlers && s.Owner(s.handlers[step.t].slot) == Some(step.t)
  {
    hide State.Owner;
  }

  lemma PendingAfterClient(s: State, s': State, step: Step, j: nat)
    requires LockInv(s) && ClientStep(s, s', step)
    ensures Pending(s', j) <==>
            (Pending(s, j) && !Spawns(s, step, j)) || (step.Claim? && s.clients[step.a] == Claiming(j))
  {}

  lemma PendingAfterHandler(s: State, s': State, step: Step, j: nat)
    requires LockInv(s) && HandlerStep(s, s', step)
    ensures Pending(s', j) <==> Pending(s, j)
  {}

  lemma StatusAfterClient(s: State, s': State, step: Step, j: nat)
    requires ClientStep(s, s', step) && j < |s.status|
    ensures |s'.status| == |s.status|
    ensures s'.status[j] == if step.Claim? && s.clients[step.a] == Claiming(j) then 1
                            else if step.Release? && s.clients[step.a] == Joined(j) then 0
                            else s.status[j]
  {}

  lemma StatusAfterHandler(s: State, s': State, step: Step, j: nat)
    requires HandlerStep(s, s', step) && j < |s.status|
    ensures |s'.status| == |s.status| && s'.clients == s.clients
    ensures s'.status[j] == if Clears(s, step, j) then 0 else s.status[j]
  {}

  /** Steps of a client inside the locked region are those of the lock holder. */
  lemma StepOfHolder(s: State, s': State, step: Step)
    requires LockInv(s) && ClientStep(s, s', step)
    ensures !step.OfHandler() && step.a < |s.clients|
    ensures s.clients[step.a].HoldsLock() <==> s.lock == ByClient(step.a)
    ensures s.clients[step.a].HoldsLock() <==>
            !step.StartAssign? && !step.StartDisconnect? && !step.LockForJoin?
    ensures forall j :: Spawns(s, step, j) ==> Pending(s, j)
    ensures step.Release? ==> forall j :: !Pending(s, j)
  {}

  // The steps keep the invariant

  lemma ClientKeepsSlots(s: State, s': State, step: Step)
    requires Inv(s) && ClientStep(s, s', step)
    ensures SlotInv(s')
  {
    hide State.Owner, ClientStep, LockInv, StatusInv, Occupied;
    HandlersAfterClient(s, s', step);
    forall j: nat
      ensures s'.Owner(j) == if Spawns(s, step, j) then Some(step.t) else s.Owner(j)
      ensures Spawns(s, step, j) ==> Pending(s, j) && j < s.maxPeers && !Occupied(s, j)
    {
      OwnerAfterClient(s, s', step, j);
      StepOfHolder(s, s', step);
    }
    NewHandlerAlone(s, step);
  }

  /** No handler lives in the slot that gets a new one. */
  lemma NewHandlerAlone(s: State, step: Step)
    requires SlotInv(s) && PcInv(s)
    ensures forall t, j :: t in s.handlers && s.handlers[t].Live() && Spawns(s, step, j) ==> s.handlers[t].slot != j
  {
    hide State.Owner;
  }

  lemma HandlerKeepsSlots(s: State, s': State, step: Step)
    requires Inv(s) && HandlerStep(s, s', step)
    ensures SlotInv(s')
  {
    hide State.Owner, HandlerStep, LockInv, StatusInv, PcInv, Handler.Live;
    forall j: nat
      ensures s'.Owner(j) == s.Owner(j)
    {
      OwnerAfterHandler(s, s', step, j);
    }
    HandlerTable(s, s', step);
  }

  lemma HandlerTable(s: State, s': State, step: Step)
    requires HandlerStep(s, s', step)
    ensures |s'.status| == |s.status| && |s'.threads| == |s.threads| && s'.maxPeers == s.maxPeers
    ensures s'.handlers.Keys == s.handlers.Keys
    ensures forall t :: t in s.handlers ==> s'.handlers[t].slot == s.handlers[t].slot
    ensures forall t :: t in s.handlers && s'.handlers[t].Live() ==> s.handlers[t].Live()
  {}

  lemma ClientKeepsStatus(s: State, s': State, step: Step)
    requires Inv(s) && ClientStep(s, s', step)
    ensures StatusInv(s')
  {
    hide ClientStep, LockInv, Occupied, Pending;
    HandlersAfterClient(s, s', step);
    StepOfHolder(s, s', step);
    forall j: nat | j < s.maxPeers
      ensures s'.status[j] == if Occupied(s', j) || Pending(s', j) then 1 else 0
    {
      StatusAfterClient(s, s', step, j);
      OccupiedAfterClient(s, s', step, j);
      PendingAfterClient(s, s', step, j);
      assert PcOk(s, s.clients[step.a]);
    }
  }

  lemma HandlerKeepsStatus(s: State, s': State, step: Step)
    requires Inv(s) && HandlerStep(s, s', step)
    ensures StatusInv(s')
  {
    hide HandlerStep, LockInv, SlotInv, PcInv, Occupied, Pending;
    HandlerTable(s, s', step);
    forall j: nat | j < s.maxPeers
      ensures s'.status[j] == if Occupied(s', j) || Pending(s', j) then 1 else 0
    {
      StatusAfterHandler(s, s', step, j);
      OccupiedAfterHandler(s, s', step, j);
      PendingAfterHandler(s, s', step, j);
      ClearedIsNotPending(s, s', step, j);
    }
  }

  /** A slot whose handler still lives is not being assigned. */
  lemma ClearedIsNotPending(s: State, s': State, step: Step, j: nat)
    requires Inv(s) && HandlerStep(s, s', step)
    ensures Clears(s, step, j) ==> !Pending(s, j)
  {
    if Clears(s, step, j) {
      ClearedIsOwner(s, s', step);
    }
  }

  lemma ClientKeepsPcs(s: State, s': State, step: Step)
    requires Inv(s) && ClientStep(s, s', step)
    ensures PcInv(s')
  {
    hide ClientStep, LockInv, SlotInv, StatusInv, PcOk;
    OtherClients(s, s', step);
    forall b | 0 <= b < |s'.clients|
      ensures PcOk(s', s'.clients[b])
    {
      if b == step.a {
        MoverPcOk(s, s', step);
      } else {
        OtherPcOk(s, s', step, b);
      }
    }
  }

  lemma OtherClients(s: State, s': State, step: Step)
    requires ClientStep(s, s', step)
    ensures !step.OfHandler() && step.a < |s.clients| && |s'.clients| == |s.clients|
    ensures forall b :: 0 <= b < |s.clients| && b != step.a ==> s'.clients[b] == s.clients[b]
  {}

  lemma MoverPcOk(s: State, s': State, step: Step)
    requires Inv(s) && ClientStep(s, s', step)
    ensures step.a < |s'.clients| && PcOk(s', s'.clients[step.a])
  {
    assert PcOk(s, s.clients[step.a]);
    match step {
      case Claim(a) => OccupiedAfterClient(s, s', step, s.clients[a].j);
      case Join(a) =>
        var id := s.clients[a].id;
        OccupiedAfterClient(s, s', step, id);
        assert s.Owner(id) == s.threads[id];
      case _ =>
    }
  }

  lemma OtherPcOk(s: State, s': State, step: Step, b: nat)
    requires Inv(s) && ClientStep(s, s', step) && b < |s.clients| && b != step.a
    ensures PcOk(s', s.clients[b])
  {
    StepOfHolder(s, s', step);
    HandlersAfterClient(s, s', step);
    assert PcOk(s, s.clients[b]);
    var pc := s.clients[b];
    if pc.HoldsLock() {
      assert !s.clients[step.a].HoldsLock();
      SameOccupied(s, s', step);
    }
  }

  /** The steps outside the locked region change no status and no occupied slot. */
  lemma SameOccupied(s: State, s': State, step: Step)
    requires Inv(s) && ClientStep(s, s', step)
    requires step.StartAssign? || step.StartDisconnect? || step.LockForJoin?
    ensures s'.status == s.status && s'.handlers == s.handlers
    ensures forall j: nat :: j < s.maxPeers ==> (Occupied(s', j) <==> Occupied(s, j))
  {
    forall j: nat | j < s.maxPeers
      ensures Occupied(s', j) <==> Occupied(s, j)
    {
      OccupiedAfterClient(s, s', step, j);
    }
  }

  lemma HandlerKeepsPcs(s: State, s': State, step: Step)
    requires Inv(s) && HandlerStep(s, s', step)
    ensures PcInv(s')
  {
    hide HandlerStep, LockInv, SlotInv, StatusInv, Occupied;
    HandlerTable(s, s', step);
    assert |s.status| == s.maxPeers by {
      SlotInvSizes(s);
    }
    forall j: nat | j < s.maxPeers
      ensures s'.status[j] == if Clears(s, step, j) then 0 else s.status[j]
      ensures Occupied(s', j) ==> Occupied(s, j)
    {
      StatusAfterHandler(s, s', step, j);
      OccupiedAfterHandler(s, s', step, j);
    }
    SameClients(s, s', step);
    forall b | 0 <= b < |s.clients|
      ensures PcOk(s', s.clients[b])
    {
      assert PcOk(s, s.clients[b]);
    }
  }

  lemma SlotInvSizes(s: State)
    requires SlotInv(s)
    ensures |s.status| == |s.threads| == s.maxPeers
  {}

  lemma SameClients(s: State, s': State, step: Step)
    requires HandlerStep(s, s', step)
    ensures s'.clients == s.clients
  {}

  lemma StepKeepsInv(s: State, s': State)
    requires Inv(s) && Next(s, s')
    ensures Inv(s')
  {
    hide *;
    var step := NextStep(s, s');
    if ClientStep(s, s', step) {
      ClientKeepsLock(s, s', step);
      ClientKeepsSlots(s, s', step);
      ClientKeepsStatus(s, s', step);
      ClientKeepsPcs(s, s', step);
    } else {
      HandlerKeepsLock(s, s', step);
      HandlerKeepsSlots(s, s', step);
      HandlerKeepsStatus(s, s', step);
      HandlerKeepsPcs(s, s', step);
    }
    InvFrom(s');
  }

  lemma NextStep(s: State, s': State) returns (step: Step)
    requires Next(s, s')
    ensures ClientStep(s, s', step) || HandlerStep(s, s', step)
  {
    step :| ClientStep(s, s', step) || HandlerStep(s, s', step);
  }

  lemma InvFrom(s: State)
    requires LockInv(s) && SlotInv(s) && StatusInv(s) && PcInv(s)
    ensures Inv(s)
  {}

  // Every run

  ghost predicate IsRun(run: seq<State>) {
    && |run| > 0
    && Init(run[0])
    && forall i :: 0 <= i < |run| - 1 ==> Next(run[i], run[i + 1])
  }

  lemma {:induction false} RunInv(run: seq<State>, i: nat)
    requires IsRun(run) && i < |run|
    ensures Inv(run[i]) && run[i].maxPeers == run[0].maxPeers
  {
    if i == 0 {
      InitInv(run[0]);
    } else {
      RunInv(run, i - 1);
      assert Next(run[i - 1], run[i - 1 + 1]);
      StepKeepsInv(run[i - 1], run[i]);
      SamePeers(run[i - 1], run[i]);
    }
  }

  lemma SamePeers(s: State, s': State)
    requires Next(s, s')
    ensures s'.maxPeers == s.maxPeers
  {}

  /** In every reachable state a slot with status 0 has no live handler, and no slot ever has two. */
  lemma SlotsAreExclusive(run: seq<State>, i: nat, j: nat, t: Tid, u: Tid)
    requires IsRun(run) && i < |run| && j < run[i].maxPeers
    requires run[i].LiveAt(t, j)
    ensures j < |run[i].status| && run[i].status[j] == 1
    ensures run[i].LiveAt(u, j) ==> t == u
  {
    hide Init, Next;
    RunInv(run, i);
    assert Occupied(run[i], j);
  }

  /** Whenever no assignment is under way, a slot is marked busy exactly if it has a live handler: no slot is lost. */
  lemma BusyExactly(run: seq<State>, i: nat, j: nat)
    requires IsRun(run) && i < |run| && j < run[i].maxPeers && !Pending(run[i], j)
    ensures j < |run[i].status| && run[i].status[j] in {0, 1}
    ensures run[i].status[j] == 1 <==> exists t :: run[i].LiveAt(t, j)
  {
    hide Init, Next, Pending;
    RunInv(run, i);
    var s := run[i];
    if Occupied(s, j) {
      assert s.LiveAt(s.Owner(j).value, j);
    }
    if t :| s.LiveAt(t, j) {
      assert Occupied(s, j);
    }
  }

  ghost function LiveSet(s: State): set<Tid> {
    set t | t in s.handlers && s.handlers[t].Live()
  }

  /** Live handlers never outnumber max_peers. */
  lemma LiveAtMostMaxPeers(run: seq<State>, i: nat)
    requires IsRun(run) && i < |run|
    ensures |LiveSet(run[i])| <= run[i].maxPeers
  {
    hide Init, Next;
    RunInv(run, i);
    Pigeonhole(run[i], LiveSet(run[i]), run[i].maxPeers);
  }

  lemma {:induction false} Pigeonhole(s: State, live: set<Tid>, n: nat)
    requires SlotInv(s) && live <= LiveSet(s) && n <= s.maxPeers
    requires forall t :: t in live ==> s.handlers[t].slot < n
    ensures |live| <= n
    decreases n
  {
    if n == 0 {
      assert live == {};
    } else if t :| t in live && s.handlers[t].slot == n - 1 {
      assert forall u :: u in live && s.handlers[u].slot == n - 1 ==> u == t;
      Pigeonhole(s, live - {t}, n - 1);
    } else {
      Pigeonhole(s, live, n - 1);
    }
  }

  /** A disconnect with a stale id frees no slot under a live handler: when it clears the status, nobody is there. */
  lemma ReleaseHitsNoLiveHandler(run: seq<State>, i: nat, a: nat, t: Tid)
    requires IsRun(run) && i < |run| - 1 && ClientStep(run[i], run[i + 1], Release(a))
    ensures !run[i].LiveAt(t, run[i].clients[a].id)
  {
    hide Init, Next;
    RunInv(run, i);
    assert PcOk(run[i], run[i].clients[a]);
  }
}
