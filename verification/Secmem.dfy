/** The secure memory allocator as a monitor: any number of threads allocate and
    free under one mutex and one condition, in any interleaving of their steps. */
module Secmem {
  import opened Bytes

  type Tid = nat
  type Handle = nat

  // ------------------------------------------------------- the secure world

  /** What the session reports as available, and the bytes charged to each handle. */
  datatype Pool = Pool(handles: nat, bytes: nat, live: map<Handle, nat>)

  /** The test that ends the wait loop. */
  predicate FitsIn(size: nat, p: Pool) {
    p.handles > 0 && size < p.bytes
  }

  predicate CanCreate(p: Pool, h: Handle) {
    p.handles > 0 && h !in p.live
  }

  function MemCreate(p: Pool, h: Handle): Pool {
    if CanCreate(p, h) then Pool(p.handles - 1, p.bytes, p.live[h := 0]) else p
  }

  predicate CanCharge(p: Pool, h: Handle, size: nat, charge: nat) {
    h in p.live && size <= charge <= p.bytes
  }

  function MemAlloc(p: Pool, h: Handle, size: nat, charge: nat): Pool {
    if CanCharge(p, h, size, charge) then Pool(p.handles, p.bytes - charge, p.live[h := charge]) else p
  }

  function MemFree(p: Pool, h: Handle): Pool {
    if h in p.live then Pool(p.handles, p.bytes + p.live[h], p.live[h := 0]) else p
  }

  /** Bytes still charged to a released handle would be lost. */
  function MemRelease(p: Pool, h: Handle): Pool {
    if h in p.live then Pool(p.handles + 1, p.bytes, p.live - {h}) else p
  }

  // ------------------------------------------------------------- the monitor

  /** Where a thread is. */
  datatype PC =
    | Idle
    | Locking(size: nat)
    | Checking(size: nat)
    | Sleeping(size: nat)
    | Woken(size: nat)
    | Checked(size: nat)
    | Created(size: nat, handle: Handle)
    | Charged(size: nat, handle: Handle)
    | Succeeding
    | Releasing(handle: Handle)
    | Failing
    | FreeLocking(handle: Handle)
    | FreeHolding(handle: Handle)
    | FreeReleasing(handle: Handle)
    | FreeBroadcasting
    | FreeUnlocking

  /** owned maps the handles of the memories that clients have to their size. */
  datatype State = State(mutex: Option<Tid>, pc: map<Tid, PC>, pool: Pool, owned: map<Handle, nat>)

  /** A client calls alloc or free, or has codec data put in front of what is in
      one of its memories, or a thread that is inside takes its next step. ok, handle
      and charge are what the foreign call of that step answers; for a sleeping
      thread the step is a spurious wake-up. */
  datatype Event =
    | CallAlloc(tid: Tid, size: nat)
    | CallFree(tid: Tid, handle: Handle)
    | PrependCsd(tid: Tid, handle: Handle, length: nat)
    | Advance(tid: Tid, ok: bool, handle: Handle, charge: nat)

  function At(s: State, t: Tid): PC {
    if t in s.pc then s.pc[t] else Idle
  }

  function Goto(s: State, t: Tid, p: PC): State {
    s.(pc := s.pc[t := p])
  }

  function Lock(s: State, t: Tid, p: PC): State {
    if s.mutex.None? then Goto(s.(mutex := Some(t)), t, p) else s
  }

  function Unlock(s: State, t: Tid, p: PC): State {
    Goto(s.(mutex := None), t, p)
  }

  function Broadcast(s: State): State {
    s.(pc := map u | u in s.pc :: if s.pc[u].Sleeping? then Woken(s.pc[u].size) else s.pc[u])
  }

  function HandOut(owned: map<Handle, nat>, h: Handle, size: nat): map<Handle, nat> {
    owned[h := size]
  }

  function TakeBack(owned: map<Handle, nat>, h: Handle): map<Handle, nat> {
    owned - {h}
  }

  /** The check of gst_secmem_prepend_csd: what was exported as the memory's maximal
      size is what was charged for it. */
  predicate CanGrow(s: State, t: Tid, h: Handle, length: nat) {
    At(s, t).Idle? && h in s.owned && h in s.pool.live && s.owned[h] + length < s.pool.live[h]
  }

  /** The memory's size grows; no lock is taken. */
  function Grow(s: State, h: Handle, length: nat): State
    requires h in s.owned
  {
    s.(owned := HandOut(s.owned, h, s.owned[h] + length))
  }

  function Step(s: State, e: Event): State {
    var t := e.tid;
    match e
    case CallAlloc(_, size) => if At(s, t).Idle? then Goto(s, t, Locking(size)) else s
    case CallFree(_, h) =>
      if At(s, t).Idle? && h in s.owned then Goto(s.(owned := TakeBack(s.owned, h)), t, FreeLocking(h)) else s
    case PrependCsd(_, h, length) => if CanGrow(s, t, h, length) then Grow(s, h, length) else s
    case Advance(_, ok, h, charge) =>
      match At(s, t)
      case Idle => s
      case Locking(size) => Lock(s, t, Checking(size))
      case Woken(size) => Lock(s, t, Checking(size))
      case Checking(size) =>
        if !ok then Goto(s, t, Failing)
        else if FitsIn(size, s.pool) then Goto(s, t, Checked(size))
        else Unlock(s, t, Sleeping(size))
      case Sleeping(size) => Goto(s, t, Woken(size))
      case Checked(size) =>
        if ok && CanCreate(s.pool, h) then Goto(s.(pool := MemCreate(s.pool, h)), t, Created(size, h))
        else Goto(s, t, Failing)
      case Created(size, g) =>
        if ok && CanCharge(s.pool, g, size, charge) then
          Goto(s.(pool := MemAlloc(s.pool, g, size, charge)), t, Charged(size, g))
        else Goto(s, t, Releasing(g))
      case Charged(size, g) =>
        if ok then Goto(s.(owned := HandOut(s.owned, g, size)), t, Succeeding)
        else Goto(s.(pool := MemFree(s.pool, g)), t, Releasing(g))
      case Succeeding => Unlock(s, t, Idle)
      case Releasing(g) => Goto(s.(pool := MemRelease(s.pool, g)), t, Failing)
      case Failing => Unlock(s, t, Idle)
      case FreeLocking(g) => Lock(s, t, FreeHolding(g))
      case FreeHolding(g) => Goto(s.(pool := MemFree(s.pool, g)), t, FreeReleasing(g))
      case FreeReleasing(g) => Goto(s.(pool := MemRelease(s.pool, g)), t, FreeBroadcasting)
      case FreeBroadcasting => Goto(Broadcast(s), t, FreeUnlocking)
      case FreeUnlocking => Unlock(s, t, Idle)
  }

  function Start(handles: nat, bytes: nat): State {
    State(None, map[], Pool(handles, bytes, map[]), map[])
  }

  function Run(handles: nat, bytes: nat, log: seq<Event>): State {
    if log == [] then Start(handles, bytes) else Step(Run(handles, bytes, log[..|log| - 1]), log[|log| - 1])
  }

  // -------------------------------------------------------------- the mutex

  predicate Holding(p: PC) {
    !p.Idle? && !p.Locking? && !p.Sleeping? && !p.Woken? && !p.FreeLocking?
  }

  /** The mutex is held by t exactly while t is in its critical section; so every
      exit of alloc and free has released it. */
  ghost predicate Exclusive(s: State) {
    forall t: Tid :: s.mutex == Some(t) <==> Holding(At(s, t))
  }

  lemma ExclusiveStep(s: State, e: Event)
    requires Exclusive(s)
    ensures Exclusive(Step(s, e))
  {
    hide HandOut, TakeBack, MemCreate, MemAlloc, MemFree, MemRelease;
    forall t: Tid ensures Step(s, e).mutex == Some(t) <==> Holding(At(Step(s, e), t)) {
      assert s.mutex == Some(t) <==> Holding(At(s, t));
      assert s.mutex == Some(e.tid) <==> Holding(At(s, e.tid));
    }
  }

  // --------------------------------------------------------- who holds what

  predicate Has(p: PC, h: Handle) {
    (p.Created? || p.Charged? || p.Releasing? || p.FreeLocking? || p.FreeHolding? || p.FreeReleasing?)
    && p.handle == h
  }

  /** Every live handle is a client's or one thread's, and of one only. */
  ghost predicate OneHolder(s: State) {
    && (forall h: Handle :: h in s.owned ==> h in s.pool.live)
    && (forall t: Tid, h: Handle :: Has(At(s, t), h) ==> h in s.pool.live && h !in s.owned)
    && (forall t: Tid, u: Tid, h: Handle :: Has(At(s, t), h) && Has(At(s, u), h) ==> t == u)
    && (forall h: Handle :: h in s.pool.live && h !in s.owned ==> exists t: Tid :: Has(At(s, t), h))
  }

  /** A step leaves the places of the others alone, except that a broadcast wakes. */
  lemma OthersStay(s: State, e: Event, u: Tid)
    requires u != e.tid
    ensures At(Step(s, e), u) == At(s, u) ||
      (At(s, e.tid).FreeBroadcasting? && At(s, u).Sleeping? && At(Step(s, e), u) == Woken(At(s, u).size))
  {}

  /** What one thread's step may do to one handle: pass it between the clients
      and the thread, create it, or release it. */
  predicate Transfer(s: State, after: State, t: Tid, h: Handle) {
    var mine, mine' := Has(At(s, t), h), Has(At(after, t), h);
    if h in s.pool.live && h in after.pool.live then
      (h in s.owned || mine <==> h in after.owned || mine') && !(h in after.owned && mine')
    else if h in after.pool.live then mine' && h !in after.owned
    else (h in s.pool.live ==> mine) && !mine' && h !in after.owned
  }

  lemma StepTransfers(s: State, e: Event, h: Handle)
    requires h in s.owned ==> h in s.pool.live
    requires Has(At(s, e.tid), h) ==> h in s.pool.live && h !in s.owned
    ensures Transfer(s, Step(s, e), e.tid, h)
  {}

  lemma OthersKeep(s: State, e: Event, u: Tid, h: Handle)
    requires u != e.tid
    ensures Has(At(Step(s, e), u), h) <==> Has(At(s, u), h)
  {
    OthersStay(s, e, u);
  }

  lemma OneHolderStep(s: State, e: Event)
    requires OneHolder(s)
    ensures OneHolder(Step(s, e))
  {
    hide Step, Has, At;
    var t, after := e.tid, Step(s, e);
    forall h: Handle ensures Transfer(s, after, t, h) {
      StepTransfers(s, e, h);
    }
    forall u: Tid, h: Handle | u != t ensures Has(At(after, u), h) <==> Has(At(s, u), h) {
      OthersKeep(s, e, u, h);
    }
    forall u: Tid, h: Handle | Has(At(after, u), h)
      ensures h in after.pool.live && h !in after.owned && (u != t ==> !Has(At(after, t), h))
    {
      assert Transfer(s, after, t, h);
      assert u != t ==> Has(At(s, u), h) && !Has(At(s, t), h);
    }
    forall h: Handle | h in after.owned ensures h in after.pool.live {
      assert Transfer(s, after, t, h);
    }
    forall h: Handle | h in after.pool.live && h !in after.owned ensures exists u: Tid :: Has(At(after, u), h) {
      assert Transfer(s, after, t, h);
      if !Has(At(after, t), h) {
        var u: Tid :| Has(At(s, u), h);
        assert Has(At(after, u), h);
      }
    }
  }

  // ------------------------------------------------------------ conservation

  ghost function Sum(m: map<Handle, nat>): nat {
    if m == map[] then 0 else
      var h :| h in m;
      m[h] + Sum(m - {h})
  }

  lemma {:induction false} SumTakeOut(m: map<Handle, nat>, h: Handle)
    requires h in m
    ensures Sum(m) == m[h] + Sum(m - {h})
    decreases |m|
  {
    var g :| g in m && Sum(m) == m[g] + Sum(m - {g});
    if g != h {
      SumTakeOut(m - {g}, h);
      SumTakeOut(m - {h}, g);
      assert m - {g} - {h} == m - {h} - {g};
    }
  }

  lemma SumUpdate(m: map<Handle, nat>, h: Handle, v: nat)
    ensures Sum(m[h := v]) == v + Sum(m - {h})
    ensures h in m ==> Sum(m) == m[h] + Sum(m - {h})
    ensures h !in m ==> m - {h} == m
  {
    SumTakeOut(m[h := v], h);
    assert m[h := v] - {h} == m - {h};
    if h in m { SumTakeOut(m, h); }
  }

  /** Nothing is charged to a handle before MemAlloc and after MemFree. */
  ghost predicate Uncharged(s: State) {
    forall t: Tid ::
      At(s, t).Created? || At(s, t).Releasing? || At(s, t).FreeReleasing? ==>
        At(s, t).handle in s.pool.live && s.pool.live[At(s, t).handle] == 0
  }

  lemma UnchargedStep(s: State, e: Event)
    requires OneHolder(s) && Uncharged(s)
    ensures Uncharged(Step(s, e))
  {
    hide Step, OneHolder;
    forall u: Tid
      | At(Step(s, e), u).Created? || At(Step(s, e), u).Releasing? || At(Step(s, e), u).FreeReleasing?
      ensures At(Step(s, e), u).handle in Step(s, e).pool.live
      ensures Step(s, e).pool.live[At(Step(s, e), u).handle] == 0
    {
      PendingStep(s, e, u);
    }
  }

  lemma PendingStep(s: State, e: Event, u: Tid)
    requires OneHolder(s) && Uncharged(s)
    requires At(Step(s, e), u).Created? || At(Step(s, e), u).Releasing? || At(Step(s, e), u).FreeReleasing?
    ensures At(Step(s, e), u).handle in Step(s, e).pool.live
    ensures Step(s, e).pool.live[At(Step(s, e), u).handle] == 0
  {
    hide HandOut, TakeBack;
    if u == e.tid {
      assert At(s, u).Created? || At(s, u).Charged? || At(s, u).FreeHolding? ==> Has(At(s, u), At(s, u).handle);
    } else {
      OthersStay(s, e, u);
      assert Has(At(s, u), At(s, u).handle);
    }
  }

  /** Available and held add up to the capacity, in handles and in bytes. */
  ghost predicate Conserved(p: Pool, handles: nat, bytes: nat) {
    p.handles + |p.live| == handles && p.bytes + Sum(p.live) == bytes
  }

  lemma AcquireConserves(p: Pool, h: Handle, size: nat, charge: nat, handles: nat, bytes: nat)
    requires Conserved(p, handles, bytes)
    ensures Conserved(MemCreate(p, h), handles, bytes)
    ensures h in p.live && p.live[h] == 0 ==> Conserved(MemAlloc(p, h, size, charge), handles, bytes)
  {
    SumUpdate(p.live, h, 0);
    SumUpdate(p.live, h, charge);
  }

  /** Releasing keeps the sum only if the bytes were freed first. */
  lemma GiveBackConserves(p: Pool, h: Handle, handles: nat, bytes: nat)
    requires Conserved(p, handles, bytes)
    ensures Conserved(MemFree(p, h), handles, bytes)
    ensures h in p.live ==> (Conserved(MemRelease(p, h), handles, bytes) <==> p.live[h] == 0)
  {
    SumUpdate(p.live, h, 0);
    if h in p.live {
      assert p.live.Keys == (p.live - {h}).Keys + {h};
    }
  }

  lemma ConservedStep(s: State, e: Event, handles: nat, bytes: nat)
    requires Uncharged(s) && Conserved(s.pool, handles, bytes)
    ensures Conserved(Step(s, e).pool, handles, bytes)
  {
    hide Conserved, MemCreate, MemAlloc, MemFree, MemRelease;
    if e.Advance? {
      var p := At(s, e.tid);
      var h := if p.Created? || p.Charged? || p.Releasing? || p.FreeHolding? || p.FreeReleasing? then p.handle
        else e.handle;
      AcquireConserves(s.pool, h, if p.Created? then p.size else 0, e.charge, handles, bytes);
      GiveBackConserves(s.pool, h, handles, bytes);
    }
  }

  /** No memory claims more bytes than the secure world has charged for it. */
  ghost predicate Backed(s: State) {
    && (forall h: Handle :: h in s.owned ==> h in s.pool.live && s.owned[h] <= s.pool.live[h])
    && (forall t: Tid :: At(s, t).Charged? ==>
         At(s, t).handle in s.pool.live && At(s, t).size <= s.pool.live[At(s, t).handle])
  }

  /** What a step may do to a memory's size. */
  lemma SizeMoves(s: State, e: Event, h: Handle)
    requires h in Step(s, e).owned
    ensures var p, after := At(s, e.tid), Step(s, e);
      || (h in s.owned && after.owned[h] == s.owned[h])
      || (after.pool == s.pool && h in s.pool.live && after.owned[h] < s.pool.live[h])
      || (after.pool == s.pool && p.Charged? && p.handle == h && after.owned[h] == p.size)
  {
    hide MemCreate, MemAlloc, MemFree, MemRelease, CanCreate, CanCharge, FitsIn;
  }

  /** What a thread does not hold it leaves charged. */
  lemma ChargeStays(s: State, e: Event, h: Handle)
    requires h in s.pool.live && !Has(At(s, e.tid), h)
    ensures h in Step(s, e).pool.live && Step(s, e).pool.live[h] == s.pool.live[h]
  {
    hide HandOut, TakeBack, FitsIn;
  }

  lemma OwnedStep(s: State, e: Event, h: Handle)
    requires OneHolder(s) && Backed(s) && h in Step(s, e).owned
    ensures h in Step(s, e).pool.live && Step(s, e).owned[h] <= Step(s, e).pool.live[h]
  {
    hide Step;
    SizeMoves(s, e, h);
    if h in s.owned {
      assert !Has(At(s, e.tid), h);
      ChargeStays(s, e, h);
    }
  }

  /** Codec data go in front of what is in a client's memory exactly when there is still
      room behind, to the byte; nothing else changes. */
  lemma PrependGrowsIff(s: State, t: Tid, h: Handle, length: nat)
    requires At(s, t).Idle? && h in s.owned && h in s.pool.live
    ensures Step(s, PrependCsd(t, h, length)) ==
      if s.owned[h] + length < s.pool.live[h] then s.(owned := s.owned[h := s.owned[h] + length]) else s
  {}

  lemma BackedStep(s: State, e: Event)
    requires OneHolder(s) && Backed(s)
    ensures Backed(Step(s, e))
  {
    var after := Step(s, e);
    forall h: Handle | h in after.owned ensures h in after.pool.live && after.owned[h] <= after.pool.live[h] {
      OwnedStep(s, e, h);
    }
    forall u: Tid | At(after, u).Charged?
      ensures At(after, u).handle in after.pool.live && At(after, u).size <= after.pool.live[At(after, u).handle]
    {
      ChargedStep(s, e, u);
    }
  }

  lemma ChargedStep(s: State, e: Event, u: Tid)
    requires OneHolder(s) && Backed(s) && At(Step(s, e), u).Charged?
    ensures At(Step(s, e), u).handle in Step(s, e).pool.live
    ensures At(Step(s, e), u).size <= Step(s, e).pool.live[At(Step(s, e), u).handle]
  {
    hide HandOut, TakeBack;
    if u != e.tid {
      OthersStay(s, e, u);
      assert Has(At(s, u), At(s, u).handle);
      StepTransfers(s, e, At(s, u).handle);
    }
  }

  // ----------------------------------------------------------- check and act

  /** What the wait loop found still holds when MemCreate and MemAlloc run. */
  ghost predicate CheckStands(s: State) {
    forall t: Tid ::
      && (At(s, t).Checked? ==> FitsIn(At(s, t).size, s.pool))
      && (At(s, t).Created? ==> At(s, t).size < s.pool.bytes)
  }

  lemma CheckStandsStep(s: State, e: Event)
    requires Exclusive(s) && CheckStands(s)
    ensures CheckStands(Step(s, e))
  {
    hide HandOut, TakeBack;
    forall u: Tid
      ensures At(Step(s, e), u).Checked? ==> FitsIn(At(Step(s, e), u).size, Step(s, e).pool)
      ensures At(Step(s, e), u).Created? ==> At(Step(s, e), u).size < Step(s, e).pool.bytes
    {
      if u != e.tid {
        OthersStay(s, e, u);
        assert s.mutex == Some(u) <==> Holding(At(s, u));
        assert s.mutex == Some(e.tid) <==> Holding(At(s, e.tid));
      }
    }
  }

  // ------------------------------------------------------ no lost wake-up

  /** The pool as it will be once the attempt under way, if any, has failed. */
  function Restored(s: State): Pool {
    if s.mutex.None? then s.pool else
      var p := At(s, s.mutex.value);
      if p.Created? || p.Charged? || p.Releasing? then MemRelease(MemFree(s.pool, p.handle), p.handle)
      else s.pool
  }

  predicate Attempting(p: PC) {
    p.Checking? || p.Checked? || p.Created? || p.Charged? || p.Releasing? || p.Failing?
  }

  predicate Freeing(p: PC) {
    p.FreeHolding? || p.FreeReleasing?
  }

  /** Only a success and the free path move the restored pool. */
  lemma RestoredStep(s: State, e: Event)
    requires Exclusive(s) && OneHolder(s) && Uncharged(s)
    requires e.Advance? ==> !Freeing(At(s, e.tid)) && !(At(s, e.tid).Charged? && e.ok)
    ensures Restored(Step(s, e)) == Restored(s)
  {
    hide MemCreate, MemAlloc, MemFree, MemRelease, HandOut, TakeBack;
    var t, p := e.tid, At(s, e.tid);
    assert s.mutex == Some(t) <==> Holding(p);
    if e.Advance? && Holding(p) {
      if p.Checked? && CanCreate(s.pool, e.handle) {
        CreateUndone(s.pool, e.handle);
      } else if p.Created? || p.Charged? || p.Releasing? {
        assert Has(p, p.handle);
        ChargeUndone(s.pool, p.handle, if p.Created? then p.size else 0, e.charge);
      }
    } else if s.mutex.Some? && s.mutex.value != t {
      OthersStay(s, e, s.mutex.value);
    }
  }

  lemma CreateUndone(p: Pool, h: Handle)
    requires CanCreate(p, h)
    ensures MemRelease(MemFree(MemCreate(p, h), h), h) == p
  {
    assert p.live[h := 0][h := 0] - {h} == p.live;
  }

  lemma ChargeUndone(p: Pool, h: Handle, size: nat, charge: nat)
    requires h in p.live
    ensures MemFree(MemFree(p, h), h) == MemFree(p, h)
    ensures p.live[h] == 0 ==> MemFree(p, h) == p
    ensures p.live[h] == 0 ==> MemFree(MemAlloc(p, h, size, charge), h) == MemFree(p, h)
  {
    assert p.live[h := charge][h := 0] == p.live[h := 0] == p.live[h := 0][h := 0];
    assert p.live[h] == 0 ==> p.live[h := 0] == p.live;
  }

  /** A free has put something back and not yet broadcast. */
  predicate AboutToBroadcast(s: State) {
    s.mutex.Some? && (At(s, s.mutex.value).FreeReleasing? || At(s, s.mutex.value).FreeBroadcasting?)
  }

  /** Every thread asleep and not notified waits for what is not there, or the
      thread in the critical section is about to wake it. */
  ghost predicate NoLostWakeup(s: State) {
    AboutToBroadcast(s) || forall t: Tid :: At(s, t).Sleeping? ==> !FitsIn(At(s, t).size, Restored(s))
  }

  lemma NoLostWakeupStep(s: State, e: Event)
    requires Exclusive(s) && OneHolder(s) && Uncharged(s) && NoLostWakeup(s)
    ensures NoLostWakeup(Step(s, e))
  {
    hide HandOut, TakeBack;
    var t, p, after := e.tid, At(s, e.tid), Step(s, e);
    assert s.mutex == Some(t) <==> Holding(p);
    forall u: Tid | At(after, u).Sleeping? && !AboutToBroadcast(after)
      ensures !FitsIn(At(after, u).size, Restored(after))
    {
      if u != t { OthersStay(s, e, u); }
      if e.Advance? && Freeing(p) {
      } else if e.Advance? && p.Charged? && e.ok {
      } else {
        RestoredStep(s, e);
      }
    }
  }

  // --------------------------------------------------------- over all runs

  /** Main result: in every state that any interleaving of any number of threads
      reaches, the mutex is exclusive and released on every exit, every live
      handle has one holder and backs its memory, the pool adds up, what a thread checked still holds
      when it acts, and no wake-up is lost. */
  lemma {:induction false} MonitorSafe(handles: nat, bytes: nat, log: seq<Event>)
    ensures var s := Run(handles, bytes, log);
      && Exclusive(s) && OneHolder(s) && Uncharged(s) && Conserved(s.pool, handles, bytes)
      && Backed(s) && CheckStands(s) && NoLostWakeup(s)
  {
    if log != [] {
      var before, e := log[..|log| - 1], log[|log| - 1];
      MonitorSafe(handles, bytes, before);
      var s := Run(handles, bytes, before);
      hide Step, Run;
      assert Run(handles, bytes, log) == Step(s, e) by { RunUnfolds(handles, bytes, log); }
      ExclusiveStep(s, e);
      OneHolderStep(s, e);
      UnchargedStep(s, e);
      ConservedStep(s, e, handles, bytes);
      BackedStep(s, e);
      CheckStandsStep(s, e);
      NoLostWakeupStep(s, e);
    }
  }

  lemma RunUnfolds(handles: nat, bytes: nat, log: seq<Event>)
    requires log != []
    ensures Run(handles, bytes, log) == Step(Run(handles, bytes, log[..|log| - 1]), log[|log| - 1])
  {}

  /** Whenever nobody is in the critical section, the live handles are exactly
      those that clients have or are giving back: no failed attempt has left
      anything behind. And a thread asleep waits for what is not there. */
  lemma AtRest(handles: nat, bytes: nat, log: seq<Event>)
    requires Run(handles, bytes, log).mutex.None?
    ensures var s := Run(handles, bytes, log);
      && (forall h: Handle :: h in s.pool.live <==> h in s.owned || exists t: Tid :: At(s, t) == FreeLocking(h))
      && (forall t: Tid :: At(s, t).Sleeping? ==> s.pool.handles == 0 || At(s, t).size >= s.pool.bytes)
  {
    var s := Run(handles, bytes, log);
    MonitorSafe(handles, bytes, log);
    hide Run, Step;
    forall h: Handle ensures h in s.pool.live <==> h in s.owned || exists t: Tid :: At(s, t) == FreeLocking(h) {
      if h in s.pool.live && h !in s.owned {
        var t: Tid :| Has(At(s, t), h);
        assert !Holding(At(s, t));
      } else if t: Tid :| At(s, t) == FreeLocking(h) {
        assert Has(At(s, t), h);
      }
    }
  }

  function RunFrom(s: State, log: seq<Event>): State {
    if log == [] then s else Step(RunFrom(s, log[..|log| - 1]), log[|log| - 1])
  }

  /** Thread t stays in its attempt, and does not succeed, all along the log. */
  predicate InAttempt(s: State, t: Tid, log: seq<Event>) {
    Attempting(At(RunFrom(s, log), t)) && (log == [] || InAttempt(s, t, log[..|log| - 1]))
  }

  /** Every failure exit, after MemCreate, MemAlloc or MemExport, restores the
      pool exactly as the attempt found it, whatever other threads do meanwhile. */
  lemma {:induction false} FailureRestores(handles: nat, bytes: nat, log: seq<Event>, t: Tid, more: seq<Event>)
    requires At(Run(handles, bytes, log), t).Checking? && InAttempt(Run(handles, bytes, log), t, more)
    ensures Restored(RunFrom(Run(handles, bytes, log), more)) == Run(handles, bytes, log).pool
    ensures At(RunFrom(Run(handles, bytes, log), more), t).Failing? ==>
      RunFrom(Run(handles, bytes, log), more).pool == Run(handles, bytes, log).pool
  {
    hide Step, Run, OneHolder, Uncharged, Conserved, CheckStands, NoLostWakeup, Backed;
    var s := Run(handles, bytes, log);
    RunJoin(handles, bytes, log, more);
    MonitorSafe(handles, bytes, log + more);
    var after := RunFrom(s, more);
    if more == [] {
      assert s.mutex == Some(t) <==> Holding(At(s, t));
    } else {
      var front, e := more[..|more| - 1], more[|more| - 1];
      FailureRestores(handles, bytes, log, t, front);
      RunJoin(handles, bytes, log, front);
      MonitorSafe(handles, bytes, log + front);
      var s1 := RunFrom(s, front);
      assert s1.mutex == Some(t) <==> Holding(At(s1, t));
      assert s1.mutex == Some(e.tid) <==> Holding(At(s1, e.tid));
      NotSucceeding(s1, e, t);
      RestoredStep(s1, e);
      assert after.mutex == Some(t) <==> Holding(At(after, t));
    }
  }

  lemma NotSucceeding(s: State, e: Event, t: Tid)
    requires Exclusive(s) && Attempting(At(s, t)) && Attempting(At(Step(s, e), t))
    ensures e.Advance? ==> !Freeing(At(s, e.tid)) && !(At(s, e.tid).Charged? && e.ok)
  {
    assert s.mutex == Some(t) <==> Holding(At(s, t));
    assert s.mutex == Some(e.tid) <==> Holding(At(s, e.tid));
  }

  lemma {:induction false} RunJoin(handles: nat, bytes: nat, log: seq<Event>, more: seq<Event>)
    ensures Run(handles, bytes, log + more) == RunFrom(Run(handles, bytes, log), more)
  {
    if more == [] {
      assert log + more == log;
    } else {
      RunJoin(handles, bytes, log, more[..|more| - 1]);
      assert (log + more)[..|log + more| - 1] == log + more[..|more| - 1];
    }
  }

  /** A success takes exactly one new handle and at least the bytes asked for out
      of the pool that the attempt found, and nothing else. */
  lemma SuccessTakes(handles: nat, bytes: nat, log: seq<Event>, t: Tid, more: seq<Event>)
    requires At(Run(handles, bytes, log), t).Checking? && InAttempt(Run(handles, bytes, log), t, more)
    requires At(RunFrom(Run(handles, bytes, log), more), t).Charged?
    ensures var found, after := Run(handles, bytes, log).pool, RunFrom(Run(handles, bytes, log), more);
      var h := At(after, t).handle;
      && h in after.pool.live && h !in found.live && At(after, t).size <= after.pool.live[h] <= found.bytes
      && after.pool.handles + 1 == found.handles
      && after.pool.bytes + after.pool.live[h] == found.bytes
      && after.pool.live == found.live[h := after.pool.live[h]]
  {
    hide *;
    FailureRestores(handles, bytes, log, t, more);
    RunJoin(handles, bytes, log, more);
    MonitorSafe(handles, bytes, log + more);
    ChargedHas(RunFrom(Run(handles, bytes, log), more), t, Run(handles, bytes, log).pool);
  }

  lemma ChargedHas(s: State, t: Tid, found: Pool)
    requires Exclusive(s) && OneHolder(s) && Backed(s) && At(s, t).Charged? && Restored(s) == found
    ensures var h := At(s, t).handle;
      && h in s.pool.live && h !in found.live && At(s, t).size <= s.pool.live[h] <= found.bytes
      && s.pool.handles + 1 == found.handles
      && s.pool.bytes + s.pool.live[h] == found.bytes
      && s.pool.live == found.live[h := s.pool.live[h]]
  {
    assert s.mutex == Some(t) <==> Holding(At(s, t));
    assert Has(At(s, t), At(s, t).handle);
    UndoneOnce(s.pool, At(s, t).handle);
  }

  lemma UndoneOnce(p: Pool, h: Handle)
    requires h in p.live
    ensures MemRelease(MemFree(p, h), h).live[h := p.live[h]] == p.live
  {}

  /** What the holder does on its own, given what the foreign calls answer. */
  datatype Answers = Answers(create: Option<Handle>, alloc: Option<nat>, exported: bool)

  function OwnStep(s: State, t: Tid, a: Answers): Event {
    match At(s, t)
    case Checked(_) => Advance(t, a.create.Some?, if a.create.Some? then a.create.value else 0, 0)
    case Created(_, _) => Advance(t, a.alloc.Some?, 0, if a.alloc.Some? then a.alloc.value else 0)
    case _ => Advance(t, a.exported, 0, 0)
  }

  function Alone(s: State, t: Tid, a: Answers, n: nat): State {
    if n == 0 then s else var before := Alone(s, t, a, n - 1); Step(before, OwnStep(before, t, a))
  }

  /** A free that has the mutex gives back all that the handle held, wakes every
      sleeper and leaves, and nobody can stop it. */
  lemma FreeCompletes(s: State, t: Tid, a: Answers)
    requires Exclusive(s) && OneHolder(s) && At(s, t).FreeHolding?
    ensures var after, h := Alone(s, t, a, 4), At(s, t).handle;
      && h in s.pool.live
      && after.pool == Pool(s.pool.handles + 1, s.pool.bytes + s.pool.live[h], s.pool.live - {h})
      && after.mutex.None? && At(after, t).Idle? && after.owned == s.owned
      && forall u: Tid :: !At(after, u).Sleeping?
  {
    var h := At(s, t).handle;
    assert Has(At(s, t), h);
    assert s.pool.live[h := 0] - {h} == s.pool.live - {h};
    AloneTwice(s, t, a, 0);
    AloneTwice(s, t, a, 2);
    hide Alone, Step, OwnStep;
    FreeTwice(s, t, a);
    LeaveTwice(Alone(s, t, a, 2), t, a);
  }

  lemma LeaveTwice(s: State, t: Tid, a: Answers)
    requires At(s, t).FreeBroadcasting?
    ensures var s1 := Step(s, OwnStep(s, t, a));
      var s2 := Step(s1, OwnStep(s1, t, a));
      && s2.mutex.None? && At(s2, t).Idle? && s2.pool == s.pool && s2.owned == s.owned
      && forall u: Tid :: !At(s2, u).Sleeping?
  {
    hide MemFree, MemRelease, MemCreate, MemAlloc, HandOut, TakeBack;
  }

  lemma FreeTwice(s: State, t: Tid, a: Answers)
    requires At(s, t).FreeHolding?
    ensures var s1 := Step(s, OwnStep(s, t, a));
      var s2 := Step(s1, OwnStep(s1, t, a));
      s2 == Goto(Goto(s.(pool := MemRelease(MemFree(s.pool, At(s, t).handle), At(s, t).handle)), t,
        FreeReleasing(At(s, t).handle)), t, FreeBroadcasting)
  {
    hide MemFree, MemRelease;
  }

  lemma AloneTwice(s: State, t: Tid, a: Answers, n: nat)
    ensures Alone(s, t, a, 0) == s
    ensures var s0 := Alone(s, t, a, n);
      var s1 := Step(s0, OwnStep(s0, t, a));
      Alone(s, t, a, n + 1) == s1 && Alone(s, t, a, n + 2) == Step(s1, OwnStep(s1, t, a))
  {
    assert Alone(s, t, a, n + 2) == Step(Alone(s, t, a, n + 1), OwnStep(Alone(s, t, a, n + 1), t, a));
  }

  /** One turn of the wait loop, once the thread gets the mutex: it fails, goes on
      to acquire with the mutex held, or sleeps with the mutex free; the pool and
      the memories stay. */
  lemma WaitTurn(s: State, t: Tid, size: nat, a: Answers)
    requires s.mutex.None? && (At(s, t) == Locking(size) || At(s, t) == Woken(size))
    ensures var after := Alone(s, t, a, 2);
      && after.pool == s.pool && after.owned == s.owned
      && At(after, t) ==
        (if !a.exported then Failing
         else if s.pool.handles > 0 && size < s.pool.bytes then Checked(size) else Sleeping(size))
      && after.mutex == (if At(after, t).Sleeping? then None else Some(t))
  {
    AloneTwice(s, t, a, 0);
    hide Alone, MemCreate, MemAlloc, MemFree, MemRelease;
  }

  // ------------------------------------- the critical section as one method

  datatype Outcome = Waiting | Failed | Got(handle: Handle)

  /** What comes after the wait loop: acquisition in three stages, undone in
      reverse order from the stage that fails. */
  function Acquire(p: Pool, size: nat, a: Answers): (Pool, Outcome) {
    if a.create.None? || !CanCreate(p, a.create.value) then (p, Failed)
    else
      var h := a.create.value;
      var created := MemCreate(p, h);
      if a.alloc.None? || !CanCharge(created, h, size, a.alloc.value) then (MemRelease(created, h), Failed)
      else
        var charged := MemAlloc(created, h, size, a.alloc.value);
        if a.exported then (charged, Got(h)) else (MemRelease(MemFree(charged, h), h), Failed)
  }

  lemma AcquireAllOrNothing(p: Pool, size: nat, a: Answers)
    ensures var (after, r) := Acquire(p, size, a);
      if r.Got? then
        && a.create == Some(r.handle) && r.handle !in p.live && p.handles > 0
        && a.alloc.Some? && size <= a.alloc.value <= p.bytes
        && after == Pool(p.handles - 1, p.bytes - a.alloc.value, p.live[r.handle := a.alloc.value])
      else r == Failed && after == p
  {
    if a.create.Some? && CanCreate(p, a.create.value) {
      var h := a.create.value;
      assert p.live[h := 0] - {h} == p.live;
      if a.alloc.Some? {
        assert p.live[h := 0][h := a.alloc.value] == p.live[h := a.alloc.value];
        assert p.live[h := a.alloc.value][h := 0] - {h} == p.live;
      }
    }
  }

  /** The steps of the monitor's critical section, taken alone, are Acquire. */
  lemma StepsAcquire(s: State, t: Tid, a: Answers)
    requires Exclusive(s) && At(s, t).Checked?
    ensures var size, after := At(s, t).size, Alone(s, t, a, 5);
      && after.mutex.None? && At(after, t).Idle?
      && after.pool == Acquire(s.pool, size, a).0
      && after.owned ==
        if Acquire(s.pool, size, a).1.Got? then s.owned[Acquire(s.pool, size, a).1.handle := size] else s.owned
  {
    AloneTwice(s, t, a, 0);
    AloneTwice(s, t, a, 2);
    AloneTwice(s, t, a, 3);
    var s1, s2, s3, s4 := Alone(s, t, a, 1), Alone(s, t, a, 2), Alone(s, t, a, 3), Alone(s, t, a, 4);
    hide Alone, Step, OwnStep, At, MemCreate, MemAlloc, MemFree, MemRelease, CanCreate, CanCharge;
    OwnStepDoes(s, t, a);
    OwnStepDoes(s1, t, a);
    OwnStepDoes(s2, t, a);
    OwnStepDoes(s3, t, a);
    OwnStepDoes(s4, t, a);
  }

  /** One step of the critical section, stage by stage. */
  lemma OwnStepDoes(s: State, t: Tid, a: Answers)
    ensures var p, after := At(s, t), Step(s, OwnStep(s, t, a));
      && (p.Checked? ==>
           if a.create.Some? && CanCreate(s.pool, a.create.value) then
             At(after, t) == Created(p.size, a.create.value) && after.pool == MemCreate(s.pool, a.create.value)
           else At(after, t).Failing? && after.pool == s.pool)
      && (p.Created? ==>
           if a.alloc.Some? && CanCharge(s.pool, p.handle, p.size, a.alloc.value) then
             && At(after, t) == Charged(p.size, p.handle)
             && after.pool == MemAlloc(s.pool, p.handle, p.size, a.alloc.value)
           else At(after, t) == Releasing(p.handle) && after.pool == s.pool)
      && (p.Charged? ==>
           if a.exported then At(after, t).Succeeding? && after.pool == s.pool
           else At(after, t) == Releasing(p.handle) && after.pool == MemFree(s.pool, p.handle))
      && (p.Releasing? ==> At(after, t).Failing? && after.pool == MemRelease(s.pool, p.handle))
      && (p.Failing? || p.Succeeding? ==> At(after, t).Idle? && after.mutex.None? && after.pool == s.pool)
      && (p.Idle? ==> after == s)
      && (p.Checked? || p.Created? || p.Releasing? || p.Failing? || p.Succeeding? || (p.Charged? && !a.exported) ==>
           after.owned == s.owned)
      && (p.Charged? && a.exported ==> after.owned == s.owned[p.handle := p.size])
  {
    hide MemCreate, MemAlloc, MemFree, MemRelease, CanCreate, CanCharge;
  }

  /** What one turn of the wait loop finds: whether the query works, and the pool
      that the other threads have left. */
  datatype Look = Look(ok: bool, pool: Pool)

  /** The turn that ends the loop. */
  function LastTurn(size: nat, looks: seq<Look>, i: nat): (n: nat)
    requires i <= |looks|
    ensures i <= n <= |looks|
    ensures forall k :: i <= k < n ==> looks[k].ok && (looks[k].pool.handles == 0 || size >= looks[k].pool.bytes)
    ensures n < |looks| ==> !looks[n].ok || (looks[n].pool.handles > 0 && size < looks[n].pool.bytes)
    decreases |looks| - i
  {
    if i == |looks| || !looks[i].ok || FitsIn(size, looks[i].pool) then i else LastTurn(size, looks, i + 1)
  }

  /** The wait of Alloc is the monitor's. Let s be a state in which t gets the mutex
      for turn i of its loop, with the pool that the turn is said to find. The turn
      ends asleep, with the mutex free, exactly before the last turn; the last turn
      goes on to the acquisition that Alloc makes, unless its query fails. */
  lemma TurnsAreTheMonitors(s: State, t: Tid, size: nat, looks: seq<Look>, i: nat, a: Answers)
    requires i < |looks| && i <= LastTurn(size, looks, 0)
    requires Exclusive(s) && s.mutex.None? && (At(s, t) == Locking(size) || At(s, t) == Woken(size))
    requires s.pool == looks[i].pool
    ensures var after := Alone(s, t, a.(exported := looks[i].ok), 2);
      && after.pool == s.pool && after.owned == s.owned
      && (At(after, t) == Sleeping(size) && after.mutex.None? <==> i < LastTurn(size, looks, 0))
      && (i == LastTurn(size, looks, 0) && !looks[i].ok ==> At(after, t).Failing?)
      && (i == LastTurn(size, looks, 0) && looks[i].ok ==>
           var done := Alone(after, t, a, 5);
           done.mutex.None? && At(done, t).Idle? && done.pool == Acquire(looks[i].pool, size, a).0)
  {
    hide Alone, Acquire, Step, OwnStep;
    var b := a.(exported := looks[i].ok);
    WaitTurn(s, t, size, b);
    var after := Alone(s, t, b, 2);
    AloneTwice(s, t, b, 0);
    ExclusiveStep(s, OwnStep(s, t, b));
    ExclusiveStep(Alone(s, t, b, 1), OwnStep(Alone(s, t, b, 1), t, b));
    if i == LastTurn(size, looks, 0) && looks[i].ok {
      StepsAcquire(after, t, a);
    }
  }

  /** One handle, and what was charged for it, has gone from the pool. */
  predicate Took(found: Pool, left: Pool, h: Handle, charge: nat) {
    && h !in found.live && found.handles == left.handles + 1 && found.bytes == left.bytes + charge
    && left.live == found.live[h := charge]
  }

  class Allocator {
    var locked: bool
    var pool: Pool
    var sizes: map<Handle, nat>
    var broadcasts: nat

    constructor (handles: nat, bytes: nat)
      ensures !locked && pool == Pool(handles, bytes, map[]) && sizes == map[] && broadcasts == 0
    {
      locked, pool, sizes, broadcasts := false, Pool(handles, bytes, map[]), map[], 0;
    }

    /** gst_secmem_mem_alloc. looks is what the turns of the wait loop find; when
        they run out the thread is still waiting. */
    method Alloc(size: nat, looks: seq<Look>, a: Answers) returns (r: Outcome)
      requires !locked && looks != [] && looks[0].pool == pool
      modifies this
      ensures !locked && broadcasts == old(broadcasts)
      ensures var n := LastTurn(size, looks, 0);
        if n == |looks| then r == Waiting && pool == looks[n - 1].pool
        else if !looks[n].ok then r == Failed && pool == looks[n].pool
        else (pool, r) == Acquire(looks[n].pool, size, a)
      ensures sizes == if r.Got? then old(sizes)[r.handle := size] else old(sizes)
      ensures r == Waiting <==>
        forall k :: 0 <= k < |looks| ==> looks[k].ok && (looks[k].pool.handles == 0 || size >= looks[k].pool.bytes)
      ensures r.Got? ==>
        && a.create == Some(r.handle) && a.alloc.Some? && a.exported && size <= a.alloc.value
        && exists k :: 0 <= k < |looks| && looks[k].ok && size < looks[k].pool.bytes
             && Took(looks[k].pool, pool, r.handle, a.alloc.value)
    {
      locked := true;
      r := Failed;
      var turn := 0;
      while true
        invariant turn < |looks| && LastTurn(size, looks, 0) == LastTurn(size, looks, turn)
        invariant locked && pool == looks[turn].pool && r == Failed
        invariant sizes == old(sizes) && broadcasts == old(broadcasts)
        decreases |looks| - turn
      {
        if !looks[turn].ok {
          locked := false;
          return;
        }
        if FitsIn(size, pool) {
          break;
        }
        locked := false;
        turn := turn + 1;
        if turn == |looks| {
          return Waiting;
        }
        pool := looks[turn].pool;
        locked := true;
      }
      AcquireAllOrNothing(pool, size, a);
      if a.create.Some? && CanCreate(pool, a.create.value) {
        var h := a.create.value;
        pool := MemCreate(pool, h);
        if a.alloc.Some? && CanCharge(pool, h, size, a.alloc.value) {
          pool := MemAlloc(pool, h, size, a.alloc.value);
          if a.exported {
            sizes := sizes[h := size];
            locked := false;
            return Got(h);
          }
          pool := MemFree(pool, h);
        }
        pool := MemRelease(pool, h);
      }
      locked := false;
    }

    /** gst_secmem_mem_free and gst_secmem_free_handle. */
    method Free(h: Handle)
      requires !locked && h in pool.live
      modifies this
      ensures !locked && broadcasts == old(broadcasts) + 1
      ensures pool == Pool(old(pool).handles + 1, old(pool).bytes + old(pool).live[h], old(pool).live - {h})
      ensures sizes == old(sizes) - {h}
    {
      locked := true;
      sizes := sizes - {h};
      pool := MemFree(pool, h);
      pool := MemRelease(pool, h);
      assert old(pool).live[h := 0] - {h} == old(pool).live - {h};
      broadcasts := broadcasts + 1;
      locked := false;
    }
  }
}
