/**
  What the callback gate of src/starfish.c keeps over every interleaving of callback
  threads, loading and teardown, failing lock calls included.
 */
module StarfishSafety {
  import opened StarfishGate
  import opened Wrappers

  // ----- who is inside an object

  /** The activation has been counted into slot `k` and may touch its object. */
  predicate Holding(pc: CallPc, k: nat)
  {
    (pc.InHook? || pc.Leaving?) && pc.k == k
  }

  function Inside(calls: map<nat, CallPc>, k: nat): set<nat>
  {
    set id | id in calls && Holding(calls[id], k)
  }

  lemma InsideGoes(calls: map<nat, CallPc>, id: nat, pc: CallPc, k: nat)
    ensures var was := Inside(calls - {id}, k);
            Inside(calls[id := pc], k) == (if Holding(pc, k) then was + {id} else was) && id !in was
  {
  }

  lemma InsideCount(calls: map<nat, CallPc>, id: nat, k: nat)
    ensures |Inside(calls - {id}, k)| == |Inside(calls, k)| - (if id in calls && Holding(calls[id], k) then 1 else 0)
  {
    var rest := Inside(calls - {id}, k);
    if id in calls && Holding(calls[id], k) {
      assert Inside(calls, k) == rest + {id};
    } else {
      assert Inside(calls, k) == rest;
    }
  }

  /** How the number of holders changes when one activation moves. */
  lemma InsideMoves(calls: map<nat, CallPc>, id: nat, pc: CallPc, k: nat)
    ensures |Inside(calls[id := pc], k)| ==
              |Inside(calls, k)| - (if id in calls && Holding(calls[id], k) then 1 else 0) +
                  (if Holding(pc, k) then 1 else 0)
  {
    InsideGoes(calls, id, pc, k);
    InsideCount(calls, id, k);
  }

  // ----- the invariant

  /** The facts `sf_destroy` established before the destructor, which nothing undoes afterwards. */
  predicate Proven(slot: Slot)
  {
    !slot.active && slot.gateRetired && slot.inflight == 0 && slot.intercepts > 0 && slot.intercepted != 0 &&
        slot.unloadCompleted
  }

  predicate SlotOk(s: State, k: nat)
    requires k < |s.slots|
  {
    var slot := s.slots[k];
    && |Inside(s.calls, k)| <= slot.inflight
    && (slot.gateRetired ==> !slot.active && slot.inflight == 0)
    && slot.intercepted == slot.intercepts % U32
    && (slot.intercepts > 0 ==> slot.evidenceArmed)
    && (slot.unloadCompleted ==> slot.epoch in s.hist.unloads)
    && (slot.dtorStarted ==> Proven(slot))
  }

  predicate SlotsOk(s: State)
  {
    forall k :: 0 <= k < |s.slots| ==> SlotOk(s, k)
  }

  predicate CallOk(s: State, pc: CallPc)
  {
    match pc
    case Entered(self) => self in s.hist.used && self !in s.hist.raw
    case Looking(self) => self in s.hist.used && self !in s.hist.raw
    case InForeign(self) => self in s.hist.used && self !in s.hist.raw && forall j :: 0 <= j < |s.slots| ==>
        s.slots[j].addr != self
    case AtGate(k) => k < |s.slots| && s.slots[k].constructed
    case InHook(k) => k < |s.slots| && s.slots[k].constructed
    case Leaving(k) => k < |s.slots| && s.slots[k].constructed
    case Raising => true
    case Event(slot, epoch) => (slot.Some? ==> slot.value < |s.slots|) && epoch in s.hist.unloads
  }

  predicate CallsOk(s: State)
  {
    forall id :: id in s.calls ==> CallOk(s, s.calls[id])
  }

  /** Addresses are never shared: between slots, with a slot in the making, or with a stranger. */
  predicate AddressesOk(s: State)
  {
    && s.hist.raw <= s.hist.used
    && (forall k :: 0 <= k < |s.slots| ==>
          s.slots[k].addr in s.hist.used && (s.slots[k].constructed || s.slots[k].addr in s.hist.raw))
    && (forall j, k :: 0 <= j < k < |s.slots| ==> s.slots[j].addr != s.slots[k].addr)
    && (s.load.Registers? ==> s.load.addr in s.hist.raw && forall k :: 0 <= k < |s.slots| ==>
          s.slots[k].addr != s.load.addr)
  }

  function PendingEpoch(pc: LoadPc): Option<nat>
  {
    match pc
    case ReadsReady(e) => Some(e)
    case ReadsCurrent(e) => Some(e)
    case Prepares(e) => Some(e)
    case Allocates(e) => Some(e)
    case Registers(e, _) => Some(e)
    case _ => None
  }

  /** No two slots carry the same epoch. */
  predicate EpochsOk(s: State)
  {
    && (forall k :: 0 <= k < |s.slots| ==> s.slots[k].epoch in s.hist.epochs)
    && (forall j, k :: 0 <= j < k < |s.slots| ==> s.slots[j].epoch != s.slots[k].epoch)
    && (var e := PendingEpoch(s.load);
        e.Some? ==> e.value in s.hist.epochs && forall k :: 0 <= k < |s.slots| ==> s.slots[k].epoch != e.value)
  }

  /** Where the flags stand while a load is in flight. */
  predicate LoadOk(s: State)
  {
    && (s.flags.current.Some? ==> s.flags.current.value < |s.slots|)
    && (s.flags.ready && s.flags.returned && s.flags.current.Some? ==> s.slots[s.flags.current.value].loadDone)
    && match s.load
       case LoadIdle => true
       case ReadsReady(_) => true
       case ReadsCurrent(_) => !s.flags.ready
       case Prepares(_) => !s.flags.ready && s.flags.current.None?
       case Allocates(_) => !s.flags.ready && s.flags.current.None?
       case Registers(_, _) => !s.flags.ready && s.flags.current.None?
       case Publishes(k) => k < |s.slots| && !s.flags.ready && s.flags.current.None? && !s.slots[k].evidenceArmed &&
           !s.slots[k].constructed
       case Constructs(k) => k < |s.slots| && !s.flags.ready && s.flags.current == Some(k) &&
           !s.slots[k].evidenceArmed && !s.slots[k].constructed
       case ClearsReturned(k) => k < |s.slots| && !s.flags.ready && s.flags.current == Some(k) &&
           !s.slots[k].evidenceArmed
       case SetsReady(k) => k < |s.slots| && !s.flags.returned && s.flags.current == Some(k) &&
           !s.slots[k].evidenceArmed
       case Arms(k) => k < |s.slots| && !s.flags.returned && s.flags.current == Some(k) && !s.slots[k].evidenceArmed
       case InLoad(k) => k < |s.slots| && !s.flags.returned && (s.flags.current == None || s.flags.current == Some(k))
       case MarksReturned(k) => k < |s.slots| && s.slots[k].loadDone &&
           (s.flags.current == None || s.flags.current == Some(k))
       case Fails(k) => k.Some? ==> k.value < |s.slots|
       case FailsReady => true
       case FailsReturned => true
  }

  /** The slot the main thread is working on. */
  function Working(pc: MainPc): Option<nat>
  {
    match pc
    case VerbReady(k) => Some(k)
    case VerbReturned(k) => Some(k)
    case Dispatched(k) => Some(k)
    case Retires(k, _) => Some(k)
    case Waits(k, _) => Some(k)
    case DestroyReady(k) => Some(k)
    case DestroyChecks(k) => Some(k)
    case Doomed(k) => Some(k)
    case InDtor(k) => Some(k)
    case DestroyedReady(k) => Some(k)
    case DestroyedReturned(k) => Some(k)
    case DestroyedCurrent(k) => Some(k)
    case _ => None
  }

  predicate Destroying(pc: MainPc)
  {
    pc.InDtor? || pc.DestroyedReady? || pc.DestroyedReturned? || pc.DestroyedCurrent?
  }

  predicate MainOk(s: State)
  {
    && (Working(s.main).Some? ==> s.flags.current == Working(s.main) && s.flags.current.value < |s.slots|)
    && (s.main.VerbReturned? && s.flags.returned ==> s.slots[s.main.k].loadDone)
    && (s.main.Dispatched? ==> s.slots[s.main.k].loadDone)
    && (s.main.Waits? ==> !s.slots[s.main.k].active)
    && (s.main.Doomed? ==> Proven(s.slots[s.main.k]))
    && (s.flags.current.Some? && s.flags.current.value < |s.slots| ==>
          (s.slots[s.flags.current.value].dtorStarted <==> Destroying(s.main)))
    && (Destroying(s.main) ==> s.flags.current.Some?)
  }

  predicate Inv(s: State)
  {
    SlotsOk(s) && CallsOk(s) && AddressesOk(s) && EpochsOk(s) && LoadOk(s) && MainOk(s)
  }

  lemma Initially()
    ensures Inv(INITIAL)
  {
  }

  // ----- the counters of one slot

  /** A slot nobody wrote keeps its facts when no activation entered it. */
  lemma SlotUnwritten(s: State, t: State, k: nat)
    requires k < |s.slots| && k < |t.slots| && t.slots[k] == s.slots[k] && SlotOk(s, k)
    requires s.hist.unloads <= t.hist.unloads && |Inside(t.calls, k)| <= |Inside(s.calls, k)|
    ensures SlotOk(t, k)
  {
  }

  lemma GoesCount(s: State, id: nat, pc: CallPc, k: nat)
    ensures !Holding(pc, k) ==> |Inside(Goes(s, id, pc).calls, k)| <= |Inside(s.calls, k)|
    ensures |Inside(Goes(s, id, pc).calls, k)| <= |Inside(s.calls, k)| + 1
    ensures id in s.calls && Holding(s.calls[id], k) ==> |Inside(Goes(s, id, pc).calls, k)| <= |Inside(s.calls, k)|
    ensures id in s.calls && Holding(s.calls[id], k) && !Holding(pc, k) ==>
            |Inside(Goes(s, id, pc).calls, k)| == |Inside(s.calls, k)| - 1
  {
    InsideMoves(s.calls, id, pc, k);
  }

  lemma GoneCount(s: State, id: nat, k: nat)
    ensures |Inside(Gone(s, id).calls, k)| <= |Inside(s.calls, k)|
    ensures id in s.calls && Holding(s.calls[id], k) ==> |Inside(Gone(s, id).calls, k)| == |Inside(s.calls, k)| - 1
  {
    InsideCount(s.calls, id, k);
  }

  lemma HolderCounted(calls: map<nat, CallPc>, id: nat, k: nat)
    requires id in calls && Holding(calls[id], k)
    ensures |Inside(calls, k)| >= 1
  {
    assert id in Inside(calls, k);
  }

  lemma AdmitKeepsSlot(s: State, id: nat, g: nat, lockOk: bool, unlockOk: bool, k: nat)
    requires g < |s.slots| && k < |s.slots| && SlotOk(s, k)
    ensures SlotOk(Admitted(s, id, g, lockOk, unlockOk), k)
  {
    var t := Admitted(s, id, g, lockOk, unlockOk);
    GoesCount(s, id, Raising, k);
    GoesCount(s, id, InHook(g), k);
    GoneCount(s, id, k);
    if k != g || !lockOk || !s.slots[g].active {
      SlotUnwritten(s, t, k);
    }
  }

  lemma LeaveKeepsSlot(s: State, id: nat, g: nat, lockOk: bool, broadcastOk: bool, unlockOk: bool, k: nat)
    requires g < |s.slots| && k < |s.slots| && SlotOk(s, k)
    requires id in s.calls && s.calls[id] == Leaving(g)
    ensures SlotOk(Left(s, id, g, lockOk, broadcastOk, unlockOk), k)
  {
    var t := Left(s, id, g, lockOk, broadcastOk, unlockOk);
    GoesCount(s, id, Raising, k);
    GoneCount(s, id, k);
    if k != g || !lockOk {
      SlotUnwritten(s, t, k);
    } else {
      HolderCounted(s.calls, id, k);
    }
  }

  /** A step that writes no slot and lets nobody new in. */
  lemma QuietKeepsSlot(s: State, t: State, id: nat, k: nat)
    requires k < |s.slots| && SlotOk(s, k) && t.slots == s.slots && s.hist.unloads <= t.hist.unloads
    requires t.calls == s.calls - {id} ||
             (id in t.calls && t.calls == s.calls[id := t.calls[id]] &&
              (Holding(t.calls[id], k) ==> id in s.calls && Holding(s.calls[id], k)))
    ensures SlotOk(t, k)
  {
    if t.calls == s.calls - {id} {
      InsideCount(s.calls, id, k);
    } else {
      InsideMoves(s.calls, id, t.calls[id], k);
    }
    SlotUnwritten(s, t, k);
  }

  lemma UnloadKeepsSlot(s: State, id: nat, k: nat)
    requires CallEnabled(s, StoreUnload(id)) && k < |s.slots| && SlotOk(s, k) && CallOk(s, s.calls[id])
    ensures SlotOk(CallStep(s, StoreUnload(id)), k)
  {
    GoneCount(s, id, k);
  }

  // ----- callback steps

  lemma CallKeepsSlot(s: State, a: CallAction, k: nat)
    requires CallEnabled(s, a) && k < |s.slots| && SlotOk(s, k) && CallsOk(s)
    ensures SlotOk(CallStep(s, a), k)
  {
    match a
    case Admit(id, lockOk, unlockOk) => AdmitKeepsSlot(s, id, s.calls[id].k, lockOk, unlockOk, k);
    case Leave(id, lockOk, broadcastOk, unlockOk) => LeaveKeepsSlot(s, id, s.calls[id].k, lockOk, broadcastOk,
                                                                       unlockOk, k);
    case StoreUnload(id) => UnloadKeepsSlot(s, id, k);
    case _ => QuietKeepsSlot(s, CallStep(s, a), a.id, k);
  }

  /** What callback steps leave alone: everything but counters, the unload mark and the flags. */
  predicate SameIdentity(a: Slot, b: Slot)
  {
    a.addr == b.addr && a.epoch == b.epoch && a.constructed == b.constructed && a.evidenceArmed == b.evidenceArmed &&
    a.loadDone == b.loadDone && a.dtorStarted == b.dtorStarted && a.active == b.active && (Proven(a) ==> Proven(b))
  }

  predicate Framed(s: State, t: State, id: nat)
  {
    && |t.slots| == |s.slots| && (forall k :: 0 <= k < |s.slots| ==> SameIdentity(s.slots[k], t.slots[k]))
    && t.flags.current == s.flags.current && t.flags.ready == s.flags.ready && t.flags.returned == s.flags.returned
    && t.load == s.load && t.main == s.main
    && s.hist.used <= t.hist.used && t.hist.raw == s.hist.raw && t.hist.epochs == s.hist.epochs &&
          s.hist.unloads <= t.hist.unloads
    && (s.flags.blocked ==> t.flags.blocked)
    && (forall j :: j in t.calls ==> j == id || (j in s.calls && t.calls[j] == s.calls[j]))
  }

  lemma AdmitFrame(s: State, id: nat, g: nat, lockOk: bool, unlockOk: bool)
    requires g < |s.slots|
    ensures Framed(s, Admitted(s, id, g, lockOk, unlockOk), id)
  {
  }

  lemma LeaveFrame(s: State, id: nat, g: nat, lockOk: bool, broadcastOk: bool, unlockOk: bool)
    requires g < |s.slots|
    ensures Framed(s, Left(s, id, g, lockOk, broadcastOk, unlockOk), id)
  {
  }

  lemma CallFrame(s: State, a: CallAction)
    requires CallEnabled(s, a)
    ensures Framed(s, CallStep(s, a), a.id)
  {
    match a
    case Admit(id, lockOk, unlockOk) => AdmitFrame(s, id, s.calls[id].k, lockOk, unlockOk);
    case Leave(id, lockOk, broadcastOk, unlockOk) => LeaveFrame(s, id, s.calls[id].k, lockOk, broadcastOk, unlockOk);
    case _ =>
  }

  lemma CallOkCarries(s: State, t: State, pc: CallPc)
    requires CallOk(s, pc)
    requires |s.slots| == |t.slots| && s.hist.used <= t.hist.used && t.hist.raw == s.hist.raw &&
             s.hist.unloads <= t.hist.unloads
    requires forall k :: 0 <= k < |s.slots| ==> SameIdentity(s.slots[k], t.slots[k])
    ensures CallOk(t, pc)
  {
  }

  /** The place the acting activation moves to is again a legal one. */
  lemma CallArrives(s: State, a: CallAction)
    requires CallEnabled(s, a) && CallsOk(s) && AddressesOk(s) &&
             (s.flags.current.Some? ==> s.flags.current.value < |s.slots|)
    requires a.id in CallStep(s, a).calls
    ensures CallOk(CallStep(s, a), CallStep(s, a).calls[a.id])
  {
    var t := CallStep(s, a);
    CallFrame(s, a);
    if a.id in s.calls {
      assert CallOk(s, s.calls[a.id]);
      CallOkCarries(s, t, s.calls[a.id]);
    }
  }

  lemma CallKeeps(s: State, a: CallAction)
    requires Inv(s) && CallEnabled(s, a)
    ensures Inv(CallStep(s, a))
  {
    var t := CallStep(s, a);
    CallFrame(s, a);
    assert SlotsOk(t) by {
      forall k | 0 <= k < |t.slots| ensures SlotOk(t, k) {
        assert SlotOk(s, k);
        CallKeepsSlot(s, a, k);
      }
    }
    assert CallsOk(t) by {
      forall id | id in t.calls ensures CallOk(t, t.calls[id]) {
        if id == a.id {
          CallArrives(s, a);
        } else {
          assert CallOk(s, s.calls[id]);
          CallOkCarries(s, t, s.calls[id]);
        }
      }
    }
    CallKeepsRest(s, t, a.id);
  }

  lemma CallKeepsRest(s: State, t: State, id: nat)
    requires AddressesOk(s) && EpochsOk(s) && LoadOk(s) && MainOk(s) && Framed(s, t, id)
    ensures AddressesOk(t) && EpochsOk(t) && LoadOk(t) && MainOk(t)
  {
  }

  // ----- load steps

  lemma LoadKeepsSlots(s: State, a: LoadAction)
    requires LoadEnabled(s, a) && SlotsOk(s) && CallsOk(s)
    ensures SlotsOk(LoadStep(s, a))
  {
    var t := LoadStep(s, a);
    forall k | 0 <= k < |t.slots| ensures SlotOk(t, k) {
      if k < |s.slots| {
        assert SlotOk(s, k);
      } else {
        forall id | id in s.calls ensures !Holding(s.calls[id], k) {
          assert CallOk(s, s.calls[id]);
        }
        assert Inside(t.calls, k) == {};
      }
    }
  }

  lemma LoadKeepsCalls(s: State, a: LoadAction)
    requires LoadEnabled(s, a) && CallsOk(s) && AddressesOk(s)
    ensures CallsOk(LoadStep(s, a))
  {
    var t := LoadStep(s, a);
    assert t.calls == s.calls;
    forall id | id in s.calls ensures CallOk(t, s.calls[id]) {
      LoadKeepsCall(s, a, s.calls[id]);
    }
  }

  lemma LoadKeepsCall(s: State, a: LoadAction, pc: CallPc)
    requires LoadEnabled(s, a) && AddressesOk(s) && CallOk(s, pc)
    ensures CallOk(LoadStep(s, a), pc)
  {
  }

  lemma LoadKeepsAddresses(s: State, a: LoadAction)
    requires LoadEnabled(s, a) && AddressesOk(s)
    ensures AddressesOk(LoadStep(s, a))
  {
  }

  lemma LoadKeepsEpochs(s: State, a: LoadAction)
    requires LoadEnabled(s, a) && EpochsOk(s)
    ensures EpochsOk(LoadStep(s, a))
  {
  }

  lemma LoadKeepsFlags(s: State, a: LoadAction)
    requires LoadEnabled(s, a) && LoadOk(s)
    ensures LoadOk(LoadStep(s, a))
  {
  }

  /** What the main thread sees of a load step. */
  ghost predicate LoadSeen(s: State, t: State)
  {
    && t.main == s.main && |s.slots| <= |t.slots|
    && (forall k :: 0 <= k < |s.slots| ==>
          t.slots[k].dtorStarted == s.slots[k].dtorStarted && t.slots[k].active == s.slots[k].active &&
          (s.slots[k].loadDone ==> t.slots[k].loadDone) && (Proven(s.slots[k]) ==> Proven(t.slots[k])))
    && (t.flags.current == s.flags.current ||
        (s.flags.current.None? && t.flags.current.Some? && t.flags.current.value < |s.slots| &&
            !s.slots[t.flags.current.value].evidenceArmed))
    && (t.flags.returned && !s.flags.returned ==>
          forall k :: 0 <= k < |s.slots| && t.flags.current == Some(k) ==> s.slots[k].loadDone)
  }

  lemma LoadFrame(s: State, a: LoadAction)
    requires LoadEnabled(s, a) && LoadOk(s)
    ensures LoadSeen(s, LoadStep(s, a))
  {
  }

  lemma LoadKeepsMain(s: State, t: State)
    requires LoadSeen(s, t) && LoadOk(s) && MainOk(s) && SlotsOk(s)
    ensures MainOk(t)
  {
    if s.flags.current.None? && t.flags.current.Some? {
      assert SlotOk(s, t.flags.current.value);
    }
  }

  lemma LoadKeeps(s: State, a: LoadAction)
    requires Inv(s) && LoadEnabled(s, a)
    ensures Inv(LoadStep(s, a))
  {
    LoadKeepsSlots(s, a);
    LoadKeepsCalls(s, a);
    LoadKeepsAddresses(s, a);
    LoadKeepsEpochs(s, a);
    LoadKeepsFlags(s, a);
    LoadFrame(s, a);
    LoadKeepsMain(s, LoadStep(s, a));
  }

  // ----- main steps

  lemma CloseKeepsSlot(s: State, a: MainAction, k: nat)
    requires MainEnabled(s, a) && a.CloseGate? && k < |s.slots| && SlotOk(s, k)
    ensures SlotOk(MainStep(s, a), k)
  {
    if k != s.main.k {
      SlotUnwritten(s, MainStep(s, a), k);
    }
  }

  lemma WakeKeepsSlot(s: State, a: MainAction, k: nat)
    requires MainEnabled(s, a) && a.Wake? && k < |s.slots| && SlotOk(s, k) && MainOk(s)
    ensures SlotOk(MainStep(s, a), k)
  {
    if k != s.main.k {
      SlotUnwritten(s, MainStep(s, a), k);
    } else {
      WakeKeepsOwn(s, a);
    }
  }

  lemma WakeKeepsOwn(s: State, a: MainAction)
    requires MainEnabled(s, a) && a.Wake? && s.main.k < |s.slots| && SlotOk(s, s.main.k) && MainOk(s)
    ensures SlotOk(MainStep(s, a), s.main.k)
  {
  }

  lemma MainKeepsSlot(s: State, a: MainAction, k: nat)
    requires MainEnabled(s, a) && k < |s.slots| && SlotOk(s, k) && MainOk(s)
    ensures SlotOk(MainStep(s, a), k)
  {
    if a.CloseGate? {
      CloseKeepsSlot(s, a, k);
    } else if a.Wake? {
      WakeKeepsSlot(s, a, k);
    } else if !a.StartDtor? || k != s.main.k {
      SlotUnwritten(s, MainStep(s, a), k);
    }
  }

  lemma MainKeepsSlots(s: State, a: MainAction)
    requires MainEnabled(s, a) && SlotsOk(s) && MainOk(s)
    ensures SlotsOk(MainStep(s, a))
  {
    var t := MainStep(s, a);
    forall k | 0 <= k < |t.slots| ensures SlotOk(t, k) {
      assert SlotOk(s, k);
      MainKeepsSlot(s, a, k);
    }
  }

  predicate MainFramed(s: State, t: State)
  {
    && |t.slots| == |s.slots| && t.calls == s.calls && t.load == s.load && t.hist == s.hist
    && (forall k :: 0 <= k < |s.slots| ==>
          t.slots[k].addr == s.slots[k].addr && t.slots[k].epoch == s.slots[k].epoch &&
              t.slots[k].constructed == s.slots[k].constructed &&
          t.slots[k].evidenceArmed == s.slots[k].evidenceArmed && t.slots[k].loadDone == s.slots[k].loadDone)
    && (t.flags.ready ==> s.flags.ready) && (t.flags.returned ==> s.flags.returned) &&
          (s.flags.blocked ==> t.flags.blocked)
    && (t.flags.current == s.flags.current || (t.flags.current.None? && s.main.DestroyedCurrent?))
  }

  lemma MainFrame(s: State, a: MainAction)
    requires MainEnabled(s, a)
    ensures MainFramed(s, MainStep(s, a))
  {
    match a
    case CloseGate(_, _) =>
    case Wake(_, _) =>
    case _ => assert a.StartDtor? || MainStep(s, a).slots == s.slots;
  }

  lemma MainKeepsCalls(s: State, t: State)
    requires MainFramed(s, t) && CallsOk(s)
    ensures CallsOk(t)
  {
  }

  lemma MainKeepsNames(s: State, t: State)
    requires MainFramed(s, t) && AddressesOk(s) && EpochsOk(s)
    ensures AddressesOk(t) && EpochsOk(t)
  {
  }

  lemma MainKeepsFlags(s: State, t: State)
    requires MainFramed(s, t) && LoadOk(s) && MainOk(s) && SlotsOk(s)
    ensures LoadOk(t)
  {
    if s.main.DestroyedCurrent? {
      assert SlotOk(s, s.main.k);
    }
  }

  lemma CloseKeepsMain(s: State, a: MainAction)
    requires MainEnabled(s, a) && MainOk(s) && a.CloseGate? && SlotOk(s, s.main.k)
    ensures MainOk(MainStep(s, a))
  {
  }

  lemma WakeKeepsMain(s: State, a: MainAction)
    requires MainEnabled(s, a) && MainOk(s) && a.Wake? && SlotOk(s, s.main.k)
    ensures MainOk(MainStep(s, a))
  {
  }

  lemma DestroyKeepsMain(s: State, a: MainAction)
    requires MainEnabled(s, a) && MainOk(s) && LoadOk(s) && (a.CheckDestroy? || a.StartDtor?) && SlotOk(s, s.main.k)
    ensures MainOk(MainStep(s, a))
  {
  }

  lemma MainKeepsMain(s: State, a: MainAction)
    requires MainEnabled(s, a) && LoadOk(s) && MainOk(s) && SlotsOk(s)
    ensures MainOk(MainStep(s, a))
  {
    if a.CloseGate? {
      CloseKeepsMain(s, a);
    } else if a.Wake? {
      WakeKeepsMain(s, a);
    } else if a.CheckDestroy? || a.StartDtor? {
      DestroyKeepsMain(s, a);
    }
  }

  lemma MainKeeps(s: State, a: MainAction)
    requires Inv(s) && MainEnabled(s, a)
    ensures Inv(MainStep(s, a))
  {
    var t := MainStep(s, a);
    MainFrame(s, a);
    MainKeepsSlots(s, a);
    MainKeepsCalls(s, t);
    MainKeepsNames(s, t);
    MainKeepsFlags(s, t);
    MainKeepsMain(s, a);
  }

  // ----- every reachable state

  lemma StepKeeps(s: State, a: Action)
    requires Inv(s) && Enabled(s, a)
    ensures Inv(Step(s, a))
  {
    match a
    case OfCall(c) => CallKeeps(s, c);
    case OfLoad(l) => LoadKeeps(s, l);
    case OfMain(m) => MainKeeps(s, m);
  }

  lemma {:induction false} RunKeeps(s: State, run: seq<Action>)
    requires Inv(s) && Runs(s, run)
    ensures Inv(After(s, run))
    decreases |run|
  {
    if run != [] {
      StepKeeps(s, run[0]);
      RunKeeps(Step(s, run[0]), run[1..]);
    }
  }

  ghost predicate Reachable(s: State)
  {
    exists run :: Runs(INITIAL, run) && After(INITIAL, run) == s
  }

  lemma ReachableInv(s: State)
    requires Reachable(s)
    ensures Inv(s)
  {
    var run :| Runs(INITIAL, run) && After(INITIAL, run) == s;
    Initially();
    RunKeeps(INITIAL, run);
  }

  /**
    In every interleaving: no forwarded hook call, gated or not, is inside an object whose
    destructor has started, and a gated call is only ever inside a constructed object.
   */
  lemma NoCallInsideDestroyed(s: State, id: nat, k: nat)
    requires Reachable(s) && id in s.calls && k < |s.slots|
    ensures s.slots[k].dtorStarted ==> s.calls[id] != InHook(k) && s.calls[id] != Leaving(k)
    ensures s.calls[id] == InHook(k) ==> s.slots[k].constructed
    ensures s.calls[id] != InForeign(s.slots[k].addr)
  {
    ReachableInv(s);
    assert SlotOk(s, k) && CallOk(s, s.calls[id]);
    if Holding(s.calls[id], k) {
      HolderCounted(s.calls, id, k);
    }
  }

  /** The counter never underflows: the zero branch on the way out of the hook is dead. */
  lemma NeverUnderflows(s: State, id: nat)
    requires Reachable(s) && id in s.calls && s.calls[id].Leaving?
    ensures s.calls[id].k < |s.slots| && s.slots[s.calls[id].k].inflight >= 1
  {
    ReachableInv(s);
    assert CallOk(s, s.calls[id]) && SlotOk(s, s.calls[id].k);
    HolderCounted(s.calls, id, s.calls[id].k);
  }

  /**
    When the destructor starts, the gate has been retired and drained, at least one
    callback was intercepted, an unload event carried this slot's epoch and no other
    slot's, and the destructor has not run before.
   */
  lemma DtorOnlyWhenProven(s: State)
    requires Reachable(s) && MainEnabled(s, StartDtor)
    ensures var k := s.main.k;
            && s.flags.current == Some(k) && !s.slots[k].dtorStarted
            && s.slots[k].gateRetired && !s.slots[k].active && s.slots[k].inflight == 0
            && s.slots[k].intercepts >= 1
            && s.slots[k].epoch in s.hist.unloads
            && (forall j :: 0 <= j < |s.slots| && s.slots[j].epoch == s.slots[k].epoch ==> j == k)
            && (forall id :: id in s.calls ==> s.calls[id] != InHook(k) && s.calls[id] != Leaving(k))
  {
    ReachableInv(s);
    assert SlotOk(s, s.main.k);
    forall id | id in s.calls ensures s.calls[id] != InHook(s.main.k) && s.calls[id] != Leaving(s.main.k) {
      if Holding(s.calls[id], s.main.k) {
        HolderCounted(s.calls, id, s.main.k);
      }
    }
  }

  /** No verb is dispatched to an object before its own Load call returned, or after its destructor started. */
  lemma VerbsOnlyAfterLoad(s: State)
    requires Reachable(s) && s.main.Dispatched?
    ensures s.main.k < |s.slots| && s.slots[s.main.k].loadDone && !s.slots[s.main.k].dtorStarted
  {
    ReachableInv(s);
  }

  // ----- over whole runs

  /** The registry only grows, and slots keep their address and epoch. */
  predicate Extends(s: State, t: State)
  {
    |s.slots| <= |t.slots| &&
    forall k :: 0 <= k < |s.slots| ==> t.slots[k].addr == s.slots[k].addr && t.slots[k].epoch == s.slots[k].epoch
  }

  lemma LoadExtends(s: State, a: LoadAction)
    requires LoadEnabled(s, a)
    ensures Extends(s, LoadStep(s, a)) && (s.flags.blocked ==> LoadStep(s, a).flags.blocked)
  {
  }

  lemma StepExtends(s: State, a: Action)
    requires Enabled(s, a)
    ensures Extends(s, Step(s, a)) && (s.flags.blocked ==> Step(s, a).flags.blocked)
  {
    match a
    case OfCall(c) => CallFrame(s, c);
    case OfLoad(l) => LoadExtends(s, l);
    case OfMain(m) => MainFrame(s, m);
  }

  lemma {:induction false} RegistryGrows(s: State, run: seq<Action>)
    requires Runs(s, run)
    ensures Extends(s, After(s, run))
    decreases |run|
  {
    if run != [] {
      StepExtends(s, run[0]);
      RegistryGrows(Step(s, run[0]), run[1..]);
    }
  }

  /** What a blocked lifecycle still allows between two states. */
  predicate Frozen(s: State, t: State)
  {
    && t.flags.blocked && |s.slots| <= |t.slots|
    && (s.load.LoadIdle? ==> t.load.LoadIdle? && |t.slots| == |s.slots|)
    && (!s.main.Doomed? ==> !t.main.Doomed?)
    && (!s.main.Doomed? ==> forall k :: 0 <= k < |s.slots| ==> t.slots[k].dtorStarted == s.slots[k].dtorStarted)
  }

  lemma LoadFrozen(s: State, a: LoadAction)
    requires LoadEnabled(s, a) && s.flags.blocked
    ensures Frozen(s, LoadStep(s, a))
  {
  }

  lemma DoomOnlyUnblocked(s: State, a: MainAction)
    requires MainEnabled(s, a)
    ensures MainStep(s, a).main.Doomed? ==> a.CheckDestroy? && !s.flags.blocked
  {
  }

  lemma DtorOnlyDoomed(s: State, a: MainAction, k: nat)
    requires MainEnabled(s, a) && k < |s.slots| && !s.main.Doomed?
    ensures k < |MainStep(s, a).slots| && MainStep(s, a).slots[k].dtorStarted == s.slots[k].dtorStarted
  {
  }

  lemma MainFrozen(s: State, a: MainAction, t: State)
    requires MainEnabled(s, a) && s.flags.blocked && t == MainStep(s, a)
    ensures Frozen(s, t)
  {
    MainFrame(s, a);
    DoomOnlyUnblocked(s, a);
    if !s.main.Doomed? {
      forall k | 0 <= k < |s.slots| ensures t.slots[k].dtorStarted == s.slots[k].dtorStarted {
        DtorOnlyDoomed(s, a, k);
      }
    }
  }

  lemma StepFrozen(s: State, a: Action)
    requires Enabled(s, a) && s.flags.blocked
    ensures Frozen(s, Step(s, a))
  {
    match a
    case OfCall(c) => CallFrame(s, c);
    case OfLoad(l) => LoadFrozen(s, l);
    case OfMain(m) => MainFrozen(s, m, Step(s, a));
  }

  lemma FrozenThrough(s: State, t: State, u: State)
    requires Frozen(s, t) && Frozen(t, u)
    ensures Frozen(s, u)
  {
  }

  /**
    Once the lifecycle is blocked it stays blocked: no later `sf_load` gets past its entry
    check, so no slot is ever registered again, and no later destroy check succeeds, so no
    further destructor runs.
   */
  lemma {:induction false} BlockedForGood(s: State, run: seq<Action>)
    requires Runs(s, run) && s.flags.blocked
    ensures Frozen(s, After(s, run))
    decreases |run|
  {
    if run != [] {
      StepFrozen(s, run[0]);
      BlockedForGood(Step(s, run[0]), run[1..]);
      FrozenThrough(s, Step(s, run[0]), After(s, run));
    }
  }
}
