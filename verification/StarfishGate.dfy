/**
  The native callback gate of src/starfish.c as a state machine. Library threads enter the
  interposed hook at any time, one load thread runs `sf_load`, one main thread runs the
  verbs and the teardown calls. A step is one lock region, one atomic access or the
  start or end of a foreign call; every lock, unlock, wait and broadcast may fail.

  The discipline of the callers is in the guards: one `sf_load` at a time, verbs and
  teardown on one thread, no epoch used twice, fresh addresses from the allocator, and no
  callback on one of our objects before its constructor was called.
 */
module StarfishGate {
  import opened Wrappers

  const U32: nat := 0x1_0000_0000

  /**
    `SfSlot`. The last four fields record what happened to the slot and steer nothing:
    callbacks intercepted, constructor called, Load call returned, destructor started.
   */
  datatype Slot = Slot(addr: nat, epoch: nat, active: bool, evidenceArmed: bool, inflight: nat, intercepted: nat,
                       gateRetired: bool, unloadCompleted: bool,
                       intercepts: nat, constructed: bool, loadDone: bool, dtorStarted: bool)

  /** Where an activation of the interposer, or of `sf_cb`, stands. */
  datatype CallPc =
    | Entered(self: nat)
    | Looking(self: nat)
    | InForeign(self: nat)
    | AtGate(k: nat)
    | InHook(k: nat)
    | Leaving(k: nat)
    | Raising
    | Event(slot: Option<nat>, epoch: nat)

  /** Where `sf_load` stands. */
  datatype LoadPc =
    | LoadIdle
    | ReadsReady(epoch: nat)
    | ReadsCurrent(epoch: nat)
    | Prepares(epoch: nat)
    | Allocates(epoch: nat)
    | Registers(epoch: nat, addr: nat)
    | Publishes(k: nat)
    | Constructs(k: nat)
    | ClearsReturned(k: nat)
    | SetsReady(k: nat)
    | Arms(k: nat)
    | InLoad(k: nat)
    | MarksReturned(k: nat)
    | Fails(published: Option<nat>)
    | FailsReady
    | FailsReturned

  /** Where the main thread stands; `then` says whether a retirement belongs to a quarantine. */
  datatype MainPc =
    | MainIdle
    | VerbReady(k: nat)
    | VerbReturned(k: nat)
    | Dispatched(k: nat)
    | Retires(k: nat, quarantine: bool)
    | Waits(k: nat, quarantine: bool)
    | RetireRaises(quarantine: bool)
    | QuarantineBlocks
    | QuarantineReady
    | QuarantineReturned
    | DestroyReady(k: nat)
    | DestroyChecks(k: nat)
    | Doomed(k: nat)
    | InDtor(k: nat)
    | DestroyedReady(k: nat)
    | DestroyedReturned(k: nat)
    | DestroyedCurrent(k: nat)

  /** The globals every thread reads with atomic loads. */
  datatype Flags = Flags(current: Option<nat>, hookValid: bool, blocked: bool, ready: bool, returned: bool)

  /**
    What has happened so far: every address ever allocated or seen by the interposer, the
    objects allocated but not yet constructed, every epoch a caller has used, and the
    epochs of all unload events.
   */
  datatype History = History(used: set<nat>, raw: set<nat>, epochs: set<nat>, unloads: set<nat>)

  datatype State = State(slots: seq<Slot>, flags: Flags, calls: map<nat, CallPc>, load: LoadPc, main: MainPc,
      hist: History)

  const INITIAL := State([], Flags(None, false, false, false, false), map[], LoadIdle, MainIdle,
      History({}, {}, {}, {}))

  function Blocked(s: State): State
  {
    s.(flags := s.flags.(blocked := true))
  }

  function WithSlot(s: State, k: nat, slot: Slot): State
    requires k < |s.slots|
  {
    s.(slots := s.slots[k := slot])
  }

  // ----- callback threads

  datatype CallAction =
    | EnterHook(id: nat, self: nat)
    | PrepareHook(id: nat, onceOk: bool, valid: bool)
    | FindSlot(id: nat, locksOk: bool)
    | ForeignReturns(id: nat)
    | Admit(id: nat, lockOk: bool, unlockOk: bool)
    | HookReturns(id: nat)
    | Leave(id: nat, lockOk: bool, broadcastOk: bool, unlockOk: bool)
    | Raise(id: nat)
    | EnterEvent(id: nat, epoch: nat)
    | StoreUnload(id: nat)

  predicate CallEnabled(s: State, a: CallAction)
  {
    match a
    case EnterHook(id, self) => id !in s.calls && self !in s.hist.raw
    case EnterEvent(id, _) => id !in s.calls
    case PrepareHook(id, _, _) => id in s.calls && s.calls[id].Entered?
    case FindSlot(id, _) => id in s.calls && s.calls[id].Looking?
    case ForeignReturns(id) => id in s.calls && s.calls[id].InForeign?
    case Admit(id, _, _) => id in s.calls && s.calls[id].AtGate? && s.calls[id].k < |s.slots|
    case HookReturns(id) => id in s.calls && s.calls[id].InHook?
    case Leave(id, _, _, _) => id in s.calls && s.calls[id].Leaving? && s.calls[id].k < |s.slots|
    case Raise(id) => id in s.calls && s.calls[id].Raising?
    case StoreUnload(id) =>
      id in s.calls && s.calls[id].Event? &&
      (s.calls[id].slot.Some? ==> s.calls[id].slot.value < |s.slots|)
  }

  function Goes(s: State, id: nat, pc: CallPc): State
  {
    s.(calls := s.calls[id := pc])
  }

  function Gone(s: State, id: nat): State
  {
    s.(calls := s.calls - {id})
  }

  /** `sf_find_slot`: the registered slot whose object is at `addr`. */
  function SlotOf(slots: seq<Slot>, addr: nat): (k: Option<nat>)
    ensures k.Some? ==> k.value < |slots| && slots[k.value].addr == addr
    ensures k.None? ==> forall j :: 0 <= j < |slots| ==> slots[j].addr != addr
  {
    if slots == [] then None
    else if slots[|slots| - 1].addr == addr then Some(|slots| - 1)
    else SlotOf(slots[..|slots| - 1], addr)
  }

  /** `sf_prepare_callback_hook`: the one-time resolution either validates the hook or blocks the lifecycle. */
  function Prepared(s: State, onceOk: bool, valid: bool): State
  {
    if !onceOk then Blocked(s)
    else if s.flags.hookValid then s
    else if valid then s.(flags := s.flags.(hookValid := true))
    else Blocked(s)
  }

  /** The gate region on entry: count the call in, or drop it once the gate is closed. */
  function Admitted(s: State, id: nat, k: nat, lockOk: bool, unlockOk: bool): State
    requires k < |s.slots|
  {
    var slot := s.slots[k];
    if !lockOk then Goes(s, id, Raising)
    else if slot.active then
      var counted := slot.(inflight := slot.inflight + 1,
                           intercepted := if slot.evidenceArmed then (slot.intercepted + 1) % U32 else slot.intercepted,
                           intercepts := if slot.evidenceArmed then slot.intercepts + 1 else slot.intercepts);
      Goes(WithSlot(s, k, counted), id, if unlockOk then InHook(k) else Raising)
    else if unlockOk then Gone(s, id)
    else Goes(s, id, Raising)
  }

  /** The gate region on return: count the call out; the last one wakes the waiting teardown. */
  function Left(s: State, id: nat, k: nat, lockOk: bool, broadcastOk: bool, unlockOk: bool): State
    requires k < |s.slots|
  {
    var slot := s.slots[k];
    if !lockOk then Goes(s, id, Raising)
    else
      var after :=
        if slot.inflight == 0 then Blocked(s)
        else
          var s1 := WithSlot(s, k, slot.(inflight := slot.inflight - 1));
          if slot.inflight == 1 && !broadcastOk then Blocked(s1) else s1;
      if unlockOk then Gone(after, id) else Goes(after, id, Raising)
  }

  function CallStep(s: State, a: CallAction): State
    requires CallEnabled(s, a)
  {
    match a
    case EnterHook(id, self) => Goes(s, id, Entered(self)).(hist := s.hist.(used := s.hist.used + {self}))
    case PrepareHook(id, onceOk, valid) =>
      var p := Prepared(s, onceOk, valid);
      if onceOk && p.flags.hookValid then Goes(p, id, Looking(s.calls[id].self)) else Gone(p, id)
    case FindSlot(id, locksOk) =>
      var self := s.calls[id].self;
      if !locksOk then Goes(s, id, Raising)
      else
        (match SlotOf(s.slots, self)
         case Some(k) => Goes(s, id, AtGate(k))
         case None => Goes(s, id, InForeign(self)))
    case ForeignReturns(id) => Gone(s, id)
    case Admit(id, lockOk, unlockOk) => Admitted(s, id, s.calls[id].k, lockOk, unlockOk)
    case HookReturns(id) => Goes(s, id, Leaving(s.calls[id].k))
    case Leave(id, lockOk, broadcastOk, unlockOk) => Left(s, id, s.calls[id].k, lockOk, broadcastOk, unlockOk)
    case Raise(id) => Blocked(Gone(s, id))
    case EnterEvent(id, epoch) =>
      Goes(s, id, Event(s.flags.current, epoch)).(hist := s.hist.(unloads := s.hist.unloads + {epoch}))
    case StoreUnload(id) =>
      var e := s.calls[id];
      if e.slot.Some? && s.slots[e.slot.value].epoch == e.epoch then
        Gone(WithSlot(s, e.slot.value, s.slots[e.slot.value].(unloadCompleted := true)), id)
      else Gone(s, id)
  }

  // ----- the load thread

  datatype LoadAction =
    | StartLoad(payload: bool, epoch: nat)
    | ReadReady
    | ReadCurrent
    | LoadPrepares(onceOk: bool, valid: bool)
    | Allocate(ok: bool, addr: nat)
    | Register(lockOk: bool, unlockOk: bool)
    | Publish
    | Construct
    | ClearReturned
    | SetReady
    | Arm(lockOk: bool, unlockOk: bool)
    | LoadReturns
    | MarkReturned
    | FailBlocks
    | FailClearsReady
    | FailClearsReturned

  predicate LoadEnabled(s: State, a: LoadAction)
  {
    match a
    case StartLoad(_, epoch) => s.load.LoadIdle? && (epoch == 0 || epoch !in s.hist.epochs)
    case ReadReady => s.load.ReadsReady?
    case ReadCurrent => s.load.ReadsCurrent?
    case LoadPrepares(_, _) => s.load.Prepares?
    case Allocate(ok, addr) => s.load.Allocates? && (ok ==> addr !in s.hist.used)
    case Register(_, _) => s.load.Registers?
    case Publish => s.load.Publishes?
    case Construct => s.load.Constructs? && s.load.k < |s.slots|
    case ClearReturned => s.load.ClearsReturned?
    case SetReady => s.load.SetsReady?
    case Arm(_, _) => s.load.Arms? && s.load.k < |s.slots|
    case LoadReturns => s.load.InLoad? && s.load.k < |s.slots|
    case MarkReturned => s.load.MarksReturned?
    case FailBlocks => s.load.Fails?
    case FailClearsReady => s.load.FailsReady?
    case FailClearsReturned => s.load.FailsReturned?
  }

  function NewSlot(addr: nat, epoch: nat): Slot
  {
    Slot(addr, epoch, true, false, 0, 0, false, false, 0, false, false, false)
  }

  function LoadStep(s: State, a: LoadAction): State
    requires LoadEnabled(s, a)
  {
    match a
    case StartLoad(payload, epoch) =>
      var t := s.(hist := s.hist.(epochs := s.hist.epochs + {epoch}));
      if !payload || epoch == 0 || s.flags.blocked then t else t.(load := ReadsReady(epoch))
    case ReadReady => s.(load := if s.flags.ready then LoadIdle else ReadsCurrent(s.load.epoch))
    case ReadCurrent => s.(load := if s.flags.current.Some? then LoadIdle else Prepares(s.load.epoch))
    case LoadPrepares(onceOk, valid) =>
      var p := Prepared(s, onceOk, valid);
      p.(load := if onceOk && p.flags.hookValid then Allocates(s.load.epoch) else LoadIdle)
    case Allocate(ok, addr) =>
      if ok then s.(load := Registers(s.load.epoch, addr),
          hist := s.hist.(used := s.hist.used + {addr}, raw := s.hist.raw + {addr}))
      else s.(load := Fails(None))
    case Register(lockOk, unlockOk) =>
      if !lockOk then s.(load := Fails(None))
      else s.(slots := s.slots + [NewSlot(s.load.addr, s.load.epoch)],
              load := if unlockOk then Publishes(|s.slots|) else Fails(None))
    case Publish => s.(flags := s.flags.(current := Some(s.load.k)), load := Constructs(s.load.k))
    case Construct =>
      var k := s.load.k;
      WithSlot(s, k, s.slots[k].(constructed := true)).(hist := s.hist.(raw := s.hist.raw - {s.slots[k].addr}),
          load := ClearsReturned(k))
    case ClearReturned => s.(flags := s.flags.(returned := false), load := SetsReady(s.load.k))
    case SetReady => s.(flags := s.flags.(ready := true), load := Arms(s.load.k))
    case Arm(lockOk, unlockOk) =>
      var k := s.load.k;
      if !lockOk then s.(load := Fails(Some(k)))
      else WithSlot(s, k, s.slots[k].(evidenceArmed := true)).(load := if unlockOk then InLoad(k) else Fails(Some(k)))
    case LoadReturns => WithSlot(s, s.load.k, s.slots[s.load.k].(loadDone := true)).(load := MarksReturned(s.load.k))
    case MarkReturned => s.(flags := s.flags.(returned := true), load := LoadIdle)
    case FailBlocks => Blocked(s).(load := if s.load.published.Some? then FailsReady else LoadIdle)
    case FailClearsReady => s.(flags := s.flags.(ready := false), load := FailsReturned)
    case FailClearsReturned => s.(flags := s.flags.(returned := false), load := LoadIdle)
  }

  // ----- the main thread

  datatype MainAction =
    | StartVerb
    | ReadVerbReady
    | ReadVerbReturned
    | VerbEnds
    | StartRetire
    | CloseGate(lockOk: bool, unlockOk: bool)
    | Wake(waitOk: bool, unlockOk: bool)
    | RetireRaise
    | StartQuarantine
    | QuarantineBlock
    | QuarantineClearReady
    | QuarantineClearReturned
    | StartDestroy
    | ReadDestroyReady
    | CheckDestroy(lockOk: bool, unlockOk: bool)
    | StartDtor
    | EndDtor
    | DestroyedClearReady
    | DestroyedClearReturned
    | DestroyedClearCurrent

  predicate MainEnabled(s: State, a: MainAction)
  {
    match a
    case StartVerb | StartRetire | StartQuarantine | StartDestroy => s.main.MainIdle?
    case ReadVerbReady => s.main.VerbReady?
    case ReadVerbReturned => s.main.VerbReturned?
    case VerbEnds => s.main.Dispatched?
    case CloseGate(_, _) => s.main.Retires? && s.main.k < |s.slots|
    case Wake(_, _) => s.main.Waits? && s.main.k < |s.slots|
    case RetireRaise => s.main.RetireRaises?
    case QuarantineBlock => s.main.QuarantineBlocks?
    case QuarantineClearReady => s.main.QuarantineReady?
    case QuarantineClearReturned => s.main.QuarantineReturned?
    case ReadDestroyReady => s.main.DestroyReady?
    case CheckDestroy(_, _) => s.main.DestroyChecks? && s.main.k < |s.slots|
    case StartDtor => s.main.Doomed? && s.main.k < |s.slots|
    case EndDtor => s.main.InDtor?
    case DestroyedClearReady => s.main.DestroyedReady?
    case DestroyedClearReturned => s.main.DestroyedReturned?
    case DestroyedClearCurrent => s.main.DestroyedCurrent?
  }

  /** After a retirement: back to the caller, or on with the quarantine. */
  function AfterRetire(quarantine: bool): MainPc
  {
    if quarantine then QuarantineBlocks else MainIdle
  }

  /** The end of the retirement region, with the gate still held. */
  function RetireEnds(s: State, k: nat, quarantine: bool, drained: bool, unlockOk: bool): State
    requires k < |s.slots|
  {
    var slot := s.slots[k];
    var t := WithSlot(s, k, slot.(gateRetired := drained && slot.inflight == 0));
    t.(main := if unlockOk then AfterRetire(quarantine) else RetireRaises(quarantine))
  }

  /** The five proofs `sf_destroy` asks for under the gate. */
  predicate DestroySafe(s: State, k: nat)
    requires k < |s.slots|
  {
    var slot := s.slots[k];
    !slot.active && slot.gateRetired && slot.intercepted != 0 && slot.unloadCompleted && s.flags.hookValid &&
        !s.flags.blocked
  }

  function QuarantineFrom(s: State): State
  {
    s.(main := match s.flags.current case Some(k) => Retires(k, true) case None => QuarantineBlocks)
  }

  function MainStep(s: State, a: MainAction): State
    requires MainEnabled(s, a)
  {
    match a
    case StartVerb => s.(main := match s.flags.current case Some(k) => VerbReady(k) case None => MainIdle)
    case ReadVerbReady => s.(main := if s.flags.ready then VerbReturned(s.main.k) else MainIdle)
    case ReadVerbReturned => s.(main := if s.flags.returned then Dispatched(s.main.k) else MainIdle)
    case VerbEnds => s.(main := MainIdle)
    case StartRetire =>
      s.(main := match s.flags.current case Some(k) => Retires(k, false) case None => RetireRaises(false))
    case CloseGate(lockOk, unlockOk) =>
      var k := s.main.k;
      if !lockOk then s.(main := RetireRaises(s.main.quarantine))
      else
        var t := WithSlot(s, k, s.slots[k].(active := false));
        if t.slots[k].inflight != 0 then t.(main := Waits(k, s.main.quarantine))
        else RetireEnds(t, k, s.main.quarantine, true, unlockOk)
    case Wake(waitOk, unlockOk) =>
      var k := s.main.k;
      if !waitOk then RetireEnds(Blocked(s), k, s.main.quarantine, false, unlockOk)
      else if s.slots[k].inflight != 0 then s
      else RetireEnds(s, k, s.main.quarantine, true, unlockOk)
    case RetireRaise => Blocked(s).(main := AfterRetire(s.main.quarantine))
    case StartQuarantine => QuarantineFrom(s)
    case QuarantineBlock => Blocked(s).(main := QuarantineReady)
    case QuarantineClearReady => s.(flags := s.flags.(ready := false), main := QuarantineReturned)
    case QuarantineClearReturned => s.(flags := s.flags.(returned := false), main := MainIdle)
    case StartDestroy => s.(main := match s.flags.current case Some(k) => DestroyReady(k) case None => MainIdle)
    case ReadDestroyReady => s.(main := if s.flags.ready then DestroyChecks(s.main.k) else MainIdle)
    case CheckDestroy(lockOk, unlockOk) =>
      if lockOk && DestroySafe(s, s.main.k) && unlockOk then s.(main := Doomed(s.main.k)) else QuarantineFrom(s)
    case StartDtor => WithSlot(s, s.main.k, s.slots[s.main.k].(dtorStarted := true)).(main := InDtor(s.main.k))
    case EndDtor => s.(main := DestroyedReady(s.main.k))
    case DestroyedClearReady => s.(flags := s.flags.(ready := false), main := DestroyedReturned(s.main.k))
    case DestroyedClearReturned => s.(flags := s.flags.(returned := false), main := DestroyedCurrent(s.main.k))
    case DestroyedClearCurrent => s.(flags := s.flags.(current := None), main := MainIdle)
  }

  // ----- steps and runs

  datatype Action = OfCall(c: CallAction) | OfLoad(l: LoadAction) | OfMain(m: MainAction)

  predicate Enabled(s: State, a: Action)
  {
    match a
    case OfCall(c) => CallEnabled(s, c)
    case OfLoad(l) => LoadEnabled(s, l)
    case OfMain(m) => MainEnabled(s, m)
  }

  function Step(s: State, a: Action): State
    requires Enabled(s, a)
  {
    match a
    case OfCall(c) => CallStep(s, c)
    case OfLoad(l) => LoadStep(s, l)
    case OfMain(m) => MainStep(s, m)
  }

  /** The schedule can be carried out, action after action, from `s`. */
  predicate Runs(s: State, run: seq<Action>)
    decreases |run|
  {
    run == [] || (Enabled(s, run[0]) && Runs(Step(s, run[0]), run[1..]))
  }

  function After(s: State, run: seq<Action>): State
    requires Runs(s, run)
    decreases |run|
  {
    if run == [] then s else After(Step(s, run[0]), run[1..])
  }
}
