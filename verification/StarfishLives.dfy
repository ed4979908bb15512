/**
  What the calls of src/starfish.c achieve when nothing fails: a load ends with its object
  ready for the verbs, a checked destroy ends with no object, and sessions can follow one
  another without end. And what they leave behind when something fails: a blocked lifecycle.
 */
module StarfishLives {
  import opened StarfishGate
  import opened StarfishOverlap
  import opened StarfishSafety
  import opened Wrappers

  // ----- runs with a known end

  /** The schedule can be carried out from `s` and ends in `t`. */
  ghost predicate Carries(s: State, run: seq<Action>, t: State)
  {
    Runs(s, run) && After(s, run) == t
  }

  lemma Nothing(s: State)
    ensures Carries(s, [], s)
  {
  }

  lemma Snoc(s: State, run: seq<Action>, t: State, a: Action)
    requires Carries(s, run, t) && Enabled(t, a)
    ensures Carries(s, run + [a], Step(t, a))
  {
    AfterSnoc(s, run, a);
  }

  lemma {:induction false} Both(s: State, first: seq<Action>, t: State, second: seq<Action>, u: State)
    requires Carries(s, first, t) && Carries(t, second, u)
    ensures Carries(s, first + second, u)
    decreases |first|
  {
    if first == [] {
      assert first + second == second;
    } else {
      Both(Step(s, first[0]), first[1..], t, second, u);
      assert (first + second)[1..] == first[1..] + second;
    }
  }

  lemma Two(s: State, a: Action, b: Action)
    requires Enabled(s, a) && Enabled(Step(s, a), b)
    ensures Carries(s, [a, b], Step(Step(s, a), b))
  {
    Nothing(s);
    Snoc(s, [], s, a);
    Snoc(s, [] + [a], Step(s, a), b);
    assert [] + [a] + [b] == [a, b];
  }

  lemma Three(s: State, a: Action, b: Action, c: Action)
    requires Enabled(s, a) && Enabled(Step(s, a), b) && Enabled(Step(Step(s, a), b), c)
    ensures Carries(s, [a, b, c], Step(Step(Step(s, a), b), c))
  {
    Two(s, a, b);
    Snoc(s, [a, b], Step(Step(s, a), b), c);
    assert [a, b] + [c] == [a, b, c];
  }

  lemma {:induction false} CarriesReach(s: State, run: seq<Action>, t: State)
    requires Reachable(s) && Carries(s, run, t)
    ensures Reachable(t)
    decreases |run|
  {
    if run != [] {
      ReachStep(s, run[0]);
      CarriesReach(Step(s, run[0]), run[1..], t);
    }
  }

  // ----- loading

  /** `sf_load` up to the allocated slot. */
  function PrepareRun(epoch: nat, addr: nat, valid: bool): seq<Action>
  {
    [OfLoad(StartLoad(true, epoch)), OfLoad(ReadReady), OfLoad(ReadCurrent)] +
    [OfLoad(LoadPrepares(true, valid)), OfLoad(Allocate(true, addr))]
  }

  /** From the registry to the call of the real Load. */
  function PublishRun(): seq<Action>
  {
    [OfLoad(Register(true, true)), OfLoad(Publish), OfLoad(Construct)] +
    [OfLoad(ClearReturned), OfLoad(SetReady), OfLoad(Arm(true, true))]
  }

  function ReturnRun(): seq<Action>
  {
    [OfLoad(LoadReturns), OfLoad(MarkReturned)]
  }

  /** No object, nothing blocked, no load under way. */
  predicate Vacant(s: State)
  {
    s.load.LoadIdle? && !s.flags.blocked && !s.flags.ready && s.flags.current.None?
  }

  lemma Prepares(s: State, epoch: nat, addr: nat, valid: bool)
    requires Vacant(s) && epoch != 0 && epoch !in s.hist.epochs && addr !in s.hist.used
    requires s.flags.hookValid || valid
    ensures Carries(s, PrepareRun(epoch, addr, valid),
                    s.(flags := s.flags.(hookValid := true), load := Registers(epoch, addr),
                       hist := History(s.hist.used + {addr}, s.hist.raw + {addr}, s.hist.epochs + {epoch},
                                       s.hist.unloads)))
  {
    Three(s, OfLoad(StartLoad(true, epoch)), OfLoad(ReadReady), OfLoad(ReadCurrent));
    var t := s.(hist := s.hist.(epochs := s.hist.epochs + {epoch}), load := LoadPc.Prepares(epoch));
    assert Step(Step(Step(s, OfLoad(StartLoad(true, epoch))), OfLoad(ReadReady)), OfLoad(ReadCurrent)) == t;
    Two(t, OfLoad(LoadPrepares(true, valid)), OfLoad(Allocate(true, addr)));
    Both(s, [OfLoad(StartLoad(true, epoch)), OfLoad(ReadReady), OfLoad(ReadCurrent)], t,
         [OfLoad(LoadPrepares(true, valid)), OfLoad(Allocate(true, addr))],
         Step(Step(t, OfLoad(LoadPrepares(true, valid))), OfLoad(Allocate(true, addr))));
  }

  /** The slot of an object whose Load call is running. */
  function Loading(addr: nat, epoch: nat): Slot
  {
    Slot(addr, epoch, true, true, 0, 0, false, false, 0, true, false, false)
  }

  lemma Publishes(s: State, epoch: nat, addr: nat)
    requires s.load == Registers(epoch, addr) && s.flags.current.None?
    ensures Carries(s, PublishRun(),
                    s.(slots := s.slots + [Loading(addr, epoch)], load := InLoad(|s.slots|),
                       flags := s.flags.(current := Some(|s.slots|), returned := false, ready := true),
                       hist := s.hist.(raw := s.hist.raw - {addr})))
  {
    var k := |s.slots|;
    var built := NewSlot(addr, epoch).(constructed := true);
    var t := s.(slots := s.slots + [built], load := ClearsReturned(k), flags := s.flags.(current := Some(k)),
                hist := s.hist.(raw := s.hist.raw - {addr}));
    Three(s, OfLoad(Register(true, true)), OfLoad(Publish), OfLoad(Construct));
    assert (s.slots + [NewSlot(addr, epoch)])[k := built] == s.slots + [built];
    assert Step(Step(Step(s, OfLoad(Register(true, true))), OfLoad(Publish)), OfLoad(Construct)) == t;
    Three(t, OfLoad(ClearReturned), OfLoad(SetReady), OfLoad(Arm(true, true)));
    assert (s.slots + [built])[k := Loading(addr, epoch)] == s.slots + [Loading(addr, epoch)];
    Both(s, [OfLoad(Register(true, true)), OfLoad(Publish), OfLoad(Construct)], t,
         [OfLoad(ClearReturned), OfLoad(SetReady), OfLoad(Arm(true, true))],
         Step(Step(Step(t, OfLoad(ClearReturned)), OfLoad(SetReady)), OfLoad(Arm(true, true))));
  }

  /**
    A load from a vacant state, nothing failing: the object is the current one, constructed,
    loaded, counted from now on, and open to callbacks and verbs.
   */
  lemma LoadSucceeds(s: State, epoch: nat, addr: nat, valid: bool) returns (t: State)
    requires Vacant(s) && epoch != 0 && epoch !in s.hist.epochs && addr !in s.hist.used
    requires s.flags.hookValid || valid
    ensures Carries(s, PrepareRun(epoch, addr, valid) + PublishRun() + ReturnRun(), t)
    ensures t.flags == Flags(Some(|s.slots|), true, false, true, true)
    ensures t.slots == s.slots + [Slot(addr, epoch, true, true, 0, 0, false, false, 0, true, true, false)]
    ensures t.load == LoadIdle && t.main == s.main && t.calls == s.calls
    ensures t.hist ==
            History(s.hist.used + {addr}, s.hist.raw + {addr} - {addr}, s.hist.epochs + {epoch}, s.hist.unloads)
  {
    Prepares(s, epoch, addr, valid);
    var a := After(s, PrepareRun(epoch, addr, valid));
    Publishes(a, epoch, addr);
    var b := After(a, PublishRun());
    Both(s, PrepareRun(epoch, addr, valid), a, PublishRun(), b);
    Two(b, OfLoad(LoadReturns), OfLoad(MarkReturned));
    t := After(b, ReturnRun());
    Both(s, PrepareRun(epoch, addr, valid) + PublishRun(), b, ReturnRun(), t);
    var done := Loading(addr, epoch).(loadDone := true);
    assert (s.slots + [Loading(addr, epoch)])[|s.slots| := done] == s.slots + [done];
  }

  /** A load that is refused changes neither the registry nor a flag. */
  lemma LoadRefused(s: State, payload: bool, epoch: nat)
    requires s.load.LoadIdle? && (epoch == 0 || epoch !in s.hist.epochs)
    requires !payload || epoch == 0 || s.flags.blocked || s.flags.ready || s.flags.current.Some?
    ensures exists run, t ::
              Carries(s, run, t) && 1 <= |run| <= 3 && run[0] == OfLoad(StartLoad(payload, epoch)) &&
              t.load.LoadIdle? && t.slots == s.slots && t.flags == s.flags
  {
    var start := OfLoad(StartLoad(payload, epoch));
    if !payload || epoch == 0 || s.flags.blocked {
      Nothing(s);
      Snoc(s, [], s, start);
      assert Carries(s, [] + [start], Step(s, start));
    } else if s.flags.ready {
      Two(s, start, OfLoad(ReadReady));
      assert Carries(s, [start, OfLoad(ReadReady)], Step(Step(s, start), OfLoad(ReadReady)));
    } else {
      Three(s, start, OfLoad(ReadReady), OfLoad(ReadCurrent));
      assert Carries(s, [start, OfLoad(ReadReady), OfLoad(ReadCurrent)],
                     Step(Step(Step(s, start), OfLoad(ReadReady)), OfLoad(ReadCurrent)));
    }
  }

  // ----- verbs

  function VerbRun(): seq<Action>
  {
    [OfMain(StartVerb), OfMain(ReadVerbReady), OfMain(ReadVerbReturned)]
  }

  /** Undisturbed, a verb reaches its object exactly when there is one, ready and with its load returned. */
  lemma VerbExactly(s: State)
    requires s.main.MainIdle?
    ensures s.flags.current.Some? && s.flags.ready && s.flags.returned ==>
              Carries(s, VerbRun(), s.(main := Dispatched(s.flags.current.value)))
    ensures s.flags.current.Some? && s.flags.ready && !s.flags.returned ==> Carries(s, VerbRun(), s)
    ensures s.flags.current.Some? && !s.flags.ready ==> Carries(s, VerbRun()[..2], s)
    ensures s.flags.current.None? ==> Carries(s, VerbRun()[..1], s)
  {
    var a, b, c := OfMain(StartVerb), OfMain(ReadVerbReady), OfMain(ReadVerbReturned);
    if s.flags.current.None? {
      Nothing(s);
      Snoc(s, [], s, a);
      assert VerbRun()[..1] == [] + [a];
    } else {
      Two(s, a, b);
      assert VerbRun()[..2] == [a, b];
      if s.flags.ready {
        Three(s, a, b, c);
      }
    }
  }

  /** The first verb after a Load call has returned reaches the object. */
  lemma LoadThenVerb(s: State, k: nat)
    requires Reachable(s) && s.load == MarksReturned(k) && s.main.MainIdle?
    requires s.flags.current == Some(k) && s.flags.ready
    ensures Carries(s, [OfLoad(MarkReturned)] + VerbRun(),
                    s.(flags := s.flags.(returned := true), load := LoadIdle, main := Dispatched(k)))
  {
    var t := Step(s, OfLoad(MarkReturned));
    Nothing(s);
    Snoc(s, [], s, OfLoad(MarkReturned));
    assert [] + [OfLoad(MarkReturned)] == [OfLoad(MarkReturned)];
    VerbExactly(t);
    Both(s, [OfLoad(MarkReturned)], t, VerbRun(), t.(main := Dispatched(k)));
  }

  // ----- retiring and destroying

  /** With nobody inside, a retirement closes the gate for good. */
  lemma RetireSucceeds(s: State, k: nat)
    requires s.main.MainIdle? && s.flags.current == Some(k) && k < |s.slots| && s.slots[k].inflight == 0
    ensures Carries(s, [OfMain(StartRetire), OfMain(CloseGate(true, true))],
                    s.(slots := s.slots[k := s.slots[k].(active := false, gateRetired := true)]))
  {
    Two(s, OfMain(StartRetire), OfMain(CloseGate(true, true)));
    var closed := s.slots[k].(active := false);
    assert s.slots[k := closed][k := closed.(gateRetired := true)] == s.slots[k := closed.(gateRetired := true)];
  }

  /** With somebody inside it closes the gate and waits; a wake-up ends the wait exactly when the last one has left. */
  lemma RetireWaits(s: State, k: nat)
    requires s.main.MainIdle? && s.flags.current == Some(k) && k < |s.slots| && s.slots[k].inflight != 0
    ensures Carries(s, [OfMain(StartRetire), OfMain(CloseGate(true, true))],
                    s.(slots := s.slots[k := s.slots[k].(active := false)], main := Waits(k, false)))
  {
    Two(s, OfMain(StartRetire), OfMain(CloseGate(true, true)));
  }

  lemma WakeExactly(s: State, k: nat)
    requires s.main == Waits(k, false) && k < |s.slots|
    ensures var t := Step(s, OfMain(Wake(true, true)));
            if s.slots[k].inflight != 0 then t == s
            else t == s.(slots := s.slots[k := s.slots[k].(gateRetired := true)], main := MainIdle)
  {
  }

  function DestroyRun(): seq<Action>
  {
    [OfMain(StartDestroy), OfMain(ReadDestroyReady), OfMain(CheckDestroy(true, true))] +
    [OfMain(StartDtor), OfMain(EndDtor)] + ClearRun()
  }

  /** Everything `sf_destroy` asks for, from the fields. */
  predicate Destroyable(s: State, k: nat)
  {
    && k < |s.slots| && s.flags.current == Some(k) && s.flags.ready
    && !s.slots[k].active && s.slots[k].gateRetired && s.slots[k].intercepted != 0 && s.slots[k].unloadCompleted
    && s.flags.hookValid && !s.flags.blocked
  }

  /** With every proof in hand the destructor runs, and no object is left. */
  lemma DestroySucceeds(s: State, k: nat)
    requires s.main.MainIdle? && Destroyable(s, k)
    ensures Carries(s, DestroyRun(),
                    s.(slots := s.slots[k := s.slots[k].(dtorStarted := true)],
                       flags := s.flags.(ready := false, returned := false, current := None)))
  {
    var t := s.(main := Doomed(k));
    Three(s, OfMain(StartDestroy), OfMain(ReadDestroyReady), OfMain(CheckDestroy(true, true)));
    var u := s.(slots := s.slots[k := s.slots[k].(dtorStarted := true)], main := DestroyedReady(k));
    Two(t, OfMain(StartDtor), OfMain(EndDtor));
    DestroyedCleared(u, k);
    var a := [OfMain(StartDestroy), OfMain(ReadDestroyReady), OfMain(CheckDestroy(true, true))];
    var b := [OfMain(StartDtor), OfMain(EndDtor)];
    Both(s, a, t, b, u);
    Both(s, a + b, u, ClearRun(),
         u.(flags := u.flags.(ready := false, returned := false, current := None), main := MainIdle));
  }

  function ClearRun(): seq<Action>
  {
    [OfMain(DestroyedClearReady), OfMain(DestroyedClearReturned), OfMain(DestroyedClearCurrent)]
  }

  lemma DestroyedCleared(s: State, k: nat)
    requires s.main == DestroyedReady(k)
    ensures Carries(s, ClearRun(),
                    s.(flags := s.flags.(ready := false, returned := false, current := None), main := MainIdle))
  {
    Three(s, OfMain(DestroyedClearReady), OfMain(DestroyedClearReturned), OfMain(DestroyedClearCurrent));
  }

  /** Without one of them, or with a failing lock, it becomes a quarantine of the same slot. */
  lemma DestroyRefused(s: State, k: nat, lockOk: bool, unlockOk: bool)
    requires s.main.MainIdle? && k < |s.slots| && s.flags.current == Some(k) && s.flags.ready
    requires !lockOk || !unlockOk || !Destroyable(s, k)
    ensures Carries(s, [OfMain(StartDestroy), OfMain(ReadDestroyReady), OfMain(CheckDestroy(lockOk, unlockOk))],
                    s.(main := Retires(k, true)))
  {
    Three(s, OfMain(StartDestroy), OfMain(ReadDestroyReady), OfMain(CheckDestroy(lockOk, unlockOk)));
  }

  /** Without a current or ready object a destroy does nothing. */
  lemma DestroyNothing(s: State)
    requires s.main.MainIdle? && (s.flags.current.None? || !s.flags.ready)
    ensures exists run :: Carries(s, run, s) && 1 <= |run| <= 2 && run[0] == OfMain(StartDestroy)
  {
    var a, b := OfMain(StartDestroy), OfMain(ReadDestroyReady);
    if s.flags.current.None? {
      Nothing(s);
      Snoc(s, [], s, a);
      assert Carries(s, [] + [a], s);
    } else {
      Two(s, a, b);
      assert Carries(s, [a, b], s);
    }
  }

  // ----- callbacks

  function HookRun(id: nat, self: nat, valid: bool): seq<Action>
  {
    [OfCall(EnterHook(id, self)), OfCall(PrepareHook(id, true, valid)), OfCall(FindSlot(id, true))]
  }

  /** The interposer up to the lookup: at the gate of the slot with that object, or on its way to a foreign one. */
  lemma HookFinds(s: State, id: nat, self: nat, valid: bool)
    requires id !in s.calls && self !in s.hist.raw && (s.flags.hookValid || valid)
    ensures var pc := match SlotOf(s.slots, self) case Some(k) => AtGate(k) case None => InForeign(self);
            Carries(s, HookRun(id, self, valid),
                    s.(calls := s.calls[id := pc], flags := s.flags.(hookValid := true),
                       hist := s.hist.(used := s.hist.used + {self})))
  {
    Three(s, OfCall(EnterHook(id, self)), OfCall(PrepareHook(id, true, valid)), OfCall(FindSlot(id, true)));
    var pc := match SlotOf(s.slots, self) case Some(k) => AtGate(k) case None => InForeign(self);
    assert s.calls[id := Entered(self)][id := Looking(self)][id := pc] == s.calls[id := pc];
  }

  function PassRun(id: nat): seq<Action>
  {
    [OfCall(Admit(id, true, true)), OfCall(HookReturns(id)), OfCall(Leave(id, true, true, true))]
  }

  /** What a callback that came and went leaves in an open slot. */
  function Visited(slot: Slot): Slot
  {
    if slot.evidenceArmed then
      slot.(intercepted := (slot.intercepted + 1) % U32, intercepts := slot.intercepts + 1)
    else slot
  }

  /** Through an open gate a callback reaches the real hook and is counted out again. */
  lemma CallPasses(s: State, id: nat, k: nat)
    requires id in s.calls && s.calls[id] == AtGate(k) && k < |s.slots| && s.slots[k].active
    ensures Enabled(s, OfCall(Admit(id, true, true))) && Step(s, OfCall(Admit(id, true, true))).calls[id] == InHook(k)
    ensures Carries(s, PassRun(id), s.(calls := s.calls - {id}, slots := s.slots[k := Visited(s.slots[k])]))
  {
    Three(s, OfCall(Admit(id, true, true)), OfCall(HookReturns(id)), OfCall(Leave(id, true, true, true)));
    var counted := Visited(s.slots[k]).(inflight := s.slots[k].inflight + 1);
    assert s.slots[k := counted][k := Visited(s.slots[k])] == s.slots[k := Visited(s.slots[k])];
    assert s.calls[id := InHook(k)][id := Leaving(k)] - {id} == s.calls - {id};
  }

  /** At a closed gate it is dropped before the object is touched. */
  lemma CallDropped(s: State, id: nat, k: nat)
    requires id in s.calls && s.calls[id] == AtGate(k) && k < |s.slots| && !s.slots[k].active
    ensures Enabled(s, OfCall(Admit(id, true, true)))
    ensures Step(s, OfCall(Admit(id, true, true))) == s.(calls := s.calls - {id})
  {
  }

  function EventRun(id: nat, epoch: nat): seq<Action>
  {
    [OfCall(EnterEvent(id, epoch)), OfCall(StoreUnload(id))]
  }

  /** An unload event is noted on the current slot exactly when it carries that slot's epoch. */
  lemma EventExactly(s: State, id: nat, epoch: nat)
    requires id !in s.calls && (s.flags.current.Some? ==> s.flags.current.value < |s.slots|)
    ensures var noted := s.flags.current.Some? && s.slots[s.flags.current.value].epoch == epoch;
            var k := if noted then s.flags.current.value else 0;
            Carries(s, EventRun(id, epoch),
                    s.(slots := if noted then s.slots[k := s.slots[k].(unloadCompleted := true)] else s.slots,
                       hist := s.hist.(unloads := s.hist.unloads + {epoch})))
  {
    Two(s, OfCall(EnterEvent(id, epoch)), OfCall(StoreUnload(id)));
    assert s.calls[id := Event(s.flags.current, epoch)] - {id} == s.calls;
  }

  // ----- whole sessions

  /** Between two sessions: nobody is doing anything and there is no object. */
  predicate Quiet(s: State)
  {
    Vacant(s) && s.main.MainIdle? && s.calls == map[]
  }

  function Fresh(addr: nat, epoch: nat): Slot
  {
    Slot(addr, epoch, true, true, 0, 0, false, false, 0, true, true, false)
  }

  function Spent(addr: nat, epoch: nat): Slot
  {
    Slot(addr, epoch, false, true, 0, 1, true, true, 1, true, true, true)
  }

  /** The object of a finished load is the newest; nobody else is doing anything. */
  predicate Newest(s: State, slot: Slot)
  {
    && s.load.LoadIdle? && s.main.MainIdle? && s.calls == map[] && s.slots != [] && s.slots[|s.slots| - 1] == slot
    && s.flags == Flags(Some(|s.slots| - 1), true, false, true, true)
  }

  /** One callback and the unload event. */
  lemma SessionUsed(s: State, addr: nat, epoch: nat) returns (run: seq<Action>, t: State)
    requires Newest(s, Fresh(addr, epoch))
    requires addr !in s.hist.raw && forall j :: 0 <= j < |s.slots| - 1 ==> s.slots[j].addr != addr
    ensures Carries(s, run, t) && t.slots == s.slots[|s.slots| - 1 := Used(addr, epoch)]
    ensures Newest(t, Used(addr, epoch))
  {
    var k := |s.slots| - 1;
    var a := s.(calls := s.calls[0 := AtGate(k)], hist := s.hist.(used := s.hist.used + {addr}));
    HookFinds(s, 0, addr, true);
    var b := a.(calls := a.calls - {0}, slots := a.slots[k := Visited(Fresh(addr, epoch))]);
    CallPasses(a, 0, k);
    assert b.calls == map[];
    EventExactly(b, 0, epoch);
    t := b.(slots := b.slots[k := Used(addr, epoch)], hist := b.hist.(unloads := b.hist.unloads + {epoch}));
    Both(s, HookRun(0, addr, true), a, PassRun(0), b);
    Both(s, HookRun(0, addr, true) + PassRun(0), b, EventRun(0, epoch), t);
    run := HookRun(0, addr, true) + PassRun(0) + EventRun(0, epoch);
  }

  function Used(addr: nat, epoch: nat): Slot
  {
    Slot(addr, epoch, true, true, 0, 1, false, true, 1, true, true, false)
  }

  /** Retirement and destruction. */
  lemma SessionEnds(s: State, addr: nat, epoch: nat) returns (run: seq<Action>, t: State)
    requires Newest(s, Used(addr, epoch))
    ensures Carries(s, run, t) && Quiet(t) && t.slots == s.slots[|s.slots| - 1 := Spent(addr, epoch)]
  {
    var k := |s.slots| - 1;
    var closed := Used(addr, epoch).(active := false, gateRetired := true);
    var d := s.(slots := s.slots[k := closed]);
    RetireSucceeds(s, k);
    DestroySucceeds(d, k);
    t := d.(slots := d.slots[k := Spent(addr, epoch)],
            flags := d.flags.(ready := false, returned := false, current := None));
    run := [OfMain(StartRetire), OfMain(CloseGate(true, true))] + DestroyRun();
    Both(s, [OfMain(StartRetire), OfMain(CloseGate(true, true))], d, DestroyRun(), t);
  }

  /** From any quiet state a whole session is possible, and it ends in a quiet state. */
  lemma SessionRuns(s: State, epoch: nat, addr: nat) returns (run: seq<Action>, t: State)
    requires Reachable(s) && Quiet(s) && epoch != 0 && epoch !in s.hist.epochs && addr !in s.hist.used
    ensures Carries(s, run, t) && Quiet(t) && t.slots == s.slots + [Spent(addr, epoch)]
  {
    var loaded := LoadSucceeds(s, epoch, addr, true);
    ReachableInv(s);
    forall j | 0 <= j < |s.slots| ensures s.slots[j].addr != addr {
      assert s.slots[j].addr in s.hist.used;
    }
    var use, used := SessionUsed(loaded, addr, epoch);
    var end;
    end, t := SessionEnds(used, addr, epoch);
    var load := PrepareRun(epoch, addr, true) + PublishRun() + ReturnRun();
    Both(s, load, loaded, use, used);
    Both(s, load + use, used, end, t);
    run := load + use + end;
  }

  /** Sessions can follow one another without end. */
  lemma {:induction false} SessionsWithoutEnd(n: nat) returns (s: State)
    ensures Reachable(s) && Quiet(s) && |s.slots| == n && forall k :: 0 <= k < n ==> s.slots[k].dtorStarted
  {
    if n == 0 {
      s := INITIAL;
      Nothing(INITIAL);
    } else {
      var before := SessionsWithoutEnd(n - 1);
      var epoch := FreshId(before.hist.epochs + {0});
      var addr := FreshId(before.hist.used);
      var run;
      run, s := SessionRuns(before, epoch, addr);
      CarriesReach(before, run, s);
    }
  }

  // ----- failures

  /** A lock call, a wait, a broadcast, the resolution of the hook or an allocation fails in this step. */
  predicate Fails(s: State, a: Action)
    requires Enabled(s, a)
  {
    match a
    case OfCall(PrepareHook(_, onceOk, valid)) => !onceOk || (!s.flags.hookValid && !valid)
    case OfCall(FindSlot(_, locksOk)) => !locksOk
    case OfCall(Admit(_, lockOk, unlockOk)) => !lockOk || !unlockOk
    case OfCall(Leave(id, lockOk, broadcastOk, unlockOk)) =>
      !lockOk || !unlockOk || (s.slots[s.calls[id].k].inflight == 1 && !broadcastOk)
    case OfLoad(LoadPrepares(onceOk, valid)) => !onceOk || (!s.flags.hookValid && !valid)
    case OfLoad(Allocate(ok, _)) => !ok
    case OfLoad(Register(lockOk, unlockOk)) => !lockOk || !unlockOk
    case OfLoad(Arm(lockOk, unlockOk)) => !lockOk || !unlockOk
    case OfMain(CloseGate(lockOk, unlockOk)) => !lockOk || (s.slots[s.main.k].inflight == 0 && !unlockOk)
    case OfMain(Wake(waitOk, unlockOk)) => !waitOk || (s.slots[s.main.k].inflight == 0 && !unlockOk)
    case OfMain(CheckDestroy(lockOk, unlockOk)) => !lockOk || !unlockOk
    case _ => false
  }

  function CallId(c: CallAction): nat
  {
    c.id
  }

  /** All the acting thread can do is block the lifecycle. */
  predicate AboutToBlock(s: State, a: Action)
  {
    match a
    case OfCall(c) => CallId(c) in s.calls && s.calls[CallId(c)].Raising?
    case OfLoad(_) => s.load.Fails?
    case OfMain(_) => s.main.RetireRaises? || s.main.QuarantineBlocks?
  }

  lemma BlockingBlocks(s: State, a: Action)
    requires Enabled(s, a) && AboutToBlock(s, a)
    ensures Step(s, a).flags.blocked
  {
  }

  /**
    Every failing step blocks the lifecycle, or leaves its thread about to, or starts a
    quarantine, which closes a gate first.
   */
  lemma FailureBlocks(s: State, a: Action)
    requires Enabled(s, a) && Fails(s, a)
    ensures var t := Step(s, a);
            t.flags.blocked || AboutToBlock(t, a) || (a.OfMain? && t.main.Retires? && t.main.quarantine)
  {
  }

  /** In the last steps of a quarantine the lifecycle is blocked. */
  predicate Condemned(s: State)
  {
    s.main.QuarantineReady? || s.main.QuarantineReturned? ==> s.flags.blocked
  }

  lemma StepCondemned(s: State, a: Action)
    requires Enabled(s, a) && Condemned(s)
    ensures Condemned(Step(s, a))
  {
    if s.flags.blocked {
      StepFrozen(s, a);
    }
  }

  lemma {:induction false} RunCondemned(s: State, run: seq<Action>)
    requires Runs(s, run) && Condemned(s)
    ensures Condemned(After(s, run))
    decreases |run|
  {
    if run != [] {
      StepCondemned(s, run[0]);
      RunCondemned(Step(s, run[0]), run[1..]);
    }
  }

  /** Whatever else happens meanwhile, a quarantine ends with the lifecycle blocked and no load returned. */
  lemma QuarantineBlocked(s: State)
    requires Reachable(s) && Enabled(s, OfMain(QuarantineClearReturned))
    ensures var t := Step(s, OfMain(QuarantineClearReturned)); t.flags.blocked && !t.flags.returned && t.main.MainIdle?
  {
    var run :| Runs(INITIAL, run) && After(INITIAL, run) == s;
    RunCondemned(INITIAL, run);
  }

  /** A quarantine by itself, with nobody inside: gate closed, lifecycle blocked, object not ready. */
  lemma QuarantineSucceeds(s: State, k: nat)
    requires s.main.MainIdle? && s.flags.current == Some(k) && k < |s.slots| && s.slots[k].inflight == 0
    ensures Carries(s, [OfMain(StartQuarantine), OfMain(CloseGate(true, true))] +
                       [OfMain(QuarantineBlock), OfMain(QuarantineClearReady), OfMain(QuarantineClearReturned)],
                    s.(slots := s.slots[k := s.slots[k].(active := false, gateRetired := true)],
                       flags := s.flags.(blocked := true, ready := false, returned := false)))
  {
    var closed := s.slots[k].(active := false);
    var t := s.(slots := s.slots[k := closed.(gateRetired := true)], main := QuarantineBlocks);
    Two(s, OfMain(StartQuarantine), OfMain(CloseGate(true, true)));
    assert s.slots[k := closed][k := closed.(gateRetired := true)] == s.slots[k := closed.(gateRetired := true)];
    Three(t, OfMain(QuarantineBlock), OfMain(QuarantineClearReady), OfMain(QuarantineClearReturned));
    Both(s, [OfMain(StartQuarantine), OfMain(CloseGate(true, true))], t,
         [OfMain(QuarantineBlock), OfMain(QuarantineClearReady), OfMain(QuarantineClearReturned)],
         Step(Step(Step(t, OfMain(QuarantineBlock)), OfMain(QuarantineClearReady)), OfMain(QuarantineClearReturned)));
  }

  /** A retirement without a current slot, or whose gate cannot be locked, blocks the lifecycle and returns. */
  lemma RetireFails(s: State, unlockOk: bool)
    requires s.main.MainIdle? && (s.flags.current.Some? ==> s.flags.current.value < |s.slots|)
    ensures s.flags.current.Some? ==>
              Carries(s, [OfMain(StartRetire), OfMain(CloseGate(false, unlockOk)), OfMain(RetireRaise)], Blocked(s))
    ensures s.flags.current.None? ==> Carries(s, [OfMain(StartRetire), OfMain(RetireRaise)], Blocked(s))
  {
    if s.flags.current.Some? {
      Three(s, OfMain(StartRetire), OfMain(CloseGate(false, unlockOk)), OfMain(RetireRaise));
    } else {
      Two(s, OfMain(StartRetire), OfMain(RetireRaise));
    }
  }

  function CondemnRun(): seq<Action>
  {
    [OfMain(QuarantineBlock), OfMain(QuarantineClearReady), OfMain(QuarantineClearReturned)]
  }

  /** A quarantine whose gate cannot be locked still ends blocked, not ready and not returned. */
  lemma QuarantineFails(s: State, k: nat, unlockOk: bool)
    requires s.main.MainIdle? && s.flags.current == Some(k) && k < |s.slots|
    ensures Carries(s, [OfMain(StartQuarantine), OfMain(CloseGate(false, unlockOk)), OfMain(RetireRaise)] +
                       CondemnRun(),
                    s.(flags := s.flags.(blocked := true, ready := false, returned := false)))
  {
    var t := Blocked(s).(main := QuarantineBlocks);
    Three(s, OfMain(StartQuarantine), OfMain(CloseGate(false, unlockOk)), OfMain(RetireRaise));
    Condemns(t);
    Both(s, [OfMain(StartQuarantine), OfMain(CloseGate(false, unlockOk)), OfMain(RetireRaise)], t, CondemnRun(),
         s.(flags := s.flags.(blocked := true, ready := false, returned := false)));
  }

  lemma Condemns(s: State)
    requires s.main.QuarantineBlocks?
    ensures Carries(s, CondemnRun(),
                    s.(flags := s.flags.(blocked := true, ready := false, returned := false), main := MainIdle))
  {
    Three(s, OfMain(QuarantineBlock), OfMain(QuarantineClearReady), OfMain(QuarantineClearReturned));
  }

  /** A load that fails after publication ends blocked, not ready and not returned; before it, blocked. */
  lemma LoadFails(s: State)
    requires s.load.Fails?
    ensures s.load.published.Some? ==>
              Carries(s, [OfLoad(FailBlocks), OfLoad(FailClearsReady), OfLoad(FailClearsReturned)],
                      s.(flags := s.flags.(blocked := true, ready := false, returned := false), load := LoadIdle))
    ensures s.load.published.None? ==> Carries(s, [OfLoad(FailBlocks)], Blocked(s).(load := LoadIdle))
  {
    if s.load.published.Some? {
      Three(s, OfLoad(FailBlocks), OfLoad(FailClearsReady), OfLoad(FailClearsReturned));
    } else {
      Nothing(s);
      Snoc(s, [], s, OfLoad(FailBlocks));
      assert [] + [OfLoad(FailBlocks)] == [OfLoad(FailBlocks)];
    }
  }

  /** A wait that fails blocks the lifecycle and does not count as retired. */
  lemma WakeFails(s: State, k: nat)
    requires s.main == Waits(k, false) && k < |s.slots|
    ensures Step(s, OfMain(Wake(false, true))) ==
            s.(slots := s.slots[k := s.slots[k].(gateRetired := false)], flags := s.flags.(blocked := true),
               main := MainIdle)
  {
  }

  /** A verb, and a foreign callback, return to where they came from. */
  lemma CallsEnd(s: State, k: nat, id: nat)
    ensures s.main == Dispatched(k) ==> Step(s, OfMain(VerbEnds)) == s.(main := MainIdle)
    ensures id in s.calls && s.calls[id].InForeign? ==>
              Step(s, OfCall(ForeignReturns(id))) == s.(calls := s.calls - {id})
  {
  }

  /** A callback that fails ends its thread's activation. */
  lemma CallFails(s: State, id: nat)
    requires id in s.calls && s.calls[id].Raising?
    ensures Enabled(s, OfCall(Raise(id))) && Step(s, OfCall(Raise(id))) == Blocked(s).(calls := s.calls - {id})
  {
  }

  // ----- nothing is forwarded to a hook that was not resolved

  /** The activation is past the resolution of the real hook. */
  predicate Resolved(pc: CallPc)
  {
    pc.Looking? || pc.InForeign? || pc.AtGate? || pc.InHook? || pc.Leaving?
  }

  predicate ResolvedOk(s: State)
  {
    (exists id :: id in s.calls && Resolved(s.calls[id])) ==> s.flags.hookValid
  }

  lemma CallResolved(s: State, a: CallAction)
    requires CallEnabled(s, a) && ResolvedOk(s)
    ensures ResolvedOk(CallStep(s, a))
  {
    var t := CallStep(s, a);
    forall id | id in t.calls && Resolved(t.calls[id]) ensures t.flags.hookValid {
      HookStays(s, a);
      if id in s.calls && Resolved(s.calls[id]) {
        assert s.flags.hookValid;
      }
    }
  }

  lemma StepResolved(s: State, a: Action)
    requires Enabled(s, a) && ResolvedOk(s)
    ensures ResolvedOk(Step(s, a))
  {
    match a
    case OfCall(c) => CallResolved(s, c);
    case OfLoad(l) => LoadResolved(s, l);
    case OfMain(m) => MainResolved(s, m);
  }

  lemma LoadResolved(s: State, a: LoadAction)
    requires LoadEnabled(s, a) && ResolvedOk(s)
    ensures ResolvedOk(LoadStep(s, a))
  {
    assert LoadStep(s, a).calls == s.calls;
  }

  lemma MainResolved(s: State, a: MainAction)
    requires MainEnabled(s, a) && ResolvedOk(s)
    ensures ResolvedOk(MainStep(s, a))
  {
    assert MainStep(s, a).calls == s.calls;
  }

  lemma {:induction false} RunResolved(s: State, run: seq<Action>)
    requires Runs(s, run) && ResolvedOk(s)
    ensures ResolvedOk(After(s, run))
    decreases |run|
  {
    if run != [] {
      StepResolved(s, run[0]);
      RunResolved(Step(s, run[0]), run[1..]);
    }
  }

  /** In every reachable state, whoever is in the real hook, ours or foreign, found it resolved. */
  lemma ForwardedResolved(s: State, id: nat)
    requires Reachable(s) && id in s.calls && (s.calls[id].InHook? || s.calls[id].InForeign?)
    ensures s.flags.hookValid
  {
    var run :| Runs(INITIAL, run) && After(INITIAL, run) == s;
    RunResolved(INITIAL, run);
    assert Resolved(s.calls[id]);
  }
}
