/**
  Whether a destructor can run beside a Load call of the same object. Nothing in the gate of
  src/starfish.c forbids it; here is exactly when it can happen.
 */
module StarfishOverlap {
  import opened StarfishGate
  import opened StarfishSafety
  import opened Wrappers

  // ----- exactly when

  /** A destructor is running, and so is a Load call. */
  predicate Overlaps(s: State)
  {
    s.main.InDtor? && s.load.InLoad?
  }

  /** What `sf_destroy` will ask of the slot and only `sf_callback_gate_retire` or earlier callbacks can supply. */
  predicate Retired(slot: Slot)
  {
    !slot.active && slot.gateRetired && slot.intercepted != 0
  }

  /**
    The entry of an `sf_destroy` from which the overlap can follow: the current object is in
    its Load call, ready, retired with evidence, and nothing is blocked. The unload event may
    still be missing.
   */
  predicate CanOverlap(s: State)
  {
    s.flags.current.Some? && s.flags.current.value < |s.slots| &&
    var k := s.flags.current.value;
    s.load == InLoad(k) && s.flags.ready && !s.flags.blocked && Retired(s.slots[k])
  }

  /** On the way from such an entry to the overlap. */
  predicate Heading(s: State)
  {
    && (s.main.DestroyReady? || s.main.DestroyChecks? || s.main.Doomed? || s.main.InDtor?)
    && s.main.k < |s.slots| && s.load == InLoad(s.main.k) && Retired(s.slots[s.main.k])
    && (s.main.DestroyReady? ==> s.flags.ready)
    && (s.main.DestroyReady? || s.main.DestroyChecks? ==> !s.flags.blocked)
  }

  lemma OverlapHeads(s: State)
    requires Inv(s)
    ensures Overlaps(s) ==> Heading(s)
  {
    if Overlaps(s) {
      assert SlotOk(s, s.main.k);
    }
  }

  // ----- backwards: no other entry leads there

  lemma CallHeads(s: State, a: CallAction)
    requires CallEnabled(s, a)
    ensures Heading(CallStep(s, a)) ==> Heading(s)
  {
    CallFrame(s, a);
    if Heading(CallStep(s, a)) {
      CallKeepsRetired(s, a, s.main.k);
    }
  }

  /** A closed gate lets nothing be counted any more. */
  lemma CallKeepsRetired(s: State, a: CallAction, k: nat)
    requires CallEnabled(s, a) && k < |s.slots|
    ensures k < |CallStep(s, a).slots| && (Retired(CallStep(s, a).slots[k]) ==> Retired(s.slots[k]))
  {
  }

  /** A load step leads nowhere near: evidence is counted only once the Load call is entered. */
  lemma LoadHeads(s: State, a: LoadAction)
    requires LoadEnabled(s, a) && LoadOk(s) && SlotsOk(s)
    ensures !Heading(LoadStep(s, a))
  {
    if s.load.Arms? {
      assert SlotOk(s, s.load.k);
    }
  }

  lemma MainHeads(s: State, a: MainAction)
    requires MainEnabled(s, a) && MainOk(s)
    ensures Heading(MainStep(s, a)) ==> Heading(s) || (a == StartDestroy && CanOverlap(s))
  {
  }

  lemma StepHeads(s: State, a: Action)
    requires Inv(s) && Enabled(s, a)
    ensures Heading(Step(s, a)) ==> Heading(s) || (a == OfMain(StartDestroy) && CanOverlap(s))
  {
    match a
    case OfCall(c) => CallHeads(s, c);
    case OfLoad(l) => LoadHeads(s, l);
    case OfMain(m) => MainHeads(s, m);
  }

  /** No `sf_destroy` of the run is entered where the overlap can follow. */
  predicate SafeEntries(s: State, run: seq<Action>)
    requires Runs(s, run)
    decreases |run|
  {
    run == [] ||
    ((run[0] == OfMain(StartDestroy) ==> !CanOverlap(s)) && SafeEntries(Step(s, run[0]), run[1..]))
  }

  lemma {:induction false} SafeNeverHeads(s: State, run: seq<Action>)
    requires Inv(s) && Runs(s, run) && SafeEntries(s, run) && !Heading(s)
    ensures Inv(After(s, run)) && !Heading(After(s, run))
    decreases |run|
  {
    if run != [] {
      StepKeeps(s, run[0]);
      StepHeads(s, run[0]);
      SafeNeverHeads(Step(s, run[0]), run[1..]);
    }
  }

  /** A run whose destroys are all entered elsewhere never reaches the overlap. */
  lemma SafeEntriesNeverOverlap(run: seq<Action>)
    requires Runs(INITIAL, run) && SafeEntries(INITIAL, run)
    ensures !Overlaps(After(INITIAL, run))
  {
    Initially();
    SafeNeverHeads(INITIAL, run);
    OverlapHeads(After(INITIAL, run));
  }

  // ----- forwards: every such entry can lead there

  predicate StartsMain(a: Action)
  {
    a.OfMain? && (a.m.StartVerb? || a.m.StartRetire? || a.m.StartQuarantine? || a.m.StartDestroy?)
  }

  /** Some interleaving in which the main thread starts nothing else leads from s to t. */
  ghost predicate Leads(s: State, t: State)
  {
    exists run :: Runs(s, run) && After(s, run) == t && forall i :: 0 <= i < |run| ==> !StartsMain(run[i])
  }

  lemma LeadsSelf(s: State)
    ensures Leads(s, s)
  {
    assert Runs(s, []) && After(s, []) == s;
  }

  lemma LeadsOn(s: State, t: State, a: Action)
    requires Leads(s, t) && Enabled(t, a) && !StartsMain(a)
    ensures Leads(s, Step(t, a))
  {
    var run :| Runs(s, run) && After(s, run) == t && forall i :: 0 <= i < |run| ==> !StartsMain(run[i]);
    AfterSnoc(s, run, a);
  }

  /** The hook was resolved before any object was allocated. */
  predicate HookOk(s: State)
  {
    s.slots != [] || s.load.Allocates? || s.load.Registers? ==> s.flags.hookValid
  }

  lemma HookKeeps(s: State, a: Action)
    requires Enabled(s, a) && HookOk(s)
    ensures HookOk(Step(s, a))
  {
    match a
    case OfCall(c) => CallFrame(s, c); HookStays(s, c);
    case OfLoad(l) => LoadHook(s, l);
    case OfMain(m) => MainHook(s, m);
  }

  lemma LoadHook(s: State, a: LoadAction)
    requires LoadEnabled(s, a) && HookOk(s)
    ensures HookOk(LoadStep(s, a))
  {
  }

  lemma MainHook(s: State, a: MainAction)
    requires MainEnabled(s, a) && HookOk(s)
    ensures HookOk(MainStep(s, a))
  {
  }

  lemma HookStays(s: State, a: CallAction)
    requires CallEnabled(s, a)
    ensures s.flags.hookValid ==> CallStep(s, a).flags.hookValid
  {
  }

  lemma {:induction false} HookKept(s: State, run: seq<Action>)
    requires Runs(s, run) && HookOk(s)
    ensures HookOk(After(s, run))
    decreases |run|
  {
    if run != [] {
      HookKeeps(s, run[0]);
      HookKept(Step(s, run[0]), run[1..]);
    }
  }

  lemma ReachableHook(s: State)
    requires Reachable(s)
    ensures HookOk(s)
  {
    var run :| Runs(INITIAL, run) && After(INITIAL, run) == s;
    HookKept(INITIAL, run);
  }

  lemma FreshCall(calls: map<nat, CallPc>) returns (id: nat)
    ensures id !in calls
  {
    id := FreshId(calls.Keys);
  }

  lemma {:induction false} FreshId(ids: set<nat>) returns (id: nat)
    ensures forall j :: j in ids ==> j < id
    decreases |ids|
  {
    if ids == {} {
      id := 0;
    } else {
      var j :| j in ids;
      var rest := FreshId(ids - {j});
      id := if j < rest then rest else j + 1;
      assert forall i :: i in ids ==> i == j || i in ids - {j};
    }
  }

  /** The missing unload event arrives on a callback thread. */
  lemma EventArrives(s: State, t: State) returns (u: State)
    requires Leads(s, t) && t.main.DestroyChecks? && t.flags.current == Some(t.main.k) && t.main.k < |t.slots|
    ensures Leads(s, u) && u.main == t.main && u.load == t.load && u.flags == t.flags && t.main.k < |u.slots|
    ensures u.slots[t.main.k] == t.slots[t.main.k].(unloadCompleted := true)
  {
    var k := t.main.k;
    var id := FreshCall(t.calls);
    var e := OfCall(EnterEvent(id, t.slots[k].epoch));
    LeadsOn(s, t, e);
    var t1 := Step(t, e);
    LeadsOn(s, t1, OfCall(StoreUnload(id)));
    u := Step(t1, OfCall(StoreUnload(id)));
  }

  /** The rest of `sf_destroy` on a slot that has every proof. */
  lemma DestroyGoesOn(s: State, t: State)
    requires Leads(s, t) && t.main.DestroyChecks? && t.main.k < |t.slots| && DestroySafe(t, t.main.k)
    requires t.load.InLoad?
    ensures exists u :: Leads(s, u) && Overlaps(u)
  {
    LeadsOn(s, t, OfMain(CheckDestroy(true, true)));
    var t1 := Step(t, OfMain(CheckDestroy(true, true)));
    LeadsOn(s, t1, OfMain(StartDtor));
    assert Overlaps(Step(t1, OfMain(StartDtor)));
  }

  lemma EntryLeads(s: State)
    requires Reachable(s) && s.main.MainIdle? && CanOverlap(s)
    ensures exists u :: Leads(Step(s, OfMain(StartDestroy)), u) && Overlaps(u)
  {
    ReachableHook(s);
    var entered := Step(s, OfMain(StartDestroy));
    LeadsSelf(entered);
    LeadsOn(entered, entered, OfMain(ReadDestroyReady));
    var t := Step(entered, OfMain(ReadDestroyReady));
    var u := EventArrives(entered, t);
    DestroyGoesOn(entered, u);
  }

  lemma {:induction false} AloneSafe(s: State, run: seq<Action>)
    requires Runs(s, run) && forall i :: 0 <= i < |run| ==> !StartsMain(run[i])
    ensures SafeEntries(s, run)
    decreases |run|
  {
    if run != [] {
      assert !StartsMain(run[0]);
      assert forall i :: 0 <= i < |run| - 1 ==> run[1..][i] == run[i + 1];
      AloneSafe(Step(s, run[0]), run[1..]);
    }
  }

  /**
    The exact condition, at the entry of `sf_destroy`: with no further call started on the
    main thread, some interleaving runs the destructor beside the Load call if and only if
    the current object is in its Load call, ready, retired with evidence, and not blocked.
   */
  lemma OverlapExactly(s: State)
    requires Reachable(s) && s.main.MainIdle?
    ensures (exists u :: Leads(Step(s, OfMain(StartDestroy)), u) && Overlaps(u)) <==> CanOverlap(s)
  {
    ReachableInv(s);
    var entered := Step(s, OfMain(StartDestroy));
    if CanOverlap(s) {
      EntryLeads(s);
    } else if u :| Leads(entered, u) && Overlaps(u) {
      StepKeeps(s, OfMain(StartDestroy));
      var run :| Runs(entered, run) && After(entered, run) == u && forall i :: 0 <= i < |run| ==> !StartsMain(run[i]);
      AloneSafe(entered, run);
      SafeNeverHeads(entered, run);
      OverlapHeads(u);
    }
  }

  // ----- joining the load first

  /** `sf_destroy` has been entered. */
  predicate InDestroy(pc: MainPc)
  {
    pc.DestroyReady? || pc.DestroyChecks? || pc.Doomed? || Destroying(pc)
  }

  /** The load thread works on no slot. */
  predicate NoSlotYet(pc: LoadPc)
  {
    pc.LoadIdle? || pc.ReadsReady? || pc.ReadsCurrent?
  }

  /** Every `sf_destroy` of the run is entered after the `sf_load` in flight has returned. */
  predicate JoinsLoads(s: State, run: seq<Action>)
    requires Runs(s, run)
    decreases |run|
  {
    run == [] ||
    ((run[0] == OfMain(StartDestroy) ==> s.load.LoadIdle?) && JoinsLoads(Step(s, run[0]), run[1..]))
  }

  lemma JoinedStep(s: State, a: Action)
    requires Enabled(s, a) && Inv(s) && (a == OfMain(StartDestroy) ==> s.load.LoadIdle?)
    requires InDestroy(s.main) ==> NoSlotYet(s.load)
    ensures InDestroy(Step(s, a).main) ==> NoSlotYet(Step(s, a).load)
  {
    match a
    case OfCall(c) => CallFrame(s, c);
    case OfLoad(l) => JoinedLoad(s, l);
    case OfMain(m) => JoinedMain(s, m);
  }

  lemma JoinedLoad(s: State, a: LoadAction)
    requires LoadEnabled(s, a) && MainOk(s)
    requires InDestroy(s.main) ==> NoSlotYet(s.load)
    ensures InDestroy(LoadStep(s, a).main) ==> NoSlotYet(LoadStep(s, a).load)
  {
  }

  lemma JoinedMain(s: State, a: MainAction)
    requires MainEnabled(s, a) && (a == StartDestroy ==> s.load.LoadIdle?)
    requires InDestroy(s.main) ==> NoSlotYet(s.load)
    ensures InDestroy(MainStep(s, a).main) ==> NoSlotYet(MainStep(s, a).load)
  {
    MainFrame(s, a);
  }

  /** When callers join the load first, no destructor ever runs beside a Load call. */
  lemma {:induction false} JoinedNeverOverlaps(s: State, run: seq<Action>)
    requires Inv(s) && Runs(s, run) && JoinsLoads(s, run)
    requires InDestroy(s.main) ==> NoSlotYet(s.load)
    ensures InDestroy(After(s, run).main) ==> NoSlotYet(After(s, run).load)
    decreases |run|
  {
    if run != [] {
      StepKeeps(s, run[0]);
      JoinedStep(s, run[0]);
      JoinedNeverOverlaps(Step(s, run[0]), run[1..]);
    }
  }

  lemma {:induction false} AfterSnoc(s: State, run: seq<Action>, a: Action)
    requires Runs(s, run) && Enabled(After(s, run), a)
    ensures Runs(s, run + [a]) && After(s, run + [a]) == Step(After(s, run), a)
    decreases |run|
  {
    if run == [] {
      assert run + [a] == [a];
      assert Runs(Step(s, a), []);
    } else {
      AfterSnoc(Step(s, run[0]), run[1..], a);
      assert (run + [a])[1..] == run[1..] + [a];
    }
  }

  lemma ReachStep(s: State, a: Action)
    requires Reachable(s) && Enabled(s, a)
    ensures Reachable(Step(s, a))
  {
    var run :| Runs(INITIAL, run) && After(INITIAL, run) == s;
    AfterSnoc(INITIAL, run, a);
  }

  /** Slot 0 of epoch 7 at address 1, while its Load call runs. */
  const LOADING := State([Slot(1, 7, true, true, 0, 0, false, false, 0, true, false, false)],
                         Flags(Some(0), true, false, true, false), map[], InLoad(0), MainIdle,
                         History({1}, {}, {7}, {}))

  /** The object of epoch 7 is allocated at address 1 and not yet registered. */
  const REGISTERING := State([], Flags(None, true, false, false, false), map[], Registers(7, 1), MainIdle,
      History({1}, {1}, {7}, {}))

  lemma RegisteringReachable()
    ensures Reachable(REGISTERING)
  {
    assert Runs(INITIAL, []) && After(INITIAL, []) == INITIAL;
    var s0 := INITIAL;
    ReachStep(s0, OfLoad(StartLoad(true, 7)));
    var s1 := Step(s0, OfLoad(StartLoad(true, 7)));
    ReachStep(s1, OfLoad(ReadReady));
    var s2 := Step(s1, OfLoad(ReadReady));
    ReachStep(s2, OfLoad(ReadCurrent));
    var s3 := Step(s2, OfLoad(ReadCurrent));
    ReachStep(s3, OfLoad(LoadPrepares(true, true)));
    var s4 := Step(s3, OfLoad(LoadPrepares(true, true)));
    ReachStep(s4, OfLoad(Allocate(true, 1)));
    assert Step(s4, OfLoad(Allocate(true, 1))) == REGISTERING;
  }

  lemma LoadingReachable()
    ensures Reachable(LOADING)
  {
    RegisteringReachable();
    var s5 := REGISTERING;
    ReachStep(s5, OfLoad(Register(true, true)));
    var s6 := Step(s5, OfLoad(Register(true, true)));
    ReachStep(s6, OfLoad(Publish));
    var s7 := Step(s6, OfLoad(Publish));
    ReachStep(s7, OfLoad(Construct));
    var s8 := Step(s7, OfLoad(Construct));
    ReachStep(s8, OfLoad(ClearReturned));
    var s9 := Step(s8, OfLoad(ClearReturned));
    ReachStep(s9, OfLoad(SetReady));
    var s10 := Step(s9, OfLoad(SetReady));
    ReachStep(s10, OfLoad(Arm(true, true)));
    assert Step(s10, OfLoad(Arm(true, true))) == LOADING;
  }

  /** One callback came and went, and the unload event was seen, with the Load call still running. */
  const UNLOADED := LOADING.(slots := [LOADING.slots[0].(intercepted := 1, intercepts := 1, unloadCompleted := true)],
                             hist := LOADING.hist.(unloads := {7}))

  lemma ReachTo(s: State, a: Action, t: State)
    requires Reachable(s) && Enabled(s, a) && Step(s, a) == t
    ensures Reachable(t)
  {
    ReachStep(s, a);
  }

  const INTERCEPTED := LOADING.(slots := [LOADING.slots[0].(intercepted := 1, intercepts := 1, inflight := 1)],
      calls := map[0 := InHook(0)])

  lemma LookingReachable()
    ensures Reachable(LOADING.(calls := map[0 := Looking(1)]))
  {
    LoadingReachable();
    var s := LOADING.(calls := map[0 := Entered(1)]);
    ReachTo(LOADING, OfCall(EnterHook(0, 1)), s);
    ReachTo(s, OfCall(PrepareHook(0, true, true)), s.(calls := map[0 := Looking(1)]));
  }

  lemma AtGateReachable()
    ensures Reachable(LOADING.(calls := map[0 := AtGate(0)]))
  {
    LookingReachable();
    ReachTo(LOADING.(calls := map[0 := Looking(1)]), OfCall(FindSlot(0, true)), LOADING.(calls := map[0 := AtGate(0)]));
  }

  lemma InterceptedReachable()
    ensures Reachable(INTERCEPTED)
  {
    AtGateReachable();
    ReachTo(LOADING.(calls := map[0 := AtGate(0)]), OfCall(Admit(0, true, true)), INTERCEPTED);
  }

  const DRAINED := LOADING.(slots := [LOADING.slots[0].(intercepted := 1, intercepts := 1)])

  lemma DrainedReachable()
    ensures Reachable(DRAINED)
  {
    InterceptedReachable();
    var s := INTERCEPTED.(calls := map[0 := Leaving(0)]);
    ReachTo(INTERCEPTED, OfCall(HookReturns(0)), s);
    assert s.calls - {0} == map[];
    ReachTo(s, OfCall(Leave(0, true, true, true)), DRAINED);
  }

  lemma UnloadedReachable()
    ensures Reachable(UNLOADED)
  {
    DrainedReachable();
    var s := DRAINED.(calls := map[0 := Event(Some(0), 7)], hist := DRAINED.hist.(unloads := {7}));
    ReachTo(DRAINED, OfCall(EnterEvent(0, 7)), s);
    assert s.calls - {0} == map[];
    ReachTo(s, OfCall(StoreUnload(0)), UNLOADED);
  }

  /**
    The gate alone does not keep the destructor out of a running Load call: a caller that
    retires and destroys without joining the load reaches both at once.
   */
  lemma UnjoinedOverlaps()
    ensures exists s :: Reachable(s) && s.load == InLoad(0) && s.main == InDtor(0)
  {
    UnloadedReachable();
    var s0 := UNLOADED;
    ReachStep(s0, OfMain(StartRetire));
    var s1 := Step(s0, OfMain(StartRetire));
    ReachStep(s1, OfMain(CloseGate(true, true)));
    var s2 := Step(s1, OfMain(CloseGate(true, true)));
    ReachStep(s2, OfMain(StartDestroy));
    var s3 := Step(s2, OfMain(StartDestroy));
    ReachStep(s3, OfMain(ReadDestroyReady));
    var s4 := Step(s3, OfMain(ReadDestroyReady));
    ReachStep(s4, OfMain(CheckDestroy(true, true)));
    var s5 := Step(s4, OfMain(CheckDestroy(true, true)));
    ReachStep(s5, OfMain(StartDtor));
    var s6 := Step(s5, OfMain(StartDtor));
    assert s6.load == InLoad(0) && s6.main == InDtor(0);
  }
}
