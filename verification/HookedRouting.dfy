/** What installing hooks leaves behind is what routing starts from, and what a whole hook does to its target. */
module HookedRouting {
  import opened A64Encoding
  import opened A64Machine
  import opened A64Simulation
  import opened HookBehaviour
  import opened HookEngine
  import opened HookInstaller
  import opened InterceptorRouting
  import CB = ClosureBridge
  import R = Routing

  // Two infos bound to one closure slot are one allocation.
  lemma SlotHasOneInfo(engine: Engine, a: CB.Info, b: CB.Info)
    requires engine.Valid() && SlotFor(engine.Recorded(), a) && SlotFor(engine.Recorded(), b)
    requires a.redirectTrampoline == b.redirectTrampoline
    ensures a.address == b.address && a in engine.bridge.bridgeInfos && b in engine.bridge.bridgeInfos
  {
    hide Separate, Holds, CB.SlotsAt, CB.SlotAddress;
    var l := engine.Recorded();
    var j, i :| 0 <= j < |l.bounds| && j < |l.slotPages| && 0 <= i < |l.bounds[j]| && l.bounds[j][i] == a.address
      && a.redirectTrampoline == CB.SlotAddress(l.slotPages[j], i);
    var k, n :| 0 <= k < |l.bounds| && k < |l.slotPages| && 0 <= n < |l.bounds[k]| && l.bounds[k][n] == b.address
      && b.redirectTrampoline == CB.SlotAddress(l.slotPages[k], n);
    if j != k || i != n {
      engine.bridge.SlotsDisjoint(j, i, k, n);
    }
  }

  // The allocator's infos are apart, and so are the entries' ids.
  ghost predicate Identified(installer: Installer)
    reads installer, installer.engine, installer.engine.bridge
  {
    && (forall a, b :: a in installer.engine.bridge.bridgeInfos && b in installer.engine.bridge.bridgeInfos ==>
      (a.address == b.address ==> a == b))
    && (forall e, f :: e in installer.hookEntries && f in installer.hookEntries ==> (e.id == f.id ==> e == f))
  }

  /** Every wrapped entry has a leave slot of its own, however many hooks were installed. */
  lemma LeaveSlotsApart(installer: Installer, e: HookEntry, f: HookEntry)
    requires installer.Sound() && Identified(installer) && e in installer.hookEntries && f in installer.hookEntries
    requires e.hookType == PrePost && f.hookType == PrePost && e.onLeaveTrampoline == f.onLeaveTrampoline
    ensures e == f
  {
    hide Engine.Valid, SlotFor, Installer.InvokeCode, Written;
    var l := installer.engine.Recorded();
    assert installer.Installed(l, e) && installer.Installed(l, f);
    var x: U64 :| SlotFor(l, CB.Info(x, installer.endHandler, e.id, e.onLeaveTrampoline));
    var y: U64 :| SlotFor(l, CB.Info(y, installer.endHandler, f.id, f.onLeaveTrampoline));
    var a := CB.Info(x, installer.endHandler, e.id, e.onLeaveTrampoline);
    var b := CB.Info(y, installer.endHandler, f.id, f.onLeaveTrampoline);
    SlotHasOneInfo(installer.engine, a, b);
  }

  ghost predicate AllCallable(installer: Installer, hooks: R.Hooks)
    reads installer, installer.hookEntries
  {
    forall e :: e in installer.hookEntries && e.hookType == PrePost ==> Callable(hooks, e)
  }

  /**
   * After any sequence of installations the leave slots tell which hook a return belongs to: there is a table of
   * hooks, by leave trampoline, that every wrapped entry is in with the address its calls go on to.
   */
  lemma RoutingReady(installer: Installer)
    requires installer.Sound() && Identified(installer)
    ensures exists hooks: R.Hooks :: AllCallable(installer, hooks)
  {
    hide Engine.Valid, Installer.Installed;
    var wrapped := set e | e in installer.hookEntries && e.hookType == PrePost;
    forall e, f | e in wrapped && f in wrapped && e.onLeaveTrampoline == f.onLeaveTrampoline ensures e == f {
      LeaveSlotsApart(installer, e, f);
    }
    var hooks: map<U64, R.Hook> := map e | e in wrapped :: e.onLeaveTrampoline := HookOf(e);
    forall a | a in hooks ensures hooks[a].leave == a {
      var e :| e in wrapped && e.onLeaveTrampoline == a;
    }
    var table: R.Hooks := hooks;
    assert AllCallable(installer, table);
  }

  /**
   * The handlers fit the types: after any sequence of installations, a closure slot that runs the begin handler is the
   * enter slot of a hook whose calls have their return address exchanged, one that runs the end handler is the address
   * it is exchanged for, and one that runs the instrumentation handler belongs to a hook that leaves it alone.
   */
  lemma HandlersFit(installer: Installer, info: CB.Info, e: HookEntry)
    requires installer.Sound() && Identified(installer) && info in installer.engine.bridge.bridgeInfos
    requires e in installer.hookEntries && e.id == info.userData
    requires var (begin, end, dbi) := (installer.beginHandler, installer.endHandler, installer.dbiHandler);
             begin != end && begin != dbi && end != dbi
    ensures info.userCode == installer.beginHandler ==>
              (e.hookType == PrePost || e.hookType == Got) && info.redirectTrampoline == e.onEnterTrampoline
    ensures info.userCode == installer.endHandler ==>
              (e.hookType == PrePost || e.hookType == Got) && info.redirectTrampoline == e.onLeaveTrampoline
    ensures info.userCode == installer.dbiHandler ==>
              e.hookType == Dbi && info.redirectTrampoline == e.onDbiTrampoline
    ensures info.userCode in {installer.beginHandler, installer.endHandler, installer.dbiHandler}
  {
    hide Engine.Valid, Installer.Installed;
    var owner :| owner in installer.hookEntries && installer.Belongs(info, owner);
    assert owner.id == e.id;
  }

  // Every info names a hook.
  lemma InfoNamesHook(installer: Installer, info: CB.Info)
    requires installer.Sound() && info in installer.engine.bridge.bridgeInfos
    ensures exists e :: e in installer.hookEntries && e.id == info.userData
  {
    hide Engine.Valid, Installer.Installed;
    var owner :| owner in installer.hookEntries && installer.Belongs(info, owner);
    assert owner.id == info.userData;
  }

  // ----- a whole hooked call, up to the original -----

  // A handler has run and the bridge has let control go to on_invoke_trampoline, whose code is in place.
  ghost predicate Released(installer: Installer, e: HookEntry, b: State)
    reads installer, e
  {
    b.pc == e.onInvokeTrampoline && BytesAt(b.core.mem, e.onInvokeTrampoline, installer.InvokeCode(e))
  }

  // The unhooked target is entered in a state that agrees with b, in the first view, and leaves its window with the
  // j-th step.
  ghost predicate Entered(installer: Installer, exec: Exec, e: HookEntry, code: iset<int>, views: seq<View>, s: State,
                          b: State, j: nat)
    reads installer, e
  {
    && BytesAt(s.core.mem, e.targetAddress, e.originPrologue) && s.pc == e.targetAddress
    && Range(e.targetAddress, |e.originPrologue|, code)
    && Range(e.onInvokeTrampoline, |installer.InvokeCode(e)|, code)
    && SafeRun(exec, s, j, e.targetAddress, e.targetAddress + |e.originPrologue|, code, views)
    && Agree(s.core, b.core, views[0])
  }

  // So does the run from b, for the same place and in the same state, in the last view.
  ghost predicate Follows(exec: Exec, e: HookEntry, v: View, s: State, b: State, j: nat)
    reads e
  {
    exists n: nat :: Exits(exec, PrologueWords(e.originPrologue), e.targetAddress, e.onInvokeTrampoline,
                           Run(exec, s, j), b, n, v)
  }

  // Whatever the handler did to registers and memory.
  ghost predicate GoesOn(installer: Installer, exec: Exec, e: HookEntry, b: State)
    reads installer, e
  {
    forall code, views, s, j: nat | Entered(installer, exec, e, code, views, s, b, j) ::
      |views| == j + 1 && Follows(exec, e, views[j], s, b, j)
  }

  // The handler has left the registers as they were at the call s', but for those of the hook and a return address.
  ghost predicate Restores(e: HookEntry, s': State, b: State, info: U64, ret: U64)
    reads e
  {
    && b.core.x == s'.core.x[17 := e.Destination()][14 := info][15 := e.onInvokeTrampoline][30 := ret]
    && b.core.sp == s'.core.sp && b.core.flags == s'.core.flags && b.core.v == s'.core.v
  }

  // s has the registers of the call s' and the return address, and the memory the handler left.
  ghost predicate Replays(s: State, s': State, b: State, ret: U64, hidden: iset<int>) {
    && s.core.x == s'.core.x[30 := ret]
    && s.core.sp == s'.core.sp && s.core.flags == s'.core.flags && s.core.v == s'.core.v
    && SameMemory(s.core.mem, b.core.mem, hidden)
  }

  // Then the original may be one called with the registers of the call: X14, X15 and X17 are all it must not read.
  ghost predicate GoesOnAsCalled(installer: Installer, exec: Exec, e: HookEntry, s': State, b: State, ret: U64)
    reads installer, e
  {
    forall hidden, code, views, s, j: nat |
      Replays(s, s', b, ret, hidden) && Called(installer, exec, e, code, views, s, j, hidden) ::
      |views| == j + 1 && Follows(exec, e, views[j], s, b, j)
  }

  ghost predicate Called(installer: Installer, exec: Exec, e: HookEntry, code: iset<int>, views: seq<View>, s: State,
                         j: nat, hidden: iset<int>)
    reads installer, e
  {
    && BytesAt(s.core.mem, e.targetAddress, e.originPrologue) && s.pc == e.targetAddress
    && Range(e.targetAddress, |e.originPrologue|, code)
    && Range(e.onInvokeTrampoline, |installer.InvokeCode(e)|, code)
    && SafeRun(exec, s, j, e.targetAddress, e.targetAddress + |e.originPrologue|, code, views)
    && views[0] == View(hidden, {14, 15, 17})
  }

  lemma BridgePassed(installer: Installer, exec: Exec, e: HookEntry, s': State, b: State, info: U64, ret: U64)
    requires installer.Sound() && e in installer.hookEntries && Released(installer, e, b)
    ensures GoesOn(installer, exec, e, b)
    ensures Restores(e, s', b, info, ret) ==> GoesOnAsCalled(installer, exec, e, s', b, ret)
  {
    hide Installer.Sound, SafeAt, Run, Exits, Installer.InvokeCode, BytesAt, Range;
    forall code, views, s, j: nat | Entered(installer, exec, e, code, views, s, b, j)
      ensures |views| == j + 1 && Follows(exec, e, views[j], s, b, j)
    {
      OriginalRuns(installer, exec, e, code, views, s, b, j);
    }
    if Restores(e, s', b, info, ret) {
      forall hidden, code, views, s, j: nat |
        Replays(s, s', b, ret, hidden) && Called(installer, exec, e, code, views, s, j, hidden)
        ensures |views| == j + 1 && Follows(exec, e, views[j], s, b, j)
      {
        assert Agree(s.core, b.core, View(hidden, {14, 15, 17}));
        assert Entered(installer, exec, e, code, views, s, b, j);
      }
    }
  }

  // After any handling of the call s' that goes to the original.
  ghost predicate AfterHandler(installer: Installer, exec: Exec, e: HookEntry, s': State, info: U64, ret: U64)
    reads installer, e
  {
    forall b: State | Released(installer, e, b) ::
      && GoesOn(installer, exec, e, b)
      && (Restores(e, s', b, info, ret) ==> GoesOnAsCalled(installer, exec, e, s', b, ret))
  }

  /**
   * Calling an instrumented target reaches the bridge with the entry's own info. From wherever dbi_call then leaves
   * registers and memory, the run leaves the window for the same place and in the same state as the unhooked target
   * entered there; with the registers restored, as it does when called with them, if it does not read X14, X15 and X17.
   */
  lemma InstrumentedTarget(installer: Installer, exec: Exec, e: HookEntry, s': State)
    requires installer.Sound() && e in installer.hookEntries && e.hookType == Dbi
    requires s'.core.mem == installer.engine.process.mem && s'.pc == e.targetAddress
    ensures exists k: nat, info: U64 ::
              && Reaches(installer, exec, s', e.Destination(), installer.dbiHandler, e.id, e.Destination(), k, info)
              && AfterHandler(installer, exec, e, s', info, s'.core.x[30])
  {
    hide Installer.Sound, Run, GoesOn, GoesOnAsCalled, SlotFor, Released, Restores;
    HookedCallReachesHandler(installer, exec, e, s');
    var k: nat, info: U64 :|
      Reaches(installer, exec, s', e.Destination(), installer.dbiHandler, e.id, e.Destination(), k, info);
    forall b: State | Released(installer, e, b)
      ensures GoesOn(installer, exec, e, b)
      ensures Restores(e, s', b, info, s'.core.x[30]) ==>
                GoesOnAsCalled(installer, exec, e, s', b, s'.core.x[30])
    {
      BridgePassed(installer, exec, e, s', b, info, s'.core.x[30]);
    }
  }

  /** The same for a wrapped target and pre_call, the return address being the entry's own leave slot. */
  lemma WrappedTarget(installer: Installer, exec: Exec, e: HookEntry, s': State)
    requires installer.Sound() && e in installer.hookEntries && e.hookType == PrePost
    requires s'.core.mem == installer.engine.process.mem && s'.pc == e.targetAddress
    ensures NextHop(e) == if e.replaceCall != 0 then e.replaceCall else e.onInvokeTrampoline
    ensures exists k: nat, info: U64 ::
              && Reaches(installer, exec, s', e.Destination(), installer.beginHandler, e.id, e.Destination(), k, info)
              && AfterHandler(installer, exec, e, s', info, e.onLeaveTrampoline)
  {
    hide Installer.Sound, Run, GoesOn, GoesOnAsCalled, SlotFor, Released, Restores;
    HookedCallReachesHandler(installer, exec, e, s');
    var k: nat, info: U64 :|
      Reaches(installer, exec, s', e.Destination(), installer.beginHandler, e.id, e.Destination(), k, info);
    forall b: State | Released(installer, e, b)
      ensures GoesOn(installer, exec, e, b)
      ensures Restores(e, s', b, info, e.onLeaveTrampoline) ==>
                GoesOnAsCalled(installer, exec, e, s', b, e.onLeaveTrampoline)
    {
      BridgePassed(installer, exec, e, s', b, info, e.onLeaveTrampoline);
    }
  }
}
