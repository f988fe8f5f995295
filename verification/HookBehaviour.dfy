/** What running a hooked target, and running its original through on_invoke_trampoline, does. */
module HookBehaviour {
  import opened A64Encoding
  import opened A64Machine
  import opened A64Relocation
  import opened A64NearBranch
  import opened A64Simulation
  import opened HookEngine
  import opened HookInstaller
  import CB = ClosureBridge

  // ----- what the records say is in memory -----

  lemma WrittenIsThere(engine: Engine, a: int, b: seq<bv8>)
    requires engine.Valid() && Written(engine.Recorded(), a, b)
    ensures BytesAt(engine.process.mem, a, b)
  {
    hide BytesAt, Separate, CB.Bridge.Valid;
    var l, m := engine.Recorded(), engine.process.mem;
    if k :| 0 <= k < |l.contents| && k < |l.cuts| && l.contents[k] == b && l.cuts[k].slice.data == a {
      assert SliceHolds(m, l.cuts[k].slice, l.contents[k]);
    } else {
      var k :| 0 <= k < |l.patches| && l.patches[k] == Patch(a, b);
      assert BytesAt(m, l.patches[k].address, l.patches[k].bytes);
    }
  }

  lemma SlotIsThere(engine: Engine, info: CB.Info)
    requires engine.Valid() && SlotFor(engine.Recorded(), info)
    ensures BytesAt(engine.process.mem, info.redirectTrampoline,
                    CB.SlotBytes(info.address, engine.bridge.bridgeTemplate))
  {
    hide BytesAt, Separate, Holds, CB.SlotBytes, CB.Template;
    var l := engine.Recorded();
    var j, i :| 0 <= j < |l.bounds| && j < |l.slotPages| && 0 <= i < |l.bounds[j]| && l.bounds[j][i] == info.address
      && info.redirectTrampoline == CB.SlotAddress(l.slotPages[j], i);
    var t := engine.bridge.trampolineTables[j];
    assert t.Valid(engine.process.mem, engine.bridge.perPage, engine.bridge.bridgeTemplate);
  }

  // ----- the redirect -----

  lemma RunsNearBranch(exec: Exec, s: State, to: U64)
    requires 0 <= s.pc < TWO_64 && BytesAt(s.core.mem, s.pc, WordBytes(BImmWord(AsUint64(Wrap(to - s.pc)))))
    requires (to - s.pc) % 4 == 0 && -0x800_0000 <= to - s.pc < 0x800_0000
    ensures Step(exec, s) == State(s.core, to)
  {
    hide Decode, WordBytes, BImmWord, AsUint64, Wrap;
    var w := BImmWord(AsUint64(Wrap(to - s.pc)));
    NearBranchReaches(s.pc, to);
    StepIs(exec, s, w, Decode(w));
  }

  lemma RunsRedirect(exec: Exec, s: State, to: U64)
    requires BytesAt(s.core.mem, s.pc, Redirect(to)) && InRange(s.pc, 16)
    ensures Run(exec, s, 2) == Leave(s.core, to)
  {
    hide Redirect, Step, Run, Leave;
    RunRedirect(exec, s, to, iset{s.pc, s.pc + 4});
  }

  // A redirect by way of on_enter_transfer_trampoline ends like a direct one.
  lemma TwoRedirects(exec: Exec, s: State, first: U64, to: U64)
    requires BytesAt(s.core.mem, s.pc, Redirect(first)) && InRange(s.pc, 16)
    requires BytesAt(s.core.mem, first, Redirect(to)) && InRange(first, 16)
    ensures Run(exec, s, 4) == Leave(s.core, to)
  {
    hide Redirect, Step;
    RunsRedirect(exec, s, first);
    var s1 := Leave(s.core, first);
    RunsRedirect(exec, s1, to);
    RunAdds(exec, s, 2, 2, iset{});
    assert s.core.x[17 := first][17 := to] == s.core.x[17 := to];
  }

  lemma NearRedirect(exec: Exec, s: State, first: U64, to: U64)
    requires 0 <= s.pc < TWO_64 && BytesAt(s.core.mem, s.pc, WordBytes(BImmWord(AsUint64(Wrap(first - s.pc)))))
    requires (first - s.pc) % 4 == 0 && -BXXX_RANGE <= first - s.pc <= BXXX_RANGE
    requires BytesAt(s.core.mem, first, Redirect(to)) && InRange(first, 16)
    ensures Run(exec, s, 3) == Leave(s.core, to)
  {
    hide Redirect, Step, BytesAt, BImmWord, AsUint64, Leave;
    RunsNearBranch(exec, s, first);
    var s1 := State(s.core, first);
    RunsRedirect(exec, s1, to);
    assert Run(exec, s, 3) == Run(exec, s1, 2);
  }

  // The steps to the destination, for the 4-byte B and for the 16-byte jump.
  function RedirectSteps(e: HookEntry): nat
    reads e
  {
    if e.isTryNearJump then 3 else if e.hookType == Replace then 4 else 2
  }

  /**
   * Calling a hooked target, whether the redirect is the 4-byte B or the 16-byte jump, ends at the replacement of a
   * replaced function, else at the slot of the type's handler. Nothing has changed but X17, which holds that address.
   */
  lemma HookedCall(installer: Installer, exec: Exec, e: HookEntry, s: State)
    requires installer.Sound() && e in installer.hookEntries
    requires s.core.mem == installer.engine.process.mem && s.pc == e.targetAddress
    ensures var s' := Run(exec, s, RedirectSteps(e));
            && (e.hookType == Replace ==> s'.pc == e.replaceCall)
            && (e.hookType == Dbi ==> s'.pc == e.onDbiTrampoline)
            && (e.hookType == PrePost ==> s'.pc == e.onEnterTrampoline)
            && s'.core == s.core.(x := s.core.x[17 := s'.pc])
    ensures Run(exec, s, RedirectSteps(e)) == Leave(s.core, e.Destination())
  {
    hide Redirect, Run, Engine.Valid, Engine.Recorded, BImmWord, AsUint64, BytesAt, HasSlot,
      Installer.InvokeCode, WordBytes, Wrap;
    var engine := installer.engine;
    var l, to := engine.Recorded(), e.Destination();
    assert installer.Installed(l, e);
    WrittenIsThere(engine, e.targetAddress, e.RedirectBytes());
    assert InRange(s.pc, |e.RedirectBytes()|) by { hide WrittenAs; }
    if e.UsesTransfer() {
      WrittenIsThere(engine, e.onEnterTransferTrampoline, Redirect(to));
      assert InRange(e.onEnterTransferTrampoline, 16) by { hide WrittenAs; }
      if e.limitRelocateInstSize == ARM64_TINY_REDIRECT_SIZE {
        NearRedirect(exec, s, e.onEnterTransferTrampoline, to);
      } else {
        TwoRedirects(exec, s, e.onEnterTransferTrampoline, to);
      }
    } else {
      RunsRedirect(exec, s, to);
    }
  }

  // ----- the handlers -----

  ghost predicate Reaches(installer: Installer, exec: Exec, s: State, slot: U64, code: U64, data: U64, x17: U64, k: nat,
                          info: U64)
    reads installer.engine, installer.engine.process, installer.engine.manager, installer.engine.bridge,
      installer.engine.bridge.trampolineTables
  {
    var bridge := installer.engine.bridge.bridgeTemplate;
    && SlotFor(installer.engine.Recorded(), CB.Info(info, code, data, slot))
    && Run(exec, s, k) == State(SetX(SetX(SetX(s.core, 17, x17), 14, info), 15, bridge), bridge)
  }

  lemma SlotReaches(installer: Installer, exec: Exec, s: State, slot: U64, code: U64, data: U64)
    requires installer.Sound() && HasSlot(installer.engine.Recorded(), code, data, slot)
    requires s.core.mem == installer.engine.process.mem && s.pc == slot
    ensures exists info: U64 :: Reaches(installer, exec, s, slot, code, data, s.core.x[17], 3, info)
  {
    hide Run, Engine.Valid, Engine.Recorded, CB.SlotBytes, BytesAt;
    var engine := installer.engine;
    var info: U64 :| SlotFor(engine.Recorded(), CB.Info(info, code, data, slot));
    SlotIsThere(engine, CB.Info(info, code, data, slot));
    CB.SlotRuns(exec, s, info, engine.bridge.bridgeTemplate);
    assert s.core.x[17 := s.core.x[17]] == s.core.x;
    assert Reaches(installer, exec, s, slot, code, data, s.core.x[17], 3, info);
  }

  /**
   * Calling a wrapped or instrumented target runs the common bridge with X14 pointing to an info that carries
   * the entry and its begin (or instrumentation) handler.
   */
  lemma HookedCallReachesHandler(installer: Installer, exec: Exec, e: HookEntry, s: State)
    requires installer.Sound() && e in installer.hookEntries && (e.hookType == PrePost || e.hookType == Dbi)
    requires s.core.mem == installer.engine.process.mem && s.pc == e.targetAddress
    ensures var code := if e.hookType == Dbi then installer.dbiHandler else installer.beginHandler;
            exists k: nat, info: U64 ::
              Reaches(installer, exec, s, e.Destination(), code, e.id, e.Destination(), k, info)
  {
    hide Run, Engine.Valid, Engine.Recorded, SlotFor, Written, Installer.InvokeCode, Step;
    var to := e.Destination();
    var code := if e.hookType == Dbi then installer.dbiHandler else installer.beginHandler;
    HookedCall(installer, exec, e, s);
    var k := RedirectSteps(e);
    var s1 := Leave(s.core, to);
    assert installer.Installed(installer.engine.Recorded(), e);
    SlotReaches(installer, exec, s1, to, code, e.id);
    var info: U64 :| Reaches(installer, exec, s1, to, code, e.id, s1.core.x[17], 3, info);
    RunAdds(exec, s, k, 3, iset{});
    assert s.core.x[17 := to][17 := to] == s.core.x[17 := to];
    assert Reaches(installer, exec, s, to, code, e.id, to, k + 3, info);
  }

  /** Returning to the address a wrapped call left behind runs the bridge with the entry's end handler. */
  lemma HookedReturnReachesHandler(installer: Installer, exec: Exec, e: HookEntry, s: State)
    requires installer.Sound() && e in installer.hookEntries && e.hookType == PrePost
    requires s.core.mem == installer.engine.process.mem && s.pc == e.onLeaveTrampoline
    ensures exists info: U64 ::
              Reaches(installer, exec, s, e.onLeaveTrampoline, installer.endHandler, e.id, s.core.x[17], 3, info)
  {
    hide Run, Engine.Valid, Engine.Recorded, SlotFor, Written, Installer.InvokeCode, Reaches;
    assert installer.Installed(installer.engine.Recorded(), e);
    SlotReaches(installer, exec, s, e.onLeaveTrampoline, installer.endHandler, e.id);
  }

  // ----- the original -----

  lemma PrologueAt(m: Mem, a: int, b: seq<bv8>)
    requires BytesAt(m, a, b) && |b| % 4 == 0
    ensures WordsAt(m, a, PrologueWords(b))
  {
    hide PackWord;
    assert b == BytesOf(m, a, |b|);
    SavedWords(m, a, |b|);
  }

  /**
   * Entering on_invoke_trampoline where its code is in memory, though memory and registers the original does not read
   * may differ, does what entering the target did in a process that still holds the saved prologue.
   */
  lemma OriginalRuns(installer: Installer, exec: Exec, e: HookEntry, code: iset<int>, views: seq<View>, s: State,
                     s': State, j: nat)
    requires installer.Sound() && e in installer.hookEntries
    requires BytesAt(s.core.mem, e.targetAddress, e.originPrologue) && s.pc == e.targetAddress
    requires BytesAt(s'.core.mem, e.onInvokeTrampoline, installer.InvokeCode(e)) && s'.pc == e.onInvokeTrampoline
    requires Range(e.targetAddress, |e.originPrologue|, code)
    requires Range(e.onInvokeTrampoline, |installer.InvokeCode(e)|, code)
    requires SafeRun(exec, s, j, e.targetAddress, e.targetAddress + |e.originPrologue|, code, views)
    requires Agree(s.core, s'.core, views[0])
    ensures exists k: nat :: Exits(exec, PrologueWords(e.originPrologue), e.targetAddress, e.onInvokeTrampoline,
                                   Run(exec, s, j), s', k, views[j])
  {
    hide Run, Engine.Valid, Engine.Recorded, SlotFor, WrittenAs, ExpandAll, Redirect, Decode, Agree, SafeRun, Exits,
      HasSlot, BytesAt, PrologueWords, OutIndex;
    var ws, base, t := PrologueWords(e.originPrologue), e.targetAddress, e.onInvokeTrampoline;
    assert installer.Installed(installer.engine.Recorded(), e);
    PrologueAt(s.core.mem, base, e.originPrologue);
    EntryInRange(installer, e);
    assert ws[..0] == [];
    assert OutIndex([]) == 0 by { EmptyOut(); }
    RelocationSimulates(exec, ws, base, t, code, views, 0, s, s', j);
  }

  lemma InvokeIsThere(installer: Installer, e: HookEntry)
    requires installer.Sound() && e in installer.hookEntries
    ensures BytesAt(installer.engine.process.mem, e.onInvokeTrampoline, installer.InvokeCode(e))
  {
    hide Engine.Valid, Engine.Recorded, SlotFor, WrittenAs, HasSlot, BytesAt, Installer.InvokeCode;
    assert installer.Installed(installer.engine.Recorded(), e);
    WrittenIsThere(installer.engine, e.onInvokeTrampoline, installer.InvokeCode(e));
  }

  /** So it does in the process as it is now, after any number of later hooks. */
  lemma OriginalSimulated(installer: Installer, exec: Exec, e: HookEntry, code: iset<int>, views: seq<View>, s: State,
                          s': State, j: nat)
    requires installer.Sound() && e in installer.hookEntries
    requires BytesAt(s.core.mem, e.targetAddress, e.originPrologue) && s.pc == e.targetAddress
    requires s'.core.mem == installer.engine.process.mem && s'.pc == e.onInvokeTrampoline
    requires Range(e.targetAddress, |e.originPrologue|, code)
    requires Range(e.onInvokeTrampoline, |installer.InvokeCode(e)|, code)
    requires SafeRun(exec, s, j, e.targetAddress, e.targetAddress + |e.originPrologue|, code, views)
    requires Agree(s.core, s'.core, views[0])
    ensures exists k: nat :: Exits(exec, PrologueWords(e.originPrologue), e.targetAddress, e.onInvokeTrampoline,
                                   Run(exec, s, j), s', k, views[j])
  {
    hide Installer.Sound, BytesAt, SafeRun, Agree, Exits, Run, Installer.InvokeCode;
    InvokeIsThere(installer, e);
    OriginalRuns(installer, exec, e, code, views, s, s', j);
  }

  lemma EmptyOut()
    ensures OutIndex([]) == 0
  {
  }

  lemma EntryInRange(installer: Installer, e: HookEntry)
    requires installer.Sound() && e in installer.hookEntries
    ensures e.targetAddress + |e.originPrologue| < TWO_64 && (|e.originPrologue| == 4 || |e.originPrologue| == 16)
    ensures e.onInvokeTrampoline + |installer.InvokeCode(e)| + 0x100 < TWO_64
    ensures |installer.InvokeCode(e)| == 4 * OutIndex(PrologueWords(e.originPrologue)) + 16
  {
    hide Engine.Valid, Engine.Recorded, SlotFor, WrittenAs, ExpandAll, Redirect, OutIndex, HasSlot;
    assert installer.Installed(installer.engine.Recorded(), e);
  }
}
