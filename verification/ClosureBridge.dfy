/** Closure slots: per-entry stubs that hand their info to one common bridge (closure_bridge.c). */
module ClosureBridge {
  import opened Numbers
  import opened A64Encoding
  import opened A64Machine
  import opened A64Relocation
  import opened ProcessMemory

  const SLOT_SIZE: nat := 28

  // ldr x14, #0xc; ldr x15, #0x10; br x15
  function SlotCode(): (b: seq<bv8>)
    ensures |b| == 12
  {
    WordBytes(LdrRegImmWord(14, 0xc)) + WordBytes(LdrRegImmWord(15, 0x10)) + WordBytes(BrRegWord(15))
  }

  // closure_bridge_trampoline_template: the stub with its two literals still zero.
  function Template(): (b: seq<bv8>)
    ensures |b| == SLOT_SIZE
  {
    SlotCode() + seq(16, _ => 0)
  }

  // A stub bound to an info and the bridge.
  function SlotBytes(info: U64, bridge: U64): (b: seq<bv8>)
    ensures |b| == SLOT_SIZE
  {
    SlotCode() + AddressBytes(info) + AddressBytes(bridge)
  }

  /** Executing a bound slot loads X14 with its info and jumps to the bridge. */
  lemma SlotRuns(exec: Exec, s: State, info: U64, bridge: U64)
    requires BytesAt(s.core.mem, s.pc, SlotBytes(info, bridge)) && 0 <= s.pc < TWO_64 - 0x20
    ensures Run(exec, s, 3) == State(SetX(SetX(s.core, 14, info), 15, bridge), bridge)
  {
    hide Decode, WordBytes, AddressBytes, LdrRegImmWord, BrRegWord, Step;
    var m := s.core.mem;
    var w0, w1, w2 := LdrRegImmWord(14, 0xc), LdrRegImmWord(15, 0x10), BrRegWord(15);
    BytesAtSplit(m, s.pc, SlotCode() + AddressBytes(info), AddressBytes(bridge));
    BytesAtSplit(m, s.pc, SlotCode(), AddressBytes(info));
    BytesAtSplit(m, s.pc, WordBytes(w0) + WordBytes(w1), WordBytes(w2));
    BytesAtSplit(m, s.pc, WordBytes(w0), WordBytes(w1));
    DecodeEmitted(14);
    DecodeEmitted(15);
    StepLoadsLiteral(exec, s, w0, 14, 3, info);
    var s1 := State(SetX(s.core, 14, info), s.pc + 4);
    StepLoadsLiteral(exec, s1, w1, 15, 4, bridge);
    var s2 := State(SetX(s1.core, 15, bridge), s.pc + 8);
    StepJumps(exec, s2, 15);
    RunThree(exec, s, s1, s2, State(s2.core, bridge), iset{s.pc, s1.pc, s2.pc});
  }

  // ----- one page of slots -----

  function SlotAddress(page: int, i: nat): int {
    page + SLOT_SIZE * i
  }

  // The first |bound| of t slots carry their infos, the others are blank.
  ghost predicate SlotsAt(m: Mem, page: int, t: nat, bound: seq<U64>, bridge: U64) {
    && |bound| <= t
    && (forall i :: 0 <= i < |bound| ==> BytesAt(m, SlotAddress(page, i), SlotBytes(bound[i], bridge)))
    && (forall i: nat :: |bound| <= i < t ==> BytesAt(m, SlotAddress(page, i), Template()))
  }

  lemma SlotsKept(m: Mem, m': Mem, a: int, n: nat, page: int, t: nat, bound: seq<U64>, bridge: U64)
    requires SameOutside(m, m', a, n) && SlotsAt(m, page, t, bound, bridge)
    requires page + SLOT_SIZE * t <= a || a + n <= page
    ensures SlotsAt(m', page, t, bound, bridge)
  {
    hide BytesAt, SlotBytes, Template, SameOutside;
    forall i | 0 <= i < |bound| ensures BytesAt(m', SlotAddress(page, i), SlotBytes(bound[i], bridge)) {
      BytesKept(m, m', a, n, SlotAddress(page, i), SlotBytes(bound[i], bridge));
    }
    forall i: nat | |bound| <= i < t ensures BytesAt(m', SlotAddress(page, i), Template()) {
      BytesKept(m, m', a, n, SlotAddress(page, i), Template());
    }
  }

  // Writing the two literals of the next blank slot binds it and touches no other slot.
  lemma BindNext(m: Mem, page: int, t: nat, bound: seq<U64>, bridge: U64, info: U64)
    requires SlotsAt(m, page, t, bound, bridge) && |bound| < t
    ensures var slot := SlotAddress(page, |bound|);
            var m' := Write(Write(m, slot + 4 * 3, AddressBytes(info)), slot + 4 * 5, AddressBytes(bridge));
            SlotsAt(m', page, t, bound + [info], bridge) && SameOutside(m, m', slot, SLOT_SIZE)
  {
    hide BytesAt, SlotBytes, Template, SlotsAt, SlotCode, AddressBytes, Write;
    var n := |bound|;
    var slot := SlotAddress(page, n);
    var m1 := Write(m, slot + 4 * 3, AddressBytes(info));
    var m' := Write(m1, slot + 4 * 5, AddressBytes(bridge));
    WriteThenRead(m, slot + 4 * 3, AddressBytes(info));
    WriteThenRead(m1, slot + 4 * 5, AddressBytes(bridge));
    SlotBound(m, m1, m', slot, info, bridge, page, t, bound);
    OtherSlots(m, m', page, t, bound, bridge, info);
  }

  lemma SlotBound(m: Mem, m1: Mem, m': Mem, slot: int, info: U64, bridge: U64, page: int, t: nat, bound: seq<U64>)
    requires SlotsAt(m, page, t, bound, bridge) && |bound| < t && slot == SlotAddress(page, |bound|)
    requires SameOutside(m, m1, slot + 4 * 3, 8) && SameOutside(m1, m', slot + 4 * 5, 8)
    requires BytesAt(m1, slot + 4 * 3, AddressBytes(info)) && BytesAt(m', slot + 4 * 5, AddressBytes(bridge))
    ensures BytesAt(m', slot, SlotBytes(info, bridge)) && SameOutside(m, m', slot, SLOT_SIZE)
  {
    hide BytesAt, SlotCode, AddressBytes;
    assert BytesAt(m, slot, Template());
    BytesAtSplit(m, slot, SlotCode(), seq(16, _ => 0));
    BytesKept(m, m1, slot + 4 * 3, 8, slot, SlotCode());
    BytesKept(m1, m', slot + 4 * 5, 8, slot, SlotCode());
    BytesKept(m1, m', slot + 4 * 5, 8, slot + 4 * 3, AddressBytes(info));
    BytesAtSplit(m', slot, SlotCode(), AddressBytes(info));
    BytesAtSplit(m', slot, SlotCode() + AddressBytes(info), AddressBytes(bridge));
  }

  lemma OtherSlots(m: Mem, m': Mem, page: int, t: nat, bound: seq<U64>, bridge: U64, info: U64)
    requires SlotsAt(m, page, t, bound, bridge) && |bound| < t
    requires SameOutside(m, m', SlotAddress(page, |bound|), SLOT_SIZE)
    requires BytesAt(m', SlotAddress(page, |bound|), SlotBytes(info, bridge))
    ensures SlotsAt(m', page, t, bound + [info], bridge)
  {
    hide BytesAt, SlotBytes, Template, SameOutside;
    var n, bound' := |bound|, bound + [info];
    forall i | 0 <= i < |bound'| ensures BytesAt(m', SlotAddress(page, i), SlotBytes(bound'[i], bridge)) {
      if i < n {
        BytesKept(m, m', SlotAddress(page, n), SLOT_SIZE, SlotAddress(page, i), SlotBytes(bound[i], bridge));
      }
    }
    forall i: nat | |bound'| <= i < t ensures BytesAt(m', SlotAddress(page, i), Template()) {
      BytesKept(m, m', SlotAddress(page, n), SLOT_SIZE, SlotAddress(page, i), Template());
    }
  }

  // ----- tables -----

  // ClosureBridgeInfo, malloc'ed at `address`.
  datatype Info = Info(address: U64, userCode: U64, userData: U64, redirectTrampoline: int)

  class Table {
    const trampolinePage: int
    var usedCount: nat
    var freeCount: nat
    ghost var bound: seq<U64> // addresses of the infos of the slots handed out, in order

    constructor (page: int, t: nat)
      ensures trampolinePage == page && usedCount == 0 && freeCount == t && bound == []
    {
      trampolinePage := page;
      usedCount, freeCount := 0, t;
      bound := [];
    }

    ghost predicate Valid(m: Mem, t: nat, bridge: U64)
      reads this
    {
      usedCount == |bound| && usedCount + freeCount == t && SlotsAt(m, trampolinePage, t, bound, bridge)
    }
  }

  class Bridge {
    const process: Process
    const bridgeTemplate: U64
    var bridgeInfos: seq<Info>
    var trampolineTables: seq<Table>

    const perPage: nat := process.pageSize / SLOT_SIZE

    ghost predicate Valid()
      reads this, process, trampolineTables
    {
      && 0 < perPage < 0x1_0000
      && (forall i :: 0 <= i < |trampolineTables| ==> trampolineTables[i].Valid(process.mem, perPage, bridgeTemplate))
      && (forall i, j :: 0 <= i < j < |trampolineTables| ==> trampolineTables[i] != trampolineTables[j])
      && (forall i, j :: 0 <= i < j < |trampolineTables| ==>
        Clear(trampolineTables[i].trampolinePage, process.pageSize, trampolineTables[j].trampolinePage,
              process.pageSize))
    }

    ghost function Pages(): (p: seq<int>)
      reads this
      ensures |p| == |trampolineTables|
      ensures forall i :: 0 <= i < |p| ==> p[i] == trampolineTables[i].trampolinePage
    {
      seq(|trampolineTables|, i requires 0 <= i < |trampolineTables| reads this => trampolineTables[i].trampolinePage)
    }

    // Per table, the infos its slots are bound to.
    ghost function Bounds(): (b: seq<seq<U64>>)
      reads this, trampolineTables
      ensures |b| == |trampolineTables|
      ensures forall i :: 0 <= i < |b| ==> b[i] == trampolineTables[i].bound
    {
      seq(|trampolineTables|, i requires 0 <= i < |trampolineTables| reads this, trampolineTables =>
        trampolineTables[i].bound)
    }

    // A page the environment may hand out next.
    ghost predicate FreshPage(page: int)
      reads this
    {
      forall i :: 0 <= i < |trampolineTables| ==>
        Clear(trampolineTables[i].trampolinePage, process.pageSize, page, process.pageSize)
    }

    constructor (process: Process, bridgeTemplate: U64)
      requires SLOT_SIZE <= process.pageSize < 0x1_0000 * SLOT_SIZE
      ensures Valid() && trampolineTables == [] && bridgeInfos == []
      ensures this.process == process && this.bridgeTemplate == bridgeTemplate
    {
      this.process := process;
      this.bridgeTemplate := bridgeTemplate;
      bridgeInfos := [];
      trampolineTables := [];
    }

    // Copies the template over the whole page.
    method InitializeTablePage(page: int) returns (table: Table)
      requires perPage > 0
      modifies process
      ensures fresh(table) && table.trampolinePage == page && table.bound == []
      ensures table.Valid(process.mem, perPage, bridgeTemplate) && table.freeCount == process.pageSize / 28
      ensures SameOutside(old(process.mem), process.mem, page, process.pageSize)
    {
      hide BytesAt, Template, Write;
      var t := process.pageSize / SLOT_SIZE;
      var i := 0;
      while i < t
        invariant i <= t
        invariant forall k: nat :: k < i ==> BytesAt(process.mem, SlotAddress(page, k), Template())
        invariant SameOutside(old(process.mem), process.mem, page, process.pageSize)
      {
        ghost var m := process.mem;
        var copy := page + i * SLOT_SIZE;
        process.Store(copy, Template());
        WriteThenRead(m, copy, Template());
        forall k: nat | k < i + 1 ensures BytesAt(process.mem, SlotAddress(page, k), Template()) {
          if k < i {
            BytesKept(m, process.mem, copy, SLOT_SIZE, SlotAddress(page, k), Template());
          }
        }
        i := i + 1;
      }
      table := new Table(page, t);
    }

    method AllocateClosureBridgeTrampolineTable(page: int) returns (table: Table)
      requires Valid() && FreshPage(page)
      modifies process, this`trampolineTables
      ensures Valid() && fresh(table) && table.trampolinePage == page && table.bound == []
      ensures trampolineTables == old(trampolineTables) + [table] && table.freeCount == process.pageSize / 28
      ensures SameOutside(old(process.mem), process.mem, page, process.pageSize)
    {
      hide SlotsAt, SameOutside;
      table := InitializeTablePage(page);
      forall i | 0 <= i < |trampolineTables|
        ensures trampolineTables[i].Valid(process.mem, perPage, bridgeTemplate)
      {
        var tt := trampolineTables[i];
        assert Clear(tt.trampolinePage, process.pageSize, page, process.pageSize);
        SlotsKept(old(process.mem), process.mem, page, process.pageSize, tt.trampolinePage, perPage, tt.bound,
                  bridgeTemplate);
      }
      trampolineTables := trampolineTables + [table];
    }

    // Binds the next free slot of the table to the info.
    method InitializeClosureBridgeInfo(table: Table, infoAddress: U64, userData: U64,
                                       userCode: U64) returns (info: Info)
      requires Valid() && table in trampolineTables && table.freeCount > 0
      modifies process, table
      ensures Valid() && table.bound == old(table.bound) + [infoAddress]
      ensures info == Info(infoAddress, userCode, userData, SlotAddress(table.trampolinePage, |old(table.bound)|))
      ensures SameOutside(old(process.mem), process.mem, info.redirectTrampoline, SLOT_SIZE)
    {
      hide SlotsAt, SameOutside, Write, AddressBytes;
      var trampolineUsedCount := table.usedCount;
      ghost var bound := table.bound;
      var redirect := table.trampolinePage + SLOT_SIZE * trampolineUsedCount;
      info := Info(infoAddress, userCode, userData, redirect);
      BindNext(process.mem, table.trampolinePage, perPage, bound, bridgeTemplate, infoAddress);
      table.usedCount := table.usedCount + 1;
      table.freeCount := table.freeCount - 1;
      table.bound := bound + [infoAddress];
      process.Store(redirect + 4 * 3, AddressBytes(infoAddress));
      process.Store(redirect + 4 * 5, AddressBytes(bridgeTemplate));
      forall i | 0 <= i < |trampolineTables|
        ensures trampolineTables[i].Valid(process.mem, perPage, bridgeTemplate)
      {
        var tt := trampolineTables[i];
        if tt != table {
          SlotInPage(|bound|);
          SlotsKept(old(process.mem), process.mem, redirect, SLOT_SIZE, tt.trampolinePage, perPage, tt.bound,
                    bridgeTemplate);
        }
      }
    }

    lemma SlotInPage(i: nat)
      requires i < perPage
      ensures SLOT_SIZE * i + SLOT_SIZE <= SLOT_SIZE * perPage <= process.pageSize
    {
    }

    /**
     * Hands out a slot bound to the entry. It is taken from the last table with a free slot, or from a new page
     * when no table has one; all slots handed out before keep theirs.
     */
    method AllocateClosureBridge(userData: U64, userCode: U64, infoAddress: U64, page: int)
        returns (info: Info, ghost from: nat)
      requires Valid() && FreshPage(page)
      modifies process, this`trampolineTables, this`bridgeInfos, trampolineTables
      ensures Valid() && bridgeInfos == old(bridgeInfos) + [info]
      ensures old(trampolineTables) <= trampolineTables && from < |trampolineTables| <= |old(trampolineTables)| + 1
      ensures info.address == infoAddress && info.userCode == userCode && info.userData == userData
      ensures var table := trampolineTables[from];
              var before := if from < |old(trampolineTables)| then old(table.bound) else [];
              && table.bound == before + [infoAddress]
              && info.redirectTrampoline == SlotAddress(table.trampolinePage, |before|)
              && info.redirectTrampoline == table.trampolinePage + 28 * |before|
              && SameOutside(old(process.mem), process.mem, table.trampolinePage, process.pageSize)
      ensures forall i :: 0 <= i < |old(trampolineTables)| && i != from ==>
                trampolineTables[i].bound == old(trampolineTables[i].bound)
      ensures from == |old(trampolineTables)| ==>
                && trampolineTables[from].trampolinePage == page && fresh(trampolineTables[from])
                && forall i :: 0 <= i < |old(trampolineTables)| ==> old(trampolineTables[i].freeCount) == 0
      ensures from < |old(trampolineTables)| ==>
                && trampolineTables == old(trampolineTables) && old(trampolineTables[from].freeCount) > 0
                && forall i :: from < i < |old(trampolineTables)| ==> old(trampolineTables[i].freeCount) == 0
    {
      hide SlotsAt, SameOutside;
      var table: Table? := null;
      var i := 0;
      from := |trampolineTables|;
      while i < |trampolineTables|
        invariant i <= |trampolineTables|
        invariant if table == null
                  then from == |trampolineTables| && forall j :: 0 <= j < i ==> trampolineTables[j].freeCount == 0
                  else from < i && table == trampolineTables[from] && table.freeCount > 0
                       && forall j :: from < j < i ==> trampolineTables[j].freeCount == 0
      {
        var tmpTable := trampolineTables[i];
        if tmpTable.freeCount > 0 {
          table, from := tmpTable, i;
        }
        i := i + 1;
      }
      ghost var m := process.mem;
      if table == null {
        table := AllocateClosureBridgeTrampolineTable(page);
      }
      ghost var m1 := process.mem;
      assert table == trampolineTables[from];
      SlotInPage(table.usedCount);
      info := InitializeClosureBridgeInfo(table, infoAddress, userData, userCode);
      WithinPage(m, m1, process.mem, table.trampolinePage, info.redirectTrampoline);
      bridgeInfos := bridgeInfos + [info];
    }

    lemma WithinPage(m: Mem, m1: Mem, m2: Mem, page: int, slot: int)
      requires SameOutside(m, m1, page, process.pageSize) || m == m1
      requires SameOutside(m1, m2, slot, SLOT_SIZE)
      requires page <= slot && slot + SLOT_SIZE <= page + process.pageSize
      ensures SameOutside(m, m2, page, process.pageSize)
    {
    }

    /** Slots handed out are disjoint ranges of the pages. */
    lemma SlotsDisjoint(i: nat, k: nat, j: nat, l: nat)
      requires Valid() && i < |trampolineTables| && j < |trampolineTables|
      requires k < |trampolineTables[i].bound| && l < |trampolineTables[j].bound| && (i != j || k != l)
      ensures var a, b := SlotAddress(trampolineTables[i].trampolinePage, k),
                          SlotAddress(trampolineTables[j].trampolinePage, l);
              a + 28 <= b || b + 28 <= a
    {
      hide SlotBytes, Template, BytesAt;
      SlotInPage(k);
      SlotInPage(l);
      if i < j {
        assert Clear(trampolineTables[i].trampolinePage, process.pageSize, trampolineTables[j].trampolinePage,
                     process.pageSize);
      } else if j < i {
        assert Clear(trampolineTables[j].trampolinePage, process.pageSize, trampolineTables[i].trampolinePage,
                     process.pageSize);
      }
    }

    /** However many slots were handed out since, a slot still passes its own info to the bridge. */
    lemma EverySlotRuns(exec: Exec, i: nat, k: nat, s: State)
      requires Valid() && i < |trampolineTables| && k < |trampolineTables[i].bound|
      requires s.core.mem == process.mem && s.pc == trampolineTables[i].trampolinePage + 28 * k
      requires 0 <= s.pc < TWO_64 - 0x20
      ensures var info := trampolineTables[i].bound[k];
              Run(exec, s, 3) == State(SetX(SetX(s.core, 14, info), 15, bridgeTemplate), bridgeTemplate)
    {
      hide SlotBytes, Template, BytesAt, Run, SetX;
      SlotRuns(exec, s, trampolineTables[i].bound[k], bridgeTemplate);
    }
  }
}
