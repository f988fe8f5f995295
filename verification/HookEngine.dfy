/**
 * The memory HookZz owns while it installs hooks: code slices, closure slots, patched windows and caves,
 * and the invariant that none of them ever overwrites another.
 */
module HookEngine {
  import opened Numbers
  import opened A64Encoding
  import opened A64Machine
  import opened ProcessMemory
  import MM = MemoryManager
  import CB = ClosureBridge

  // Bytes written over memory of the process: a redirect or a filled code cave.
  datatype Patch = Patch(address: int, bytes: seq<bv8>)

  // Every slice and every patch still holds what was written to it.
  ghost predicate Holds(m: Mem, cuts: seq<MM.Cut>, contents: seq<seq<bv8>>, patches: seq<Patch>) {
    && |contents| == |cuts|
    && (forall k :: 0 <= k < |cuts| ==> SliceHolds(m, cuts[k].slice, contents[k]))
    && (forall k :: 0 <= k < |patches| ==> BytesAt(m, patches[k].address, patches[k].bytes))
  }

  ghost predicate SliceHolds(m: Mem, cs: MM.CodeSlice, content: seq<bv8>) {
    cs.size == |content| && BytesAt(m, cs.data, content)
  }

  lemma HoldsKept(m: Mem, m': Mem, a: int, n: nat, cuts: seq<MM.Cut>, contents: seq<seq<bv8>>, patches: seq<Patch>)
    requires Holds(m, cuts, contents, patches) && SameOutside(m, m', a, n)
    requires forall k :: 0 <= k < |cuts| ==> Clear(cuts[k].slice.data, cuts[k].slice.size, a, n)
    requires forall k :: 0 <= k < |patches| ==> Clear(patches[k].address, |patches[k].bytes|, a, n)
    ensures Holds(m', cuts, contents, patches)
  {
    hide BytesAt, SameOutside;
    forall k | 0 <= k < |cuts| ensures SliceHolds(m', cuts[k].slice, contents[k]) {
      assert SliceHolds(m, cuts[k].slice, contents[k]);
      BytesKept(m, m', a, n, cuts[k].slice.data, contents[k]);
    }
    forall k | 0 <= k < |patches| ensures BytesAt(m', patches[k].address, patches[k].bytes) {
      BytesKept(m, m', a, n, patches[k].address, patches[k].bytes);
    }
  }

  lemma PatchHolds(m: Mem, cuts: seq<MM.Cut>, contents: seq<seq<bv8>>, patches: seq<Patch>, dest: int, src: seq<bv8>)
    requires Holds(m, cuts, contents, patches) && BytesAt(m, dest, src)
    ensures Holds(m, cuts, contents, patches + [Patch(dest, src)])
  {
    hide BytesAt;
  }

  // A slice just cut holds what the memory held.
  lemma CutHolds(m: Mem, cuts: seq<MM.Cut>, contents: seq<seq<bv8>>, patches: seq<Patch>, c: MM.Cut)
    requires Holds(m, cuts, contents, patches)
    ensures Holds(m, cuts + [c], contents + [seq(c.slice.size, i => m(c.slice.data + i))], patches)
  {
    forall k | 0 <= k < |cuts| ensures SliceHolds(m, cuts[k].slice, contents[k]) {}
  }

  lemma LastHolds(m: Mem, cuts: seq<MM.Cut>, contents: seq<seq<bv8>>, patches: seq<Patch>, c: MM.Cut, src: seq<bv8>)
    requires Holds(m, cuts, contents, patches) && BytesAt(m, c.slice.data, src) && |src| == c.slice.size
    ensures Holds(m, cuts + [c], contents + [src], patches)
  {
    hide BytesAt;
    forall k | 0 <= k < |cuts| ensures SliceHolds(m, cuts[k].slice, contents[k]) {}
  }

  // ----- what has been written so far -----

  // Slices with their contents, patches, and per closure page the infos bound to its slots.
  datatype Ledger = Ledger(cuts: seq<MM.Cut>, contents: seq<seq<bv8>>, patches: seq<Patch>, slotPages: seq<int>,
                           bounds: seq<seq<U64>>, infos: seq<CB.Info>)

  ghost predicate Extends(l: Ledger, l': Ledger) {
    && l.cuts <= l'.cuts && l.contents <= l'.contents && l.patches <= l'.patches && l.slotPages <= l'.slotPages
    && l.infos <= l'.infos
    && |l.bounds| <= |l'.bounds| && forall j :: 0 <= j < |l.bounds| ==> l.bounds[j] <= l'.bounds[j]
  }

  // The range lies well inside the address space.
  predicate InRange(a: int, n: int) {
    0 <= a && a + n + 0x100 < TWO_64
  }

  // The bytes b have been written at a, as a slice or as a patch.
  ghost predicate Written(l: Ledger, a: int, b: seq<bv8>) {
    && InRange(a, |b|)
    && WrittenAs(l, a, b)
  }

  ghost predicate WrittenAs(l: Ledger, a: int, b: seq<bv8>) {
    || (exists k :: 0 <= k < |l.contents| && k < |l.cuts| && l.contents[k] == b && l.cuts[k].slice.data == a)
    || (exists k :: 0 <= k < |l.patches| && l.patches[k] == Patch(a, b))
  }

  // The info was handed out and its closure slot is bound to it.
  ghost predicate SlotFor(l: Ledger, info: CB.Info) {
    && info in l.infos && InRange(info.redirectTrampoline, CB.SLOT_SIZE)
    && exists j, i :: 0 <= j < |l.bounds| && j < |l.slotPages| && 0 <= i < |l.bounds[j]|
                      && l.bounds[j][i] == info.address
                      && info.redirectTrampoline == CB.SlotAddress(l.slotPages[j], i)
  }

  lemma StaysWritten(l: Ledger, l': Ledger, a: int, b: seq<bv8>)
    requires Extends(l, l') && Written(l, a, b)
    ensures Written(l', a, b)
  {
    if k :| 0 <= k < |l.contents| && k < |l.cuts| && l.contents[k] == b && l.cuts[k].slice.data == a {
      assert l'.contents[k] == b && l'.cuts[k] == l.cuts[k];
    } else {
      var k :| 0 <= k < |l.patches| && l.patches[k] == Patch(a, b);
      assert l'.patches[k] == Patch(a, b);
    }
  }

  lemma StaysBound(l: Ledger, l': Ledger, info: CB.Info)
    requires Extends(l, l') && SlotFor(l, info)
    ensures SlotFor(l', info)
  {
    var j, i :| 0 <= j < |l.bounds| && j < |l.slotPages| && 0 <= i < |l.bounds[j]| && l.bounds[j][i] == info.address
      && info.redirectTrampoline == CB.SlotAddress(l.slotPages[j], i);
    assert l'.bounds[j][i] == info.address && l'.slotPages[j] == l.slotPages[j];
  }

  lemma SlotRecorded(l: Ledger, l': Ledger, from: nat, info: CB.Info)
    requires l'.cuts == l.cuts && l'.contents == l.contents && l'.patches == l.patches && l.slotPages <= l'.slotPages
    requires |l.bounds| <= |l'.bounds| == |l'.slotPages| && from < |l'.bounds| && l'.infos == l.infos + [info]
    requires forall j :: 0 <= j < |l.bounds| && j != from ==> l'.bounds[j] == l.bounds[j]
    requires l'.bounds[from] == (if from < |l.bounds| then l.bounds[from] else []) + [info.address]
    requires info.redirectTrampoline == CB.SlotAddress(l'.slotPages[from], |l'.bounds[from]| - 1)
    requires InRange(info.redirectTrampoline, CB.SLOT_SIZE)
    ensures Extends(l, l') && SlotFor(l', info)
  {
    var n := |l'.bounds[from]| - 1;
    assert l'.bounds[from][n] == info.address;
    assert l'.infos[|l.infos|] == info;
  }

  lemma ExtendsTrans(l: Ledger, l': Ledger, l'': Ledger)
    requires Extends(l, l') && Extends(l', l'')
    ensures Extends(l, l'')
  {
    forall j | 0 <= j < |l.bounds| ensures l.bounds[j] <= l''.bounds[j] {
      assert l.bounds[j] <= l'.bounds[j] <= l''.bounds[j];
    }
  }

  // ----- where everything is -----

  predicate UsablePage(pageSize: nat, page: int) {
    0 < page && InRange(page, pageSize) && pageSize > 0 && page % pageSize == 0 && page % 4 == 0
  }

  predicate ClearOfPages(pageSize: nat, pages: seq<int>, a: int, n: int) {
    forall i :: 0 <= i < |pages| ==> Clear(a, n, pages[i], pageSize)
  }

  predicate ClearOfPatches(patches: seq<Patch>, a: int, n: int) {
    forall k :: 0 <= k < |patches| ==> Clear(patches[k].address, |patches[k].bytes|, a, n)
  }

  // Slice pages, closure pages and patches do not meet; all pages are usable.
  ghost predicate Separate(pageSize: nat, slicePages: seq<int>, slotPages: seq<int>, patches: seq<Patch>) {
    && (forall i :: 0 <= i < |slicePages| ==> UsablePage(pageSize, slicePages[i]))
    && (forall i :: 0 <= i < |slotPages| ==> UsablePage(pageSize, slotPages[i]))
    && (forall i :: 0 <= i < |slicePages| ==>
      ClearOfPages(pageSize, slotPages, slicePages[i], pageSize) && ClearOfPatches(patches, slicePages[i], pageSize))
    && (forall i :: 0 <= i < |slotPages| ==> ClearOfPatches(patches, slotPages[i], pageSize))
  }

  // Memory HookZz has not touched and does not own.
  ghost predicate Untouched(pageSize: nat, slicePages: seq<int>, slotPages: seq<int>, patches: seq<Patch>, a: int,
                            n: int) {
    ClearOfPages(pageSize, slicePages, a, n) && ClearOfPages(pageSize, slotPages, a, n) && ClearOfPatches(patches, a, n)
  }

  lemma AddSlicePage(pageSize: nat, slicePages: seq<int>, slotPages: seq<int>, patches: seq<Patch>, page: int)
    requires Separate(pageSize, slicePages, slotPages, patches) && UsablePage(pageSize, page)
    requires Untouched(pageSize, slicePages, slotPages, patches, page, pageSize)
    ensures Separate(pageSize, slicePages + [page], slotPages, patches)
  {
    hide UsablePage;
  }

  lemma AddSlotPage(pageSize: nat, slicePages: seq<int>, slotPages: seq<int>, patches: seq<Patch>, page: int)
    requires Separate(pageSize, slicePages, slotPages, patches) && UsablePage(pageSize, page)
    requires Untouched(pageSize, slicePages, slotPages, patches, page, pageSize)
    ensures Separate(pageSize, slicePages, slotPages + [page], patches)
  {
    hide UsablePage;
    forall i | 0 <= i < |slicePages| ensures ClearOfPages(pageSize, slotPages + [page], slicePages[i], pageSize) {
      assert Clear(page, pageSize, slicePages[i], pageSize);
    }
  }

  lemma AddPatch(pageSize: nat, slicePages: seq<int>, slotPages: seq<int>, patches: seq<Patch>, p: Patch)
    requires Separate(pageSize, slicePages, slotPages, patches)
    requires Untouched(pageSize, slicePages, slotPages, patches, p.address, |p.bytes|)
    ensures Separate(pageSize, slicePages, slotPages, patches + [p])
  {
    hide UsablePage;
  }

  // The range does not cross a page boundary.
  predicate FitsPage(pageSize: nat, a: int, n: nat) {
    pageSize > 0 && a % pageSize + n <= pageSize
  }

  lemma InOnePage(pageSize: nat, page: int, a: int, n: nat)
    requires UsablePage(pageSize, page) && page <= a && a + n <= page + pageSize && n > 0
    ensures FitsPage(pageSize, a, n)
  {
    var q := page / pageSize;
    assert page == pageSize * q;
    assert a == pageSize * q + (a - page) && 0 <= a - page < pageSize;
    QuotientIs(a, pageSize, q);
  }

  lemma QuotientIs(a: int, d: int, q: int)
    requires d > 0 && d * q <= a < d * q + d
    ensures a / d == q
  {
    var e := a / d;
    assert d * e <= a < d * e + d;
    CancelFactor(d, e, q + 1);
    CancelFactor(d, q, e + 1);
  }

  lemma CancelFactor(d: int, x: int, y: int)
    requires d > 0 && d * x < d * y
    ensures x < y
  {
  }

  class Engine {
    const process: Process
    const manager: MM.Manager
    const bridge: CB.Bridge
    ghost var contents: seq<seq<bv8>>
    ghost var patches: seq<Patch>

    ghost predicate Valid()
      reads this, process, manager, manager.freeMemoryBlocks, bridge, bridge.trampolineTables
    {
      && bridge.process == process && manager.pageSize == process.pageSize >= 256
      && manager.Valid() && bridge.Valid()
      && Separate(process.pageSize, manager.Addresses(), bridge.Pages(), patches)
      && (forall k :: 0 <= k < |manager.cuts| ==> manager.cuts[k].slice.size % 4 == 0)
      && |contents| == |manager.cuts| && Holds(process.mem, manager.cuts, contents, patches)
    }

    ghost function Recorded(): Ledger
      reads this, manager, bridge, bridge.trampolineTables
    {
      Ledger(manager.cuts, contents, patches, bridge.Pages(), bridge.Bounds(), bridge.bridgeInfos)
    }

    ghost predicate IsUntouched(a: int, n: int)
      reads this, process, manager, manager.freeMemoryBlocks, bridge, bridge.trampolineTables
    {
      Untouched(process.pageSize, manager.Addresses(), bridge.Pages(), patches, a, n)
    }

    // A page the environment may hand out next.
    ghost predicate FreshPage(page: int)
      reads this, process, manager, manager.freeMemoryBlocks, bridge, bridge.trampolineTables
    {
      UsablePage(process.pageSize, page) && IsUntouched(page, process.pageSize)
    }

    ghost function Repr(): set<object>
      reads manager`freeMemoryBlocks, bridge`trampolineTables
    {
      {this, process, manager, bridge} + (set b | b in manager.freeMemoryBlocks)
      + (set t | t in bridge.trampolineTables)
    }

    constructor (process: Process, bridgeTemplate: U64)
      requires 256 <= process.pageSize < 0x1_0000 * CB.SLOT_SIZE
      ensures Valid() && this.process == process && fresh(Repr() - {process}) && bridge.bridgeTemplate == bridgeTemplate
      ensures contents == [] && patches == [] && bridge.bridgeInfos == []
    {
      this.process := process;
      manager := new MM.Manager(process.pageSize);
      bridge := new CB.Bridge(process, bridgeTemplate);
      contents := [];
      patches := [];
    }

    // patch_code over memory outside the closure pages.
    method Overwrite(dest: int, src: seq<bv8>)
      requires FitsPage(process.pageSize, dest, |src|)
      requires bridge.process == process && bridge.Valid()
      requires ClearOfPages(process.pageSize, bridge.Pages(), dest, |src|)
      modifies process
      ensures bridge.Valid() && BytesAt(process.mem, dest, src)
      ensures SameOutside(old(process.mem), process.mem, dest, |src|)
    {
      hide BytesAt, SameOutside, CB.SlotsAt;
      process.PatchCode(dest, src);
      forall i | 0 <= i < |bridge.trampolineTables|
        ensures bridge.trampolineTables[i].Valid(process.mem, bridge.perPage, bridge.bridgeTemplate)
      {
        var t := bridge.trampolineTables[i];
        assert Clear(dest, |src|, bridge.Pages()[i], process.pageSize);
        CB.SlotsKept(old(process.mem), process.mem, dest, |src|, t.trampolinePage, bridge.perPage, t.bound,
                     bridge.bridgeTemplate);
      }
    }

    lemma SliceInPage(k: nat)
      requires Valid() && k < |manager.cuts|
      ensures manager.cuts[k].block < |manager.freeMemoryBlocks|
      ensures var a, c := manager.Addresses()[manager.cuts[k].block], manager.cuts[k].slice;
              a <= c.data && c.data + c.size <= a + process.pageSize && UsablePage(process.pageSize, a)
              && ClearOfPages(process.pageSize, bridge.Pages(), c.data, c.size)
              && ClearOfPatches(patches, c.data, c.size)
    {
      hide Holds, CB.Bridge.Valid, UsablePage;
      MM.SliceInside(manager.pageSize, manager.Addresses(), manager.UsedSizes(), manager.cuts, k);
    }

    // Patches memory that is neither owned nor patched yet.
    method ApplyPatch(dest: int, src: seq<bv8>)
      requires Valid() && IsUntouched(dest, |src|) && FitsPage(process.pageSize, dest, |src|)
      requires InRange(dest, |src|)
      modifies process, this`patches
      ensures Valid() && patches == old(patches) + [Patch(dest, src)] && contents == old(contents)
      ensures Extends(old(Recorded()), Recorded()) && Written(Recorded(), dest, src)
      ensures SameOutside(old(process.mem), process.mem, dest, |src|)
    {
      hide BytesAt, SameOutside, MM.Consistent, CB.Bridge.Valid, Holds, Separate, FitsPage;
      ghost var m := process.mem;
      forall k | 0 <= k < |manager.cuts|
        ensures Clear(manager.cuts[k].slice.data, manager.cuts[k].slice.size, dest, |src|)
      {
        SliceInPage(k);
        assert Clear(dest, |src|, manager.Addresses()[manager.cuts[k].block], process.pageSize);
      }
      Overwrite(dest, src);
      HoldsKept(m, process.mem, dest, |src|, manager.cuts, contents, patches);
      PatchHolds(process.mem, manager.cuts, contents, patches, dest, src);
      AddPatch(process.pageSize, manager.Addresses(), bridge.Pages(), patches, Patch(dest, src));
      patches := patches + [Patch(dest, src)];
      assert patches[|patches| - 1] == Patch(dest, src);
    }

    // Takes a slice; until it is patched it holds what the memory held.
    method AllocateSlice(size: nat, page: int) returns (cs: MM.CodeSlice)
      requires Valid() && 0 < size <= process.pageSize && size % 4 == 0 && FreshPage(page)
      modifies manager, manager.freeMemoryBlocks, this`contents
      ensures Valid() && fresh(Repr() - old(Repr())) && cs.size == size && cs.data % 4 == 0
      ensures 0 < cs.data && InRange(cs.data, cs.size)
      ensures |contents| == |old(contents)| + 1 && contents[..|old(contents)|] == old(contents)
      ensures old(manager.cuts) <= manager.cuts && manager.cuts[|old(contents)|].slice == cs
      ensures Extends(old(Recorded()), Recorded().(contents := contents[..|contents| - 1]))
      ensures || manager.Addresses() == old(manager.Addresses())
              || manager.Addresses() == old(manager.Addresses()) + [page]
    {
      hide MM.Consistent, CB.Bridge.Valid, Holds, Separate, UsablePage;
      ghost var addresses, cuts := manager.Addresses(), manager.cuts;
      FreshForManager(page);
      AddSlicePage(process.pageSize, addresses, bridge.Pages(), patches, page);
      ghost var from;
      cs, from := manager.AllocateCodeSlice(size, page);
      ghost var m := process.mem;
      CutHolds(m, cuts, contents, patches, MM.Cut(from, cs));
      contents := contents + [seq(size, i => m(cs.data + i))];
      AlignedSlice(|cuts|);
      SliceInRange(|cuts|);
    }

    // A range clear of all slice pages is clear of every slice.
    lemma SliceMisses(k: nat, a: int, n: int)
      requires Valid() && k < |manager.cuts| && ClearOfPages(process.pageSize, manager.Addresses(), a, n)
      ensures Clear(manager.cuts[k].slice.data, manager.cuts[k].slice.size, a, n)
    {
      hide Valid;
      SliceInPage(k);
      assert Clear(a, n, manager.Addresses()[manager.cuts[k].block], process.pageSize);
    }

    lemma SliceInRange(k: nat)
      requires Valid() && k < |manager.cuts|
      ensures 0 < manager.cuts[k].slice.data && InRange(manager.cuts[k].slice.data, manager.cuts[k].slice.size)
    {
      hide Valid;
      SliceInPage(k);
    }

    lemma AlignedSlice(k: nat)
      requires manager.Valid() && k < |manager.cuts|
      requires Separate(process.pageSize, manager.Addresses(), bridge.Pages(), patches)
      requires forall k :: 0 <= k < |manager.cuts| ==> manager.cuts[k].slice.size % 4 == 0
      ensures manager.cuts[k].slice.data % 4 == 0
    {
      hide MM.Consistent;
      MM.SlicesAligned(manager.pageSize, manager.Addresses(), manager.UsedSizes(), manager.cuts, k);
    }

    // patch_to: fills the slice taken last.
    method PatchSlice(cs: MM.CodeSlice, src: seq<bv8>)
      requires Valid() && contents != [] && |src| > 0
      requires cs == manager.cuts[|contents| - 1].slice && |src| == cs.size
      modifies process, this`contents
      ensures Valid() && contents == old(contents)[..|old(contents)| - 1] + [src]
      ensures Recorded() == old(Recorded()).(contents := contents) && Written(Recorded(), cs.data, src)
      ensures SameOutside(old(process.mem), process.mem, cs.data, |src|)
    {
      hide BytesAt, SameOutside, MM.Consistent, CB.Bridge.Valid, Holds, Separate, UsablePage, FitsPage;
      ghost var n, m := |contents| - 1, process.mem;
      ghost var cuts := manager.cuts;
      var dest := cs.data;
      forall k | 0 <= k < n ensures Clear(cuts[k].slice.data, cuts[k].slice.size, dest, |src|) {
        MM.SlicesDisjoint(manager.pageSize, manager.Addresses(), manager.UsedSizes(), cuts, k, n);
      }
      SliceInPage(n);
      SliceInRange(n);
      InOnePage(process.pageSize, manager.Addresses()[cuts[n].block], dest, |src|);
      FirstSlices(m, cuts, contents, patches);
      Overwrite(dest, src);
      HoldsKept(m, process.mem, dest, |src|, cuts[..n], contents[..n], patches);
      assert cuts[..n] + [cuts[n]] == cuts;
      LastHolds(process.mem, cuts[..n], contents[..n], patches, cuts[n], src);
      contents := contents[..n] + [src];
      assert contents[n] == src;
    }

    // Binds a closure slot to an info.
    method AllocateSlot(userData: U64, userCode: U64, infoAddress: U64, page: int)
      returns (info: CB.Info, ghost from: nat)
      requires Valid() && FreshPage(page)
      modifies process, bridge, bridge.trampolineTables
      ensures Valid() && fresh(Repr() - old(Repr())) && info.userCode == userCode && info.userData == userData
      ensures info.address == infoAddress && from < |bridge.trampolineTables|
      ensures InRange(info.redirectTrampoline, CB.SLOT_SIZE)
      ensures bridge.trampolineTables[from].bound != []
      ensures var t := bridge.trampolineTables[from];
              t.bound[|t.bound| - 1] == infoAddress
              && info.redirectTrampoline == CB.SlotAddress(t.trampolinePage, |t.bound| - 1)
      ensures Extends(old(Recorded()), Recorded()) && SlotFor(Recorded(), info)
      ensures bridge.Pages() == old(bridge.Pages()) || bridge.Pages() == old(bridge.Pages()) + [page]
      ensures SameOutside(old(process.mem), process.mem, bridge.Pages()[from], process.pageSize)
      ensures bridge.bridgeInfos == old(bridge.bridgeInfos) + [info]
    {
      hide SameOutside, MM.Manager.Valid, Holds, Separate, UsablePage, CB.Bridge.Valid, Extends, SlotFor,
        CB.SlotAddress, FreshPage, Recorded;
      ghost var m, cuts := process.mem, manager.cuts;
      info, from := BindSlot(userData, userCode, infoAddress, page);
      var at := bridge.Pages()[from];
      SlotPageClear(from);
      HoldsKept(m, process.mem, at, process.pageSize, cuts, contents, patches);
    }

    // The page is the bridge's from now on, if it was used.
    method BindSlot(userData: U64, userCode: U64, infoAddress: U64, page: int) returns (info: CB.Info, ghost from: nat)
      requires Valid() && FreshPage(page)
      modifies process, bridge, bridge.trampolineTables
      ensures bridge.Valid() && Separate(process.pageSize, manager.Addresses(), bridge.Pages(), patches)
      ensures fresh(Repr() - old(Repr())) && info.userCode == userCode && info.userData == userData
      ensures info.address == infoAddress && from < |bridge.trampolineTables|
      ensures var t := bridge.trampolineTables[from];
              && t.bound != [] && t.bound[|t.bound| - 1] == infoAddress
              && info.redirectTrampoline == CB.SlotAddress(t.trampolinePage, |t.bound| - 1)
      ensures InRange(info.redirectTrampoline, CB.SLOT_SIZE)
      ensures Extends(old(Recorded()), Recorded()) && SlotFor(Recorded(), info)
      ensures bridge.Pages() == old(bridge.Pages()) || bridge.Pages() == old(bridge.Pages()) + [page]
      ensures SameOutside(old(process.mem), process.mem, bridge.Pages()[from], process.pageSize)
      ensures bridge.bridgeInfos == old(bridge.bridgeInfos) + [info]
    {
      hide SameOutside, MM.Manager.Valid, Holds, Separate, UsablePage, CB.Bridge.Valid, CB.SlotAddress, Extends,
        SlotFor;
      ghost var l := Recorded();
      FreshForBridge(page);
      AddSlotPage(process.pageSize, manager.Addresses(), bridge.Pages(), patches, page);
      info, from := bridge.AllocateClosureBridge(userData, userCode, infoAddress, page);
      assert bridge.Pages() ==
             if from < |old(bridge.trampolineTables)| then old(bridge.Pages()) else old(bridge.Pages()) + [page];
      SlotInRange(from);
      SlotRecorded(l, Recorded(), from, info);
    }

    lemma PatchesHeld()
      requires Valid()
      ensures forall k :: 0 <= k < |patches| ==> BytesAt(process.mem, patches[k].address, patches[k].bytes)
    {
      hide BytesAt, Separate, CB.Bridge.Valid, MM.Manager.Valid;
    }

    lemma FreshForManager(page: int)
      requires manager.pageSize == process.pageSize && FreshPage(page)
      ensures manager.FreshPage(page)
    {
      hide UsablePage;
      var addresses := manager.Addresses();
      assert forall i :: 0 <= i < |addresses| ==> Clear(page, process.pageSize, addresses[i], process.pageSize);
    }

    lemma FreshForBridge(page: int)
      requires bridge.process == process && FreshPage(page)
      ensures bridge.FreshPage(page)
    {
      hide UsablePage;
      forall i | 0 <= i < |bridge.trampolineTables|
        ensures Clear(bridge.trampolineTables[i].trampolinePage, process.pageSize, page, process.pageSize)
      {
        assert Clear(page, process.pageSize, bridge.Pages()[i], process.pageSize);
      }
    }

    lemma SlotInRange(j: nat)
      requires bridge.Valid() && bridge.process == process && j < |bridge.trampolineTables|
      requires bridge.trampolineTables[j].bound != []
      requires Separate(process.pageSize, manager.Addresses(), bridge.Pages(), patches)
      ensures var t := bridge.trampolineTables[j];
              var a := CB.SlotAddress(t.trampolinePage, |t.bound| - 1);
              InRange(a, CB.SLOT_SIZE)
    {
      hide BytesAt, CB.SlotBytes, CB.Template;
      assert UsablePage(process.pageSize, bridge.Pages()[j]);
      bridge.SlotInPage(|bridge.trampolineTables[j].bound| - 1);
    }

    lemma SlotPageClear(j: nat)
      requires manager.Valid() && manager.pageSize == process.pageSize && j < |bridge.Pages()|
      requires Separate(process.pageSize, manager.Addresses(), bridge.Pages(), patches)
      ensures forall k :: 0 <= k < |manager.cuts| ==>
                Clear(manager.cuts[k].slice.data, manager.cuts[k].slice.size, bridge.Pages()[j], process.pageSize)
      ensures ClearOfPatches(patches, bridge.Pages()[j], process.pageSize)
    {
      hide MM.Consistent, UsablePage;
      forall k | 0 <= k < |manager.cuts|
        ensures Clear(manager.cuts[k].slice.data, manager.cuts[k].slice.size, bridge.Pages()[j], process.pageSize)
      {
        MM.SliceInside(manager.pageSize, manager.Addresses(), manager.UsedSizes(), manager.cuts, k);
        assert ClearOfPages(process.pageSize, bridge.Pages(), manager.Addresses()[manager.cuts[k].block],
                            process.pageSize);
      }
    }
  }

  lemma FirstSlices(m: Mem, cuts: seq<MM.Cut>, contents: seq<seq<bv8>>, patches: seq<Patch>)
    requires Holds(m, cuts, contents, patches) && cuts != []
    ensures Holds(m, cuts[..|cuts| - 1], contents[..|cuts| - 1], patches)
  {
    hide BytesAt, SliceHolds;
  }
}
