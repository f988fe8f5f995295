/** Building the trampolines of a hook and patching its target (interceptor-routing-trampoline-arm64.c, hookzz.c). */
module HookInstaller {
  import opened Numbers
  import opened A64Encoding
  import opened A64Machine
  import opened A64Relocation
  import opened A64Reader
  import opened A64Writer
  import opened A64NearBranch
  import opened ProcessMemory
  import opened HookEngine
  import R = A64Relocator
  import Asm = A64AssemblyCore
  import MM = MemoryManager
  import CB = ClosureBridge

  const ARM64_TINY_REDIRECT_SIZE: nat := 4
  const ARM64_FULL_REDIRECT_SIZE: nat := 16

  // arm64_assembly_writer_bxxx_range()
  const BXXX_RANGE: int := 0x200_0000

  datatype HookType = PrePost | Replace | Got | Dbi

  class HookEntry {
    const id: U64
    const targetAddress: U64
    const hookType: HookType
    const replaceCall: U64
    var isTryNearJump: bool
    var isNearJump: bool
    var limitRelocateInstSize: nat
    var originPrologue: seq<bv8>
    var onEnterTransferTrampoline: U64
    var onEnterTrampoline: U64
    var onInvokeTrampoline: U64
    var onLeaveTrampoline: U64
    var onDbiTrampoline: U64

    constructor (id: U64, target: U64, hookType: HookType, replaceCall: U64)
      ensures this.id == id && targetAddress == target && this.hookType == hookType && this.replaceCall == replaceCall
      ensures !isTryNearJump && limitRelocateInstSize == 0
    {
      this.id := id;
      targetAddress := target;
      this.hookType := hookType;
      this.replaceCall := replaceCall;
      isTryNearJump, isNearJump := false, false;
      limitRelocateInstSize := 0;
      originPrologue := [];
      onEnterTransferTrampoline, onEnterTrampoline, onInvokeTrampoline := 0, 0, 0;
      onLeaveTrampoline, onDbiTrampoline := 0, 0;
    }

    // How much of the target the redirect overwrites.
    function Window(): (n: nat)
      reads this`isTryNearJump
      ensures n == 4 || n == 16
    {
      if isTryNearJump then ARM64_TINY_REDIRECT_SIZE else ARM64_FULL_REDIRECT_SIZE
    }

    // Where a call of the target must end up, near jump or not.
    function Destination(): U64
      reads this`onEnterTrampoline, this`onDbiTrampoline
    {
      match hookType
      case Replace => replaceCall
      case Dbi => onDbiTrampoline
      case _ => onEnterTrampoline
    }

    // What the full redirect jumps to.
    function FirstStop(): U64
      reads this
    {
      match hookType
      case Replace => onEnterTransferTrampoline
      case Dbi => onDbiTrampoline
      case _ => onEnterTrampoline
    }

    // Its jumps go to 2^32 or above.
    predicate IsHigh()
      reads this
    {
      Destination() >= 0x1_0000_0000 && FirstStop() >= 0x1_0000_0000
    }

    // The bytes active() writes over the target.
    function RedirectBytes(): seq<bv8>
      reads this
    {
      if limitRelocateInstSize == ARM64_TINY_REDIRECT_SIZE
      then WordBytes(BImmWord(AsUint64(Wrap(onEnterTransferTrampoline - targetAddress))))
      else Redirect(FirstStop())
    }

    predicate UsesTransfer()
      reads this
    {
      limitRelocateInstSize == ARM64_TINY_REDIRECT_SIZE || hookType.Replace?
    }
  }

  // The window prepare() settles on, given what try_relocate found: 0 when it gives up.
  function ChosenWindow(found: int): nat {
    if found != 0 && found > ARM64_TINY_REDIRECT_SIZE && found < ARM64_FULL_REDIRECT_SIZE then ARM64_TINY_REDIRECT_SIZE
    else if found != 0 && found < ARM64_TINY_REDIRECT_SIZE then 0
    else ARM64_FULL_REDIRECT_SIZE
  }

  function ChosenNear(found: int): bool {
    found != 0 && found > ARM64_TINY_REDIRECT_SIZE && found < ARM64_FULL_REDIRECT_SIZE
  }

  function BytesOf(m: Mem, a: int, n: nat): (b: seq<bv8>)
    ensures |b| == n && BytesAt(m, a, b)
  {
    seq(n, i => m(a + i))
  }

  // The n words of code at a.
  function WordsOf(m: Mem, a: int, n: nat): (ws: seq<Word>)
    ensures |ws| == n && forall i :: 0 <= i < n ==> ws[i] == Fetch(m, a + 4 * i)
  {
    seq(n, i => Fetch(m, a + 4 * i))
  }

  // prepare(): settles the window and saves the original prologue.
  method Prepare(table: Asm.InstTable, process: Process, entry: HookEntry)
    requires table.Valid()
    modifies entry
    ensures entry.isTryNearJump == old(entry.isTryNearJump) && entry.isNearJump == old(entry.isNearJump)
    ensures entry.limitRelocateInstSize == entry.Window() == if entry.isTryNearJump then 4 else 16
    ensures |entry.originPrologue| == entry.limitRelocateInstSize
    ensures BytesAt(process.mem, entry.targetAddress, entry.originPrologue)
    ensures entry.originPrologue == BytesOf(process.mem, entry.targetAddress, entry.Window())
  {
    if entry.isTryNearJump {
      entry.limitRelocateInstSize := ARM64_TINY_REDIRECT_SIZE;
    } else {
      var found := R.Relocator.TryRelocate(table, process.mem, entry.targetAddress, ARM64_FULL_REDIRECT_SIZE, 0);
      entry.isNearJump := entry.isNearJump || ChosenNear(found);
      entry.limitRelocateInstSize := ChosenWindow(found);
    }
    entry.originPrologue := BytesOf(process.mem, entry.targetAddress, entry.limitRelocateInstSize);
  }

  // The contexts of the words read from `target` on.
  ghost predicate ReadsFrom(ctxs: seq<InstCtx>, mem: Mem, target: U64) {
    forall i :: 0 <= i < |ctxs| ==> ctxs[i] == InstCtx(Wrap(target + 4 * i), 4, Fetch(mem, target + 4 * i))
  }

  // One round of the loop of build_for_invoke.
  method ReadAndRelocate(relocator: R.Relocator, mem: Mem, target: U64)
    requires relocator.Valid() && relocator.input.startPc == target && relocator.input.startAddress == target
    requires ReadsFrom(relocator.input.instCTXs, mem, target) && |relocator.ioIndexs| == |relocator.input.instCTXs|
    requires R.InStep(relocator.output.Bytes(), relocator.input.instCTXs, relocator.ioIndexs)
    modifies relocator`ioIndexs, relocator`literalCTXs, relocator.input.Repr(), relocator.output.Repr()
    ensures relocator.Valid() && relocator.input.startPc == target && relocator.input.startAddress == target
    ensures fresh(relocator.input.Repr() - old(relocator.input.Repr()))
    ensures fresh(relocator.output.Repr() - old(relocator.output.Repr()))
    ensures ReadsFrom(relocator.input.instCTXs, mem, target) && |relocator.ioIndexs| == |relocator.input.instCTXs|
    ensures |relocator.input.instCTXs| == |old(relocator.input.instCTXs)| + 1
    ensures R.InStep(relocator.output.Bytes(), relocator.input.instCTXs, relocator.ioIndexs)
  {
    hide R.ExpandCtxs, Fetch, Writer.Bytes, Writer.Valid, Reader.Valid, Asm.InstTable.Valid, Wrap, R.InStep, Expand,
      R.ReplacementLiterals;
    ghost var out, ctxs, io := relocator.output.Bytes(), relocator.input.instCTXs, relocator.ioIndexs;
    var ctx := relocator.input.ReadInst(mem);
    R.ReadKeepsInStep(out, ctxs, io, ctx);
    ghost var written := relocator.output.Words();
    relocator.RelocateWrite();
    R.ExpandOne(ctxs + [ctx], |ctxs|);
    R.WriteKeepsInStep(out, ctxs + [ctx], io, written);
  }

  // The loop of build_for_invoke: relocates the `limit` bytes at `target`.
  method EmitWindow(relocator: R.Relocator, mem: Mem, target: U64, limit: nat)
    requires relocator.Valid() && relocator.input.startPc == target && relocator.input.startAddress == target
    requires relocator.input.instCTXs == [] && relocator.ioIndexs == [] && relocator.output.Bytes() == []
    requires limit > 0 && limit % 4 == 0 && target + limit < TWO_64
    modifies relocator`ioIndexs, relocator`literalCTXs, relocator.input.Repr(), relocator.output.Repr()
    ensures relocator.Valid() && fresh(relocator.input.Repr() - old(relocator.input.Repr()))
    ensures fresh(relocator.output.Repr() - old(relocator.output.Repr()))
    ensures relocator.output.Bytes() == ExpandAll(WordsOf(mem, target, limit / 4), target)
    ensures 4 * |relocator.input.instCTXs| == limit
  {
    hide R.ExpandCtxs, ExpandAll, R.InStep, Fetch, Writer.Bytes, Writer.Valid, Reader.Valid, Asm.InstTable.Valid, Wrap,
      ReadsFrom, WordsOf, OutIndex;
    EmptyInStep(mem, target);
    ReadAndRelocate(relocator, mem, target);
    while relocator.input.Size() < limit
      invariant relocator.Valid() && fresh(relocator.input.Repr() - old(relocator.input.Repr()))
      invariant fresh(relocator.output.Repr() - old(relocator.output.Repr()))
      invariant relocator.input.startPc == target && relocator.input.startAddress == target
      invariant ReadsFrom(relocator.input.instCTXs, mem, target)
      invariant |relocator.ioIndexs| == |relocator.input.instCTXs| <= limit / 4
      invariant R.InStep(relocator.output.Bytes(), relocator.input.instCTXs, relocator.ioIndexs)
      decreases limit / 4 - |relocator.input.instCTXs|
    {
      ReadAndRelocate(relocator, mem, target);
    }
    WindowEmitted(relocator.output.Bytes(), relocator.input.instCTXs, relocator.ioIndexs, mem, target, limit);
  }

  method NewRelocator(table: Asm.InstTable, target: U64) returns (relocator: R.Relocator)
    requires table.Valid()
    ensures relocator.Valid() && fresh(relocator) && fresh(relocator.input.Repr()) && fresh(relocator.output.Repr())
    ensures relocator.input.startPc == target && relocator.input.startAddress == target
    ensures relocator.input.instCTXs == [] && relocator.ioIndexs == [] && relocator.output.Bytes() == []
  {
    var reader := new Reader(target, target);
    var writer := new Writer(0);
    relocator := new R.Relocator(table, reader, writer);
  }

  // The code of on_invoke_trampoline, before it is known where it will live.
  method EmitInvoke(table: Asm.InstTable, mem: Mem, target: U64, limit: nat) returns (relocator: R.Relocator)
    requires table.Valid() && limit > 0 && limit % 4 == 0 && target + limit < TWO_64
    ensures relocator.Valid() && fresh(relocator.Repr())
    ensures relocator.output.Bytes() == Trampoline(WordsOf(mem, target, limit / 4), target)
  {
    hide ExpandAll, Redirect, Writer.Bytes, Writer.Valid, Reader.Valid, Asm.InstTable.Valid, WordsOf, OutIndex;
    relocator := NewRelocator(table, target);
    EmitWindow(relocator, mem, target, limit);
    var size := relocator.input.Size();
    assert size == limit;
    relocator.output.PutRedirect(target + size);
  }

  lemma EmptyInStep(mem: Mem, target: U64)
    ensures R.InStep([], [], []) && ReadsFrom([], mem, target)
  {
  }

  lemma WindowEmitted(out: seq<bv8>, ctxs: seq<InstCtx>, io: seq<R.IoIndex>, mem: Mem, target: U64, limit: nat)
    requires R.InStep(out, ctxs, io) && |io| == |ctxs| && 4 * |ctxs| == limit && ReadsFrom(ctxs, mem, target)
    requires target + limit < TWO_64
    ensures out == ExpandAll(WordsOf(mem, target, limit / 4), target)
  {
    hide R.ExpandCtxs, ExpandAll, Fetch, Wrap;
    assert ctxs[..|io|] == ctxs;
    assert R.Words(ctxs) == WordsOf(mem, target, limit / 4);
    R.ExpandConsecutive(ctxs, target);
  }

  lemma TrampolineSize(ws: seq<Word>, base: U64)
    requires base + 4 * |ws| < TWO_64 && |ws| <= 4
    ensures |Trampoline(ws, base)| <= 112 && |Trampoline(ws, base)| % 4 == 0 && |Trampoline(ws, base)| > 0
  {
    hide Redirect, ExpandAll;
    R.OutIndexBounds(ws);
  }

  // double_write to the final address, and what patch_to then copies there.
  method FinalBytes(relocator: R.Relocator, address: U64) returns (code: seq<bv8>)
    requires relocator.Valid() && address % 4 == 0
    modifies relocator.Repr()
    ensures code == old(relocator.output.Bytes())
  {
    hide Writer.Bytes;
    relocator.DoubleWrite(address);
    code := relocator.output.Saved();
  }

  // The code of on_enter_transfer_trampoline.
  method EmitTransfer(entry: HookEntry) returns (code: seq<bv8>)
    ensures entry.hookType == Replace ==> code == Redirect(entry.replaceCall)
    ensures entry.hookType == Dbi ==> code == Redirect(entry.onDbiTrampoline)
    ensures entry.hookType == PrePost || entry.hookType == Got ==> code == Redirect(entry.onEnterTrampoline)
  {
    hide Redirect, Writer.Bytes;
    var writer := new Writer(0);
    if entry.hookType == Replace {
      writer.PutRedirect(entry.replaceCall);
    } else if entry.hookType == Dbi {
      writer.PutRedirect(entry.onDbiTrampoline);
    } else {
      writer.PutRedirect(entry.onEnterTrampoline);
    }
    code := writer.Saved();
  }

  // The bytes active() patches over the target.
  method EmitRedirect(entry: HookEntry) returns (code: seq<bv8>)
    ensures code == entry.RedirectBytes() && |code| == if entry.limitRelocateInstSize == 4 then 4 else 16
    ensures entry.limitRelocateInstSize != 4 ==>
              && (entry.hookType == Replace ==> code == Redirect(entry.onEnterTransferTrampoline))
              && (entry.hookType == Dbi ==> code == Redirect(entry.onDbiTrampoline))
              && (entry.hookType == PrePost || entry.hookType == Got ==> code == Redirect(entry.onEnterTrampoline))
  {
    hide Redirect, Writer.Bytes, AsUint64, BImmWord, WordBytes;
    var writer := new Writer(entry.targetAddress);
    if entry.limitRelocateInstSize == ARM64_TINY_REDIRECT_SIZE {
      writer.PutBImm(AsUint64(Wrap(entry.onEnterTransferTrampoline - writer.startPc)));
    } else if entry.hookType == Replace {
      writer.PutRedirect(entry.onEnterTransferTrampoline);
    } else if entry.hookType == Dbi {
      writer.PutRedirect(entry.onDbiTrampoline);
    } else {
      writer.PutRedirect(entry.onEnterTrampoline);
    }
    code := writer.Saved();
  }

  // The words of a saved prologue.
  function PrologueWords(b: seq<bv8>): (ws: seq<Word>)
    ensures |ws| == |b| / 4
  {
    seq(|b| / 4, i requires 0 <= i < |b| / 4 => WordAt(b, i))
  }

  lemma SavedWords(m: Mem, a: int, n: nat)
    requires n % 4 == 0
    ensures PrologueWords(BytesOf(m, a, n)) == WordsOf(m, a, n / 4)
  {
    hide PackWord;
  }

  // Some info with this handler and user data was handed out, and its slot is the given one.
  ghost predicate HasSlot(l: Ledger, code: U64, data: U64, slot: U64) {
    exists address: U64 :: SlotFor(l, CB.Info(address, code, data, slot))
  }

  lemma StaysSlot(l: Ledger, l': Ledger, code: U64, data: U64, slot: U64)
    requires Extends(l, l') && HasSlot(l, code, data, slot)
    ensures HasSlot(l', code, data, slot)
  {
    hide Extends, SlotFor;
    var address: U64 :| SlotFor(l, CB.Info(address, code, data, slot));
    StaysBound(l, l', CB.Info(address, code, data, slot));
  }

  // ----- what the environment must supply -----

  // The pages still to be handed out: usable, untouched, apart from each other and from the target window.
  ghost predicate Supply(pageSize: nat, slicePages: seq<int>, slotPages: seq<int>, patches: seq<Patch>,
                         target: int, window: nat, pages: seq<int>) {
    && (forall i :: 0 <= i < |pages| ==>
      SuppliedPage(pageSize, slicePages, slotPages, patches, target, window, pages[i]))
    && (forall i, j :: 0 <= i < j < |pages| ==> Clear(pages[i], pageSize, pages[j], pageSize))
  }

  ghost predicate SuppliedPage(pageSize: nat, slicePages: seq<int>, slotPages: seq<int>, patches: seq<Patch>,
                               target: int, window: nat, page: int) {
    && UsablePage(pageSize, page) && Untouched(pageSize, slicePages, slotPages, patches, page, pageSize)
    && Clear(page, pageSize, target, window)
  }

  // The target window is word-aligned, in one page, and neither owned nor patched.
  ghost predicate TargetFree(pageSize: nat, slicePages: seq<int>, slotPages: seq<int>, patches: seq<Patch>,
                             target: int, window: nat) {
    && target % 4 == 0 && InRange(target, 16) && FitsPage(pageSize, target, window)
    && Untouched(pageSize, slicePages, slotPages, patches, target, window)
  }

  // Handing out the first page, whether it was used or not, leaves the rest in supply.
  lemma SupplyRest(pageSize: nat, slicePages: seq<int>, slotPages: seq<int>, patches: seq<Patch>, target: int,
                   window: nat, pages: seq<int>, slicePages': seq<int>, slotPages': seq<int>)
    requires pages != [] && Supply(pageSize, slicePages, slotPages, patches, target, window, pages)
    requires TargetFree(pageSize, slicePages, slotPages, patches, target, window)
    requires slicePages' == slicePages || slicePages' == slicePages + [pages[0]]
    requires slotPages' == slotPages || slotPages' == slotPages + [pages[0]]
    ensures Supply(pageSize, slicePages', slotPages', patches, target, window, pages[1..])
    ensures TargetFree(pageSize, slicePages', slotPages', patches, target, window)
  {
    hide UsablePage;
    assert SuppliedPage(pageSize, slicePages, slotPages, patches, target, window, pages[0]);
    var rest := pages[1..];
    forall i | 0 <= i < |rest|
      ensures SuppliedPage(pageSize, slicePages', slotPages', patches, target, window, rest[i])
    {
      assert SuppliedPage(pageSize, slicePages, slotPages, patches, target, window, pages[i + 1]);
      assert Clear(pages[0], pageSize, pages[i + 1], pageSize);
    }
    forall i, j | 0 <= i < j < |rest| ensures Clear(rest[i], pageSize, rest[j], pageSize) {
      assert Clear(pages[i + 1], pageSize, pages[j + 1], pageSize);
    }
  }

  // A patch apart from the pages and the target leaves both as they were.
  lemma SupplyAfterPatch(pageSize: nat, slicePages: seq<int>, slotPages: seq<int>, patches: seq<Patch>, target: int,
                         window: nat, pages: seq<int>, p: Patch)
    requires Supply(pageSize, slicePages, slotPages, patches, target, window, pages)
    requires TargetFree(pageSize, slicePages, slotPages, patches, target, window)
    requires Clear(p.address, |p.bytes|, target, window) && ClearOfPages(pageSize, pages, p.address, |p.bytes|)
    ensures Supply(pageSize, slicePages, slotPages, patches + [p], target, window, pages)
    ensures TargetFree(pageSize, slicePages, slotPages, patches + [p], target, window)
  {
    hide UsablePage;
    forall i | 0 <= i < |pages|
      ensures SuppliedPage(pageSize, slicePages, slotPages, patches + [p], target, window, pages[i])
    {
      assert SuppliedPage(pageSize, slicePages, slotPages, patches, target, window, pages[i]);
      assert Clear(p.address, |p.bytes|, pages[i], pageSize);
    }
  }

  // ----- code caves -----

  // Wherever the search may look, HookZz may write 16 bytes unless it has done so, and it can tell.
  ghost predicate CavesUsable(layout: seq<MM.MemoryBlock>, target: int, pageSize: nat, slicePages: seq<int>,
                              slotPages: seq<int>, patches: seq<Patch>, pages: seq<int>) {
    && AllSolid(patches)
    && forall i, k: nat ::
         0 <= i < |layout| && CaveCandidate(layout[i], target, k) < MM.SearchEnd(layout[i], target, BXXX_RANGE, 16) ==>
           CaveUsable(CaveCandidate(layout[i], target, k), pageSize, slicePages, slotPages, pages)
  }

  ghost function CaveCandidate(mb: MM.MemoryBlock, target: int, k: nat): int {
    MM.Candidate(MM.SearchStart(mb, target, BXXX_RANGE), k, 16)
  }

  ghost predicate CaveUsable(c: int, pageSize: nat, slicePages: seq<int>, slotPages: seq<int>, pages: seq<int>) {
    && c % 4 == 0 && 0 <= c && FitsPage(pageSize, c, 16)
    && ClearOfPages(pageSize, slicePages, c, 16) && ClearOfPages(pageSize, slotPages, c, 16)
    && ClearOfPages(pageSize, pages, c, 16)
  }

  // ----- patches that cannot be taken for caves -----

  // The patch begins and ends with a word that is not zero.
  ghost predicate Solid(p: Patch) {
    && p.address % 4 == 0 && 4 <= |p.bytes| <= 16 && |p.bytes| % 4 == 0
    && !ZeroBytes(p.bytes[..4]) && !ZeroBytes(p.bytes[|p.bytes| - 4..])
  }

  ghost predicate AllSolid(patches: seq<Patch>) {
    forall k :: 0 <= k < |patches| ==> Solid(patches[k])
  }

  predicate ZeroBytes(b: seq<bv8>) {
    forall i :: 0 <= i < |b| ==> b[i] == 0
  }

  // 16 zero bytes overlap no such patch: they would hold its first or its last word.
  lemma ZeroMissesPatch(m: Mem, c: int, p: Patch)
    requires c % 4 == 0 && MM.ZeroAt(m, c, 16) && Solid(p) && BytesAt(m, p.address, p.bytes)
    ensures Clear(c, 16, p.address, |p.bytes|)
  {
    hide MM.ZeroAt, BytesAt, ZeroBytes;
    if !Clear(c, 16, p.address, |p.bytes|) {
      var n := |p.bytes|;
      WordsApart(c, p.address);
      WordsApart(c, p.address + n);
      BytesAtSplit(m, p.address, p.bytes[..4], p.bytes[4..]);
      BytesAtSplit(m, p.address, p.bytes[..n - 4], p.bytes[n - 4..]);
      assert p.bytes == p.bytes[..4] + p.bytes[4..] == p.bytes[..n - 4] + p.bytes[n - 4..];
      if c <= p.address {
        ZeroCovers(m, c, p.address, p.bytes[..4]);
      } else {
        ZeroCovers(m, c, p.address + (n - 4), p.bytes[n - 4..]);
      }
    }
  }

  lemma ZeroCovers(m: Mem, c: int, a: int, b: seq<bv8>)
    requires MM.ZeroAt(m, c, 16) && BytesAt(m, a, b) && c <= a && a + |b| <= c + 16
    ensures ZeroBytes(b)
  {
    forall i | 0 <= i < |b| ensures b[i] == 0 {
      assert m(a + i) == b[i];
    }
  }

  lemma WordsApart(c: int, q: int)
    requires c % 4 == 0 && q % 4 == 0
    ensures c < q ==> c + 4 <= q
    ensures q < c ==> q + 4 <= c
  {
  }

  /** A jump written to a cave, or over a target, is never taken for a free cave exactly if it goes to 2^32 or above. */
  lemma RedirectSolid(a: int, to: U64)
    requires a % 4 == 0
    ensures Solid(Patch(a, Redirect(to))) <==> to >= 0x1_0000_0000
  {
    hide ByteOf, Combine32;
    var b, h := Redirect(to), to / 0x1_0000_0000;
    assert b[..4] == WordBytes(LdrRegImmWord(17, 8));
    assert LdrRegImmWord(17, 8) == 0x5800_0051;
    assert !ZeroBytes(b[..4]) by { assert b[..4][0] == 0x51; }
    assert b[12..] == HalfBytes(h);
    CombineHalf(h);
    ZeroHalf(h);
  }

  lemma ZeroHalf(h: int)
    requires 0 <= h < 0x1_0000_0000
    ensures ZeroBytes(HalfBytes(h)) <==> h == 0
  {
    hide HalfBytes, Combine32;
    var b := HalfBytes(h);
    CombineHalf(h);
    ZeroCombined(b[0], b[1], b[2], b[3]);
  }

  lemma ZeroCombined(b0: bv8, b1: bv8, b2: bv8, b3: bv8)
    ensures Combine32(b0, b1, b2, b3) == 0 <==> b0 == 0 && b1 == 0 && b2 == 0 && b3 == 0
  {
    ZeroByte(b0);
    ZeroByte(b1);
    ZeroByte(b2);
    ZeroByte(b3);
  }

  lemma ZeroByte(b: bv8)
    ensures b == 0 <==> b as int == 0
  {
  }

  /** So is the 4-byte redirect, wherever it goes. */
  lemma NearSolid(a: int, off: bv64)
    requires a % 4 == 0
    ensures Solid(Patch(a, WordBytes(BImmWord(off))))
  {
    hide BImmWord;
    var w := BImmWord(off);
    var b := WordBytes(w);
    TopByte(off);
    assert b[..4] == b == b[0..] && b[3] != 0;
  }

  lemma TopByte(off: bv64)
    ensures ((BImmWord(off) >> 24) & 0xff) as bv8 != 0
  {
  }

  // The search's own preconditions, and that it has something to find.
  ghost predicate CaveExists(m: Mem, layout: seq<MM.MemoryBlock>, target: int) {
    && BXXX_RANGE < target && InRange(target, BXXX_RANGE)
    && (forall i :: 0 <= i < |layout| ==>
      MM.SearchStart(layout[i], target, BXXX_RANGE) != MM.SearchEnd(layout[i], target, BXXX_RANGE, 16))
    && (exists i :: 0 <= i < |layout| && MM.BlockHasCave(m, layout[i], target, BXXX_RANGE, 16))
  }

  // Binding a slot changes neither what the search sees nor where it may write.
  lemma CavesAfterSlot(m: Mem, m': Mem, layout: seq<MM.MemoryBlock>, target: int, pageSize: nat, slicePages: seq<int>,
                       slotPages: seq<int>, patches: seq<Patch>, pages: seq<int>, slotPages': seq<int>, from: nat)
    requires pages != [] && CavesUsable(layout, target, pageSize, slicePages, slotPages, patches, pages)
    requires CaveExists(m, layout, target)
    requires slotPages' == slotPages || slotPages' == slotPages + [pages[0]]
    requires from < |slotPages'| && SameOutside(m, m', slotPages'[from], pageSize)
    ensures CavesUsable(layout, target, pageSize, slicePages, slotPages', patches, pages[1..])
    ensures CaveExists(m', layout, target)
  {
    forall i, k: nat |
      0 <= i < |layout| && CaveCandidate(layout[i], target, k) < MM.SearchEnd(layout[i], target, BXXX_RANGE, 16)
      ensures var c := CaveCandidate(layout[i], target, k);
              && CaveUsable(c, pageSize, slicePages, slotPages', pages[1..])
              && (MM.ZeroAt(m, c, 16) <==> MM.ZeroAt(m', c, 16))
    {
      CandidateAfterSlot(m, m', CaveCandidate(layout[i], target, k), pageSize, slicePages, slotPages, pages, slotPages',
                         from);
    }
    var i :| 0 <= i < |layout| && MM.BlockHasCave(m, layout[i], target, BXXX_RANGE, 16);
    var start, end := MM.SearchStart(layout[i], target, BXXX_RANGE), MM.SearchEnd(layout[i], target, BXXX_RANGE, 16);
    var k: nat :| MM.Candidate(start, k, 16) < end && MM.ZeroAt(m, MM.Candidate(start, k, 16), 16);
    assert CaveCandidate(layout[i], target, k) == MM.Candidate(start, k, 16);
    assert MM.HasCave(m', start, end, 16);
  }

  lemma CandidateAfterSlot(m: Mem, m': Mem, c: int, pageSize: nat, slicePages: seq<int>, slotPages: seq<int>,
                           pages: seq<int>, slotPages': seq<int>, from: nat)
    requires pages != [] && CaveUsable(c, pageSize, slicePages, slotPages, pages)
    requires slotPages' == slotPages || slotPages' == slotPages + [pages[0]]
    requires from < |slotPages'| && SameOutside(m, m', slotPages'[from], pageSize)
    ensures CaveUsable(c, pageSize, slicePages, slotPages', pages[1..])
    ensures MM.ZeroAt(m, c, 16) <==> MM.ZeroAt(m', c, 16)
  {
    assert Clear(c, 16, pages[0], pageSize);
    assert Clear(c, 16, slotPages'[from], pageSize);
    assert forall x :: c <= x < c + 16 ==> m(x) == m'(x);
  }

  // A zero cave cannot overlap a word of code.
  lemma CaveMissesTarget(m: Mem, c: int, target: int)
    requires c % 4 == 0 && target % 4 == 0 && MM.ZeroAt(m, c, 16) && Fetch(m, target) != 0
    ensures Clear(c, 16, target, 4)
  {
  }

  class Installer {
    const engine: Engine
    const table: Asm.InstTable
    const beginHandler: U64
    const endHandler: U64
    const dbiHandler: U64
    var layout: seq<MM.MemoryBlock>
    var nearJumpFlag: bool
    var hookEntries: seq<HookEntry>

    constructor (engine: Engine, table: Asm.InstTable, beginHandler: U64, endHandler: U64, dbiHandler: U64,
                 layout: seq<MM.MemoryBlock>)
      ensures this.engine == engine && this.table == table && this.layout == layout && hookEntries == []
      ensures this.beginHandler == beginHandler && this.endHandler == endHandler && this.dbiHandler == dbiHandler
      ensures !nearJumpFlag && (engine.Valid() && engine.bridge.bridgeInfos == [] ==> Sound())
    {
      this.engine := engine;
      this.table := table;
      this.beginHandler, this.endHandler, this.dbiHandler := beginHandler, endHandler, dbiHandler;
      this.layout := layout;
      nearJumpFlag := false;
      hookEntries := [];
    }

    // The engine is consistent, the target window is free, and enough pages are in supply.
    ghost predicate Free(target: U64, window: nat, pages: seq<int>)
      reads table, table.entries, engine, engine.process, engine.manager, engine.manager.freeMemoryBlocks,
        engine.bridge, engine.bridge.trampolineTables
    {
      && engine.Valid() && engine.process.pageSize >= 256 && table.Valid()
      && TargetFree(engine.process.pageSize, engine.manager.Addresses(), engine.bridge.Pages(), engine.patches, target,
                    window)
      && Supply(engine.process.pageSize, engine.manager.Addresses(), engine.bridge.Pages(), engine.patches, target,
                window, pages)
    }

    ghost predicate Settled(entry: HookEntry, pages: seq<int>)
      reads table, table.entries, engine, engine.process, engine.manager, engine.manager.freeMemoryBlocks,
        engine.bridge, engine.bridge.trampolineTables, entry`isTryNearJump
    {
      Free(entry.targetAddress, entry.Window(), pages)
    }

    // A cave exists, wherever the search finds one may be written, and the target holds code.
    ghost predicate CavesFree(target: U64, pages: seq<int>)
      reads this`layout, engine, engine.process, engine.manager, engine.manager.freeMemoryBlocks, engine.bridge,
        engine.bridge.trampolineTables
    {
      && CavesUsable(layout, target, engine.process.pageSize, engine.manager.Addresses(), engine.bridge.Pages(),
                     engine.patches, pages)
      && CaveExists(engine.process.mem, layout, target)
      && Fetch(engine.process.mem, target) != 0
    }

    ghost predicate CavesReady(entry: HookEntry, pages: seq<int>)
      reads this`layout, engine, engine.process, engine.manager, engine.manager.freeMemoryBlocks, engine.bridge,
        engine.bridge.trampolineTables, entry`isTryNearJump
    {
      entry.isTryNearJump ==> CavesFree(entry.targetAddress, pages)
    }

    // The redirect of a near jump is within the reach of B.
    predicate Reachable(entry: HookEntry)
      reads entry`isTryNearJump, entry`onEnterTransferTrampoline
    {
      entry.isTryNearJump ==> Near(entry.targetAddress, entry.onEnterTransferTrampoline)
    }

    predicate Near(from: U64, to: U64) {
      (to - from) % 4 == 0 && -BXXX_RANGE <= to - from <= BXXX_RANGE
    }

    ghost predicate SameTarget(m: Mem, m': Mem, entry: HookEntry)
      reads entry`isTryNearJump
    {
      forall x :: entry.targetAddress <= x < entry.targetAddress + entry.Window() ==> m(x) == m'(x)
    }

    // The patches when the transfer of a near jump has been written to its cave.
    ghost function WithCave(before: seq<Patch>, entry: HookEntry): seq<Patch>
      reads entry
    {
      before + [Patch(entry.onEnterTransferTrampoline, Redirect(entry.Destination()))]
    }

    ghost function WithTransfer(before: seq<Patch>, entry: HookEntry): seq<Patch>
      reads entry
    {
      if entry.isTryNearJump && entry.hookType != Got then WithCave(before, entry) else before
    }

    // Hooks whose jumps go to 2^32 or above leave caves that later searches tell from free ones.
    lemma StaysSolid(before: seq<Patch>, entry: HookEntry)
      requires AllSolid(before) && entry.IsHigh() && Reachable(entry) && entry.targetAddress % 4 == 0
      ensures AllSolid(WithTransfer(before, entry) + [Patch(entry.targetAddress, entry.RedirectBytes())])
    {
      hide Solid, Redirect, WordBytes, BImmWord, AsUint64, Wrap;
      var cave: int, target: int := entry.onEnterTransferTrampoline, entry.targetAddress;
      if entry.isTryNearJump {
        FourfoldApart(cave - target, -target);
        RedirectSolid(cave, entry.Destination());
      }
      RedirectSolid(target, entry.FirstStop());
      NearSolid(target, AsUint64(Wrap(cave - target)));
    }

    method BuildForEnterTransfer(entry: HookEntry, pages: seq<int>)
      requires Settled(entry, pages) && CavesReady(entry, pages) && pages != []
      requires entry.limitRelocateInstSize == entry.Window()
      modifies entry`onEnterTransferTrampoline, engine.Repr()
      ensures fresh(engine.Repr() - old(engine.Repr())) && Settled(entry, pages[1..]) && Reachable(entry)
      ensures Extends(old(engine.Recorded()), engine.Recorded())
      ensures Written(engine.Recorded(), entry.onEnterTransferTrampoline, Redirect(entry.Destination()))
      ensures SameTarget(old(engine.process.mem), engine.process.mem, entry)
      ensures engine.patches
           == if entry.isTryNearJump then WithCave(old(engine.patches), entry) else old(engine.patches)
      ensures engine.bridge.bridgeInfos == old(engine.bridge.bridgeInfos)
    {
      hide Settled, CavesReady, Reachable, SameTarget, Engine.Recorded, Written, Extends, Redirect;
      var code := EmitTransfer(entry);
      if entry.limitRelocateInstSize == ARM64_TINY_REDIRECT_SIZE {
        FillCave(entry, code, pages);
      } else {
        UseSlice(entry, code, pages);
      }
    }

    // The full form: the code goes to a slice.
    method UseSlice(entry: HookEntry, code: seq<bv8>, pages: seq<int>)
      requires Settled(entry, pages) && pages != [] && |code| == 16 && !entry.isTryNearJump
      modifies entry`onEnterTransferTrampoline, engine.Repr()
      ensures fresh(engine.Repr() - old(engine.Repr())) && Settled(entry, pages[1..]) && Reachable(entry)
      ensures Extends(old(engine.Recorded()), engine.Recorded())
      ensures Written(engine.Recorded(), entry.onEnterTransferTrampoline, code)
      ensures SameTarget(old(engine.process.mem), engine.process.mem, entry)
      ensures engine.patches == old(engine.patches)
      ensures engine.bridge.bridgeInfos == old(engine.bridge.bridgeInfos)
    {
      hide Settled, Written, Extends, Engine.Recorded, SameTarget, Clear;
      ghost var before := engine.Recorded();
      var cs := TakeSlice(entry, |code|, pages);
      FillSlice(entry, cs, code, pages[1..], before);
      entry.onEnterTransferTrampoline := cs.data;
    }

    // The near form: the code goes to a cave within reach of the target.
    method FillCave(entry: HookEntry, code: seq<bv8>, pages: seq<int>)
      requires Settled(entry, pages) && CavesReady(entry, pages) && pages != [] && |code| == 16 && entry.isTryNearJump
      modifies entry`onEnterTransferTrampoline, engine.Repr()
      ensures fresh(engine.Repr() - old(engine.Repr())) && Settled(entry, pages[1..]) && Reachable(entry)
      ensures Extends(old(engine.Recorded()), engine.Recorded())
      ensures Written(engine.Recorded(), entry.onEnterTransferTrampoline, code)
      ensures SameTarget(old(engine.process.mem), engine.process.mem, entry)
      ensures engine.patches == old(engine.patches) + [Patch(entry.onEnterTransferTrampoline, code)]
      ensures engine.bridge.bridgeInfos == old(engine.bridge.bridgeInfos)
    {
      hide Settled, CavesReady, Engine.Recorded, Extends, Written, SameTarget, CaveFits, Near;
      var cave;
      ghost var block;
      cave, block := FindCave(entry, pages);
      PatchCave(entry, cave, code, pages);
      entry.onEnterTransferTrampoline := cave;
    }

    // search_code_cave: the first 16 zero bytes, 16 by 16 through each block, within 32 MiB of the target.
    method FindCave(entry: HookEntry, pages: seq<int>) returns (cave: U64, ghost block: nat)
      requires Settled(entry, pages) && CavesReady(entry, pages) && entry.isTryNearJump
      ensures CaveFits(entry, cave, pages) && Near(entry.targetAddress, cave)
      ensures block < |layout| && layout[block].address <= cave < layout[block].address + layout[block].size
      ensures forall x :: cave <= x < cave + 16 ==> engine.process.mem(x) == 0
      ensures forall i, a :: 0 <= i <= block ==>
                && layout[i].address <= a < layout[i].address + layout[i].size
                && entry.targetAddress - 0x200_0000 <= a < entry.targetAddress + 0x200_0000 - 16
                && (a - (if layout[i].address > entry.targetAddress - 0x200_0000 then layout[i].address
                         else entry.targetAddress - 0x200_0000)) % 16 == 0
                && (i == block ==> a < cave) ==>
                  !MM.ZeroAt(engine.process.mem, a, 16)
    {
      hide Engine.Valid, Supply, CavesUsable, UsablePage, Untouched, Fetch, MM.ZeroAt;
      ghost var m, target := engine.process.mem, entry.targetAddress;
      var cc;
      cc, block := MM.SearchCodeCave(engine.process.mem, layout, entry.targetAddress, BXXX_RANGE, 16);
      assert cc.Some?;
      ghost var i :| 0 <= i < |layout| && MM.IsFirstCave(m, layout[i], target, BXXX_RANGE, 16, cc.value);
      engine.PatchesHeld();
      FoundCaveUsable(m, layout, i, target, cc.value, engine.process.pageSize, engine.manager.Addresses(),
                      engine.bridge.Pages(), engine.patches, pages);
      cave := cc.value;
    }

    // Memory free for 16 bytes of code.
    ghost predicate CaveFits(entry: HookEntry, c: U64, pages: seq<int>)
      reads engine, engine.process, engine.manager, engine.manager.freeMemoryBlocks, engine.bridge,
        engine.bridge.trampolineTables
    {
      && InRange(c, 16) && engine.IsUntouched(c, 16) && FitsPage(engine.process.pageSize, c, 16)
      && ClearOfPages(engine.process.pageSize, pages, c, 16) && Clear(c, 16, entry.targetAddress, 4)
    }

    method PatchCave(entry: HookEntry, cave: U64, code: seq<bv8>, pages: seq<int>)
      requires Settled(entry, pages) && CaveFits(entry, cave, pages) && pages != [] && |code| == 16
      requires entry.isTryNearJump
      modifies engine.Repr()
      ensures fresh(engine.Repr() - old(engine.Repr())) && Settled(entry, pages[1..])
      ensures Extends(old(engine.Recorded()), engine.Recorded()) && Written(engine.Recorded(), cave, code)
      ensures SameTarget(old(engine.process.mem), engine.process.mem, entry)
      ensures engine.patches == old(engine.patches) + [Patch(cave, code)]
      ensures engine.bridge.bridgeInfos == old(engine.bridge.bridgeInfos)
    {
      hide Engine.Valid, Engine.Recorded, Extends, Written, Supply, UsablePage, Untouched, TargetFree;
      ghost var target, slices, slots := entry.targetAddress, engine.manager.Addresses(), engine.bridge.Pages();
      ghost var p, patches := Patch(cave, code), engine.patches;
      engine.ApplyPatch(cave, code);
      SupplyAfterPatch(engine.process.pageSize, slices, slots, patches, target, entry.Window(), pages, p);
      SupplyRest(engine.process.pageSize, slices, slots, engine.patches, target, entry.Window(), pages, slices, slots);
    }

    lemma FirstPage(entry: HookEntry, pages: seq<int>)
      requires Settled(entry, pages) && pages != []
      ensures engine.Valid() && engine.process.pageSize >= 256 && engine.FreshPage(pages[0])
      ensures Clear(pages[0], engine.process.pageSize, entry.targetAddress, entry.Window())
    {
      hide Engine.Valid, UsablePage, Untouched, TargetFree;
      assert SuppliedPage(engine.process.pageSize, engine.manager.Addresses(), engine.bridge.Pages(), engine.patches,
                          entry.targetAddress, entry.Window(), pages[0]);
    }

    // allocate_code_slice: the slice is apart from the target.
    method TakeSlice(entry: HookEntry, size: nat, pages: seq<int>) returns (cs: MM.CodeSlice)
      requires Settled(entry, pages) && pages != [] && 0 < size <= 256 && size % 4 == 0
      modifies engine.Repr()
      ensures fresh(engine.Repr() - old(engine.Repr())) && Settled(entry, pages[1..])
      ensures engine.process.mem == old(engine.process.mem) && engine.contents != []
      ensures cs == engine.manager.cuts[|engine.contents| - 1].slice && cs.size == size && cs.data % 4 == 0
      ensures 0 < cs.data && InRange(cs.data, cs.size)
      ensures Extends(old(engine.Recorded()), engine.Recorded().(contents := engine.contents[..|engine.contents| - 1]))
      ensures Clear(cs.data, cs.size, entry.targetAddress, entry.Window())
      ensures engine.patches == old(engine.patches)
      ensures engine.bridge.bridgeInfos == old(engine.bridge.bridgeInfos)
    {
      hide Engine.Valid, Engine.Recorded, Engine.FreshPage, Extends, Supply, TargetFree, Clear;
      ghost var slices, slots := engine.manager.Addresses(), engine.bridge.Pages();
      FirstPage(entry, pages);
      cs := engine.AllocateSlice(size, pages[0]);
      SupplyRest(engine.process.pageSize, slices, slots, engine.patches, entry.targetAddress, entry.Window(), pages,
                 engine.manager.Addresses(), slots);
      TargetMissesLast(entry, pages[1..]);
    }

    lemma TargetMissesLast(entry: HookEntry, pages: seq<int>)
      requires Settled(entry, pages) && engine.contents != []
      ensures |engine.manager.cuts| == |engine.contents|
      ensures var cs := engine.manager.cuts[|engine.contents| - 1].slice;
              Clear(cs.data, cs.size, entry.targetAddress, entry.Window())
    {
      hide Supply, Separate, Holds, CB.Bridge.Valid, MM.Consistent;
      engine.SliceMisses(|engine.contents| - 1, entry.targetAddress, entry.Window());
    }

    // patch_to: fills the slice just taken.
    method FillSlice(entry: HookEntry, cs: MM.CodeSlice, code: seq<bv8>, pages: seq<int>, ghost before: Ledger)
      requires Settled(entry, pages) && engine.contents != [] && |code| > 0
      requires cs == engine.manager.cuts[|engine.contents| - 1].slice && |code| == cs.size
      requires Clear(cs.data, cs.size, entry.targetAddress, entry.Window())
      requires Extends(before, engine.Recorded().(contents := engine.contents[..|engine.contents| - 1]))
      modifies engine.process, engine`contents
      ensures Settled(entry, pages) && Extends(before, engine.Recorded()) && Written(engine.Recorded(), cs.data, code)
      ensures SameTarget(old(engine.process.mem), engine.process.mem, entry)
      ensures engine.patches == old(engine.patches)
    {
      hide Engine.Valid, Written, Supply, TargetFree;
      engine.PatchSlice(cs, code);
    }

    // A closure slot bound to the entry; the code at the target and the caves stay as they were.
    method TakeSlot(entry: HookEntry, userCode: U64, infoAddress: U64, pages: seq<int>) returns (slot: U64)
      requires Settled(entry, pages) && pages != []
      modifies engine.Repr()
      ensures fresh(engine.Repr() - old(engine.Repr())) && Settled(entry, pages[1..])
      ensures old(CavesReady(entry, pages)) ==> CavesReady(entry, pages[1..])
      ensures Extends(old(engine.Recorded()), engine.Recorded())
      ensures SlotFor(engine.Recorded(), CB.Info(infoAddress, userCode, entry.id, slot))
      ensures SameTarget(old(engine.process.mem), engine.process.mem, entry)
      ensures engine.patches == old(engine.patches)
      ensures engine.bridge.bridgeInfos
           == old(engine.bridge.bridgeInfos) + [CB.Info(infoAddress, userCode, entry.id, slot)]
    {
      hide Engine.Valid, Engine.Recorded, Engine.FreshPage, Extends, SlotFor, Supply, TargetFree, CavesUsable,
        CaveExists, SameOutside, Fetch, Clear;
      ghost var m, slots, slices := engine.process.mem, engine.bridge.Pages(), engine.manager.Addresses();
      ghost var pageSize, patches, target := engine.process.pageSize, engine.patches, entry.targetAddress;
      FirstPage(entry, pages);
      var info;
      ghost var from;
      info, from := engine.AllocateSlot(entry.id, userCode, infoAddress, pages[0]);
      slot := info.redirectTrampoline;
      ghost var m', slots' := engine.process.mem, engine.bridge.Pages();
      SupplyRest(pageSize, slices, slots, patches, target, entry.Window(), pages, slices, slots');
      TargetOutsideSlots(m, m', pageSize, slices, slots', patches, target, entry.Window(), from);
      if entry.isTryNearJump && old(CavesReady(entry, pages)) {
        CavesAfterSlot(m, m', layout, target, pageSize, slices, slots, patches, pages, slots', from);
        SameFetch(m, m', target);
      }
    }

    method BuildForEnter(entry: HookEntry, infoAddress: U64, pages: seq<int>)
      requires Settled(entry, pages) && |pages| >= 2 && (entry.hookType != Got ==> CavesReady(entry, pages))
      requires entry.hookType == Got || (entry.hookType == PrePost && entry.limitRelocateInstSize == entry.Window())
      modifies entry`onEnterTrampoline, entry`onEnterTransferTrampoline, engine.Repr()
      ensures fresh(engine.Repr() - old(engine.Repr())) && Settled(entry, pages[2..])
      ensures entry.hookType != Got ==> Reachable(entry)
      ensures Extends(old(engine.Recorded()), engine.Recorded())
      ensures SlotFor(engine.Recorded(), CB.Info(infoAddress, beginHandler, entry.id, entry.onEnterTrampoline))
      ensures entry.isTryNearJump && entry.hookType != Got ==>
                Written(engine.Recorded(), entry.onEnterTransferTrampoline, Redirect(entry.onEnterTrampoline))
      ensures SameTarget(old(engine.process.mem), engine.process.mem, entry)
      ensures engine.patches == WithTransfer(old(engine.patches), entry)
      ensures engine.bridge.bridgeInfos
           == old(engine.bridge.bridgeInfos) + [CB.Info(infoAddress, beginHandler, entry.id, entry.onEnterTrampoline)]
    {
      hide Settled, CavesReady, Engine.Recorded, Extends, SlotFor, Written, Redirect, Engine.Repr;
      EngineParts(entry);
      var pages' := pages[1..];
      ghost var l := engine.Recorded();
      var slot := TakeSlot(entry, beginHandler, infoAddress, pages);
      entry.onEnterTrampoline := slot;
      label bound:
      ghost var l', owned := engine.Recorded(), engine.Repr();
      if entry.limitRelocateInstSize == ARM64_TINY_REDIRECT_SIZE && entry.hookType != Got {
        BuildForEnterTransfer(entry, pages');
        ExtendsTrans(l, l', engine.Recorded());
        StaysBound(l', engine.Recorded(), CB.Info(infoAddress, beginHandler, entry.id, slot));
      } else {
        SkipPage(entry, pages');
      }
      assert pages'[1..] == pages[2..];
      assert forall o :: o in engine.Repr() && o !in owned ==> fresh@bound(o);
    }

    // on_invoke_trampoline: the relocated window and the jump behind it, from the code now at the target.
    method BuildForInvoke(entry: HookEntry, pages: seq<int>)
      requires Settled(entry, pages) && pages != [] && Intact(entry)
      modifies entry`onInvokeTrampoline, engine.Repr()
      ensures fresh(engine.Repr() - old(engine.Repr())) && Settled(entry, pages[1..])
      ensures Extends(old(engine.Recorded()), engine.Recorded())
      ensures Written(engine.Recorded(), entry.onInvokeTrampoline, InvokeCode(entry))
      ensures SameTarget(old(engine.process.mem), engine.process.mem, entry)
      ensures engine.patches == old(engine.patches)
      ensures engine.bridge.bridgeInfos == old(engine.bridge.bridgeInfos)
    {
      hide Settled, Written, Extends, Engine.Recorded, SameTarget, InvokeCode, Intact, R.Relocator.Valid,
        R.Relocator.Repr, Writer.Bytes, Writer.Repr, Asm.InstTable.Valid, Engine.Repr;
      EngineParts(entry);
      ghost var owned := engine.Repr();
      var relocator := EmitForInvoke(entry, pages);
      assert engine.Repr() == owned && relocator.Repr() !! owned;
      label placing:
      PlaceInvoke(relocator, entry, pages);
      assert entry.originPrologue == old(entry.originPrologue);
      assert forall o :: o in engine.Repr() && o !in owned ==> fresh@placing(o);
    }

    method EmitForInvoke(entry: HookEntry, ghost pages: seq<int>) returns (relocator: R.Relocator)
      requires Settled(entry, pages) && Intact(entry)
      ensures relocator.Valid() && fresh(relocator.Repr()) && relocator.output.Bytes() == InvokeCode(entry)
      ensures 0 < |InvokeCode(entry)| <= 256 && |InvokeCode(entry)| % 4 == 0
    {
      hide Trampoline, WordsOf, Asm.InstTable.Valid, R.Relocator.Valid, R.Relocator.Repr, OutIndex, InvokeCode,
        PrologueWords, Intact, Settled, Writer.Bytes, Writer.Valid, Writer.Repr, BytesAt, Fetch;
      SettledFacts(entry, pages);
      IntactCode(entry);
      relocator := EmitInvoke(table, engine.process.mem, entry.targetAddress, entry.limitRelocateInstSize);
    }

    lemma SettledFacts(entry: HookEntry, pages: seq<int>)
      requires Settled(entry, pages)
      ensures table.Valid() && entry.targetAddress + 16 < TWO_64 && entry.targetAddress % 4 == 0
    {
      hide Engine.Valid, Supply;
    }

    lemma IntactWindow(entry: HookEntry)
      requires Intact(entry)
      ensures entry.limitRelocateInstSize == entry.Window() == |entry.originPrologue|
      ensures BytesAt(engine.process.mem, entry.targetAddress, entry.originPrologue)
    {
    }

    lemma IntactCode(entry: HookEntry)
      requires Intact(entry) && entry.targetAddress + 16 < TWO_64
      ensures entry.limitRelocateInstSize == entry.Window()
      ensures var ws := WordsOf(engine.process.mem, entry.targetAddress, entry.Window() / 4);
              && InvokeCode(entry) == Trampoline(ws, entry.targetAddress)
              && 0 < |InvokeCode(entry)| <= 256 && |InvokeCode(entry)| % 4 == 0
    {
      hide Trampoline, OutIndex;
      var n := entry.Window();
      assert entry.originPrologue == BytesOf(engine.process.mem, entry.targetAddress, n);
      SavedWords(engine.process.mem, entry.targetAddress, n);
      TrampolineSize(WordsOf(engine.process.mem, entry.targetAddress, n / 4), entry.targetAddress);
    }

    // Allocates the slice, writes the code a second time for its address, and patches it there.
    method PlaceInvoke(relocator: R.Relocator, entry: HookEntry, pages: seq<int>)
      requires Settled(entry, pages) && pages != []
      requires relocator.Valid() && 0 < |relocator.output.Bytes()| <= 256 && |relocator.output.Bytes()| % 4 == 0
      requires relocator.Repr() !! engine.Repr() && table !in relocator.Repr() && table.entries !in relocator.Repr()
      modifies entry`onInvokeTrampoline, engine.Repr(), relocator.Repr()
      ensures fresh(engine.Repr() - old(engine.Repr())) && Settled(entry, pages[1..])
      ensures Extends(old(engine.Recorded()), engine.Recorded())
      ensures Written(engine.Recorded(), entry.onInvokeTrampoline, old(relocator.output.Bytes()))
      ensures SameTarget(old(engine.process.mem), engine.process.mem, entry)
      ensures engine.patches == old(engine.patches)
      ensures engine.bridge.bridgeInfos == old(engine.bridge.bridgeInfos)
    {
      hide Settled, Written, Extends, Engine.Recorded, SameTarget, Clear, Asm.InstTable.Valid, Engine.Repr;
      ghost var before, bytes := engine.Recorded(), relocator.output.Bytes();
      EngineParts(entry);
      TablesApart(relocator.table);
      TablesApart(table);
      var cs := TakeSlice(entry, relocator.output.Size(), pages);
      hide Writer.Bytes, Writer.Valid, R.Relocator.Valid;
      assert relocator.Valid() && relocator.output.Bytes() == bytes;
      WriteTwice(relocator, entry, cs, pages[1..], before);
    }

    lemma TablesApart(t: Asm.InstTable)
      ensures t !in engine.Repr() && t.entries !in engine.Repr()
    {
    }

    lemma EngineParts(entry: HookEntry)
      ensures engine in engine.Repr() && engine.process in engine.Repr()
      ensures entry !in engine.Repr() && this !in engine.Repr()
      ensures forall o :: o in engine.Repr() ==> allocated(o)
    {
    }

    method WriteTwice(relocator: R.Relocator, entry: HookEntry, cs: MM.CodeSlice, pages: seq<int>, ghost before: Ledger)
      requires Settled(entry, pages) && engine.contents != []
      requires cs == engine.manager.cuts[|engine.contents| - 1].slice && cs.data % 4 == 0 && 0 < cs.data < TWO_64
      requires Clear(cs.data, cs.size, entry.targetAddress, entry.Window())
      requires Extends(before, engine.Recorded().(contents := engine.contents[..|engine.contents| - 1]))
      requires relocator.Valid() && 0 < |relocator.output.Bytes()| == cs.size
      requires relocator.Repr() !! engine.Repr() && table !in relocator.Repr() && table.entries !in relocator.Repr()
      modifies entry`onInvokeTrampoline, engine.process, engine`contents, relocator.Repr()
      ensures Settled(entry, pages) && Extends(before, engine.Recorded())
      ensures Written(engine.Recorded(), entry.onInvokeTrampoline, old(relocator.output.Bytes()))
      ensures SameTarget(old(engine.process.mem), engine.process.mem, entry)
      ensures engine.patches == old(engine.patches)
    {
      hide Settled, Written, Extends, Engine.Recorded, SameTarget, Clear, Asm.InstTable.Valid, R.Relocator.Valid,
        Writer.Bytes, Writer.Valid;
      var code := FinalBytes(relocator, cs.data);
      FillSlice(entry, cs, code, pages, before);
      entry.onInvokeTrampoline := cs.data;
    }

    method BuildForLeave(entry: HookEntry, infoAddress: U64, pages: seq<int>)
      requires Settled(entry, pages) && pages != []
      modifies entry`onLeaveTrampoline, engine.Repr()
      ensures fresh(engine.Repr() - old(engine.Repr())) && Settled(entry, pages[1..])
      ensures Extends(old(engine.Recorded()), engine.Recorded())
      ensures SlotFor(engine.Recorded(), CB.Info(infoAddress, endHandler, entry.id, entry.onLeaveTrampoline))
      ensures SameTarget(old(engine.process.mem), engine.process.mem, entry)
      ensures engine.patches == old(engine.patches)
      ensures engine.bridge.bridgeInfos
           == old(engine.bridge.bridgeInfos) + [CB.Info(infoAddress, endHandler, entry.id, entry.onLeaveTrampoline)]
    {
      hide Settled, Engine.Recorded, Extends, SlotFor;
      var slot := TakeSlot(entry, endHandler, infoAddress, pages);
      entry.onLeaveTrampoline := slot;
    }

    method BuildForDbi(entry: HookEntry, infoAddress: U64, pages: seq<int>)
      requires Settled(entry, pages) && CavesReady(entry, pages) && |pages| >= 2 && entry.hookType == Dbi
      requires entry.limitRelocateInstSize == entry.Window()
      modifies entry`onDbiTrampoline, entry`onEnterTransferTrampoline, engine.Repr()
      ensures fresh(engine.Repr() - old(engine.Repr())) && Settled(entry, pages[2..]) && Reachable(entry)
      ensures Extends(old(engine.Recorded()), engine.Recorded())
      ensures SlotFor(engine.Recorded(), CB.Info(infoAddress, dbiHandler, entry.id, entry.onDbiTrampoline))
      ensures entry.isTryNearJump ==>
                Written(engine.Recorded(), entry.onEnterTransferTrampoline, Redirect(entry.onDbiTrampoline))
      ensures SameTarget(old(engine.process.mem), engine.process.mem, entry)
      ensures engine.patches == WithTransfer(old(engine.patches), entry)
      ensures engine.bridge.bridgeInfos
           == old(engine.bridge.bridgeInfos) + [CB.Info(infoAddress, dbiHandler, entry.id, entry.onDbiTrampoline)]
    {
      hide Settled, CavesReady, Engine.Recorded, Extends, SlotFor, Written, Redirect, Engine.Repr;
      EngineParts(entry);
      var pages' := pages[1..];
      ghost var l := engine.Recorded();
      var slot := TakeSlot(entry, dbiHandler, infoAddress, pages);
      entry.onDbiTrampoline := slot;
      label bound:
      ghost var l', owned := engine.Recorded(), engine.Repr();
      if entry.limitRelocateInstSize == ARM64_TINY_REDIRECT_SIZE {
        BuildForEnterTransfer(entry, pages');
        ExtendsTrans(l, l', engine.Recorded());
        StaysBound(l', engine.Recorded(), CB.Info(infoAddress, dbiHandler, entry.id, slot));
      } else {
        SkipPage(entry, pages');
      }
      assert pages'[1..] == pages[2..];
      assert forall o :: o in engine.Repr() && o !in owned ==> fresh@bound(o);
    }

    // The infos build_all hands out for an entry.
    ghost function Handed(entry: HookEntry, enterInfo: U64, leaveInfo: U64): seq<CB.Info>
      reads entry
    {
      match entry.hookType
      case Replace => []
      case Dbi => [CB.Info(enterInfo, dbiHandler, entry.id, entry.onDbiTrampoline)]
      case _ =>
        [CB.Info(enterInfo, beginHandler, entry.id, entry.onEnterTrampoline),
         CB.Info(leaveInfo, endHandler, entry.id, entry.onLeaveTrampoline)]
    }

    // The info is one of the entry's, its handler the one for that slot of an entry of this type.
    predicate Belongs(info: CB.Info, entry: HookEntry)
      reads entry
    {
      && info.userData == entry.id
      && match entry.hookType
         case Replace => false
         case Dbi => info.userCode == dbiHandler && info.redirectTrampoline == entry.onDbiTrampoline
         case _ =>
           || (info.userCode == beginHandler && info.redirectTrampoline == entry.onEnterTrampoline)
           || (info.userCode == endHandler && info.redirectTrampoline == entry.onLeaveTrampoline)
    }

    // What build_all leaves behind: the trampolines of the entry's type.
    ghost predicate Built(l: Ledger, entry: HookEntry)
      reads entry
    {
      && (entry.hookType != Got ==> Written(l, entry.onInvokeTrampoline, InvokeCode(entry)))
      && (entry.hookType != Got && entry.UsesTransfer() ==>
        Written(l, entry.onEnterTransferTrampoline, Redirect(entry.Destination())))
      && match entry.hookType
         case Replace => true
         case Dbi => HasSlot(l, dbiHandler, entry.id, entry.onDbiTrampoline)
         case _ =>
           && HasSlot(l, beginHandler, entry.id, entry.onEnterTrampoline)
           && HasSlot(l, endHandler, entry.id, entry.onLeaveTrampoline)
    }

    ghost function InvokeCode(entry: HookEntry): seq<bv8>
      reads entry`originPrologue
    {
      var ws := PrologueWords(entry.originPrologue);
      if entry.targetAddress + 4 * |ws| < TWO_64 then Trampoline(ws, entry.targetAddress) else []
    }

    lemma StaysBuilt(l: Ledger, l': Ledger, entry: HookEntry)
      requires Extends(l, l') && Built(l, entry)
      ensures Built(l', entry)
    {
      hide Extends, Written, Redirect, HasSlot, InvokeCode;
      if entry.hookType != Got {
        StaysWritten(l, l', entry.onInvokeTrampoline, InvokeCode(entry));
        if entry.UsesTransfer() {
          StaysWritten(l, l', entry.onEnterTransferTrampoline, Redirect(entry.Destination()));
        }
      }
      match entry.hookType {
        case Replace =>
        case Dbi => StaysSlot(l, l', dbiHandler, entry.id, entry.onDbiTrampoline);
        case _ =>
          StaysSlot(l, l', beginHandler, entry.id, entry.onEnterTrampoline);
          StaysSlot(l, l', endHandler, entry.id, entry.onLeaveTrampoline);
      }
    }

    // The target still holds the saved prologue.
    ghost predicate Intact(entry: HookEntry)
      reads engine, engine.process, entry`originPrologue, entry`isTryNearJump, entry`limitRelocateInstSize
    {
      && entry.limitRelocateInstSize == entry.Window() == |entry.originPrologue|
      && BytesAt(engine.process.mem, entry.targetAddress, entry.originPrologue)
    }

    lemma StaysIntact(m: Mem, entry: HookEntry)
      requires SameTarget(m, engine.process.mem, entry) && BytesAt(m, entry.targetAddress, entry.originPrologue)
      requires entry.limitRelocateInstSize == entry.Window() == |entry.originPrologue|
      ensures Intact(entry)
    {
    }

    // build_all() for a wrapped function.
    method BuildPrePost(entry: HookEntry, enterInfo: U64, leaveInfo: U64, pages: seq<int>)
      requires Settled(entry, pages) && CavesReady(entry, pages) && |pages| >= 4 && Intact(entry)
      requires entry.hookType == PrePost
      modifies entry`onEnterTrampoline, entry`onEnterTransferTrampoline, entry`onInvokeTrampoline,
        entry`onLeaveTrampoline, entry`onDbiTrampoline, engine.Repr()
      ensures fresh(engine.Repr() - old(engine.Repr())) && Reachable(entry) && Intact(entry)
      ensures exists k :: 0 <= k <= 4 && Settled(entry, pages[k..])
      ensures Extends(old(engine.Recorded()), engine.Recorded()) && Built(engine.Recorded(), entry)
      ensures engine.patches == WithTransfer(old(engine.patches), entry)
      ensures engine.bridge.bridgeInfos
           == old(engine.bridge.bridgeInfos) + [CB.Info(enterInfo, beginHandler, entry.id, entry.onEnterTrampoline),
                                                CB.Info(leaveInfo, endHandler, entry.id, entry.onLeaveTrampoline)]
    {
      hide Settled, CavesReady, Engine.Recorded, Extends, SlotFor, Written, Redirect, InvokeCode, SameTarget, Intact,
        Reachable, Engine.Repr;
      ghost var m, l := engine.process.mem, engine.Recorded();
      IntactWindow(entry);
      EngineParts(entry);
      BuildForEnter(entry, enterInfo, pages);
      label entered:
      ghost var l1, owned1 := engine.Recorded(), engine.Repr();
      StaysIntact(m, entry);
      EngineParts(entry);
      var pages2 := pages[2..];
      ghost var m1 := engine.process.mem;
      BuildForInvoke(entry, pages2);
      assert forall o :: o in engine.Repr() && o !in owned1 ==> fresh@entered(o);
      label invoked:
      ghost var l2, owned2 := engine.Recorded(), engine.Repr();
      StaysIntact(m1, entry);
      EngineParts(entry);
      var pages3 := pages2[1..];
      ghost var m2 := engine.process.mem;
      BuildForLeave(entry, leaveInfo, pages3);
      assert forall o :: o in engine.Repr() && o !in owned2 ==> fresh@invoked(o);
      ghost var l3 := engine.Recorded();
      StaysIntact(m2, entry);
      assert pages3[1..] == pages[4..];
      ExtendsTrans(l1, l2, l3);
      ExtendsTrans(l, l1, l3);
      StaysBound(l1, l3, CB.Info(enterInfo, beginHandler, entry.id, entry.onEnterTrampoline));
      StaysWritten(l2, l3, entry.onInvokeTrampoline, InvokeCode(entry));
      if entry.isTryNearJump {
        StaysWritten(l1, l3, entry.onEnterTransferTrampoline, Redirect(entry.onEnterTrampoline));
      }
    }

    // build_all() for a replaced function.
    method BuildReplace(entry: HookEntry, pages: seq<int>)
      requires Settled(entry, pages) && CavesReady(entry, pages) && |pages| >= 4 && Intact(entry)
      requires entry.hookType == Replace
      modifies entry`onEnterTrampoline, entry`onEnterTransferTrampoline, entry`onInvokeTrampoline,
        entry`onLeaveTrampoline, entry`onDbiTrampoline, engine.Repr()
      ensures fresh(engine.Repr() - old(engine.Repr())) && Reachable(entry) && Intact(entry)
      ensures exists k :: 0 <= k <= 4 && Settled(entry, pages[k..])
      ensures Extends(old(engine.Recorded()), engine.Recorded()) && Built(engine.Recorded(), entry)
      ensures engine.patches == WithTransfer(old(engine.patches), entry)
      ensures engine.bridge.bridgeInfos == old(engine.bridge.bridgeInfos)
    {
      hide Settled, CavesReady, Engine.Recorded, Extends, SlotFor, Written, Redirect, InvokeCode, SameTarget, Intact,
        Reachable;
      ghost var m, l := engine.process.mem, engine.Recorded();
      IntactWindow(entry);
      BuildForEnterTransfer(entry, pages);
      ghost var l1 := engine.Recorded();
      StaysIntact(m, entry);
      var pages1 := pages[1..];
      ghost var m1 := engine.process.mem;
      BuildForInvoke(entry, pages1);
      ghost var l2 := engine.Recorded();
      StaysIntact(m1, entry);
      assert pages1[1..] == pages[2..];
      ExtendsTrans(l, l1, l2);
      StaysWritten(l1, l2, entry.onEnterTransferTrampoline, Redirect(entry.Destination()));
    }

    // build_all() for an instrumented instruction.
    method BuildDbi(entry: HookEntry, dbiInfo: U64, pages: seq<int>)
      requires Settled(entry, pages) && CavesReady(entry, pages) && |pages| >= 4 && Intact(entry)
      requires entry.hookType == Dbi
      modifies entry`onEnterTrampoline, entry`onEnterTransferTrampoline, entry`onInvokeTrampoline,
        entry`onLeaveTrampoline, entry`onDbiTrampoline, engine.Repr()
      ensures fresh(engine.Repr() - old(engine.Repr())) && Reachable(entry) && Intact(entry)
      ensures exists k :: 0 <= k <= 4 && Settled(entry, pages[k..])
      ensures Extends(old(engine.Recorded()), engine.Recorded()) && Built(engine.Recorded(), entry)
      ensures engine.patches == WithTransfer(old(engine.patches), entry)
      ensures engine.bridge.bridgeInfos
           == old(engine.bridge.bridgeInfos) + [CB.Info(dbiInfo, dbiHandler, entry.id, entry.onDbiTrampoline)]
    {
      hide Settled, CavesReady, Engine.Recorded, Extends, SlotFor, Written, Redirect, InvokeCode, SameTarget, Intact,
        Reachable;
      ghost var m, l := engine.process.mem, engine.Recorded();
      IntactWindow(entry);
      BuildForDbi(entry, dbiInfo, pages);
      ghost var l1 := engine.Recorded();
      StaysIntact(m, entry);
      var pages2 := pages[2..];
      ghost var m1 := engine.process.mem;
      BuildForInvoke(entry, pages2);
      ghost var l2 := engine.Recorded();
      StaysIntact(m1, entry);
      assert pages2[1..] == pages[3..];
      ExtendsTrans(l, l1, l2);
      StaysBound(l1, l2, CB.Info(dbiInfo, dbiHandler, entry.id, entry.onDbiTrampoline));
      if entry.isTryNearJump {
        StaysWritten(l1, l2, entry.onEnterTransferTrampoline, Redirect(entry.onDbiTrampoline));
      }
    }

    // build_all() for an import: its slots, and nothing at the target.
    method BuildGot(entry: HookEntry, enterInfo: U64, leaveInfo: U64, pages: seq<int>)
      requires Settled(entry, pages) && |pages| >= 4 && entry.hookType == Got
      modifies entry`onEnterTrampoline, entry`onEnterTransferTrampoline, entry`onLeaveTrampoline, engine.Repr()
      ensures fresh(engine.Repr() - old(engine.Repr()))
      ensures exists k :: 0 <= k <= 4 && Settled(entry, pages[k..])
      ensures Extends(old(engine.Recorded()), engine.Recorded()) && Built(engine.Recorded(), entry)
      ensures engine.patches == WithTransfer(old(engine.patches), entry)
      ensures engine.bridge.bridgeInfos
           == old(engine.bridge.bridgeInfos) + [CB.Info(enterInfo, beginHandler, entry.id, entry.onEnterTrampoline),
                                                CB.Info(leaveInfo, endHandler, entry.id, entry.onLeaveTrampoline)]
    {
      hide Settled, CavesReady, Engine.Recorded, Extends, SlotFor, Written, Redirect, InvokeCode, SameTarget;
      ghost var l := engine.Recorded();
      BuildForEnter(entry, enterInfo, pages);
      ghost var l1 := engine.Recorded();
      var pages2 := pages[2..];
      BuildForLeave(entry, leaveInfo, pages2);
      assert pages2[1..] == pages[3..];
      ExtendsTrans(l, l1, engine.Recorded());
      StaysBound(l1, engine.Recorded(), CB.Info(enterInfo, beginHandler, entry.id, entry.onEnterTrampoline));
    }

    // build_all(); the addresses of new infos come from malloc. An import's target is not touched.
    method BuildAll(entry: HookEntry, enterInfo: U64, leaveInfo: U64, pages: seq<int>)
      requires Settled(entry, pages) && |pages| >= 4 && (entry.hookType != Got ==> CavesReady(entry, pages))
      modifies entry, engine.Repr()
      ensures fresh(engine.Repr() - old(engine.Repr()))
      ensures entry.hookType != Got ==> Reachable(entry) && Intact(entry)
      ensures entry.isTryNearJump == old(entry.isTryNearJump)
      ensures entry.originPrologue == if entry.hookType == Got then old(entry.originPrologue)
                                      else BytesOf(old(engine.process.mem), entry.targetAddress, entry.Window())
      ensures exists k :: 0 <= k <= 4 && Settled(entry, pages[k..])
      ensures Extends(old(engine.Recorded()), engine.Recorded()) && Built(engine.Recorded(), entry)
      ensures engine.patches == WithTransfer(old(engine.patches), entry)
      ensures engine.bridge.bridgeInfos == old(engine.bridge.bridgeInfos) + Handed(entry, enterInfo, leaveInfo)
    {
      hide Settled, CavesReady, Engine.Recorded, Extends, Built, Reachable, Asm.InstTable.Valid, Engine.Repr, BytesOf;
      SettledFacts(entry, pages);
      EngineParts(entry);
      if entry.hookType == Got {
        BuildGot(entry, enterInfo, leaveInfo, pages);
        return;
      }
      ghost var owned := engine.Repr();
      Prepare(table, engine.process, entry);
      assert engine.Repr() == owned;
      label prepared:
      if entry.hookType == PrePost {
        BuildPrePost(entry, enterInfo, leaveInfo, pages);
      } else if entry.hookType == Replace {
        BuildReplace(entry, pages);
      } else {
        BuildDbi(entry, enterInfo, pages);
      }
      assert forall o :: o in engine.Repr() && o !in owned ==> fresh@prepared(o);
    }

    // active(): patches the redirect over the target.
    method Active(entry: HookEntry, ghost pages: seq<int>)
      requires Settled(entry, pages) && Intact(entry) && Built(engine.Recorded(), entry) && entry.hookType != Got
      modifies engine.process, engine`patches
      ensures engine.Valid() && Extends(old(engine.Recorded()), engine.Recorded())
      ensures Built(engine.Recorded(), entry)
      ensures Written(engine.Recorded(), entry.targetAddress, entry.RedirectBytes())
      ensures engine.patches == old(engine.patches) + [Patch(entry.targetAddress, entry.RedirectBytes())]
    {
      hide Engine.Valid, Engine.Recorded, Extends, Built, Written, Supply, Untouched;
      var code := EmitRedirect(entry);
      engine.ApplyPatch(entry.targetAddress, code);
      StaysBuilt(old(engine.Recorded()), engine.Recorded(), entry);
    }

    // Everything the run of a hooked target or of its original depends on is in memory.
    ghost predicate Installed(l: Ledger, entry: HookEntry)
      reads entry
    {
      && Built(l, entry) && Written(l, entry.targetAddress, entry.RedirectBytes()) && Reachable(entry)
      && entry.limitRelocateInstSize == entry.Window() == |entry.originPrologue| && entry.hookType != Got
    }

    // Every hook installed so far is still in place, and every closure slot handed out is one of theirs.
    ghost predicate Sound()
      reads this, hookEntries, engine, engine.process, engine.manager, engine.manager.freeMemoryBlocks, engine.bridge,
        engine.bridge.trampolineTables
    {
      && engine.Valid() && (forall e :: e in hookEntries ==> e !in engine.Repr() && Installed(engine.Recorded(), e))
      && (forall info :: info in engine.bridge.bridgeInfos ==> HasOwner(info, hookEntries))
    }

    ghost predicate HasOwner(info: CB.Info, entries: seq<HookEntry>)
      reads entries
    {
      exists e :: e in entries && Belongs(info, e)
    }

    // The infos handed out for the newest entry are its own.
    lemma OwnersKept(infos: seq<CB.Info>, entries: seq<HookEntry>, entry: HookEntry, enterInfo: U64, leaveInfo: U64)
      requires forall info :: info in infos ==> HasOwner(info, entries)
      ensures forall info :: info in infos + Handed(entry, enterInfo, leaveInfo) ==> HasOwner(info, entries + [entry])
    {
      forall info | info in infos + Handed(entry, enterInfo, leaveInfo) ensures HasOwner(info, entries + [entry]) {
        if info in infos {
          var e :| e in entries && Belongs(info, e);
          assert e in entries + [entry];
        } else {
          assert entry in entries + [entry] && Belongs(info, entry);
        }
      }
    }

    lemma StaysInstalled(l: Ledger, l': Ledger, entry: HookEntry)
      requires Extends(l, l') && Installed(l, entry)
      ensures Installed(l', entry)
    {
      hide Extends, Built, Written;
      StaysBuilt(l, l', entry);
      StaysWritten(l, l', entry.targetAddress, entry.RedirectBytes());
    }

    /**
     * initialize_hook_entry(): adds, builds, activates. Every earlier hook stays in place, and the window saved
     * is the one patched.
     */
    method InitializeHookEntry(entry: HookEntry, enterInfo: U64, leaveInfo: U64, pages: seq<int>)
      requires Sound() && entry !in hookEntries && entry !in engine.Repr()
      requires !entry.isTryNearJump && entry.hookType != Got && |pages| >= 4
      requires Free(entry.targetAddress, if nearJumpFlag then 4 else 16, pages)
      requires nearJumpFlag ==> CavesFree(entry.targetAddress, pages)
      modifies this`hookEntries, entry, engine.Repr()
      ensures Sound() && hookEntries == old(hookEntries) + [entry] && entry.isTryNearJump == nearJumpFlag
      ensures entry.originPrologue == BytesOf(old(engine.process.mem), entry.targetAddress, entry.Window())
      ensures fresh(engine.Repr() - old(engine.Repr())) && Extends(old(engine.Recorded()), engine.Recorded())
      ensures AllSolid(old(engine.patches)) && entry.IsHigh() ==> AllSolid(engine.patches)
      ensures engine.bridge.bridgeInfos == old(engine.bridge.bridgeInfos) + Handed(entry, enterInfo, leaveInfo)
    {
      hide Engine.Valid, Engine.Recorded, Extends, Free, CavesFree, BytesOf, Installed, AllSolid, HookEntry.IsHigh,
        Belongs, Handed, Engine.Repr;
      ghost var l, entries, infos := engine.Recorded(), hookEntries, engine.bridge.bridgeInfos;
      if nearJumpFlag {
        entry.isTryNearJump := true;
      }
      hookEntries := hookEntries + [entry];
      EngineParts(entry);
      ghost var owned := engine.Repr();
      label added:
      BuildAndActivate(entry, enterInfo, leaveInfo, pages);
      assert forall o :: o in engine.Repr() && o !in owned ==> fresh@added(o);
      forall e | e in entries ensures Installed(engine.Recorded(), e) && e !in engine.Repr() {
        StaysInstalled(l, engine.Recorded(), e);
      }
      OwnersKept(infos, entries, entry, enterInfo, leaveInfo);
    }

    method BuildAndActivate(entry: HookEntry, enterInfo: U64, leaveInfo: U64, pages: seq<int>)
      requires Settled(entry, pages) && CavesReady(entry, pages) && |pages| >= 4 && entry.hookType != Got
      modifies entry, engine.Repr()
      ensures engine.Valid() && Installed(engine.Recorded(), entry) && entry.isTryNearJump == old(entry.isTryNearJump)
      ensures entry.originPrologue == BytesOf(old(engine.process.mem), entry.targetAddress, entry.Window())
      ensures fresh(engine.Repr() - old(engine.Repr())) && Extends(old(engine.Recorded()), engine.Recorded())
      ensures AllSolid(old(engine.patches)) && entry.IsHigh() ==> AllSolid(engine.patches)
      ensures engine.bridge.bridgeInfos == old(engine.bridge.bridgeInfos) + Handed(entry, enterInfo, leaveInfo)
    {
      hide Engine.Valid, Engine.Recorded, Extends, Built, Written, Settled, CavesReady, Reachable, Intact, BytesOf,
        Installed, AllSolid, HookEntry.IsHigh, HookEntry.RedirectBytes, WithTransfer;
      ghost var l, before := engine.Recorded(), engine.patches;
      SettledFacts(entry, pages);
      BuildAll(entry, enterInfo, leaveInfo, pages);
      ghost var l1 := engine.Recorded();
      ghost var k :| 0 <= k <= 4 && Settled(entry, pages[k..]);
      IntactWindow(entry);
      Active(entry, pages[k..]);
      ExtendsTrans(l, l1, engine.Recorded());
      NowInstalled(engine.Recorded(), entry);
      if AllSolid(before) && entry.IsHigh() {
        StaysSolid(before, entry);
      }
    }

    lemma NowInstalled(l: Ledger, entry: HookEntry)
      requires Built(l, entry) && Written(l, entry.targetAddress, entry.RedirectBytes()) && Reachable(entry)
      requires entry.limitRelocateInstSize == entry.Window() == |entry.originPrologue| && entry.hookType != Got
      ensures Installed(l, entry)
    {
    }

    lemma SkipPage(entry: HookEntry, pages: seq<int>)
      requires Settled(entry, pages) && pages != []
      ensures Settled(entry, pages[1..])
    {
      hide Engine.Valid;
      SupplyRest(engine.process.pageSize, engine.manager.Addresses(), engine.bridge.Pages(), engine.patches,
                 entry.targetAddress, entry.Window(), pages, engine.manager.Addresses(), engine.bridge.Pages());
    }
  }

  // Binding a slot leaves the target window as it was.
  lemma TargetOutsideSlots(m: Mem, m': Mem, pageSize: nat, slicePages: seq<int>, slotPages: seq<int>,
                           patches: seq<Patch>,
                           target: int, window: nat, from: nat)
    requires TargetFree(pageSize, slicePages, slotPages, patches, target, window)
    requires from < |slotPages| && SameOutside(m, m', slotPages[from], pageSize)
    ensures forall x :: target <= x < target + window ==> m(x) == m'(x)
  {
    assert Clear(target, window, slotPages[from], pageSize);
  }

  lemma SameFetch(m: Mem, m': Mem, a: int)
    requires forall x :: a <= x < a + 4 ==> m(x) == m'(x)
    ensures Fetch(m, a) == Fetch(m', a)
  {
    hide PackWord;
  }

  // A cave the search finds is one HookZz may write, within reach of the target and apart from it.
  lemma FoundCaveUsable(m: Mem, layout: seq<MM.MemoryBlock>, i: nat, target: int, c: int, pageSize: nat,
                        slicePages: seq<int>, slotPages: seq<int>, patches: seq<Patch>, pages: seq<int>)
    requires pageSize > 0 && i < |layout| && MM.IsFirstCave(m, layout[i], target, BXXX_RANGE, 16, c)
    requires CavesUsable(layout, target, pageSize, slicePages, slotPages, patches, pages)
    requires forall k :: 0 <= k < |patches| ==> BytesAt(m, patches[k].address, patches[k].bytes)
    requires CaveExists(m, layout, target) && target % 4 == 0 && Fetch(m, target) != 0
    ensures Untouched(pageSize, slicePages, slotPages, patches, c, 16) && FitsPage(pageSize, c, 16)
    ensures ClearOfPages(pageSize, pages, c, 16) && Clear(c, 16, target, 4)
    ensures InRange(c, 16) && (c - target) % 4 == 0 && -BXXX_RANGE <= c - target <= BXXX_RANGE
  {
    hide Fetch, CaveUsable, ClearOfPages, Untouched, FitsPage, CaveCandidate, MM.IsFirstCave, MM.ZeroAt, MM.SearchEnd,
      Solid, BytesAt;
    var k := CaveIsCandidate(m, layout[i], target, c);
    UsableZero(m, c, pageSize, slicePages, slotPages, patches, pages);
    CaveMissesTarget(m, c, target);
    MM.CaveInRange(m, layout[i], target, BXXX_RANGE, 16, c);
    FourfoldApart(c, target);
  }

  lemma FourfoldApart(c: int, target: int)
    requires c % 4 == 0 && target % 4 == 0
    ensures (c - target) % 4 == 0
  {
    var a, b := c / 4, target / 4;
    assert c - target == 4 * (a - b);
  }

  lemma CaveIsCandidate(m: Mem, mb: MM.MemoryBlock, target: int, c: int) returns (k: nat)
    requires MM.IsFirstCave(m, mb, target, BXXX_RANGE, 16, c)
    ensures c == CaveCandidate(mb, target, k) < MM.SearchEnd(mb, target, BXXX_RANGE, 16) && MM.ZeroAt(m, c, 16)
  {
    hide MM.ZeroAt, MM.SearchEnd;
    var start, end := MM.SearchStart(mb, target, BXXX_RANGE), MM.SearchEnd(mb, target, BXXX_RANGE, 16);
    k :| c == MM.Candidate(start, k, 16) < end && MM.ZeroAt(m, c, 16);
  }

  lemma UsableZero(m: Mem, c: int, pageSize: nat, slicePages: seq<int>, slotPages: seq<int>, patches: seq<Patch>,
                   pages: seq<int>)
    requires CaveUsable(c, pageSize, slicePages, slotPages, pages) && MM.ZeroAt(m, c, 16) && AllSolid(patches)
    requires forall k :: 0 <= k < |patches| ==> BytesAt(m, patches[k].address, patches[k].bytes)
    ensures c % 4 == 0 && 0 <= c && FitsPage(pageSize, c, 16)
    ensures ClearOfPages(pageSize, pages, c, 16) && Untouched(pageSize, slicePages, slotPages, patches, c, 16)
  {
    hide MM.ZeroAt, Solid, BytesAt;
    forall k | 0 <= k < |patches| ensures Clear(patches[k].address, |patches[k].bytes|, c, 16) {
      ZeroMissesPatch(m, c, patches[k]);
    }
  }
}
