/** Code slices and code caves (memory_manager.c). Pages are supplied by the environment. */
module MemoryManager {
  import opened Numbers
  import opened A64Encoding
  import opened A64Machine
  import opened Wrappers

  datatype CodeSlice = CodeSlice(data: int, size: nat)
  datatype MemoryBlock = MemoryBlock(address: int, size: nat)

  class FreeMemoryBlock {
    const address: int
    const totalSize: nat
    var usedSize: nat

    constructor (address: int, totalSize: nat)
      ensures this.address == address && this.totalSize == totalSize && usedSize == 0
    {
      this.address := address;
      this.totalSize := totalSize;
      usedSize := 0;
    }
  }

  // ----- the history of allocations -----

  // A slice and the index of the block it was cut from.
  datatype Cut = Cut(block: nat, slice: CodeSlice)

  // Bytes cut so far from block b.
  function Used(cuts: seq<Cut>, b: nat): nat {
    if cuts == [] then 0
    else
      var last := cuts[|cuts| - 1];
      Used(cuts[..|cuts| - 1], b) + if last.block == b then last.slice.size else 0
  }

  lemma {:induction false} UsedGrows(cuts: seq<Cut>, k: nat, b: nat)
    requires k <= |cuts|
    ensures Used(cuts[..k], b) <= Used(cuts, b)
    ensures k < |cuts| && cuts[k].block == b ==> Used(cuts[..k], b) + cuts[k].slice.size <= Used(cuts, b)
  {
    if k == |cuts| {
      assert cuts[..k] == cuts;
    } else {
      var front := cuts[..|cuts| - 1];
      if k < |front| {
        UsedGrows(front, k, b);
        assert front[..k] == cuts[..k];
      } else {
        assert front == cuts[..k];
      }
    }
  }

  // Blocks are disjoint pages; each block's used size is the sum of the slices cut from it, which lie one
  // after another from its start.
  ghost predicate Consistent(pageSize: nat, addresses: seq<int>, used: seq<nat>, cuts: seq<Cut>) {
    && pageSize > 0 && |used| == |addresses|
    && (forall i, j :: 0 <= i < j < |addresses| ==> Clear(addresses[i], pageSize, addresses[j], pageSize))
    && (forall i :: 0 <= i < |used| ==> used[i] == Used(cuts, i) <= pageSize)
    && (forall k :: 0 <= k < |cuts| ==> FollowsEarlier(addresses, cuts, k))
  }

  ghost predicate FollowsEarlier(addresses: seq<int>, cuts: seq<Cut>, k: nat)
    requires k < |cuts|
  {
    var c := cuts[k];
    0 < c.slice.size && c.block < |addresses| && c.slice.data == addresses[c.block] + Used(cuts[..k], c.block)
  }

  lemma CutKeeps(pageSize: nat, addresses: seq<int>, used: seq<nat>, cuts: seq<Cut>, i: nat, size: nat)
    requires Consistent(pageSize, addresses, used, cuts)
    requires i < |used| && 0 < size && used[i] + size <= pageSize
    ensures Consistent(pageSize, addresses, used[i := used[i] + size],
                       cuts + [Cut(i, CodeSlice(addresses[i] + used[i], size))])
  {
    var c := Cut(i, CodeSlice(addresses[i] + used[i], size));
    var cuts' := cuts + [c];
    assert cuts'[..|cuts|] == cuts;
    forall b: nat ensures Used(cuts', b) == Used(cuts, b) + if b == i then size else 0 {}
    forall k | 0 <= k < |cuts'| ensures FollowsEarlier(addresses, cuts', k) {
      assert cuts'[..k] == cuts[..k];
      if k < |cuts| {
        assert FollowsEarlier(addresses, cuts, k);
      }
    }
  }

  lemma PageKeeps(pageSize: nat, addresses: seq<int>, used: seq<nat>, cuts: seq<Cut>, page: int)
    requires Consistent(pageSize, addresses, used, cuts)
    requires forall i :: 0 <= i < |addresses| ==> Clear(addresses[i], pageSize, page, pageSize)
    ensures Consistent(pageSize, addresses + [page], used + [0], cuts)
  {
    forall k | 0 <= k < |cuts| ensures FollowsEarlier(addresses + [page], cuts, k) && cuts[k].block < |addresses| {
      assert FollowsEarlier(addresses, cuts, k);
    }
    UnusedBlock(cuts, |addresses|);
  }

  lemma {:induction false} UnusedBlock(cuts: seq<Cut>, b: nat)
    requires forall k :: 0 <= k < |cuts| ==> cuts[k].block < b
    ensures Used(cuts, b) == 0
  {
    if cuts != [] {
      UnusedBlock(cuts[..|cuts| - 1], b);
      assert cuts[|cuts| - 1].block < b;
    }
  }

  lemma SliceInside(pageSize: nat, addresses: seq<int>, used: seq<nat>, cuts: seq<Cut>, k: nat)
    requires Consistent(pageSize, addresses, used, cuts) && k < |cuts|
    ensures cuts[k].block < |addresses|
    ensures var a, c := addresses[cuts[k].block], cuts[k].slice;
            a <= c.data && c.data + c.size <= a + used[cuts[k].block] <= a + pageSize
  {
    assert FollowsEarlier(addresses, cuts, k);
    UsedGrows(cuts, k, cuts[k].block);
  }

  /** Any two slices ever handed out are disjoint. */
  lemma SlicesDisjoint(pageSize: nat, addresses: seq<int>, used: seq<nat>, cuts: seq<Cut>, j: nat, k: nat)
    requires Consistent(pageSize, addresses, used, cuts) && j < k < |cuts|
    ensures Clear(cuts[j].slice.data, cuts[j].slice.size, cuts[k].slice.data, cuts[k].slice.size)
  {
    SliceInside(pageSize, addresses, used, cuts, j);
    SliceInside(pageSize, addresses, used, cuts, k);
    var bj, bk := cuts[j].block, cuts[k].block;
    if bj == bk {
      assert FollowsEarlier(addresses, cuts, j) && FollowsEarlier(addresses, cuts, k);
      assert cuts[..k][..j] == cuts[..j];
      UsedGrows(cuts[..k], j, bj);
    } else {
      assert Clear(addresses[bj], pageSize, addresses[bk], pageSize);
    }
  }

  /** Slices of whole words, cut from word-aligned pages, are word-aligned: what double_write asserts. */
  lemma SlicesAligned(pageSize: nat, addresses: seq<int>, used: seq<nat>, cuts: seq<Cut>, k: nat)
    requires Consistent(pageSize, addresses, used, cuts) && k < |cuts|
    requires forall i :: 0 <= i < |cuts| ==> cuts[i].slice.size % 4 == 0
    requires forall i :: 0 <= i < |addresses| ==> addresses[i] % 4 == 0
    ensures cuts[k].slice.data % 4 == 0
  {
    assert FollowsEarlier(addresses, cuts, k);
    UsedInWords(cuts[..k], cuts[k].block);
    var a := addresses[cuts[k].block];
    assert a % 4 == 0;
  }

  lemma {:induction false} UsedInWords(cuts: seq<Cut>, b: nat)
    requires forall i :: 0 <= i < |cuts| ==> cuts[i].slice.size % 4 == 0
    ensures Used(cuts, b) % 4 == 0
  {
    if cuts != [] {
      UsedInWords(cuts[..|cuts| - 1], b);
      assert cuts[|cuts| - 1].slice.size % 4 == 0;
    }
  }

  class Manager {
    const pageSize: nat
    var freeMemoryBlocks: seq<FreeMemoryBlock>
    ghost var cuts: seq<Cut>

    ghost function Addresses(): (a: seq<int>)
      reads this, freeMemoryBlocks
      ensures |a| == |freeMemoryBlocks|
    {
      seq(|freeMemoryBlocks|, i requires 0 <= i < |freeMemoryBlocks| reads this, freeMemoryBlocks =>
        freeMemoryBlocks[i].address)
    }

    ghost function UsedSizes(): (u: seq<nat>)
      reads this, freeMemoryBlocks
      ensures |u| == |freeMemoryBlocks|
    {
      seq(|freeMemoryBlocks|, i requires 0 <= i < |freeMemoryBlocks| reads this, freeMemoryBlocks =>
        freeMemoryBlocks[i].usedSize)
    }

    ghost predicate Valid()
      reads this, freeMemoryBlocks
    {
      && Consistent(pageSize, Addresses(), UsedSizes(), cuts)
      && (forall i :: 0 <= i < |freeMemoryBlocks| ==> freeMemoryBlocks[i].totalSize == pageSize)
      && (forall i, j :: 0 <= i < j < |freeMemoryBlocks| ==> freeMemoryBlocks[i] != freeMemoryBlocks[j])
    }

    constructor (pageSize: nat)
      requires pageSize > 0
      ensures Valid() && freeMemoryBlocks == [] && cuts == [] && this.pageSize == pageSize
    {
      this.pageSize := pageSize;
      freeMemoryBlocks := [];
      cuts := [];
    }

    // A page the environment may hand out next.
    ghost predicate FreshPage(page: int)
      reads this, freeMemoryBlocks
    {
      forall i :: 0 <= i < |Addresses()| ==> Clear(Addresses()[i], pageSize, page, pageSize)
    }

    // Cuts the slice from the first block with strictly more room, else from the start of a new page.
    method AllocateCodeSlice(size: nat, page: int) returns (cs: CodeSlice, ghost from: nat)
      requires Valid() && 0 < size <= pageSize && FreshPage(page)
      modifies this`freeMemoryBlocks, this`cuts, freeMemoryBlocks
      ensures Valid() && cuts == old(cuts) + [Cut(from, cs)] && cs.size == size
      ensures from <= |old(freeMemoryBlocks)|
      ensures forall i :: 0 <= i < from ==> pageSize - old(UsedSizes())[i] <= size
      ensures from < |old(freeMemoryBlocks)| ==>
                && pageSize - old(UsedSizes())[from] > size && freeMemoryBlocks == old(freeMemoryBlocks)
                && cs.data == old(Addresses())[from] + old(UsedSizes())[from]
                && Addresses() == old(Addresses())
                && UsedSizes() == old(UsedSizes())[from := old(UsedSizes())[from] + size]
      ensures from == |old(freeMemoryBlocks)| ==>
                && cs.data == page && |freeMemoryBlocks| == from + 1 && fresh(freeMemoryBlocks[from])
                && freeMemoryBlocks[..from] == old(freeMemoryBlocks)
                && Addresses() == old(Addresses()) + [page] && UsedSizes() == old(UsedSizes()) + [size]
    {
      hide Consistent;
      ghost var addresses, used := Addresses(), UsedSizes();
      var i := 0;
      while i < |freeMemoryBlocks|
        invariant i <= |freeMemoryBlocks|
        invariant forall j :: 0 <= j < i ==> pageSize - used[j] <= size
      {
        var fmb := freeMemoryBlocks[i];
        if fmb.totalSize - fmb.usedSize > size {
          cs := CodeSlice(fmb.address + fmb.usedSize, size);
          fmb.usedSize := fmb.usedSize + size;
          CutKeeps(pageSize, addresses, used, cuts, i, size);
          from, cuts := i, cuts + [Cut(i, cs)];
          assert Addresses() == addresses && UsedSizes() == used[i := used[i] + size];
          return;
        }
        i := i + 1;
      }
      var fmb := new FreeMemoryBlock(page, pageSize);
      cs := CodeSlice(fmb.address + fmb.usedSize, size);
      fmb.usedSize := fmb.usedSize + size;
      from := |freeMemoryBlocks|;
      freeMemoryBlocks := freeMemoryBlocks + [fmb];
      PageKeeps(pageSize, addresses, used, cuts, page);
      CutKeeps(pageSize, addresses + [page], used + [0], cuts, from, size);
      cuts := cuts + [Cut(from, cs)];
      assert Addresses() == addresses + [page] && UsedSizes() == (used + [0])[from := size];
    }
  }

  // ----- code caves -----

  ghost predicate ZeroAt(mem: Mem, a: int, size: nat) {
    forall i :: a <= i < a + size ==> mem(i) == 0
  }

  // The k-th address search_dummy_code_cave looks at.
  function Candidate(start: int, k: nat, size: nat): int {
    start + k * size
  }

  // Whether some address looked at between start and end is all zero.
  ghost predicate HasCave(mem: Mem, start: int, end: int, size: nat) {
    exists k: nat :: Candidate(start, k, size) < end && ZeroAt(mem, Candidate(start, k, size), size)
  }

  method IsZero(mem: Mem, a: int, size: nat) returns (z: bool)
    ensures z <==> forall i :: a <= i < a + size ==> mem(i) == 0
  {
    var i := 0;
    while i < size
      invariant i <= size && ZeroAt(mem, a, i)
    {
      if mem(a + i) != 0 {
        return false;
      }
      i := i + 1;
    }
    return true;
  }

  // The first all-zero candidate between start and end.
  method SearchDummyCodeCave(mem: Mem, start: int, end: int, size: nat) returns (p: Option<int>)
    requires 0 < start < end && 0 < size <= 1024
    ensures p.None? <==> !HasCave(mem, start, end, size)
    ensures p.Some? ==> exists k: nat ::
      && p.value == Candidate(start, k, size) < end && ZeroAt(mem, p.value, size)
      && forall j: nat :: j < k ==> !ZeroAt(mem, Candidate(start, j, size), size)
    ensures p.None? ==> forall a :: start <= a < end && (a - start) % size == 0 ==> !ZeroAt(mem, a, size)
    ensures p.Some? ==>
              && start <= p.value < end && (p.value - start) % size == 0
              && (forall x :: p.value <= x < p.value + size ==> mem(x) == 0)
              && forall a :: start <= a < p.value && (a - start) % size == 0 ==> !ZeroAt(mem, a, size)
  {
    var cur := start;
    ghost var k: nat := 0;
    while cur < end
      invariant cur == Candidate(start, k, size)
      invariant forall j: nat :: j < k ==> !ZeroAt(mem, Candidate(start, j, size), size)
      decreases end - cur
    {
      var zero := IsZero(mem, cur, size);
      if zero {
        OnGrid(start, k, size);
        forall a | start <= a < cur && (a - start) % size == 0 ensures !ZeroAt(mem, a, size) {
          var j := GridIndex(start, a, size);
          if j >= k {
            CandidatesGrow(start, k, j, size);
            assert false;
          }
        }
        return Some(cur);
      }
      k := k + 1;
      cur := cur + size;
    }
    forall j: nat | Candidate(start, j, size) < end ensures !ZeroAt(mem, Candidate(start, j, size), size) {
      if j >= k {
        CandidatesGrow(start, k, j, size);
        assert false;
      }
    }
    forall a | start <= a < end && (a - start) % size == 0 ensures !ZeroAt(mem, a, size) {
      var j := GridIndex(start, a, size);
    }
    return None;
  }

  lemma OnGrid(start: int, k: nat, size: nat)
    requires size > 0
    ensures start <= Candidate(start, k, size) && (Candidate(start, k, size) - start) % size == 0
  {
    ModOfMultiple(k, size);
  }

  lemma ModOfMultiple(k: nat, size: nat)
    requires size > 0
    ensures k * size >= 0 && (k * size) % size == 0
  {
    var n := k * size;
    var q, r := n / size, n % size;
    assert n == size * q + r;
    assert (k - q) * size == r;
    SmallMultiple(k - q, size);
  }

  lemma SmallMultiple(d: int, size: int)
    requires size >= 0
    ensures d > 0 ==> d * size >= size
    ensures d < 0 ==> d * size <= -size
  {
    if d > 0 {
      assert (d - 1) * size >= 0;
    } else if d < 0 {
      assert (-d - 1) * size >= 0;
    }
  }

  lemma GridIndex(start: int, a: int, size: nat) returns (k: nat)
    requires size > 0 && start <= a && (a - start) % size == 0
    ensures a == Candidate(start, k, size)
  {
    k := (a - start) / size;
  }

  lemma CandidatesGrow(start: int, j: nat, k: nat, size: nat)
    requires j <= k
    ensures Candidate(start, j, size) <= Candidate(start, k, size)
  {
    assert (k - j) * size >= 0;
    assert k * size == j * size + (k - j) * size;
  }

  // The part of a block within `range` of the target.
  function SearchStart(mb: MemoryBlock, target: int, range: nat): int {
    if mb.address > target - range then mb.address else target - range
  }

  function SearchEnd(mb: MemoryBlock, target: int, range: nat, size: nat): int {
    if mb.address + mb.size < target + range - size then mb.address + mb.size else target + range - size
  }

  ghost predicate BlockHasCave(mem: Mem, mb: MemoryBlock, target: int, range: nat, size: nat) {
    var start, end := SearchStart(mb, target, range), SearchEnd(mb, target, range, size);
    start <= end && HasCave(mem, start, end, size)
  }

  // The cave of the first block, in layout order, that has one; None only if none has. No block may meet the
  // range in exactly its bound: search_dummy_code_cave asserts a non-empty range.
  method SearchCodeCave(mem: Mem, layout: seq<MemoryBlock>, target: int, range: nat, size: nat)
      returns (cave: Option<int>, ghost block: nat)
    requires 0 < size <= 1024 && range < target && target + range < TWO_64
    requires forall i :: 0 <= i < |layout| ==>
      SearchStart(layout[i], target, range) != SearchEnd(layout[i], target, range, size)
    ensures cave.None? ==> forall i :: 0 <= i < |layout| ==> !BlockHasCave(mem, layout[i], target, range, size)
    ensures cave.Some? ==> exists i :: 0 <= i < |layout| && IsFirstCave(mem, layout[i], target, range, size, cave.value)
                             && forall j :: 0 <= j < i ==> !BlockHasCave(mem, layout[j], target, range, size)
    ensures cave.Some? ==>
              && block < |layout| && layout[block].address <= cave.value < layout[block].address + layout[block].size
              && target - range <= cave.value < target + range - size
              && (cave.value - (if layout[block].address > target - range then layout[block].address
                                else target - range)) % size == 0
              && forall x :: cave.value <= x < cave.value + size ==> mem(x) == 0
    ensures forall i, a :: 0 <= i < |layout| ==>
              && layout[i].address <= a < layout[i].address + layout[i].size
              && target - range <= a < target + range - size
              && (a - (if layout[i].address > target - range then layout[i].address else target - range)) % size == 0
              && (cave.None? || i < block || (i == block && a < cave.value)) ==>
                !ZeroAt(mem, a, size)
  {
    var i := 0;
    while i < |layout|
      invariant i <= |layout|
      invariant forall j :: 0 <= j < i ==> !BlockHasCave(mem, layout[j], target, range, size)
      invariant forall j, a :: 0 <= j < i ==>
        && layout[j].address <= a < layout[j].address + layout[j].size
        && target - range <= a < target + range - size
        && (a - (if layout[j].address > target - range then layout[j].address else target - range)) % size == 0 ==>
          !ZeroAt(mem, a, size)
    {
      var mb := layout[i];
      var start, end := SearchStart(mb, target, range), SearchEnd(mb, target, range, size);
      if start <= end {
        cave := SearchDummyCodeCave(mem, start, end, size);
        if cave.Some? {
          block := i;
          assert IsFirstCave(mem, layout[i], target, range, size, cave.value);
          return;
        }
      }
      i := i + 1;
    }
    return None, 0;
  }

  ghost predicate IsFirstCave(mem: Mem, mb: MemoryBlock, target: int, range: nat, size: nat, cave: int) {
    var start, end := SearchStart(mb, target, range), SearchEnd(mb, target, range, size);
    exists k: nat ::
      && cave == Candidate(start, k, size) < end && ZeroAt(mem, cave, size)
      && forall j: nat :: j < k ==> !ZeroAt(mem, Candidate(start, j, size), size)
  }

  /** A cave lies wholly within the range of the target; with aligned bounds it is word-aligned. */
  lemma CaveInRange(mem: Mem, mb: MemoryBlock, target: int, range: nat, size: nat, cave: int)
    requires IsFirstCave(mem, mb, target, range, size, cave) && size > 0
    ensures target - range <= cave && cave + size < target + range
    ensures mb.address % 4 == 0 && target % 4 == 0 && range % 4 == 0 && size % 4 == 0 ==> cave % 4 == 0
  {
    hide Candidate, ZeroAt;
    var start, end := SearchStart(mb, target, range), SearchEnd(mb, target, range, size);
    var k: nat :| cave == Candidate(start, k, size) < end && ZeroAt(mem, cave, size)
      && forall j: nat :: j < k ==> !ZeroAt(mem, Candidate(start, j, size), size);
    OnGrid(start, k, size);
    AlignedCandidate(mb, target, range, k, size);
  }

  lemma AlignedCandidate(mb: MemoryBlock, target: int, range: nat, k: nat, size: nat)
    ensures mb.address % 4 == 0 && target % 4 == 0 && range % 4 == 0 && size % 4 == 0 ==>
              Candidate(SearchStart(mb, target, range), k, size) % 4 == 0
  {
    hide Candidate;
    if mb.address % 4 == 0 && target % 4 == 0 && range % 4 == 0 && size % 4 == 0 {
      FourfoldSum(SearchStart(mb, target, range), k, size);
    }
  }

  lemma FourfoldSum(start: int, k: nat, size: nat)
    requires start % 4 == 0 && size % 4 == 0
    ensures Candidate(start, k, size) % 4 == 0
  {
    var a, b := start / 4, size / 4;
    assert start == 4 * a && size == 4 * b;
    assert k * (4 * b) == 4 * (k * b);
    assert start + k * size == 4 * (a + k * b);
  }
}
