/** The memory of the hooked process and the ways HookZz overwrites it. */
module ProcessMemory {
  import opened A64Machine

  function Write(m: Mem, a: int, b: seq<bv8>): Mem {
    (x: int) => if a <= x < a + |b| then b[x - a] else m(x)
  }

  ghost predicate SameOutside(m: Mem, m': Mem, a: int, n: nat) {
    forall x :: !(a <= x < a + n) ==> m(x) == m'(x)
  }

  lemma WriteThenRead(m: Mem, a: int, b: seq<bv8>)
    ensures BytesAt(Write(m, a, b), a, b) && SameOutside(m, Write(m, a, b), a, |b|)
  {
  }

  lemma BytesKept(m: Mem, m': Mem, a: int, n: nat, at: int, b: seq<bv8>)
    requires SameOutside(m, m', a, n) && BytesAt(m, at, b)
    requires at + |b| <= a || a + n <= at
    ensures BytesAt(m', at, b)
  {
    forall i | 0 <= i < |b| ensures m'(at + i) == b[i] {
      assert !(a <= at + i < a + n);
    }
  }

  class Process {
    const pageSize: nat
    var mem: Mem

    constructor (pageSize: nat, mem: Mem)
      requires pageSize > 0
      ensures this.pageSize == pageSize && this.mem == mem
    {
      this.pageSize := pageSize;
      this.mem := mem;
    }

    method Store(a: int, b: seq<bv8>)
      modifies this
      ensures mem == Write(old(mem), a, b)
    {
      mem := Write(mem, a, b);
    }

    // Rewrites a copy of the page of `dest` and copies the page back; the patch must lie in one page.
    method PatchCode(dest: int, src: seq<bv8>)
      requires pageSize > 0 && dest % pageSize + |src| <= pageSize
      modifies this
      ensures BytesAt(mem, dest, src) && SameOutside(old(mem), mem, dest, |src|)
    {
      var destPage := dest - dest % pageSize;
      var offset := dest % pageSize;
      var copyPage := new bv8[pageSize];
      var m := mem;
      forall i | 0 <= i < pageSize {
        copyPage[i] := m(destPage + i);
      }
      forall i | 0 <= i < |src| {
        copyPage[offset + i] := src[i];
      }
      var page := copyPage[..];
      mem := Write(mem, destPage, page);
      forall i | 0 <= i < |src| ensures mem(dest + i) == src[i] {
        assert page[offset + i] == src[i];
      }
      forall x | !(dest <= x < dest + |src|) ensures old(mem)(x) == mem(x) {
        if destPage <= x < destPage + pageSize {
          assert page[x - destPage] == m(destPage + (x - destPage));
        }
      }
    }
  }
}
