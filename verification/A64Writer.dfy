/** The arm64 instruction writer of writer-arm64.c. */
module A64Writer {
  import opened A64Encoding
  import opened BufferArray

  const ARM64_INST_SIZE: nat := 4

  // ARM64InstructionCTX; the host address of the word is left out.
  datatype InstCtx = InstCtx(pc: U64, size: nat, bytes: Word)

  function WordAt(b: seq<bv8>, i: nat): Word
    requires 4 * i + 4 <= |b|
  {
    PackWord(b[4 * i], b[4 * i + 1], b[4 * i + 2], b[4 * i + 3])
  }

  // One context per word, in order, at consecutive addresses from `start`.
  ghost predicate Contexts(ctxs: seq<InstCtx>, start: U64, b: seq<bv8>) {
    |b| == 4 * |ctxs| && forall i :: 0 <= i < |ctxs| ==> ctxs[i] == InstCtx(Wrap(start + 4 * i), 4, WordAt(b, i))
  }

  // Appending one word appends its context.
  lemma ContextsAppend(ctxs: seq<InstCtx>, start: U64, b: seq<bv8>, w: seq<bv8>)
    requires Contexts(ctxs, start, b) && |w| == 4
    ensures Contexts(ctxs + [InstCtx(Wrap(start + |b|), 4, PackWord(w[0], w[1], w[2], w[3]))], start, b + w)
  {
    hide PackWord, Wrap;
    var ctxs' := ctxs + [InstCtx(Wrap(start + |b|), 4, PackWord(w[0], w[1], w[2], w[3]))];
    forall i | 0 <= i < |ctxs'| ensures ctxs'[i] == InstCtx(Wrap(start + 4 * i), 4, WordAt(b + w, i)) {
      if i < |ctxs| {
        assert WordAt(b + w, i) == WordAt(b, i);
      }
    }
  }

  class Writer {
    var startPc: U64
    var instCTXs: seq<InstCtx>
    var instBytes: Buffer

    ghost predicate Valid()
      reads this, instBytes, instBytes.data
    {
      instBytes.Valid() && instBytes.capacity >= DEFAULT_CAPACITY && Contexts(instCTXs, startPc, instBytes.Contents())
    }

    ghost function Bytes(): seq<bv8>
      requires Valid()
      reads this, instBytes, instBytes.data
    {
      instBytes.Contents()
    }

    ghost function Repr(): set<object>
      reads this, instBytes
    {
      {this, instBytes, instBytes.data}
    }

    constructor (pc: U64)
      ensures Valid() && fresh(Repr()) && Bytes() == [] && startPc == pc
    {
      startPc := pc;
      instCTXs := [];
      instBytes := new Buffer(DEFAULT_CAPACITY);
    }

    function Size(): (n: nat)
      requires Valid()
      reads this, instBytes, instBytes.data
      ensures n == |Bytes()| && n % 4 == 0
    {
      instBytes.size
    }

    // How many words have been written.
    function Words(): (n: nat)
      requires Valid()
      reads this, instBytes, instBytes.data
      ensures 4 * n == |Bytes()|
    {
      |instCTXs|
    }

    // A copy of what has been written.
    function Saved(): (b: seq<bv8>)
      requires Valid()
      reads this, instBytes, instBytes.data
      ensures b == Bytes()
    {
      instBytes.data[..instBytes.size]
    }

    method Reset(pc: U64)
      requires Valid()
      modifies Repr()
      ensures Valid() && Repr() == old(Repr()) && Bytes() == [] && startPc == pc
    {
      startPc := pc;
      instCTXs := [];
      instBytes.Clear();
    }

    method PutBytes(data: seq<bv8>)
      requires Valid() && |data| % 4 == 0
      modifies Repr()
      ensures Valid() && fresh(Repr() - old(Repr())) && startPc == old(startPc) && old(instCTXs) <= instCTXs
      ensures Bytes() == old(Bytes()) + data && |instCTXs| == |old(instCTXs)| + |data| / 4
    {
      hide PackWord, Wrap, WordAt;
      var i := 0;
      assert data[..0] == [];
      while i < |data| / ARM64_INST_SIZE
        invariant i <= |data| / ARM64_INST_SIZE && Valid() && startPc == old(startPc) && old(instCTXs) <= instCTXs
        invariant instBytes == old(instBytes) && (instBytes.data == old(instBytes.data) || fresh(instBytes.data))
        invariant Bytes() == old(Bytes()) + data[..4 * i]
      {
        var word := data[4 * i..4 * i + 4];
        var ctx := InstCtx(Wrap(startPc + instBytes.size), ARM64_INST_SIZE,
                           PackWord(word[0], word[1], word[2], word[3]));
        ContextsAppend(instCTXs, startPc, Bytes(), word);
        ghost var before := Bytes();
        instBytes.Put(word);
        instCTXs := instCTXs + [ctx];
        assert data[..4 * (i + 1)] == data[..4 * i] + word;
        assert Bytes() == old(Bytes()) + data[..4 * (i + 1)];
        i := i + 1;
      }
      assert data[..4 * i] == data;
    }

    method PutLdrRegImm(reg: bv5, offset: bv32)
      requires Valid()
      modifies Repr()
      ensures Valid() && fresh(Repr() - old(Repr())) && startPc == old(startPc) && old(instCTXs) <= instCTXs
      ensures Bytes() == old(Bytes()) + WordBytes(LdrRegImmWord(reg, offset)) && |instCTXs| == |old(instCTXs)| + 1
    {
      PutBytes(WordBytes(LdrRegImmWord(reg, offset)));
    }

    method PutLdrRegRegOffset(dest: bv5, src: bv5, offset: bv32)
      requires Valid()
      modifies Repr()
      ensures Valid() && fresh(Repr() - old(Repr())) && startPc == old(startPc) && old(instCTXs) <= instCTXs
      ensures Bytes() == old(Bytes()) + WordBytes(LdrRegRegOffsetWord(dest, src, offset))
      ensures |instCTXs| == |old(instCTXs)| + 1
    {
      PutBytes(WordBytes(LdrRegRegOffsetWord(dest, src, offset)));
    }

    method PutBrReg(reg: bv5)
      requires Valid()
      modifies Repr()
      ensures Valid() && fresh(Repr() - old(Repr())) && startPc == old(startPc) && old(instCTXs) <= instCTXs
      ensures Bytes() == old(Bytes()) + WordBytes(BrRegWord(reg)) && |instCTXs| == |old(instCTXs)| + 1
    {
      PutBytes(WordBytes(BrRegWord(reg)));
    }

    method PutBlrReg(reg: bv5)
      requires Valid()
      modifies Repr()
      ensures Valid() && fresh(Repr() - old(Repr())) && startPc == old(startPc) && old(instCTXs) <= instCTXs
      ensures Bytes() == old(Bytes()) + WordBytes(BlrRegWord(reg)) && |instCTXs| == |old(instCTXs)| + 1
    {
      PutBytes(WordBytes(BlrRegWord(reg)));
    }

    method PutBImm(offset: bv64)
      requires Valid()
      modifies Repr()
      ensures Valid() && fresh(Repr() - old(Repr())) && startPc == old(startPc) && old(instCTXs) <= instCTXs
      ensures Bytes() == old(Bytes()) + WordBytes(BImmWord(offset)) && |instCTXs| == |old(instCTXs)| + 1
    {
      PutBytes(WordBytes(BImmWord(offset)));
    }

    // ldr x17, #8; br x17; .quad target -- the absolute jump every redirect is made of.
    method PutRedirect(target: U64)
      requires Valid()
      modifies Repr()
      ensures Valid() && fresh(Repr() - old(Repr())) && startPc == old(startPc) && old(instCTXs) <= instCTXs
      ensures Bytes() == old(Bytes()) + Redirect(target) && |instCTXs| == |old(instCTXs)| + 4
    {
      hide WordBytes, AddressBytes, LdrRegImmWord, BrRegWord, Contexts, Valid, Bytes;
      PutLdrRegImm(17, 0x8);
      PutBrReg(17);
      PutBytes(AddressBytes(target));
    }
  }
}
