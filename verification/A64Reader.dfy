/** The arm64 instruction reader of reader-arm64.c. */
module A64Reader {
  import opened A64Encoding
  import opened A64Machine
  import opened A64Writer
  import opened BufferArray

  class Reader {
    var startPc: U64
    var startAddress: int
    var instCTXs: seq<InstCtx>
    var instBytes: Buffer

    ghost predicate Valid()
      reads this, instBytes, instBytes.data
    {
      instBytes.Valid() && instBytes.capacity >= DEFAULT_CAPACITY && Contexts(instCTXs, startPc, instBytes.Contents())
    }

    ghost function Repr(): set<object>
      reads this, instBytes
    {
      {this, instBytes, instBytes.data}
    }

    function Size(): (n: nat)
      requires Valid()
      reads this, instBytes, instBytes.data
      ensures n == 4 * |instCTXs|
    {
      instBytes.size
    }

    constructor (address: int, pc: U64)
      ensures Valid() && fresh(Repr()) && instCTXs == [] && startPc == pc && startAddress == address
    {
      startPc := pc;
      startAddress := address;
      instCTXs := [];
      instBytes := new Buffer(DEFAULT_CAPACITY);
    }

    method Reset(address: int, pc: U64)
      requires Valid()
      modifies Repr()
      ensures Valid() && Repr() == old(Repr()) && instCTXs == [] && startPc == pc && startAddress == address
    {
      startAddress := address;
      startPc := pc;
      instCTXs := [];
      instBytes.Clear();
    }

    // Reads the next word of the process memory `mem`.
    method ReadInst(mem: Mem) returns (ctx: InstCtx)
      requires Valid()
      modifies Repr()
      ensures Valid() && fresh(Repr() - old(Repr()))
      ensures startPc == old(startPc) && startAddress == old(startAddress)
      ensures instCTXs == old(instCTXs) + [ctx]
      ensures var n := |old(instCTXs)|;
              ctx == InstCtx(Wrap(startPc + 4 * n), 4, Fetch(mem, startAddress + 4 * n))
    {
      hide PackWord, Wrap, WordAt;
      var address := startAddress + instBytes.size;
      var word := [mem(address), mem(address + 1), mem(address + 2), mem(address + 3)];
      ctx := InstCtx(Wrap(startPc + instBytes.size), 4, PackWord(word[0], word[1], word[2], word[3]));
      ContextsAppend(instCTXs, startPc, instBytes.Contents(), word);
      instBytes.Put(word);
      instCTXs := instCTXs + [ctx];
    }
  }
}
