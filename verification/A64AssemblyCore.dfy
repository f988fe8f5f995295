/** The table-driven classifier of ARM64AssemblyCore.c. */
module A64AssemblyCore {
  import opened A64Encoding
  import opened A64Machine

  // Members of ARM64InstId that occur in the table or in a switch.
  const ARM64_INST_START: nat := 0
  const LOAD_LITERAL: nat := 8
  const BASE_CMP_BRANCH: nat := 11
  const BRANCH_COND: nat := 18
  const B_IMM: nat := 27
  const B: nat := 29
  const BL: nat := 31
  const ARM64_INST_END: nat := 32

  datatype InstructionX = InstructionX(inst32: bv32, mask32: bv32)

  const UNUSED := InstructionX(0, 0)

  predicate Matches(e: InstructionX, w: Word) {
    e.inst32 != 0 && e.mask32 & w == e.inst32
  }

  // The contents of ARM64InstArrary after its constructor has run.
  function TableEntry(id: nat): InstructionX {
    if id == LOAD_LITERAL then InstructionX((3 << 27) | (0 << 24), (7 << 27) | (3 << 24))
    else if id == BASE_CMP_BRANCH then InstructionX(0x1a << 25, 0x3f << 25)
    else if id == BRANCH_COND then InstructionX((0x54 << 24) | (0 << 4), (0xff << 24) | (1 << 4))
    else if id == B then InstructionX((0 << 31) | (5 << 26), (1 << 31) | (0x1f << 26))
    else if id == BL then InstructionX((1 << 31) | (5 << 26), (1 << 31) | (0x1f << 26))
    else UNUSED
  }

  // The class of a decoded instruction: what the table should answer.
  function ClassOf(i: Inst): (id: nat)
    ensures id <= ARM64_INST_END
  {
    match i
    case LdrLit(_, _, _, _) => LOAD_LITERAL
    case CmpBr(_, _, _, _) => BASE_CMP_BRANCH
    case BCond(_, _) => BRANCH_COND
    case Branch(_) => B
    case BranchLink(_) => BL
    case _ => ARM64_INST_END
  }

  /** A table entry matches exactly the words that decode to its class. */
  lemma EntryMatchesClass(id: nat, w: Word)
    requires id < ARM64_INST_END
    ensures Matches(TableEntry(id), w) <==> ClassOf(Decode(w)) == id
  {
  }

  /** No word matches two entries, so the first match is the only one. */
  lemma EntriesDisjoint(id: nat, id': nat, w: Word)
    requires id < ARM64_INST_END && id' < ARM64_INST_END
    requires Matches(TableEntry(id), w) && Matches(TableEntry(id'), w)
    ensures id == id'
  {
    hide Decode, TableEntry, Matches;
    EntryMatchesClass(id, w);
    EntryMatchesClass(id', w);
  }

  class InstTable {
    var entries: array<InstructionX>

    ghost predicate Valid()
      reads this, entries
    {
      entries.Length == 1024 && forall id :: 0 <= id < 1024 ==> entries[id] == TableEntry(id)
    }

    constructor ()
      ensures Valid() && fresh(entries)
    {
      var t := new InstructionX[1024](_ => UNUSED);
      t[LOAD_LITERAL] := InstructionX((3 << 27) | (0 << 24), (7 << 27) | (3 << 24));
      t[BASE_CMP_BRANCH] := InstructionX(0x1a << 25, 0x3f << 25);
      t[BRANCH_COND] := InstructionX((0x54 << 24) | (0 << 4), (0xff << 24) | (1 << 4));
      t[B] := InstructionX((0 << 31) | (5 << 26), (1 << 31) | (0x1f << 26));
      t[BL] := InstructionX((1 << 31) | (5 << 26), (1 << 31) | (0x1f << 26));
      entries := t;
    }

    method GetInstType(inst32: Word) returns (id: nat)
      requires Valid()
      ensures id == ClassOf(Decode(inst32))
    {
      hide Decode, TableEntry, ClassOf, Matches;
      var i := ARM64_INST_START;
      while i < ARM64_INST_END
        invariant i <= ClassOf(Decode(inst32))
      {
        var instX := entries[i];
        EntryMatchesClass(i, inst32);
        if Matches(instX, inst32) {
          return i;
        }
        i := i + 1;
      }
      return ARM64_INST_END;
    }
  }
}
