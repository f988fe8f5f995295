/**
 * The Thumb classifier: patterns over instruction bits (instructions.c) and the types they tell apart
 * (reader-thumb.c).
 */
module ThumbReader {
  import opened ThumbMachine

  predicate Fits(insn: bv32, mask: bv32, value: bv32) {
    insn & mask == value
  }

  function Or(a: bv32, b: bv32): bv32 {
    a | b
  }

  function Twice(a: bv32): bv32 {
    a << 1
  }

  // 1 << n
  function Bit(n: nat): bv32 {
    if n == 0 then 1 else Twice(Bit(n - 1))
  }

  // What a character of a pattern adds to the mask, and to the value, at a bit.
  function Fixed(c: char, bit: bv32): bv32 {
    if c == '0' || c == '1' then bit else 0
  }

  function Set(c: char, bit: bv32): bv32 {
    if c == '1' then bit else 0
  }

  // The bits a pattern fixes, and their values; its last character is bit 0.
  function Mask(pattern: string): bv32 {
    if pattern == "" then 0 else Or(Mask(pattern[1..]), Fixed(pattern[0], Bit(|pattern| - 1)))
  }

  function Value(pattern: string): bv32 {
    if pattern == "" then 0 else Or(Value(pattern[1..]), Set(pattern[0], Bit(|pattern| - 1)))
  }

  lemma NextBit(pattern: string, i: nat)
    requires i < |pattern|
    ensures var bit := Bit(|pattern| - 1 - i);
            && Mask(pattern[i..]) == Or(Mask(pattern[i + 1..]), Fixed(pattern[i], bit))
            && Value(pattern[i..]) == Or(Value(pattern[i + 1..]), Set(pattern[i], bit))
  {
    hide Or, Bit, Fixed, Set;
    assert pattern[i..][1..] == pattern[i + 1..];
  }

  lemma NextShift(n: nat)
    ensures Bit(n + 1) == Twice(Bit(n)) && Bit(0) == 1
  {
  }

  // The three cases of the loop are one.
  lemma OneCase(a: bv32, c: char, bit: bv32)
    ensures Or(a, Fixed(c, bit)) == if c == '0' || c == '1' then Or(a, bit) else a
    ensures Or(a, Set(c, bit)) == if c == '1' then Or(a, bit) else a
  {
  }

  lemma NoBits(pattern: string)
    ensures Mask(pattern[|pattern|..]) == 0 && Value(pattern[|pattern|..]) == 0
  {
  }

  // The loop has read the characters after i.
  ghost predicate ReadAfter(opstr: string, i: int, mask: bv32, value: bv32, bit: bv32) {
    && -1 <= i < |opstr| && bit == Bit(|opstr| - 1 - i)
    && mask == Mask(opstr[i + 1..]) && value == Value(opstr[i + 1..])
  }

  lemma ReadOne(opstr: string, i: nat, mask: bv32, value: bv32, bit: bv32)
    requires i < |opstr| && ReadAfter(opstr, i, mask, value, bit)
    ensures opstr[i] == '0' ==> ReadAfter(opstr, i - 1, Or(mask, bit), value, Twice(bit))
    ensures opstr[i] == '1' ==> ReadAfter(opstr, i - 1, Or(mask, bit), Or(value, bit), Twice(bit))
    ensures opstr[i] != '0' && opstr[i] != '1' ==> ReadAfter(opstr, i - 1, mask, value, Twice(bit))
  {
    hide Or, Mask, Value, Bit, Twice, Fixed, Set;
    NextBit(opstr, i);
    NextShift(|opstr| - 1 - i);
    OneCase(mask, opstr[i], bit);
    OneCase(value, opstr[i], bit);
  }

  lemma ReadNone(opstr: string)
    ensures ReadAfter(opstr, |opstr| - 1, 0, 0, 1)
  {
    NoBits(opstr);
    NextShift(0);
  }

  lemma ReadAll(opstr: string, mask: bv32, value: bv32, bit: bv32)
    requires ReadAfter(opstr, -1, mask, value, bit)
    ensures mask == Mask(opstr) && value == Value(opstr)
  {
    hide Mask, Value, Bit;
    assert opstr[0..] == opstr;
  }

  method InsnEqual(insn: bv32, opstr: string) returns (r: bool)
    requires |opstr| <= 32
    ensures r <==> Fits(insn, Mask(opstr), Value(opstr))
  {
    hide Fits, Or, Mask, Value, Bit, Twice, ReadAfter;
    var mask, value: bv32 := 0, 0;
    var i, j := |opstr| - 1, 0;
    var bit: bv32 := 1;
    ReadNone(opstr);
    while i >= 0 && j < |opstr|
      invariant -1 <= i < |opstr| && j == |opstr| - 1 - i && ReadAfter(opstr, i, mask, value, bit)
    {
      ReadOne(opstr, i, mask, value, bit);
      if opstr[i] == '0' {
        mask := Or(mask, bit);
      } else if opstr[i] == '1' {
        value := Or(value, bit);
        mask := Or(mask, bit);
      }
      i, j, bit := i - 1, j + 1, Twice(bit);
    }
    ReadAll(opstr, mask, value, bit);
    return Fits(insn, mask, value);
  }

  lemma Bits16()
    ensures Bit(0) == 1 && Bit(1) == 2 && Bit(2) == 4 && Bit(3) == 8
    ensures Bit(4) == 0x10 && Bit(5) == 0x20 && Bit(6) == 0x40 && Bit(7) == 0x80
    ensures Bit(8) == 0x100 && Bit(9) == 0x200 && Bit(10) == 0x400 && Bit(11) == 0x800
    ensures Bit(12) == 0x1000 && Bit(13) == 0x2000 && Bit(14) == 0x4000 && Bit(15) == 0x8000
  {
  }

  function Mask16(s: string): bv32
    requires |s| == 16
  {
    Fixed(s[15], 0x1) | Fixed(s[14], 0x2) | Fixed(s[13], 0x4) | Fixed(s[12], 0x8)
    | Fixed(s[11], 0x10) | Fixed(s[10], 0x20) | Fixed(s[9], 0x40) | Fixed(s[8], 0x80)
    | Fixed(s[7], 0x100) | Fixed(s[6], 0x200) | Fixed(s[5], 0x400) | Fixed(s[4], 0x800)
    | Fixed(s[3], 0x1000) | Fixed(s[2], 0x2000) | Fixed(s[1], 0x4000) | Fixed(s[0], 0x8000)
  }

  function Value16(s: string): bv32
    requires |s| == 16
  {
    Set(s[15], 0x1) | Set(s[14], 0x2) | Set(s[13], 0x4) | Set(s[12], 0x8)
    | Set(s[11], 0x10) | Set(s[10], 0x20) | Set(s[9], 0x40) | Set(s[8], 0x80)
    | Set(s[7], 0x100) | Set(s[6], 0x200) | Set(s[5], 0x400) | Set(s[4], 0x800)
    | Set(s[3], 0x1000) | Set(s[2], 0x2000) | Set(s[1], 0x4000) | Set(s[0], 0x8000)
  }

  // Four characters at a time.
  lemma FourBits(s: string, i: nat, b0: bv32, b1: bv32, b2: bv32, b3: bv32)
    requires i + 4 <= |s| && b0 == Bit(|s| - 4 - i) && b1 == Bit(|s| - 3 - i) && b2 == Bit(|s| - 2 - i)
    requires b3 == Bit(|s| - 1 - i)
    ensures Mask(s[i..])
         == Mask(s[i + 4..]) | Fixed(s[i + 3], b0) | Fixed(s[i + 2], b1) | Fixed(s[i + 1], b2) | Fixed(s[i], b3)
    ensures Value(s[i..])
         == Value(s[i + 4..]) | Set(s[i + 3], b0) | Set(s[i + 2], b1) | Set(s[i + 1], b2) | Set(s[i], b3)
  {
    hide Mask, Value, Bit, Fixed, Set;
    NextBit(s, i);
    NextBit(s, i + 1);
    NextBit(s, i + 2);
    NextBit(s, i + 3);
  }

  // The patterns in use are 16 characters long.
  lemma Pattern16(s: string)
    requires |s| == 16
    ensures Mask(s) == Mask16(s) && Value(s) == Value16(s)
  {
    hide Mask, Value, Bit, Fixed, Set;
    Bits16();
    NoBits(s);
    FourBits(s, 0, 0x1000, 0x2000, 0x4000, 0x8000);
    FourBits(s, 4, 0x100, 0x200, 0x400, 0x800);
    FourBits(s, 8, 0x10, 0x20, 0x40, 0x80);
    FourBits(s, 12, 1, 2, 4, 8);
    assert s[0..] == s;
  }

  // The pattern fixes the bits of m to those of v.
  ghost predicate Means(pattern: string, m: bv32, v: bv32) {
    Mask(pattern) == m && Value(pattern) == v
  }

  lemma Patterns0()
    ensures Means("11101xxxxxxxxxxx", 0xf800, 0xe800)
    ensures Means("11110xxxxxxxxxxx", 0xf800, 0xf000)
    ensures Means("11111xxxxxxxxxxx", 0xf800, 0xf800)
    ensures Means("1011x0x1xxxxxxxx", 0xf500, 0xb100)
    ensures Means("01000100xxxxxxxx", 0xff00, 0x4400)
    ensures Means("01001xxxxxxxxxxx", 0xf800, 0x4800)
  {
    hide Mask, Value;
    Pattern16("11101xxxxxxxxxxx");
    Pattern16("11110xxxxxxxxxxx");
    Pattern16("11111xxxxxxxxxxx");
    Pattern16("1011x0x1xxxxxxxx");
    Pattern16("01000100xxxxxxxx");
    Pattern16("01001xxxxxxxxxxx");
  }

  lemma Patterns1()
    ensures Means("11111000x1011111", 0xff7f, 0xf85f)
    ensures Means("xxxxxxxxxxxxxxxx", 0, 0)
    ensures Means("10100xxxxxxxxxxx", 0xf800, 0xa000)
    ensures Means("11110x1010101111", 0xfbff, 0xf2af)
    ensures Means("11110x1000001111", 0xfbff, 0xf20f)
    ensures Means("0xxxxxxxxxxxxxxx", 0x8000, 0)
  {
    hide Mask, Value;
    Pattern16("11111000x1011111");
    Pattern16("xxxxxxxxxxxxxxxx");
    Pattern16("10100xxxxxxxxxxx");
    Pattern16("11110x1010101111");
    Pattern16("11110x1000001111");
    Pattern16("0xxxxxxxxxxxxxxx");
  }

  lemma Patterns2()
    ensures Means("1101xxxxxxxxxxxx", 0xf000, 0xd000)
    ensures Means("11100xxxxxxxxxxx", 0xf800, 0xe000)
    ensures Means("10x0xxxxxxxxxxxx", 0xd000, 0x8000)
    ensures Means("10x1xxxxxxxxxxxx", 0xd000, 0x9000)
    ensures Means("11x1xxxxxxxxxxxx", 0xd000, 0xd000)
    ensures Means("11x0xxxxxxxxxxxx", 0xd000, 0xc000)
  {
    hide Mask, Value;
    Pattern16("1101xxxxxxxxxxxx");
    Pattern16("11100xxxxxxxxxxx");
    Pattern16("10x0xxxxxxxxxxxx");
    Pattern16("10x1xxxxxxxxxxxx");
    Pattern16("11x1xxxxxxxxxxxx");
    Pattern16("11x0xxxxxxxxxxxx");
  }

  datatype InsnType =
    | CbnzCbz
    | AddRegisterT2
    | LdrLiteralT1
    | LdrLiteralT2
    | AdrT1
    | AdrT2
    | AdrT3
    | BT1
    | BT2
    | BT3
    | BT4
    | BlBlxImmediateT1
    | BlBlxImmediateT2
    | Undef

  // The type of an instruction, by what it decodes as. Miscellaneous control instructions are taken for B T3, and
  // unpredictable ADRs and undefined BLXs for the real ones.
  function TypeOf(h1: Half, h2: Half): InsnType {
    match Decode(h1, h2)
    case CmpBr(_, _, _) => CbnzCbz
    case AddReg(_, _) => AddRegisterT2
    case LdrLit(_, _, _) => if IsThumb2(h1) then LdrLiteralT2 else LdrLiteralT1
    case Adr(_, add, _) => if !IsThumb2(h1) then AdrT1 else if add then AdrT3 else AdrT2
    case AdrUnpredictable(_, add, _) => if add then AdrT3 else AdrT2
    case CondBrNarrow(_, _) => BT1
    case BrNarrow(_) => BT2
    case CondBrWide(_, _) => BT3
    case MiscControl => BT3
    case BrWide(link, exchange, _) => if !link then BT4 else if exchange then BlBlxImmediateT2 else BlBlxImmediateT1
    case BlxUndefined(_) => BlBlxImmediateT2
    case _ => Undef
  }

  // A pattern test, by its mask and value.
  predicate Test(h: Half, m: bv32, v: bv32) {
    Fits(h as bv32, m, v)
  }

  // The decisions GetTHUMBInsnType makes, on the masks of its patterns.
  function Narrow(h1: Half): InsnType {
    if Test(h1, 0xf500, 0xb100) then CbnzCbz
    else if Test(h1, 0xff00, 0x4400) then AddRegisterT2
    else if Test(h1, 0xf800, 0x4800) then LdrLiteralT1
    else if Test(h1, 0xf800, 0xa000) then AdrT1
    else if Test(h1, 0xf000, 0xd000) && Cond(h1) != 14 && Cond(h1) != 15 then BT1
    else if Test(h1, 0xf800, 0xe000) then BT2
    else Undef
  }

  // get_insn_sub(insn1, 8, 4)
  function Cond(h1: Half): bv16 {
    (h1 >> 8) & 0xf
  }

  function Wide(h1: Half, h2: Half): InsnType {
    if Test(h1, 0xff7f, 0xf85f) && Test(h2, 0, 0) then LdrLiteralT2
    else if Test(h1, 0xfbff, 0xf2af) && Test(h2, 0x8000, 0) then AdrT2
    else if Test(h1, 0xfbff, 0xf20f) && Test(h2, 0x8000, 0) then AdrT3
    else if Test(h1, 0xf800, 0xf000) && Test(h2, 0xd000, 0x8000) then BT3
    else if Test(h1, 0xf800, 0xf000) && Test(h2, 0xd000, 0x9000) then BT4
    else if Test(h1, 0xf800, 0xf000) && Test(h2, 0xd000, 0xd000) then BlBlxImmediateT1
    else if Test(h1, 0xf800, 0xf000) && Test(h2, 0xd000, 0xc000) then BlBlxImmediateT2
    else Undef
  }

  lemma NarrowIsType(h1: Half, h2: Half)
    requires !IsThumb2(h1)
    ensures TypeOf(h1, h2) == Narrow(h1)
  {
    hide Imm6Field, Imm8Field, Imm11Field, Imm8Words, Test, Cond, DecodeWide;
    NarrowTests(h1);
  }

  lemma NarrowTests(h: Half)
    ensures Test(h, 0xf500, 0xb100) <==> h & 0xf500 == 0xb100
    ensures Test(h, 0xff00, 0x4400) <==> h & 0xff00 == 0x4400
    ensures Test(h, 0xf800, 0x4800) <==> h & 0xf800 == 0x4800
    ensures Test(h, 0xf800, 0xa000) <==> h & 0xf800 == 0xa000
    ensures Test(h, 0xf000, 0xd000) <==> h & 0xf000 == 0xd000
    ensures Test(h, 0xf800, 0xe000) <==> h & 0xf800 == 0xe000
    ensures Cond(h) != 14 && Cond(h) != 15 <==> h & 0x0e00 != 0x0e00
  {
  }

  lemma WideIsType(h1: Half, h2: Half)
    requires IsThumb2(h1)
    ensures TypeOf(h1, h2) == Wide(h1, h2)
  {
    if h1 & 0xf800 == 0xf000 {
      BranchesAndAdrs(h1, h2);
    } else {
      LoadsAndStores(h1, h2);
    }
  }

  lemma LoadsAndStores(h1: Half, h2: Half)
    requires IsThumb2(h1) && h1 & 0xf800 != 0xf000
    ensures TypeOf(h1, h2) == Wide(h1, h2)
  {
    hide Imm20, Imm24, AdrImm12, RtField, Imm12Field, Test;
    FirstTests(h1);
    SecondTests(h2);
  }

  lemma BranchesAndAdrs(h1: Half, h2: Half)
    requires IsThumb2(h1) && h1 & 0xf800 == 0xf000
    ensures TypeOf(h1, h2) == Wide(h1, h2)
  {
    hide Imm20, Imm24, AdrImm12, RtField, Imm12Field, Test;
    FirstTests(h1);
    SecondTests(h2);
  }

  lemma FirstTests(h: Half)
    ensures Test(h, 0xff7f, 0xf85f) <==> h & 0xff7f == 0xf85f
    ensures Test(h, 0xfbff, 0xf2af) <==> h & 0xfbff == 0xf2af
    ensures Test(h, 0xfbff, 0xf20f) <==> h & 0xfbff == 0xf20f
    ensures Test(h, 0xf800, 0xf000) <==> h & 0xf800 == 0xf000
  {
  }

  lemma SecondTests(h: Half)
    ensures Test(h, 0, 0) && (Test(h, 0x8000, 0) <==> h & 0x8000 == 0)
    ensures Test(h, 0xd000, 0x8000) <==> h & 0xd000 == 0x8000
    ensures Test(h, 0xd000, 0x9000) <==> h & 0xd000 == 0x9000
    ensures Test(h, 0xd000, 0xd000) <==> h & 0xd000 == 0xd000
    ensures Test(h, 0xd000, 0xc000) <==> h & 0xd000 == 0xc000
  {
  }

  // A pattern test on a halfword.
  method HalfEqual(h: Half, opstr: string, ghost m: bv32, ghost v: bv32) returns (r: bool)
    requires |opstr| == 16 && Means(opstr, m, v)
    ensures r <==> Test(h, m, v)
  {
    hide Mask, Value, Fits;
    r := InsnEqual(h as bv32, opstr);
  }

  lemma Thumb2Tests(h: Half)
    ensures IsThumb2(h) <==> Test(h, 0xf800, 0xe800) || Test(h, 0xf800, 0xf800) || Test(h, 0xf800, 0xf000)
  {
  }

  method InsnIsThumb2(insn: Half) returns (r: bool)
    ensures r <==> IsThumb2(insn)
  {
    hide Means, Test, IsThumb2;
    Patterns0();
    Thumb2Tests(insn);
    r := HalfEqual(insn, "11101xxxxxxxxxxx", 0xf800, 0xe800);
    if !r {
      r := HalfEqual(insn, "11111xxxxxxxxxxx", 0xf800, 0xf800);
    }
    if !r {
      r := HalfEqual(insn, "11110xxxxxxxxxxx", 0xf800, 0xf000);
    }
  }

  // Both halfwords of a 32-bit instruction.
  method PairEqual(insn1: Half, op1: string, insn2: Half, op2: string, ghost m1: bv32, ghost v1: bv32, ghost m2: bv32,
                   ghost v2: bv32)
    returns (r: bool)
    requires |op1| == 16 && Means(op1, m1, v1) && |op2| == 16 && Means(op2, m2, v2)
    ensures r <==> Test(insn1, m1, v1) && Test(insn2, m2, v2)
  {
    hide Means, Test;
    r := HalfEqual(insn1, op1, m1, v1);
    if r {
      r := HalfEqual(insn2, op2, m2, v2);
    }
  }

  method NarrowInsnType(insn1: Half) returns (t: InsnType)
    ensures t == Narrow(insn1)
  {
    hide Means, Test, Cond;
    Patterns0();
    Patterns1();
    Patterns2();
    var r := HalfEqual(insn1, "1011x0x1xxxxxxxx", 0xf500, 0xb100);
    if r {
      return CbnzCbz;
    }
    r := HalfEqual(insn1, "01000100xxxxxxxx", 0xff00, 0x4400);
    if r {
      return AddRegisterT2;
    }
    r := HalfEqual(insn1, "01001xxxxxxxxxxx", 0xf800, 0x4800);
    if r {
      return LdrLiteralT1;
    }
    r := HalfEqual(insn1, "10100xxxxxxxxxxx", 0xf800, 0xa000);
    if r {
      return AdrT1;
    }
    r := HalfEqual(insn1, "1101xxxxxxxxxxxx", 0xf000, 0xd000);
    var cond := Cond(insn1);
    if r && cond != 14 && cond != 15 {
      return BT1;
    }
    r := HalfEqual(insn1, "11100xxxxxxxxxxx", 0xf800, 0xe000);
    if r {
      return BT2;
    }
    return Undef;
  }

  method WideInsnType(insn1: Half, insn2: Half) returns (t: InsnType)
    ensures t == Wide(insn1, insn2)
  {
    hide Means, Test, Cond;
    Patterns0();
    Patterns1();
    Patterns2();
    var r := PairEqual(insn1, "11111000x1011111", insn2, "xxxxxxxxxxxxxxxx", 0xff7f, 0xf85f, 0, 0);
    if r {
      return LdrLiteralT2;
    }
    r := PairEqual(insn1, "11110x1010101111", insn2, "0xxxxxxxxxxxxxxx", 0xfbff, 0xf2af, 0x8000, 0);
    if r {
      return AdrT2;
    }
    r := PairEqual(insn1, "11110x1000001111", insn2, "0xxxxxxxxxxxxxxx", 0xfbff, 0xf20f, 0x8000, 0);
    if r {
      return AdrT3;
    }
    r := PairEqual(insn1, "11110xxxxxxxxxxx", insn2, "10x0xxxxxxxxxxxx", 0xf800, 0xf000, 0xd000, 0x8000);
    if r {
      return BT3;
    }
    r := PairEqual(insn1, "11110xxxxxxxxxxx", insn2, "10x1xxxxxxxxxxxx", 0xf800, 0xf000, 0xd000, 0x9000);
    if r {
      return BT4;
    }
    r := PairEqual(insn1, "11110xxxxxxxxxxx", insn2, "11x1xxxxxxxxxxxx", 0xf800, 0xf000, 0xd000, 0xd000);
    if r {
      return BlBlxImmediateT1;
    }
    r := PairEqual(insn1, "11110xxxxxxxxxxx", insn2, "11x0xxxxxxxxxxxx", 0xf800, 0xf000, 0xd000, 0xc000);
    if r {
      return BlBlxImmediateT2;
    }
    return Undef;
  }

  /**
   * GetTHUMBInsnType: every pair of halfwords gets the type of what it decodes as. The tests for 16-bit and for 32-bit
   * instructions, interleaved in the source, exclude each other.
   */
  method GetThumbInsnType(insn1: Half, insn2: Half) returns (t: InsnType)
    ensures t == TypeOf(insn1, insn2)
  {
    hide TypeOf, IsThumb2, Narrow, Wide;
    var thumb2 := InsnIsThumb2(insn1);
    if thumb2 {
      WideIsType(insn1, insn2);
      t := WideInsnType(insn1, insn2);
    } else {
      NarrowIsType(insn1, insn2);
      t := NarrowInsnType(insn1);
    }
  }

  // ARMInstruction; `pc` is 4 more than its address.
  datatype Insn = Insn(pc: int, size: nat, insn1: Half, insn2: Half)

  // The instruction at a.
  function InsnAt(m: Mem, a: int): Insn {
    var h1 := HalfAt(m, a);
    Insn(a + 4, Size(h1), h1, if IsThumb2(h1) then HalfAt(m, a + 2) else 0)
  }

  // The instructions read lie one after the other from `a` to `end`.
  ghost predicate Reads(m: Mem, ctxs: seq<Insn>, a: int, end: int) {
    if ctxs == [] then a == end
    else
      var c := ctxs[|ctxs| - 1];
      c == InsnAt(m, c.pc - 4) && c.pc - 4 + c.size == end && Reads(m, ctxs[..|ctxs| - 1], a, c.pc - 4)
  }

  class Reader {
    const memory: Mem
    const startPc: int
    var insnsSize: nat
    var insnCTXs: seq<Insn>

    ghost predicate Valid()
      reads this
    {
      Reads(memory, insnCTXs, startPc - 4, startPc - 4 + insnsSize)
    }

    constructor (memory: Mem, insnAddress: int)
      ensures Valid() && this.memory == memory && startPc == insnAddress + 4 && insnsSize == 0 && insnCTXs == []
    {
      this.memory := memory;
      startPc := insnAddress + 4;
      insnsSize := 0;
      insnCTXs := [];
    }

    /** The next instruction, whole, and not a byte more: the halfwords read are those the machine would fetch. */
    method ReadOneInstruction() returns (ctx: Insn)
      requires Valid()
      modifies this
      ensures Valid() && insnCTXs == old(insnCTXs) + [ctx] && insnsSize == old(insnsSize) + ctx.size
      ensures ctx == InsnAt(memory, startPc - 4 + old(insnsSize))
      ensures Decode(ctx.insn1, ctx.insn2) == Decode(HalfAt(memory, ctx.pc - 4), HalfAt(memory, ctx.pc - 2))
    {
      hide IsThumb2, DecodeNarrow, DecodeWide, HalfAt;
      var a := startPc - 4 + insnsSize;
      var low, high := HalfAt(memory, a), HalfAt(memory, a + 2);
      var thumb2 := InsnIsThumb2(low);
      if thumb2 {
        ctx := Insn(startPc + insnsSize, 4, low, high);
      } else {
        ctx := Insn(startPc + insnsSize, 2, low, 0);
      }
      insnCTXs := insnCTXs + [ctx];
      insnsSize := insnsSize + ctx.size;
      assert insnCTXs[..|insnCTXs| - 1] == old(insnCTXs);
    }
  }

  /**
   * What the classifier takes for a wide conditional branch is one exactly when its condition is not 0b111x; the
   * others are miscellaneous control instructions, such as dmb ish.
   */
  lemma ConditionalBranches(h1: Half, h2: Half)
    requires TypeOf(h1, h2) == BT3
    ensures Decode(h1, h2).CondBrWide? <==> h1 & 0x0380 != 0x0380
  {
    hide DecodeNarrow, DecodeWide, IsThumb2;
    NarrowImmediates(h1);
    if IsThumb2(h1) {
      WideConditional(h1, h2);
    }
  }

  lemma WideConditional(h1: Half, h2: Half)
    requires IsThumb2(h1) && TypeOf(h1, h2) == BT3
    ensures DecodeWide(h1, h2).CondBrWide? <==> h1 & 0x0380 != 0x0380
  {
    hide Imm20, Imm24, AdrImm12, RtField, Imm12Field;
  }

  lemma BarrierMistaken()
    ensures TypeOf(0xf3bf, 0x8f5b) == BT3 && Decode(0xf3bf, 0x8f5b) == MiscControl
  {
  }
}
