/** Words, bytes and the encodings the arm64 writer produces. */
module A64Encoding {

  type Word = bv32

  const TWO_64: int := 0x1_0000_0000_0000_0000

  // A 64-bit address or register value.
  type U64 = n: int | 0 <= n < TWO_64

  function Wrap(n: int): (r: U64)
    ensures 0 <= n < TWO_64 ==> r == n
  {
    n % TWO_64
  }

  // ----- little-endian bytes -----

  function Byte(n: int): (b: bv8)
    requires 0 <= n < 256
    ensures b as int == n
  {
    n as bv8
  }

  function ByteOf(n: int): (b: bv8)
    ensures b as int == n % 256
  {
    hide Byte;
    Byte(n % 256)
  }

  function WordBytes(w: Word): (b: seq<bv8>)
    ensures |b| == 4
  {
    [(w & 0xff) as bv8, ((w >> 8) & 0xff) as bv8, ((w >> 16) & 0xff) as bv8, ((w >> 24) & 0xff) as bv8]
  }

  function PackWord(b0: bv8, b1: bv8, b2: bv8, b3: bv8): Word {
    (b0 as bv32) | ((b1 as bv32) << 8) | ((b2 as bv32) << 16) | ((b3 as bv32) << 24)
  }

  lemma PackWordBytes(w: Word)
    ensures PackWord(WordBytes(w)[0], WordBytes(w)[1], WordBytes(w)[2], WordBytes(w)[3]) == w
  {
    assert ((w & 0xff) as bv8 as bv32) | (((w >> 8) & 0xff) as bv8 as bv32 << 8)
      | (((w >> 16) & 0xff) as bv8 as bv32 << 16) | (((w >> 24) & 0xff) as bv8 as bv32 << 24) == w;
  }

  function HalfBytes(n: int): (b: seq<bv8>)
    ensures |b| == 4
  {
    [ByteOf(n), ByteOf(n / 0x100), ByteOf(n / 0x100 / 0x100), ByteOf(n / 0x100 / 0x100 / 0x100)]
  }

  // The eight bytes `put_bytes(&address, sizeof address)` appends for an inline literal.
  function AddressBytes(n: U64): (b: seq<bv8>)
    ensures |b| == 8
  {
    HalfBytes(n) + HalfBytes(n / 0x1_0000_0000)
  }

  function Combine32(b0: bv8, b1: bv8, b2: bv8, b3: bv8): (r: int)
    ensures 0 <= r < 0x1_0000_0000
  {
    (b0 as int) + 0x100 * (b1 as int) + 0x1_0000 * (b2 as int) + 0x100_0000 * (b3 as int)
  }

  lemma Digits(n: int, n1: int, n2: int, n3: int)
    requires n1 == n / 0x100 && n2 == n1 / 0x100 && n3 == n2 / 0x100
    ensures n % 0x100 + 0x100 * (n1 % 0x100) + 0x1_0000 * (n2 % 0x100) + 0x100_0000 * (n3 % 0x100) == n % 0x1_0000_0000
  {
  }

  lemma CombineHalf(n: int)
    ensures var b := HalfBytes(n); Combine32(b[0], b[1], b[2], b[3]) == n % 0x1_0000_0000
  {
    hide ByteOf;
    Digits(n, n / 0x100, n / 0x100 / 0x100, n / 0x100 / 0x100 / 0x100);
  }

  // ----- instruction fields -----

  function SignExtend19(imm: bv19): (d: int)
    ensures -0x4_0000 <= d < 0x4_0000
  {
    if imm as int >= 0x4_0000 then imm as int - 0x8_0000 else imm as int
  }

  function SignExtend26(imm: bv26): (d: int)
    ensures -0x200_0000 <= d < 0x200_0000
  {
    if imm as int >= 0x200_0000 then imm as int - 0x400_0000 else imm as int
  }

  function SignExtend14(imm: bv14): (d: int)
    ensures -0x2000 <= d < 0x2000
  {
    if imm as int >= 0x2000 then imm as int - 0x4000 else imm as int
  }

  function SignExtend21(imm: bv21): (d: int)
    ensures -0x10_0000 <= d < 0x10_0000
  {
    if imm as int >= 0x10_0000 then imm as int - 0x20_0000 else imm as int
  }

  function Imm19(w: Word): bv19 { ((w >> 5) & 0x7_ffff) as bv19 }
  function Imm26(w: Word): bv26 { (w & 0x3ff_ffff) as bv26 }
  function Rt(w: Word): bv5 { (w & 0x1f) as bv5 }
  function Rn(w: Word): bv5 { ((w >> 5) & 0x1f) as bv5 }

  // ----- words the writer emits (writer-arm64.c) -----

  function LdrRegImmWord(reg: bv5, offset: bv32): Word {
    0x5800_0000 | ((offset >> 2) << 5) | (reg as bv32)
  }

  // size = 0b11 (64-bit register), opc = 0b01 (load)
  function LdrRegRegOffsetWord(dest: bv5, src: bv5, offset: bv32): Word {
    0x3900_0000 | (3 << 30) | (1 << 22) | ((offset >> 3) << 10) | ((src as bv32) << 5) | (dest as bv32)
  }

  function BrRegWord(reg: bv5): Word {
    0xd61f_0000 | ((reg as bv32) << 5)
  }

  function BlrRegWord(reg: bv5): Word {
    0xd63f_0000 | (1 << 21) | ((reg as bv32) << 5)
  }

  function BImmWord(offset: bv64): Word {
    0x1400_0000 | (((offset >> 2) & 0x3ff_ffff) as bv32)
  }

  // BIT32SET(&inst32, 5, 19, v): replace the 19-bit displacement field.
  function SetImm19(w: Word, v: bv32): Word {
    (w & !(0x7_ffff << 5)) | (v << 5)
  }

  // ldr x17, #8; br x17; .quad target
  function Redirect(target: U64): (b: seq<bv8>)
    ensures |b| == 16
  {
    WordBytes(LdrRegImmWord(17, 8)) + WordBytes(BrRegWord(17)) + AddressBytes(target)
  }
}
