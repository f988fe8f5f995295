/** The wide branches of the Thumb writer: thumb_writer_put_branch_imm, whose three uses are B.W, BL and BLX. */
module ThumbBranch {
  import opened A64Encoding
  import opened ThumbMachine
  import opened A64NearBranch

  // (int32_t)imm / 2, which truncates toward zero.
  function HalfDistance(imm: int): int {
    if imm >= 0 then imm / 2 else -((-imm) / 2)
  }

  function Bit(u: bv32, k: bv5): bv16
  {
    ((u >> k) & 1) as bv16
  }

  function Flag(b: bool): bv16 {
    if b then 1 else 0
  }

  function BranchFirst(u: bv32): Half {
    0xf000 | (Bit(u, 31) << 10) | (((u >> 11) & 0x3ff) as bv16)
  }

  function BranchSecond(u: bv32, link: bool, thumb: bool): Half {
    var s := Bit(u, 31);
    var j1 := !(Bit(u, 22) ^ s) & 1;
    var j2 := !(Bit(u, 21) ^ s) & 1;
    0x8000 | (Flag(link) << 14) | (j1 << 13) | (Flag(thumb) << 12) | (j2 << 11) | ((u & 0x7ff) as bv16)
  }

  function BranchHalves(u: bv32, link: bool, thumb: bool): (hs: seq<Half>)
    ensures |hs| == 2
  {
    [BranchFirst(u), BranchSecond(u, link, thumb)]
  }

  // What put_branch_imm emits.
  function BranchImm(imm: int, link: bool, thumb: bool): (hs: seq<Half>)
    ensures |hs| == 2
  {
    BranchHalves(Low32(HalfDistance(imm)), link, thumb)
  }

  function Field24(b0: bv8, b1: bv8, b2: bv8, b3: bv8): bv24 {
    (b0 as bv24) | ((b1 as bv24) << 8) | (((b2 & 0x7f) as bv24) << 16) | (((b3 >> 7) as bv24) << 23)
  }

  lemma FieldOfBytes(b0: bv8, b1: bv8, b2: bv8, b3: bv8, link: bool, thumb: bool)
    ensures var hs := BranchHalves(PackWord(b0, b1, b2, b3), link, thumb);
            Imm24(hs[0], hs[1]) == Field24(b0, b1, b2, b3)
  {
  }

  // Which branch it decodes as; a BLX with an odd halfword count is undefined.
  lemma BranchDecodes(u: bv32, link: bool, thumb: bool)
    requires link || thumb
    ensures var hs := BranchHalves(u, link, thumb);
            Decode(hs[0], hs[1]) == if thumb || u & 1 == 0 then BrWide(link, !thumb, Imm24(hs[0], hs[1]))
                                    else BlxUndefined(Imm24(hs[0], hs[1]))
  {
  }

  lemma FieldValue(b0: bv8, b1: bv8, b2: bv8, b3: bv8)
    ensures Signed24(Field24(b0, b1, b2, b3))
         == (b0 as int) + 0x100 * (b1 as int) + 0x1_0000 * ((b2 & 0x7f) as int) - if b3 >= 0x80 then 0x80_0000 else 0
  {
  }

  lemma ByteParts(b: bv8)
    ensures (b & 0x7f) as int == (b as int) % 0x80
    ensures b >= 0x80 <==> (b as int) >= 0x80
    ensures b & 1 == 0 <==> (b as int) % 2 == 0
  {
  }

  lemma LowBit(b0: bv8, b1: bv8, b2: bv8, b3: bv8)
    ensures PackWord(b0, b1, b2, b3) & 1 == 0 <==> b0 & 1 == 0
  {
  }

  // The low 23 bits and the sign bit, from the byte values.
  function SignedBytes(b0: int, b1: int, b2: int, b3: int): int {
    b0 + 0x100 * b1 + 0x1_0000 * (b2 % 0x80) - if b3 >= 0x80 then 0x80_0000 else 0
  }

  lemma FieldSigned(b0: bv8, b1: bv8, b2: bv8, b3: bv8, link: bool, thumb: bool)
    ensures var hs := BranchHalves(PackWord(b0, b1, b2, b3), link, thumb);
            Signed24(Imm24(hs[0], hs[1])) == SignedBytes(b0 as int, b1 as int, b2 as int, b3 as int)
  {
    hide PackWord, Imm24, BranchHalves, Signed24, Field24;
    FieldOfBytes(b0, b1, b2, b3, link, thumb);
    FieldValue(b0, b1, b2, b3);
    ByteParts(b2);
    ByteParts(b3);
  }

  lemma SignedDigits(n: int, n1: int, n2: int, n3: int)
    requires n1 == n / 0x100 && n2 == n1 / 0x100 && n3 == n2 / 0x100 && -0x8000_0000 <= n < 0x8000_0000
    ensures SignedBytes(n % 0x100, n1 % 0x100, n2 % 0x100, n3 % 0x100) == n <==> -0x80_0000 <= n < 0x80_0000
  {
    var q := n2 / 0x80;
    assert n2 % 0x100 % 0x80 == n2 % 0x80;
    assert n == n % 0x100 + 0x100 * (n1 % 0x100) + 0x1_0000 * (n2 % 0x80) + 0x80_0000 * q;
    assert n3 == q / 2;
    assert n3 % 0x100 >= 0x80 <==> n < 0;
  }

  lemma BranchField(n: int, link: bool, thumb: bool)
    requires -0x8000_0000 <= n < 0x8000_0000
    ensures var hs := BranchHalves(Low32(n), link, thumb);
            Signed24(Imm24(hs[0], hs[1])) == n <==> -0x80_0000 <= n < 0x80_0000
  {
    hide ByteOf, PackWord, Imm24, BranchHalves, Signed24, SignedBytes;
    var n1, n2, n3 := n / 0x100, n / 0x100 / 0x100, n / 0x100 / 0x100 / 0x100;
    FieldSigned(ByteOf(n), ByteOf(n1), ByteOf(n2), ByteOf(n3), link, thumb);
    SignedDigits(n, n1, n2, n3);
  }

  lemma BranchParity(n: int)
    ensures Low32(n) & 1 == 0 <==> n % 2 == 0
  {
    hide ByteOf, PackWord;
    LowBit(ByteOf(n), ByteOf(n / 0x100), ByteOf(n / 0x100 / 0x100), ByteOf(n / 0x100 / 0x100 / 0x100));
    ByteParts(ByteOf(n));
    assert n % 0x100 % 2 == n % 2;
  }

  // What is emitted decodes as the branch asked for, over exactly `imm` bytes.
  ghost predicate BranchesBy(hs: seq<Half>, imm: int, link: bool, thumb: bool)
    requires |hs| == 2
  {
    var i := Decode(hs[0], hs[1]);
    i.BrWide? && i.link == link && i.exchange == !thumb && 2 * Signed24(i.imm24) == imm
  }

  /**
   * B.W, BL and BLX decode to the offset asked for exactly when it is even and within 16 MiB and, for BLX, a multiple
   * of four.
   */
  lemma BranchImmReaches(imm: int, link: bool, thumb: bool)
    requires (link || thumb) && -0x8000_0000 <= imm < 0x8000_0000
    ensures BranchesBy(BranchImm(imm, link, thumb), imm, link, thumb)
      <==> imm % 2 == 0 && -0x100_0000 <= imm < 0x100_0000 && (!thumb ==> imm % 4 == 0)
  {
    hide Decode, Imm24, BranchHalves, Signed24, Low32;
    var n := HalfDistance(imm);
    BranchField(n, link, thumb);
    BranchParity(n);
    BranchDecodes(Low32(n), link, thumb);
  }
}
