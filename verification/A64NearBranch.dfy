/** The near jump: B over a distance computed at run time (put_b_imm with an address difference). */
module A64NearBranch {
  import opened A64Encoding
  import opened A64Machine

  // The uint64_t with value n, byte by byte.
  function AsUint64(n: U64): bv64 {
    var h := n / 0x1_0000_0000;
    (Low32(n) as bv64) | ((Low32(h) as bv64) << 32)
  }

  function Low32(n: int): bv32 {
    PackWord(ByteOf(n), ByteOf(n / 0x100), ByteOf(n / 0x100 / 0x100), ByteOf(n / 0x100 / 0x100 / 0x100))
  }

  lemma FieldOfBytes(b0: bv8, b1: bv8, b2: bv8, b3: bv8, h: bv32)
    ensures var o := (PackWord(b0, b1, b2, b3) as bv64) | ((h as bv64) << 32);
            Imm26(BImmWord(o)) == (((b0 >> 2) as bv6) as bv26) | ((b1 as bv26) << 6) | ((b2 as bv26) << 14)
                                  | (((b3 & 0xf) as bv4 as bv26) << 22)
  {
  }

  lemma FieldValue(a: bv6, b: bv8, c: bv8, d: bv4)
    ensures ((a as bv26) | ((b as bv26) << 6) | ((c as bv26) << 14) | ((d as bv26) << 22)) as int
         == (a as int) + 64 * (b as int) + 0x4000 * (c as int) + 0x40_0000 * (d as int)
  {
  }

  lemma ByteParts(b: bv8)
    ensures (b >> 2) as bv6 as int == (b as int) / 4
    ensures (b & 0xf) as bv4 as int == (b as int) % 16
  {
  }

  // The field, from the four low bytes.
  function Field28(b0: int, b1: int, b2: int, b3: int): int {
    b0 / 4 + 64 * b1 + 0x4000 * b2 + 0x40_0000 * (b3 % 16)
  }

  lemma Quarter(n: int, b: int)
    requires n == 0x100 * (n / 0x100) + b && 0 <= b < 0x100
    ensures n / 4 == 64 * (n / 0x100) + b / 4
  {
  }

  lemma Low28(n: int, n1: int, n2: int, n3: int)
    requires n1 == n / 0x100 && n2 == n1 / 0x100 && n3 == n2 / 0x100
    ensures Field28(n % 0x100, n1 % 0x100, n2 % 0x100, n3 % 0x100) == (n / 4) % 0x400_0000
  {
    var q, r := n3 / 16, n3 % 16;
    Quarter(n, n % 0x100);
    Sixteenth(n3);
    assert n3 == 16 * q + r && n2 == 0x100 * n3 + n2 % 0x100 && n1 == 0x100 * n2 + n1 % 0x100;
    Remainder26(n / 4, q, Field28(n % 0x100, n1 % 0x100, n2 % 0x100, n3 % 0x100));
  }

  lemma Sixteenth(n: int)
    ensures n % 0x100 % 16 == n % 16
  {
    var q := n / 0x100;
    assert n == 16 * (16 * q) + n % 0x100;
  }

  lemma Remainder26(m: int, q: int, r: int)
    requires m == 0x400_0000 * q + r && 0 <= r < 0x400_0000
    ensures m % 0x400_0000 == r
  {
  }

  lemma FieldFromBytes(b0: bv8, b1: bv8, b2: bv8, b3: bv8, h: bv32)
    ensures Imm26(BImmWord((PackWord(b0, b1, b2, b3) as bv64) | ((h as bv64) << 32))) as int
         == Field28(b0 as int, b1 as int, b2 as int, b3 as int)
  {
    hide PackWord, Imm26, BImmWord;
    FieldOfBytes(b0, b1, b2, b3, h);
    FieldValue((b0 >> 2) as bv6, b1, b2, (b3 & 0xf) as bv4);
    ByteParts(b0);
    ByteParts(b3);
  }

  lemma BranchField(n: U64)
    ensures Imm26(BImmWord(AsUint64(n))) as int == (n / 4) % 0x400_0000
  {
    hide ByteOf, PackWord, Imm26, BImmWord, Field28;
    var n1, n2, n3 := n / 0x100, n / 0x100 / 0x100, n / 0x100 / 0x100 / 0x100;
    FieldFromBytes(ByteOf(n), ByteOf(n1), ByteOf(n2), ByteOf(n3), Low32(n / 0x1_0000_0000));
    Low28(n, n1, n2, n3);
  }

  lemma DecodesAsBranch(o: bv64)
    ensures Decode(BImmWord(o)) == Branch(Imm26(BImmWord(o)))
  {
  }

  // A word count within reach, wrapped, divided and cut to 26 bits, is itself or, if negative, 2^26 more.
  lemma WrappedQuarter(d: int, e: int)
    requires d == 4 * e && -0x200_0000 <= e < 0x200_0000
    ensures (Wrap(d) / 4) % 0x400_0000 == if e < 0 then e + 0x400_0000 else e
  {
    if e < 0 {
      var m := e + 0x4000_0000_0000_0000;
      WrapIs(d, 4 * m);
      Remainder26(m, 0xf_ffff_ffff, e + 0x400_0000);
    } else {
      Remainder26(e, 0, e);
    }
  }

  lemma WrapIs(d: int, w: int)
    requires w == d + TWO_64 && 0 <= w < TWO_64
    ensures Wrap(d) == w
  {
  }

  /** put_b_imm(to - from), read with sign extension, goes to `to`, forwards and backwards up to 128 MiB. */
  lemma NearBranchReaches(from: U64, to: U64)
    requires (to - from) % 4 == 0 && -0x800_0000 <= to - from < 0x800_0000
    ensures var i := Decode(BImmWord(AsUint64(Wrap(to - from))));
            i.Branch? && Wrap(from + 4 * SignExtend26(i.disp)) == to
  {
    hide Decode, Imm26, BImmWord, AsUint64, Wrap, SignExtend26;
    var e := (to - from) / 4;
    var d := 4 * e;
    assert d == to - from;
    DecodesAsBranch(AsUint64(Wrap(d)));
    BranchField(Wrap(d));
    WrappedQuarter(d, e);
    SignedField(Imm26(BImmWord(AsUint64(Wrap(d)))), e);
  }

  lemma SignedField(imm: bv26, e: int)
    requires -0x200_0000 <= e < 0x200_0000 && imm as int == if e < 0 then e + 0x400_0000 else e
    ensures SignExtend26(imm) == e
  {
  }
}
