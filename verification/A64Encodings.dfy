/** What the relocator's encoders and decoders mean. */
module A64Encodings {
  import opened Common
  import opened A64
  import opened A64Relocator

  /** The source's masks select the classes of the manual. */
  lemma MasksAgree(t: nat)
    requires t < 0x100
    ensures MatchesLiteral(t) <==> IsLiteral(t)
    ensures MatchesPcRel(t) <==> IsAdr(t) || IsAdrp(t)
    ensures MatchesBranch(t) <==> IsB(t) || IsBl(t)
    ensures MatchesTest(t) <==> IsTest(t)
    ensures MatchesCompare(t) <==> IsCompare(t)
    ensures MatchesCondition(t) <==> t == 0x54 || t == 0x55
  {
    LiteralMask(t);
    BranchMasks(t);
  }

  lemma LiteralMask(t: nat)
    requires t < 0x100
    ensures MatchesLiteral(t) <==> IsLiteral(t)
    ensures MatchesPcRel(t) <==> IsAdr(t) || IsAdrp(t)
  {
  }

  lemma BranchMasks(t: nat)
    requires t < 0x100
    ensures MatchesBranch(t) <==> IsB(t) || IsBl(t)
    ensures MatchesTest(t) <==> IsTest(t)
    ensures MatchesCompare(t) <==> IsCompare(t)
  {
  }

  lemma OffsetsDecode(w: Word)
    ensures DecodeImm14Offset(w) == Imm14(w)
    ensures DecodeImm19Offset(w) == Imm19(w)
    ensures DecodeImm26Offset(w) == Imm26(w)
    ensures DecodeImmHiImmLoOffset(w) == ImmHiLo(w)
  {
    SignExtend16(Field(w, 0x20, 0x4000) * 4);
    SignExtend21(Field(w, 0x20, 0x8_0000) * 4);
    SignExtend28(Field(w, 1, 0x400_0000) * 4);
    SignExtend21(Field(w, 0x2000_0000, 4) + Field(w, 0x20, 0x8_0000) * 4);
  }

  /** The source's pair of shifts is the two's complement reading of the low bits. */
  lemma SignExtend16(x: nat)
    requires x < 0x1_0000
    ensures SignExtend(x, 0x1_0000_0000_0000) == Signed(x, 0x1_0000)
  {
  }

  lemma SignExtend21(x: nat)
    requires x < 0x20_0000
    ensures SignExtend(x, 0x800_0000_0000) == Signed(x, 0x20_0000)
  {
  }

  lemma SignExtend28(x: nat)
    requires x < 0x1000_0000
    ensures SignExtend(x, 0x10_0000_0000) == Signed(x, 0x1000_0000)
  {
  }

  lemma DecodeBr()
    ensures Decode(BR_X17) == Br(17)
  {
  }

  lemma DecodeBlr()
    ensures Decode(BLR_X17) == Blr(17)
  {
  }

  lemma DecodeLink(n: nat)
    requires n < 0x4_0000
    ensures Decode(Link(LDR_X17, n)) == LdrLit(true, 17, 4 * n)
  {
    var w := Link(LDR_X17, n);
    Split19(w, 0x58, n, 17);
  }

  lemma DecodeLdrRegister(rt: nat)
    requires rt < 32
    ensures Decode(LdrRegister(rt, 17)) == LdrX(rt, 17, 0)
  {
    var w := LdrRegister(rt, 17);
    assert w / 0x20 == 0x7CA_0011 && w % 32 == rt;
    assert w / 0x400 == 0x3E_5000 && w / 0x40_0000 == 0x3E5 && Top(w) == 0xF9;
  }

  lemma DecodeMoveWide(rd: nat, hw: nat, imm: nat)
    requires rd < 32 && hw < 4 && imm < 0x1_0000
    ensures Decode(MoveWide(0xD280_0000, rd, hw, imm)) == Movz(rd, hw, imm)
    ensures Decode(MoveWide(0xF280_0000, rd, hw, imm)) == Movk(rd, hw, imm)
  {
    SplitWide(MoveWide(0xD280_0000, rd, hw, imm), 0xD2, hw, imm, rd);
    SplitWide(MoveWide(0xF280_0000, rd, hw, imm), 0xF2, hw, imm, rd);
  }

  // Reading the fields back from a word put together from them.

  lemma Split19(w: Word, t: nat, m: nat, l: nat)
    requires w == t * 0x100_0000 + m * 0x20 + l && t < 0x100 && m < 0x8_0000 && l < 32
    ensures Top(w) == t && Field(w, 0x20, 0x8_0000) == m && w % 32 == l
  {
    assert w / 0x20 == t * 0x8_0000 + m;
  }

  lemma Split14(w: Word, t: nat, h: nat, m: nat, l: nat)
    requires w == t * 0x100_0000 + h * 0x8_0000 + m * 0x20 + l
    requires t < 0x100 && h < 32 && m < 0x4000 && l < 32
    ensures Top(w) == t && Field(w, 0x8_0000, 32) == h && Field(w, 0x20, 0x4000) == m && w % 32 == l
  {
    assert w / 0x8_0000 == t * 32 + h;
    assert w / 0x20 == (t * 32 + h) * 0x4000 + m;
  }

  lemma SplitWide(w: Word, t: nat, hw: nat, m: nat, l: nat)
    requires w == t * 0x100_0000 + 0x80_0000 + hw * 0x20_0000 + m * 0x20 + l
    requires t < 0x100 && hw < 4 && m < 0x1_0000 && l < 32
    ensures Top(w) == t && Field(w, 0x80_0000, 2) == 1
    ensures Field(w, 0x20_0000, 4) == hw && Field(w, 0x20, 0x1_0000) == m && w % 32 == l
  {
    assert w / 0x80_0000 == 2 * t + 1;
    assert w / 0x20_0000 == 4 * (2 * t + 1) + hw;
    assert w / 0x20 == (4 * (2 * t + 1) + hw) * 0x1_0000 + m;
  }

  function Flip(k: nat): nat { if k % 2 == 0 then k + 1 else k - 1 }

  lemma Parts14(w: Word)
    ensures w == Top(w) * 0x100_0000 + Field(w, 0x8_0000, 32) * 0x8_0000 + Field(w, 0x20, 0x4000) * 0x20 + w % 32
  {
    var q := w / 0x20;
    assert w == q * 0x20 + w % 32;
    assert q == (q / 0x4000) * 0x4000 + q % 0x4000;
    assert q / 0x4000 == w / 0x8_0000;
    assert w / 0x8_0000 == (w / 0x8_0000 / 32) * 32 + Field(w, 0x8_0000, 32);
    assert w / 0x8_0000 / 32 == Top(w);
  }

  lemma Parts19(w: Word)
    ensures w == Top(w) * 0x100_0000 + Field(w, 0x20, 0x8_0000) * 0x20 + w % 32
  {
    var q := w / 0x20;
    assert w == q * 0x20 + w % 32;
    assert q == (q / 0x8_0000) * 0x8_0000 + q % 0x8_0000;
    assert q / 0x8_0000 == Top(w);
  }

  /** Flipping bit 24. */
  lemma FlipBit24(w: Word, r: nat)
    requires r < 0x100_0000 && w == Top(w) * 0x100_0000 + r
    ensures Flip(Top(w)) < 0x100
    ensures SetBits(w, 0x100_0000, 2, 1 - Field(w, 0x100_0000, 2)) == Flip(Top(w)) * 0x100_0000 + r
  {
    assert Field(w, 0x100_0000, 2) == Top(w) % 2;
  }

  lemma InvertTestForm(w: Word)
    ensures InvertTest(w) == Flip(Top(w)) * 0x100_0000 + Field(w, 0x8_0000, 32) * 0x8_0000 + 3 * 0x20 + w % 32
  {
    var h, m, l := Field(w, 0x8_0000, 32), Field(w, 0x20, 0x4000), w % 32;
    Parts14(w);
    FlipBit24(w, h * 0x8_0000 + m * 0x20 + l);
    Split14(Flip(Top(w)) * 0x100_0000 + h * 0x8_0000 + m * 0x20 + l, Flip(Top(w)), h, m, l);
  }

  lemma InvertCompareForm(w: Word)
    ensures InvertCompare(w) == Flip(Top(w)) * 0x100_0000 + 3 * 0x20 + w % 32
  {
    var m, l := Field(w, 0x20, 0x8_0000), w % 32;
    Parts19(w);
    FlipBit24(w, m * 0x20 + l);
    Split19(Flip(Top(w)) * 0x100_0000 + m * 0x20 + l, Flip(Top(w)), m, l);
  }

  lemma LowFour(w: Word)
    requires Field(w, 16, 2) == 0
    ensures w % 32 == w % 16
  {
  }

  lemma FlipLow(w: Word, high: nat, l: nat)
    requires w == high + l && l == w % 16 && l < 16
    ensures SetBits(w, 1, 16, Flip(l)) == high + Flip(l)
  {
  }

  lemma InvertConditionForm(w: Word)
    requires Field(w, 16, 2) == 0
    ensures InvertCondition(w) == Top(w) * 0x100_0000 + 3 * 0x20 + Flip(w % 16) && w % 32 == w % 16
  {
    var t, m, l := Top(w), Field(w, 0x20, 0x8_0000), w % 16;
    Parts19(w);
    LowFour(w);
    FlipLow(w, t * 0x100_0000 + m * 0x20, l);
    Split19(t * 0x100_0000 + m * 0x20 + Flip(l), t, m, Flip(l));
  }

  /** Inverting keeps the operands, negates the sense and skips exactly three words. */
  lemma DecodeInvertedTest(w: Word)
    requires Decode(w).Tb?
    ensures var i := Decode(w); Decode(InvertTest(w)) == Tb(!i.nonzero, i.pos, i.rt, 12)
  {
    InvertTestForm(w);
    Split14(InvertTest(w), Flip(Top(w)), Field(w, 0x8_0000, 32), 3, w % 32);
  }

  lemma DecodeInvertedCompare(w: Word)
    requires Decode(w).Cb?
    ensures var i := Decode(w); Decode(InvertCompare(w)) == Cb(!i.nonzero, i.is64, i.rt, 12)
  {
    InvertCompareForm(w);
    Split19(InvertCompare(w), Flip(Top(w)), 3, w % 32);
  }

  lemma DecodeInvertedCondition(w: Word)
    requires Decode(w).BCond?
    ensures Decode(InvertCondition(w)) == BCond(Flip(Decode(w).cond), 12)
  {
    InvertConditionForm(w);
    Split19(InvertCondition(w), 0x54, 3, Flip(w % 16));
    assert InvertCondition(w) / 16 == 0x540_0006 && InvertCondition(w) % 16 == Flip(w % 16);
  }

  /** Flipping the low bit negates a condition, except for AL and NV, which both always hold. */
  lemma InvertedConditionHolds(cond: nat, f: Flags)
    requires cond < 16
    ensures ConditionHolds(Flip(cond), f) == !ConditionHolds(cond, f) <==> cond < 14
  {
  }
}
