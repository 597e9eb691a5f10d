/** The A64 assembler buffer with literal labels, and the instruction relocator built on it.
    The buffer is kept in 32-bit words: a byte offset of the source is four times an index. */
module A64Relocator {
  import opened Common
  import opened A64

  const TMP_REG_0 := 17
  const LDR_X17: Word := 0x5800_0011 // ldr x17, with a zero displacement
  const BR_X17: Word := 0xD61F_0220
  const BLR_X17: Word := 0xD63F_0220

  /** A label: the address to store at it, and the positions of the loads that refer to it. */
  datatype Label = Label(data: Addr, uses: seq<nat>)

  /** What a TurboAssembler holds. */
  datatype Asm = Asm(buf: seq<Word>, labels: seq<Label>)

  // ----- encodings -----

  function MoveWide(base: Word, rd: nat, hw: nat, imm: nat): Word
    requires rd < 32 && hw < 4 && imm < 0x1_0000 && base <= 0xF280_0000
  {
    base + hw * 0x20_0000 + imm * 0x20 + rd
  }

  function MovWords(rd: nat, imm: Addr): seq<Word>
    requires rd < 32
  {
    [ MoveWide(0xD280_0000, rd, 0, imm % 0x1_0000),
      MoveWide(0xF280_0000, rd, 1, Field(imm, 0x1_0000, 0x1_0000)),
      MoveWide(0xF280_0000, rd, 2, Field(imm, 0x1_0000_0000, 0x1_0000)),
      MoveWide(0xF280_0000, rd, 3, Field(imm, 0x1_0000_0000_0000, 0x1_0000)) ]
  }

  /** The assembler encodes the 64-bit load whatever the width of the register it is given. */
  function LdrRegister(rt: nat, rn: nat): Word
    requires rt < 32 && rn < 32
  {
    0xF940_0000 + rn * 0x20 + rt
  }

  function DoubleWords(data: Addr): seq<Word> { [data % 0x1_0000_0000, data / 0x1_0000_0000] }

  /** The literal load `w` made to reach `n` words on. */
  function Link(w: Word, n: nat): Word {
    (w / 0x100_0000) * 0x100_0000 + (n % 0x8_0000) * 0x20 + w % 32
  }

  /** The macro set_bits: the field with lowest weight `unit` and `size` values becomes `v`. */
  function SetBits(w: Word, unit: nat, size: nat, v: nat): Word
    requires unit > 0 && size > 0
  {
    (w - Field(w, unit, size) * unit + v * unit) % 0x1_0000_0000
  }

  // ----- the source's displacement decoders -----

  /** Shift left, then arithmetically right, by the 64 - M positions that `unit` is two to the power of. */
  function SignExtend(x: nat, unit: nat): int
    requires unit > 0
  {
    var shifted := (x * unit) % TWO64;
    (if shifted >= 0x8000_0000_0000_0000 then shifted - TWO64 else shifted) / unit
  }

  function DecodeImm14Offset(w: Word): int { SignExtend(Field(w, 0x20, 0x4000) * 4, 0x1_0000_0000_0000) }
  function DecodeImm19Offset(w: Word): int { SignExtend(Field(w, 0x20, 0x8_0000) * 4, 0x800_0000_0000) }
  function DecodeImm26Offset(w: Word): int { SignExtend(Field(w, 1, 0x400_0000) * 4, 0x10_0000_0000) }
  function DecodeImmHiImmLoOffset(w: Word): int {
    SignExtend(Field(w, 0x2000_0000, 4) + Field(w, 0x20, 0x8_0000) * 4, 0x800_0000_0000)
  }

  // ----- the assembler operations, on values -----

  function Emit(a: Asm, ws: seq<Word>): Asm { a.(buf := a.buf + ws) }

  function AppendLabel(a: Asm, data: Addr): Asm { a.(labels := a.labels + [Label(data, [])]) }

  /** Ldr of an unbound label: record the position, emit the load unlinked. */
  function LdrLast(a: Asm): Asm
    requires a.labels != []
  {
    var j := |a.labels| - 1;
    Asm(a.buf + [LDR_X17], a.labels[j := a.labels[j].(uses := a.labels[j].uses + [|a.buf|])])
  }

  ghost predicate UsesBelow(labels: seq<Label>, n: nat) {
    forall j, k :: 0 <= j < |labels| && 0 <= k < |labels[j].uses| ==> labels[j].uses[k] < n
  }

  function LinkUses(buf: seq<Word>, uses: seq<nat>, pos: nat): (r: seq<Word>)
    requires forall k :: 0 <= k < |uses| ==> uses[k] < |buf| && uses[k] <= pos
    ensures |r| == |buf|
    decreases |uses|
  {
    if uses == [] then buf
    else LinkUses(buf[uses[0] := Link(buf[uses[0]], pos - uses[0])], uses[1..], pos)
  }

  /** RelocBind from label `j` on: bind the label here, link its loads, emit its data. */
  function BindFrom(buf: seq<Word>, labels: seq<Label>, j: nat): seq<Word>
    requires j <= |labels| && UsesBelow(labels, |buf|)
    decreases |labels| - j
  {
    if j == |labels| then buf
    else BindFrom(LinkUses(buf, labels[j].uses, |buf|) + DoubleWords(labels[j].data), labels, j + 1)
  }

  // ----- the source's masks, on bits 24 to 31 -----

  predicate MatchesLiteral(t: nat) { t / 8 % 8 == 3 && t % 4 == 0 } // mask 0x3B000000
  predicate MatchesPcRel(t: nat) { t % 32 == 0x10 }                 // mask 0x1F000000
  predicate MatchesBranch(t: nat) { t / 4 % 32 == 5 }               // mask 0x7C000000
  predicate MatchesTest(t: nat) { t / 2 % 64 == 0x1B }              // mask 0x7E000000
  predicate MatchesCompare(t: nat) { t / 2 % 64 == 0x1A }           // mask 0x7E000000
  predicate MatchesCondition(t: nat) { t / 2 == 0x2A }              // mask 0xFE000000

  /** Bit 31, which tells ADRP from ADR and BL from B. */
  predicate HighBit(t: nat) { t >= 0x80 }

  // ----- one iteration of the relocation loop -----

  /** None stands for the process abort of UNIMPLEMENTED. */
  function RelocateOne(a: Asm, pc: Addr, w: Word): Option<Asm> {
    var t := Top(w);
    if MatchesLiteral(t) then
      var b := Emit(a, MovWords(TMP_REG_0, Plus(pc, DecodeImm19Offset(w))));
      if t / 0x40 <= 1 then Some(Emit(b, [LdrRegister(w % 32, TMP_REG_0)])) else None // opc above 0b01
    else if MatchesPcRel(t) then
      var address :=
        if !HighBit(t) then Plus(pc, DecodeImmHiImmLoOffset(w))
        else Plus(pc - pc % 0x1000, DecodeImmHiImmLoOffset(w) * 0x1000);
      Some(Emit(a, MovWords(w % 32, address)))
    else if MatchesBranch(t) then
      var b := LdrLast(AppendLabel(a, Plus(pc, DecodeImm26Offset(w))));
      Some(Emit(b, [if HighBit(t) then BLR_X17 else BR_X17]))
    else if MatchesTest(t) then // tbz and tbnz
      Some(InvertedBranch(a, Plus(pc, DecodeImm14Offset(w)), InvertTest(w)))
    else if MatchesCompare(t) then // cbz and cbnz
      Some(InvertedBranch(a, Plus(pc, DecodeImm19Offset(w)), InvertCompare(w)))
    else if MatchesCondition(t) then // b.cond
      Some(InvertedBranch(a, Plus(pc, DecodeImm19Offset(w)), InvertCondition(w)))
    else Some(Emit(a, [w]))
  }

  /** The branch with its sense inverted and its displacement set to three words. */
  function InvertTest(w: Word): Word {
    SetBits(SetBits(w, 0x100_0000, 2, 1 - Field(w, 0x100_0000, 2)), 0x20, 0x4000, 3)
  }

  function InvertCompare(w: Word): Word {
    SetBits(SetBits(w, 0x100_0000, 2, 1 - Field(w, 0x100_0000, 2)), 0x20, 0x8_0000, 3)
  }

  function InvertCondition(w: Word): Word {
    var cond := Field(w, 1, 16);
    SetBits(SetBits(w, 1, 16, if cond % 2 == 0 then cond + 1 else cond - 1), 0x20, 0x8_0000, 3)
  }

  function InvertedBranch(a: Asm, target: Addr, inverted: Word): Asm {
    Emit(LdrLast(Emit(AppendLabel(a, target), [inverted])), [BR_X17])
  }

  ghost predicate Recorded(a: Asm) { UsesBelow(a.labels, |a.buf|) }

  lemma EmitRecorded(a: Asm, ws: seq<Word>)
    requires Recorded(a)
    ensures Recorded(Emit(a, ws))
  {
  }

  lemma LoadRecorded(a: Asm, data: Addr, ws: seq<Word>, last: seq<Word>)
    requires Recorded(a)
    ensures Recorded(Emit(LdrLast(Emit(AppendLabel(a, data), ws)), last))
    ensures Recorded(Emit(LdrLast(AppendLabel(a, data)), last))
  {
  }

  lemma RelocateOneRecorded(a: Asm, pc: Addr, w: Word)
    requires Recorded(a)
    ensures RelocateOne(a, pc, w).Some? ==> Recorded(RelocateOne(a, pc, w).value)
  {
    var t := Top(w);
    if MatchesLiteral(t) {
      var b := Emit(a, MovWords(TMP_REG_0, Plus(pc, DecodeImm19Offset(w))));
      EmitRecorded(a, MovWords(TMP_REG_0, Plus(pc, DecodeImm19Offset(w))));
      EmitRecorded(b, [LdrRegister(w % 32, TMP_REG_0)]);
    } else if MatchesPcRel(t) && !HighBit(t) {
      EmitRecorded(a, MovWords(w % 32, Plus(pc, DecodeImmHiImmLoOffset(w))));
    } else if MatchesPcRel(t) {
      EmitRecorded(a, MovWords(w % 32, Plus(pc - pc % 0x1000, DecodeImmHiImmLoOffset(w) * 0x1000)));
    } else if MatchesBranch(t) {
      LoadRecorded(a, Plus(pc, DecodeImm26Offset(w)), [], [if HighBit(t) then BLR_X17 else BR_X17]);
    } else if MatchesTest(t) {
      LoadRecorded(a, Plus(pc, DecodeImm14Offset(w)), [InvertTest(w)], [BR_X17]);
    } else if MatchesCompare(t) {
      LoadRecorded(a, Plus(pc, DecodeImm19Offset(w)), [InvertCompare(w)], [BR_X17]);
    } else if MatchesCondition(t) {
      LoadRecorded(a, Plus(pc, DecodeImm19Offset(w)), [InvertCondition(w)], [BR_X17]);
    } else {
      EmitRecorded(a, [w]);
    }
  }

  /** The assembler after the first n instructions of the window. */
  function Emitted(window: seq<Word>, pc: Addr, n: nat): (r: Option<Asm>)
    requires n <= |window|
    ensures r.Some? ==> Recorded(r.value)
  {
    if n == 0 then Some(Asm([], []))
    else match Emitted(window, pc, n - 1)
      case None => None
      case Some(a) =>
        RelocateOneRecorded(a, At(pc, n - 1), window[n - 1]);
        RelocateOne(a, At(pc, n - 1), window[n - 1])
  }

  /** LiteralLdrBranch: load the address stored just behind the branch. */
  function Tail(address: Addr): seq<Word> { [Link(LDR_X17, 2), BR_X17] + DoubleWords(address) }

  /** The whole relocated block. */
  function Relocate(window: seq<Word>, pc: Addr): Option<seq<Word>> {
    match Emitted(window, pc, |window|)
    case None => None
    case Some(a) => Some(BindFrom(a.buf + Tail(At(pc, |window|)), a.labels, 0))
  }

  // ----- the assembler object -----

  class TurboAssembler {
    var buffer: seq<Word>
    var labels: seq<Label>

    function View(): Asm
      reads this
    {
      Asm(buffer, labels)
    }

    constructor ()
      ensures View() == Asm([], [])
    {
      buffer, labels := [], [];
    }

    method EmitWord(w: Word)
      modifies this
      ensures View() == Emit(old(View()), [w])
    {
      buffer := buffer + [w];
    }

    method EmitInt64(data: Addr)
      modifies this
      ensures View() == Emit(old(View()), DoubleWords(data))
    {
      buffer := buffer + DoubleWords(data);
    }

    method Mov(rd: nat, imm: Addr)
      requires rd < 32
      modifies this
      ensures View() == Emit(old(View()), MovWords(rd, imm))
    {
      ghost var b := buffer;
      EmitWord(MoveWide(0xD280_0000, rd, 0, imm % 0x1_0000));
      EmitWord(MoveWide(0xF280_0000, rd, 1, Field(imm, 0x1_0000, 0x1_0000)));
      EmitWord(MoveWide(0xF280_0000, rd, 2, Field(imm, 0x1_0000_0000, 0x1_0000)));
      EmitWord(MoveWide(0xF280_0000, rd, 3, Field(imm, 0x1_0000_0000_0000, 0x1_0000)));
      assert buffer == b + MovWords(rd, imm);
    }

    method AppendRelocLabelEntry(data: Addr)
      modifies this
      ensures View() == AppendLabel(old(View()), data)
    {
      labels := labels + [Label(data, [])];
    }

    /** Ldr(TMP_REG_0, label) for the label appended last. */
    method Ldr()
      requires labels != []
      modifies this
      ensures View() == LdrLast(old(View()))
    {
      var j := |labels| - 1;
      labels := labels[j := labels[j].(uses := labels[j].uses + [|buffer|])];
      EmitWord(LDR_X17);
    }

    /** Bind a label at the end of the buffer and link the loads recorded for it. */
    method PseudoBind(uses: seq<nat>)
      requires forall k :: 0 <= k < |uses| ==> uses[k] < |buffer|
      modifies this
      ensures buffer == LinkUses(old(buffer), uses, |old(buffer)|)
      ensures labels == old(labels)
    {
      var pos := |buffer|;
      var i := 0;
      while i < |uses|
        invariant 0 <= i <= |uses| && |buffer| == pos && labels == old(labels)
        invariant LinkUses(buffer, uses[i..], pos) == LinkUses(old(buffer), uses, pos)
      {
        var p := uses[i];
        assert uses[i..][1..] == uses[i + 1..];
        buffer := buffer[p := Link(buffer[p], pos - p)];
        i := i + 1;
      }
    }

    method LiteralLdrBranch(address: Addr)
      modifies this
      ensures View() == Emit(old(View()), Tail(address))
    {
      var position := |buffer|;
      EmitWord(LDR_X17);
      EmitWord(BR_X17);
      PseudoBind([position]);
      assert buffer == old(buffer) + [Link(LDR_X17, 2), BR_X17];
      EmitInt64(address);
      assert buffer == old(buffer) + Tail(address);
    }

    method RelocBind()
      requires UsesBelow(labels, |buffer|)
      modifies this
      ensures buffer == BindFrom(old(buffer), old(labels), 0)
    {
      var i := 0;
      while i < |labels|
        invariant 0 <= i <= |labels| && labels == old(labels)
        invariant |buffer| >= |old(buffer)|
        invariant BindFrom(buffer, labels, i) == BindFrom(old(buffer), old(labels), 0)
      {
        PseudoBind(labels[i].uses);
        EmitInt64(labels[i].data);
        i := i + 1;
      }
    }

    /** One iteration of the relocation loop; false stands for the process abort. */
    method RelocateInstruction(pc: Addr, w: Word) returns (ok: bool)
      modifies this
      ensures ok <==> RelocateOne(old(View()), pc, w).Some?
      ensures ok ==> View() == RelocateOne(old(View()), pc, w).value
    {
      var t := Top(w);
      ok := true;
      if MatchesLiteral(t) {
        Mov(TMP_REG_0, Plus(pc, DecodeImm19Offset(w)));
        if t / 0x40 <= 1 {
          EmitWord(LdrRegister(w % 32, TMP_REG_0));
        } else {
          ok := false;
        }
      } else if MatchesPcRel(t) {
        if !HighBit(t) {
          Mov(w % 32, Plus(pc, DecodeImmHiImmLoOffset(w)));
        } else {
          Mov(w % 32, Plus(pc - pc % 0x1000, DecodeImmHiImmLoOffset(w) * 0x1000));
        }
      } else if MatchesBranch(t) {
        AppendRelocLabelEntry(Plus(pc, DecodeImm26Offset(w)));
        Ldr();
        EmitWord(if HighBit(t) then BLR_X17 else BR_X17);
      } else if MatchesTest(t) {
        EmitInverted(Plus(pc, DecodeImm14Offset(w)), InvertTest(w));
      } else if MatchesCompare(t) {
        EmitInverted(Plus(pc, DecodeImm19Offset(w)), InvertCompare(w));
      } else if MatchesCondition(t) {
        EmitInverted(Plus(pc, DecodeImm19Offset(w)), InvertCondition(w));
      } else {
        EmitWord(w);
      }
    }

    method EmitInverted(target: Addr, inverted: Word)
      modifies this
      ensures View() == InvertedBranch(old(View()), target, inverted)
    {
      AppendRelocLabelEntry(target);
      EmitWord(inverted);
      Ldr();
      EmitWord(BR_X17);
    }
  }

  /** The relocation loop over the window, then the branch back and the label data. */
  method GenRelocateCodeAndBranch(window: seq<Word>, pc: Addr) returns (r: Option<seq<Word>>)
    ensures r == Relocate(window, pc)
  {
    var asm := new TurboAssembler();
    var i := 0;
    while i < |window|
      invariant 0 <= i <= |window|
      invariant fresh(asm)
      invariant Emitted(window, pc, i) == Some(asm.View())
    {
      var ok := asm.RelocateInstruction(At(pc, i), window[i]);
      if !ok {
        NoneStays(window, pc, i + 1, |window|);
        return None;
      }
      i := i + 1;
    }
    asm.LiteralLdrBranch(At(pc, |window|));
    asm.RelocBind();
    r := Some(asm.buffer);
  }

  lemma {:induction false} NoneStays(window: seq<Word>, pc: Addr, i: nat, n: nat)
    requires i <= n <= |window| && Emitted(window, pc, i).None?
    ensures Emitted(window, pc, n).None?
  {
    if i < n {
      NoneStays(window, pc, i, n - 1);
    }
  }
}
