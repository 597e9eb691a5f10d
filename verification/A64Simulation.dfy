/** One instruction of a window and its relocated form, in the program before and after the hook is written. */
module A64Simulation {
  import opened Common
  import opened A64
  import opened A64Relocator
  import opened A64Encodings
  import opened A64Layout

  // ----- running the emitted sequences -----

  ghost predicate InCode(env: Env, base: Addr, p: nat, w: Word) {
    At(base, p) in env.code && env.code[At(base, p)] == w
  }

  lemma StepFalls(env: Env, base: Addr, p: nat, w: Word, c: Cpu, c': Cpu)
    requires InCode(env, base, p, w) && EffectOf(env, At(base, p), w, c) == Fall(c')
    ensures Step(env, State(At(base, p), c)) == State(At(base, p + 1), c')
  {
    AtNext(base, p, 1);
  }

  lemma WriteTwice(c: Cpu, r: nat, u: Addr, v: Addr)
    ensures WriteX(WriteX(c, r, u), r, v) == WriteX(c, r, v)
    ensures r != 31 ==> ReadX(WriteX(c, r, u), r) == u
  {
  }

  /** The four moves build the constant from its low end. */
  lemma Lane0(imm: Addr)
    ensures SetLane(0, 0, imm % 0x1_0000) == imm % 0x1_0000
  {
  }

  lemma Lane1(imm: Addr)
    ensures SetLane(imm % 0x1_0000, 1, Field(imm, 0x1_0000, 0x1_0000)) == imm % 0x1_0000_0000
  {
    var q, low := imm / 0x1_0000, imm % 0x1_0000;
    var r := q % 0x1_0000 * 0x1_0000 + low;
    assert imm == q / 0x1_0000 * 0x1_0000_0000 + r && 0 <= r < 0x1_0000_0000;
    assert imm % 0x1_0000_0000 == r;
    assert low / 0x1_0000_0000 == 0;
  }

  lemma Lane2(imm: Addr)
    ensures SetLane(imm % 0x1_0000_0000, 2, Field(imm, 0x1_0000_0000, 0x1_0000)) == imm % 0x1_0000_0000_0000
  {
    var q, low := imm / 0x1_0000_0000, imm % 0x1_0000_0000;
    var r := q % 0x1_0000 * 0x1_0000_0000 + low;
    assert imm == q / 0x1_0000 * 0x1_0000_0000_0000 + r && 0 <= r < 0x1_0000_0000_0000;
    assert imm % 0x1_0000_0000_0000 == r;
    assert low / 0x1_0000_0000_0000 == 0;
  }

  lemma Lane3(imm: Addr)
    ensures SetLane(imm % 0x1_0000_0000_0000, 3, Field(imm, 0x1_0000_0000_0000, 0x1_0000)) == imm
  {
  }

  /** Mov: four instructions that leave the constant in the register. */
  lemma RunMov(env: Env, base: Addr, p: nat, rd: nat, imm: Addr, c: Cpu)
    requires rd < 32
    requires forall k :: 0 <= k < 4 ==> InCode(env, base, p + k, MovWords(rd, imm)[k])
    ensures Run(env, State(At(base, p), c), 4) == State(At(base, p + 4), WriteX(c, rd, imm))
  {
    var h0, h1 := imm % 0x1_0000, Field(imm, 0x1_0000, 0x1_0000);
    var h2, h3 := Field(imm, 0x1_0000_0000, 0x1_0000), Field(imm, 0x1_0000_0000_0000, 0x1_0000);
    var v1, v2, v3 := imm % 0x1_0000, imm % 0x1_0000_0000, imm % 0x1_0000_0000_0000;
    Lane0(imm);
    Lane1(imm);
    Lane2(imm);
    Lane3(imm);
    var c1, c2, c3, c4 := WriteX(c, rd, v1), WriteX(c, rd, v2), WriteX(c, rd, v3), WriteX(c, rd, imm);
    var m := MovWords(rd, imm);
    assert InCode(env, base, p + 0, m[0]) && InCode(env, base, p + 1, m[1]);
    assert InCode(env, base, p + 2, m[2]) && InCode(env, base, p + 3, m[3]);
    MovStep(env, At(base, p), rd, 0, h0, c, 0);
    StepFalls(env, base, p, m[0], c, c1);
    MovStep(env, At(base, p + 1), rd, 1, h1, c, v1);
    StepFalls(env, base, p + 1, m[1], c1, c2);
    MovStep(env, At(base, p + 2), rd, 2, h2, c, v2);
    StepFalls(env, base, p + 2, m[2], c2, c3);
    MovStep(env, At(base, p + 3), rd, 3, h3, c, v3);
    StepFalls(env, base, p + 3, m[3], c3, c4);
    RunFour(env, State(At(base, p), c));
  }

  lemma RunFour(env: Env, s: State)
    ensures Run(env, s, 4) == Step(env, Step(env, Step(env, Step(env, s))))
  {
    var s1 := Step(env, s);
    var s2 := Step(env, s1);
    assert Run(env, s, 4) == Run(env, s1, 3) == Run(env, s2, 2) == Run(env, Step(env, s2), 1);
  }

  lemma MovStep(env: Env, pc: Addr, rd: nat, hw: nat, imm: nat, c: Cpu, v: Addr)
    requires rd < 32 && hw < 4 && imm < 0x1_0000
    ensures EffectOf(env, pc, MoveWide(0xD280_0000, rd, hw, imm), c) == Fall(WriteX(c, rd, SetLane(0, hw, imm)))
    ensures EffectOf(env, pc, MoveWide(0xF280_0000, rd, hw, imm), WriteX(c, rd, v))
         == Fall(WriteX(c, rd, SetLane(v, hw, imm)))
  {
    DecodeMoveWide(rd, hw, imm);
    WriteTwice(c, rd, v, SetLane(v, hw, imm));
  }

  /** A literal load of the address behind it into X17. */
  lemma StepLdr(env: Env, base: Addr, p: nat, n: nat, target: Addr, c: Cpu)
    requires n < 0x4_0000 && InCode(env, base, p, Link(LDR_X17, n))
    requires InCode(env, base, p + n, DoubleWords(target)[0]) && InCode(env, base, p + n + 1, DoubleWords(target)[1])
    ensures Step(env, State(At(base, p), c)) == State(At(base, p + 1), WriteX(c, 17, target))
  {
    DecodeLink(n);
    AtNext(base, p, n);
    AtNext(base, p + n, 1);
    assert ReadDouble(env, c, At(base, p + n)) == target;
    StepFalls(env, base, p, Link(LDR_X17, n), c, WriteX(c, 17, target));
  }

  lemma RunTwo(env: Env, s: State)
    ensures Run(env, s, 2) == Step(env, Step(env, s))
  {
    assert Run(env, s, 2) == Run(env, Step(env, s), 1);
  }

  /** A literal load of an address into X17 and a branch to it. */
  lemma RunLdrBr(env: Env, base: Addr, p: nat, n: nat, target: Addr, c: Cpu)
    requires n < 0x4_0000
    requires InCode(env, base, p, Link(LDR_X17, n)) && InCode(env, base, p + 1, BR_X17)
    requires InCode(env, base, p + n, DoubleWords(target)[0]) && InCode(env, base, p + n + 1, DoubleWords(target)[1])
    ensures Run(env, State(At(base, p), c), 2) == State(target, WriteX(c, 17, target))
  {
    StepLdr(env, base, p, n, target, c);
    DecodeBr();
    WriteTwice(c, 17, target, target);
    RunTwo(env, State(At(base, p), c));
  }

  /** The same with a call: the return address is the one behind the call. */
  lemma RunLdrBlr(env: Env, base: Addr, p: nat, n: nat, target: Addr, c: Cpu)
    requires n < 0x4_0000
    requires InCode(env, base, p, Link(LDR_X17, n)) && InCode(env, base, p + 1, BLR_X17)
    requires InCode(env, base, p + n, DoubleWords(target)[0]) && InCode(env, base, p + n + 1, DoubleWords(target)[1])
    ensures Run(env, State(At(base, p), c), 2) ==
            State(target, WriteX(WriteX(c, 17, target), 30, At(base, p + 2)))
  {
    StepLdr(env, base, p, n, target, c);
    DecodeBlr();
    WriteTwice(c, 17, target, target);
    AtNext(base, p + 1, 1);
    RunTwo(env, State(At(base, p), c));
  }

  // ----- equality up to the scratch register -----

  function Forget(c: Cpu): Cpu { c.(x := c.x[17 := 0]) }

  /** Same registers except X17, same stack pointer, flags, vectors and memory. */
  ghost predicate SameBut17(a: Cpu, b: Cpu) { Forget(a) == Forget(b) }

  lemma ReadSame(a: Cpu, b: Cpu, r: nat)
    requires SameBut17(a, b) && r != 17
    ensures ReadX(a, r) == ReadX(b, r)
  {
    assert Forget(a).x == Forget(b).x;
    assert r in a.x <==> r in Forget(a).x;
    assert r in b.x <==> r in Forget(b).x;
  }

  lemma WriteSame(a: Cpu, b: Cpu, r: nat, v: Addr)
    requires SameBut17(a, b)
    ensures SameBut17(WriteX(a, r, v), WriteX(b, r, v))
    ensures SameBut17(a, WriteX(b, 17, v))
    ensures r == 17 ==> WriteX(a, r, v) == WriteX(b, r, v)
  {
    var fa, fb := Forget(a).x, Forget(b).x;
    assert fa == fb;
    assert WriteX(b, 17, v).x[17 := 0] == b.x[17 := 0];
    if r != 31 {
      if r == 17 {
        assert a.x[17 := v] == a.x[17 := 0][17 := v];
        assert b.x[17 := v] == b.x[17 := 0][17 := v];
      } else {
        assert a.x[r := v][17 := 0] == a.x[17 := 0][r := v];
        assert b.x[r := v][17 := 0] == b.x[17 := 0][r := v];
      }
    }
  }

  ghost predicate Related(dirty: bool, c: Cpu, d: Cpu) { if dirty then SameBut17(c, d) else c == d }

  /** Related states, and the same way out. */
  ghost predicate SameEffect(dirty: bool, e: Effect, f: Effect) {
    match e
    case Fall(c) => f.Fall? && Related(dirty, c, f.cpu)
    case Jump(c, t) => f.Jump? && f.target == t && SameBut17(c, f.cpu)
  }

  lemma RelatedSame(dirty: bool, c: Cpu, d: Cpu)
    requires Related(dirty, c, d)
    ensures SameBut17(c, d) && c.mem == d.mem && c.sp == d.sp && c.flags == d.flags
  {
    assert Forget(c).mem == Forget(d).mem && Forget(c).sp == Forget(d).sp && Forget(c).flags == Forget(d).flags;
  }

  lemma RelatedRead(dirty: bool, c: Cpu, d: Cpu, r: nat)
    requires Related(dirty, c, d) && (dirty ==> r != 17)
    ensures ReadX(c, r) == ReadX(d, r)
  {
    if dirty { ReadSame(c, d, r); }
  }

  /** Writing X17 on both sides makes it agree again. */
  lemma RelatedWrite(dirty: bool, c: Cpu, d: Cpu, r: nat, v: Addr)
    requires Related(dirty, c, d)
    ensures Related(dirty && r != 17, WriteX(c, r, v), WriteX(d, r, v))
  {
    if dirty { WriteSame(c, d, r, v); }
  }

  // ----- the windows the theorem is about -----

  /** The program before and after the window was overwritten. The block is run in the second. */
  datatype Hook = Hook(env: Env, hooked: Env)

  /** An instruction that is copied behaves the same at any address, in the hooked program, and whatever X17
      holds if it was overwritten. */
  ghost predicate Indifferent(h: Hook, pc: Addr, w: Word, dirty: bool, c: Cpu) {
    forall at: Addr, d: Cpu {:trigger EffectOf(h.hooked, at, w, d)} ::
      Related(dirty, c, d) ==> SameEffect(dirty, EffectOf(h.env, pc, w, c), EffectOf(h.hooked, at, w, d))
  }

  /** What a literal load leaves in its register. */
  function Literal(env: Env, c: Cpu, is64: bool, a: Addr): Addr {
    if is64 then ReadDouble(env, c, a) else ReadWord(env, c, a)
  }

  /** What one instruction must satisfy in the state c when X17 may already have been overwritten (`dirty`).
      A literal load becomes a 64-bit load, which must give the value the original gives. */
  ghost predicate Supported(h: Hook, pc: Addr, w: Word, dirty: bool, c: Cpu) {
    match Decode(w)
    case LdrLit(is64, rt, off) =>
      rt == 31 || (rt == 17 && !is64) ||
      ReadDouble(h.hooked, c, Plus(pc, off)) == Literal(h.env, c, is64, Plus(pc, off))
    case Adr(_, _) => true
    case Adrp(_, _) => true
    case B(_) => true
    case Bl(_) => true
    case Tb(_, _, rt, _) => dirty ==> rt != 17
    case Cb(_, _, rt, _) => dirty ==> rt != 17
    case BCond(cond, _) => cond < 14
    case Movz(_, _, _) => true
    case Movk(rd, _, _) => dirty ==> rd != 17
    case LdrX(rt, rn, off) =>
      && (dirty ==> rn != 17)
      && ReadDouble(h.hooked, c, LoadAddress(c, rn, off)) == ReadDouble(h.env, c, LoadAddress(c, rn, off))
    case Br(rn) => dirty ==> rn != 17
    case Blr(rn) => dirty ==> rn != 17
    case Unmodelled => false
    case Plain => Indifferent(h, pc, w, dirty, c)
  }

  function DirtyAfter(w: Word, dirty: bool): bool {
    match Decode(w)
    case LdrLit(is64, rt, _) => !(is64 && rt == 17)
    case Adr(rd, _) => dirty && rd != 17
    case Adrp(rd, _) => dirty && rd != 17
    case Movz(rd, _, _) => dirty && rd != 17
    case LdrX(rt, _, _) => dirty && rt != 17
    case _ => dirty
  }

  /** A call leaves a return address, and the relocated one leaves that of the block. */
  predicate IsCall(w: Word) { Decode(w).Bl? || Decode(w).Blr? }

  function LinkOf(w: Word, ret: Addr): Option<Addr> { if IsCall(w) then Some(ret) else None }

  /** The effect with the return address of a call replaced. */
  function Relink(link: Option<Addr>, e: Effect): Effect {
    if link.Some? && e.Jump? then Jump(WriteX(e.cpu, 30, link.value), e.target) else e
  }

  // ----- one instruction -----

  /** States a and b, before and after one instruction, of an assembler whose final state e is loaded at base.
      2^18 words is the reach of a literal load. */
  ghost predicate Placed(env: Env, base: Addr, a: Asm, b: Asm, e: Asm, tail: seq<Word>) {
    && Extends(a, b) && Extends(a, e) && Extends(b, e) && Bindable(e, e.buf + tail)
    && Loaded(env, base, BindFrom(e.buf + tail, e.labels, 0))
    && |BindFrom(e.buf + tail, e.labels, 0)| <= 0x4_0000
  }

  /** After k steps from the words of an instruction, the relocated code has followed its effect. */
  ghost predicate Follows(env: Env, base: Addr, a: Asm, b: Asm, d: Cpu, e: Effect, dirty: bool, k: nat) {
    var s := Run(env, State(At(base, |a.buf|), d), k);
    match e
    case Fall(c') => s.pc == At(base, |b.buf|) && Related(dirty, c', s.cpu)
    case Jump(c', t) => s.pc == t && SameBut17(c', s.cpu)
  }

  lemma PlacedWord(env: Env, base: Addr, a: Asm, b: Asm, e: Asm, tail: seq<Word>, q: nat)
    requires Placed(env, base, a, b, e, tail) && |a.buf| <= q < |b.buf|
    requires forall k :: |a.labels| <= k < |b.labels| ==> Use(b, k) != q
    ensures InCode(env, base, q, b.buf[q])
  {
    PlainStays(a, b, e, tail, q);
  }

  /** The words of a load of the last label behind q, and those of the label's data. */
  lemma PlacedLoad(env: Env, base: Addr, a: Asm, b: Asm, e: Asm, tail: seq<Word>, u: nat, data: Addr) returns (n: nat)
    requires Placed(env, base, a, b, e, tail) && |b.labels| == |a.labels| + 1
    requires b.labels[|a.labels|] == Label(data, [u])
    ensures n < 0x4_0000 && InCode(env, base, u, Link(LDR_X17, n))
    ensures InCode(env, base, u + n, DoubleWords(data)[0]) && InCode(env, base, u + n + 1, DoubleWords(data)[1])
  {
    n := LoadReaches(b, e, tail, |a.labels|);
    assert Use(b, |a.labels|) == u;
  }

  /** The words of a load of a new label and of the instruction behind it. */
  lemma PlacedJump(env: Env, base: Addr, a: Asm, b: Asm, e: Asm, tail: seq<Word>, ws: seq<Word>, data: Addr, last: Word)
      returns (n: nat)
    requires b == Emit(LdrLast(Emit(AppendLabel(a, data), ws)), [last]) && Placed(env, base, a, b, e, tail)
    ensures n < 0x4_0000 && |b.buf| == |a.buf| + |ws| + 2
    ensures forall i :: 0 <= i < |ws| ==> InCode(env, base, |a.buf| + i, ws[i])
    ensures var u := |a.buf| + |ws|;
            && InCode(env, base, u, Link(LDR_X17, n)) && InCode(env, base, u + 1, last)
            && InCode(env, base, u + n, DoubleWords(data)[0]) && InCode(env, base, u + n + 1, DoubleWords(data)[1])
  {
    LoadExtends(a, data, ws, [last]);
    var u := |a.buf| + |ws|;
    assert b.buf == a.buf + ws + [LDR_X17] + [last] && Use(b, |a.labels|) == u;
    forall i | 0 <= i < |ws|
      ensures InCode(env, base, |a.buf| + i, ws[i])
    {
      PlacedWord(env, base, a, b, e, tail, |a.buf| + i);
    }
    PlacedWord(env, base, a, b, e, tail, u + 1);
    n := PlacedLoad(env, base, a, b, e, tail, u, data);
  }

  /** The three words of an inverted branch, run when the original branch is or is not taken. */
  lemma InvertedFollows(env: Env, base: Addr, a: Asm, b: Asm, e: Asm, tail: seq<Word>,
                        target: Addr, inv: Word, c: Cpu, d: Cpu, taken: bool, dirty: bool) returns (k: nat)
    requires b == InvertedBranch(a, target, inv) && Placed(env, base, a, b, e, tail)
    requires Related(dirty, c, d)
    requires forall pc :: EffectOf(env, pc, inv, d) == Branch(d, !taken, Plus(pc, 12))
    ensures k == if taken then 3 else 1
    ensures Follows(env, base, a, b, d, Branch(c, taken, target), dirty, k)
  {
    var n := PlacedJump(env, base, a, b, e, tail, [inv], target, BR_X17);
    var p := |a.buf|;
    var s := State(At(base, p), d);
    assert InCode(env, base, p + 0, [inv][0]);
    if taken {
      StepFalls(env, base, p, inv, d, d);
      RunLdrBr(env, base, p + 1, n, target, d);
      k := 3;
      assert Run(env, s, 3) == Run(env, Step(env, s), 2);
      RelatedSame(dirty, c, d);
      WriteSame(c, d, 17, target);
    } else {
      AtNext(base, p, 3);
      k := 1;
      assert Run(env, s, 1) == Step(env, s) == State(At(base, p + 3), d);
    }
  }

  lemma TbRelocated(a: Asm, pc: Addr, w: Word)
    requires Decode(w).Tb?
    ensures RelocateOne(a, pc, w) == Some(InvertedBranch(a, Plus(pc, Decode(w).off), InvertTest(w)))
  {
    MasksAgree(Top(w));
    OffsetsDecode(w);
  }

  lemma TbFollows(h: Hook, pc: Addr, base: Addr, w: Word, a: Asm, b: Asm, e: Asm, tail: seq<Word>,
                  c: Cpu, d: Cpu, dirty: bool) returns (k: nat)
    requires Decode(w).Tb? && RelocateOne(a, pc, w) == Some(b) && Placed(h.hooked, base, a, b, e, tail)
    requires Related(dirty, c, d) && (dirty ==> Decode(w).rt != 17)
    ensures Follows(h.hooked, base, a, b, d, EffectOf(h.env, pc, w, c), dirty, k)
  {
    TbRelocated(a, pc, w);
    DecodeInvertedTest(w);
    var i := Decode(w);
    RelatedRead(dirty, c, d, i.rt);
    k := InvertedFollows(h.hooked, base, a, b, e, tail, Plus(pc, i.off), InvertTest(w), c, d,
                         TestHolds(i.nonzero, i.pos, ReadX(c, i.rt)), dirty);
  }

  lemma CbRelocated(a: Asm, pc: Addr, w: Word)
    requires Decode(w).Cb?
    ensures RelocateOne(a, pc, w) == Some(InvertedBranch(a, Plus(pc, Decode(w).off), InvertCompare(w)))
  {
    MasksAgree(Top(w));
    OffsetsDecode(w);
  }

  lemma CbFollows(h: Hook, pc: Addr, base: Addr, w: Word, a: Asm, b: Asm, e: Asm, tail: seq<Word>,
                  c: Cpu, d: Cpu, dirty: bool) returns (k: nat)
    requires Decode(w).Cb? && RelocateOne(a, pc, w) == Some(b) && Placed(h.hooked, base, a, b, e, tail)
    requires Related(dirty, c, d) && (dirty ==> Decode(w).rt != 17)
    ensures Follows(h.hooked, base, a, b, d, EffectOf(h.env, pc, w, c), dirty, k)
  {
    CbRelocated(a, pc, w);
    DecodeInvertedCompare(w);
    var i := Decode(w);
    RelatedRead(dirty, c, d, i.rt);
    k := InvertedFollows(h.hooked, base, a, b, e, tail, Plus(pc, i.off), InvertCompare(w), c, d,
                         CompareHolds(i.nonzero, i.is64, ReadX(c, i.rt)), dirty);
  }

  lemma BCondRelocated(a: Asm, pc: Addr, w: Word)
    requires Decode(w).BCond?
    ensures RelocateOne(a, pc, w) == Some(InvertedBranch(a, Plus(pc, Decode(w).off), InvertCondition(w)))
  {
    MasksAgree(Top(w));
    OffsetsDecode(w);
  }

  /** A relocated b.cond follows the original exactly if its condition is not AL or NV. Those always branch,
      and so does the word emitted for them, which skips the branch: the block falls through. */
  lemma BCondExact(h: Hook, pc: Addr, base: Addr, w: Word, a: Asm, b: Asm, e: Asm, tail: seq<Word>,
                   c: Cpu, d: Cpu, dirty: bool) returns (k: nat)
    requires Decode(w).BCond? && RelocateOne(a, pc, w) == Some(b) && Placed(h.hooked, base, a, b, e, tail)
    requires Related(dirty, c, d)
    ensures Decode(w).cond < 14 ==> Follows(h.hooked, base, a, b, d, EffectOf(h.env, pc, w, c), dirty, k)
    ensures Decode(w).cond >= 14 ==>
              && EffectOf(h.env, pc, w, c) == Jump(c, Plus(pc, Decode(w).off))
              && Run(h.hooked, State(At(base, |a.buf|), d), 1) == State(At(base, |b.buf|), d)
  {
    BCondRelocated(a, pc, w);
    k := BCondBranches(h, Plus(pc, Decode(w).off), base, w, a, b, e, tail, c, d, dirty);
  }

  lemma BCondBranches(h: Hook, target: Addr, base: Addr, w: Word, a: Asm, b: Asm, e: Asm, tail: seq<Word>,
                      c: Cpu, d: Cpu, dirty: bool) returns (k: nat)
    requires Decode(w).BCond? && b == InvertedBranch(a, target, InvertCondition(w))
    requires Placed(h.hooked, base, a, b, e, tail) && Related(dirty, c, d)
    ensures Decode(w).cond < 14 ==>
              Follows(h.hooked, base, a, b, d, Branch(c, ConditionHolds(Decode(w).cond, c.flags), target), dirty, k)
    ensures Decode(w).cond >= 14 ==>
              ConditionHolds(Decode(w).cond, c.flags) &&
              Run(h.hooked, State(At(base, |a.buf|), d), 1) == State(At(base, |b.buf|), d)
  {
    DecodeInvertedCondition(w);
    var cond := Decode(w).cond;
    RelatedSame(dirty, c, d);
    InvertedConditionHolds(cond, d.flags);
    var taken := !ConditionHolds(Flip(cond), d.flags);
    k := InvertedFollows(h.hooked, base, a, b, e, tail, target, InvertCondition(w), d, d, taken, false);
    if cond < 14 {
      k := InvertedFollows(h.hooked, base, a, b, e, tail, target, InvertCondition(w), c, d, taken, dirty);
    }
  }

  lemma BRelocated(a: Asm, pc: Addr, w: Word)
    requires Decode(w).B? || Decode(w).Bl?
    ensures var last := if Decode(w).B? then BR_X17 else BLR_X17;
            RelocateOne(a, pc, w) == Some(Emit(LdrLast(Emit(AppendLabel(a, Plus(pc, Decode(w).off)), [])), [last]))
  {
    MasksAgree(Top(w));
    OffsetsDecode(w);
    assert forall a: Asm :: Emit(a, []) == a;
  }

  /** The registers a call through X17 writes, with the return address replaced. */
  lemma CallWritten(dirty: bool, c: Cpu, d: Cpu, target: Addr, link: Addr, ret: Addr)
    requires Related(dirty, c, d)
    ensures SameBut17(WriteX(WriteX(c, 30, link), 30, ret), WriteX(WriteX(d, 17, target), 30, ret))
  {
    RelatedSame(dirty, c, d);
    WriteSame(c, d, 17, target);
    WriteSame(c, WriteX(d, 17, target), 30, ret);
    WriteTwice(c, 30, link, ret);
  }

  lemma BFollows(h: Hook, pc: Addr, base: Addr, w: Word, a: Asm, b: Asm, e: Asm, tail: seq<Word>,
                 c: Cpu, d: Cpu, dirty: bool) returns (k: nat)
    requires Decode(w).B? && RelocateOne(a, pc, w) == Some(b) && Placed(h.hooked, base, a, b, e, tail)
    requires Related(dirty, c, d)
    ensures Follows(h.hooked, base, a, b, d, EffectOf(h.env, pc, w, c), dirty, k)
  {
    BRelocated(a, pc, w);
    var target := Plus(pc, Decode(w).off);
    var n := PlacedJump(h.hooked, base, a, b, e, tail, [], target, BR_X17);
    RunLdrBr(h.hooked, base, |a.buf|, n, target, d);
    RelatedSame(dirty, c, d);
    WriteSame(c, d, 17, target);
    k := 2;
  }

  lemma BlRuns(env: Env, pc: Addr, base: Addr, w: Word, a: Asm, b: Asm, e: Asm, tail: seq<Word>, d: Cpu)
    requires Decode(w).Bl? && RelocateOne(a, pc, w) == Some(b) && Placed(env, base, a, b, e, tail)
    ensures var target, ret := Plus(pc, Decode(w).off), At(base, |b.buf|);
            Run(env, State(At(base, |a.buf|), d), 2) == State(target, WriteX(WriteX(d, 17, target), 30, ret))
  {
    BRelocated(a, pc, w);
    var target := Plus(pc, Decode(w).off);
    var n := PlacedJump(env, base, a, b, e, tail, [], target, BLR_X17);
    RunLdrBlr(env, base, |a.buf|, n, target, d);
  }

  /** A relocated bl goes to the original target with the return address behind it in the block. */
  lemma BlFollows(h: Hook, pc: Addr, base: Addr, w: Word, a: Asm, b: Asm, e: Asm, tail: seq<Word>,
                  c: Cpu, d: Cpu, dirty: bool) returns (k: nat)
    requires Decode(w).Bl? && RelocateOne(a, pc, w) == Some(b) && Placed(h.hooked, base, a, b, e, tail)
    requires Related(dirty, c, d)
    ensures Follows(h.hooked, base, a, b, d, Relink(Some(At(base, |b.buf|)), EffectOf(h.env, pc, w, c)), dirty, k)
  {
    BlRuns(h.hooked, pc, base, w, a, b, e, tail, d);
    CallWritten(dirty, c, d, Plus(pc, Decode(w).off), Plus(pc, 4), At(base, |b.buf|));
    k := 2;
  }

  lemma MovPlaced(env: Env, base: Addr, a: Asm, b: Asm, e: Asm, tail: seq<Word>, rd: nat, imm: Addr, d: Cpu)
    requires rd < 32 && Placed(env, base, a, b, e, tail) && a.buf + MovWords(rd, imm) <= b.buf && a.labels == b.labels
    ensures Run(env, State(At(base, |a.buf|), d), 4) == State(At(base, |a.buf| + 4), WriteX(d, rd, imm))
  {
    forall k | 0 <= k < 4
      ensures InCode(env, base, |a.buf| + k, MovWords(rd, imm)[k])
    {
      PlacedWord(env, base, a, b, e, tail, |a.buf| + k);
      assert b.buf[|a.buf| + k] == (a.buf + MovWords(rd, imm))[|a.buf| + k];
    }
    RunMov(env, base, |a.buf|, rd, imm, d);
  }

  /** The address an adr or adrp computes. */
  function PageRelative(i: Insn, pc: Addr): Addr
    requires i.Adr? || i.Adrp?
  {
    if i.Adr? then Plus(pc, i.off) else Plus(pc - pc % 0x1000, i.off)
  }

  lemma AdrRelocated(a: Asm, pc: Addr, w: Word)
    requires Decode(w).Adr? || Decode(w).Adrp?
    ensures RelocateOne(a, pc, w) == Some(Emit(a, MovWords(Decode(w).rd, PageRelative(Decode(w), pc))))
  {
    MasksAgree(Top(w));
    OffsetsDecode(w);
  }

  lemma AdrFollows(h: Hook, pc: Addr, base: Addr, w: Word, a: Asm, b: Asm, e: Asm, tail: seq<Word>,
                   c: Cpu, d: Cpu, dirty: bool) returns (k: nat)
    requires Decode(w).Adr? || Decode(w).Adrp?
    requires RelocateOne(a, pc, w) == Some(b) && Placed(h.hooked, base, a, b, e, tail) && Related(dirty, c, d)
    ensures Follows(h.hooked, base, a, b, d, EffectOf(h.env, pc, w, c), DirtyAfter(w, dirty), k)
  {
    AdrRelocated(a, pc, w);
    var i, address := Decode(w), PageRelative(Decode(w), pc);
    MovPlaced(h.hooked, base, a, b, e, tail, i.rd, address, d);
    RelatedWrite(dirty, c, d, i.rd, address);
    k := 4;
  }

  lemma LiteralRelocated(a: Asm, pc: Addr, w: Word)
    requires Decode(w).LdrLit?
    ensures RelocateOne(a, pc, w) ==
            Some(Emit(Emit(a, MovWords(17, Plus(pc, Decode(w).off))), [LdrRegister(Decode(w).rt, 17)]))
  {
    MasksAgree(Top(w));
    OffsetsDecode(w);
  }

  /** The relocated literal load is a 64-bit load through X17, whatever the width of the original. */
  lemma LdrLitRuns(env: Env, pc: Addr, base: Addr, w: Word, a: Asm, b: Asm, e: Asm, tail: seq<Word>, d: Cpu)
    requires Decode(w).LdrLit?
    requires RelocateOne(a, pc, w) == Some(b) && Placed(env, base, a, b, e, tail)
    ensures var i, address := Decode(w), Plus(pc, Decode(w).off);
            Run(env, State(At(base, |a.buf|), d), 5) ==
            State(At(base, |b.buf|), WriteX(WriteX(d, 17, address), i.rt, ReadDouble(env, d, address)))
  {
    LiteralRelocated(a, pc, w);
    var i := Decode(w);
    var address := Plus(pc, i.off);
    var load := LdrRegister(i.rt, 17);
    MovPlaced(env, base, a, b, e, tail, 17, address, d);
    var p := |a.buf| + 4;
    PlacedWord(env, base, a, b, e, tail, p);
    var s, d1 := State(At(base, |a.buf|), d), WriteX(d, 17, address);
    LoadThrough17(env, At(base, p), i.rt, address, d);
    StepFalls(env, base, p, load, d1, WriteX(d1, i.rt, ReadDouble(env, d, address)));
    RunAdd(env, s, 4, 1);
    assert Run(env, State(At(base, p), d1), 1) == Step(env, State(At(base, p), d1));
  }

  lemma LoadThrough17(env: Env, pc: Addr, rt: nat, address: Addr, d: Cpu)
    requires rt < 32
    ensures var d1 := WriteX(d, 17, address);
            EffectOf(env, pc, LdrRegister(rt, 17), d1) == Fall(WriteX(d1, rt, ReadDouble(env, d, address)))
  {
    DecodeLdrRegister(rt);
    BaseIs17(d, address);
    MemSame(env, d, WriteX(d, 17, address), address);
  }

  lemma BaseIs17(d: Cpu, address: Addr)
    ensures LoadAddress(WriteX(d, 17, address), 17, 0) == address
  {
    WriteTwice(d, 17, address, address);
  }

  lemma MemSame(env: Env, c: Cpu, d: Cpu, a: Addr)
    requires c.mem == d.mem
    ensures ReadDouble(env, c, a) == ReadDouble(env, d, a) && ReadWord(env, c, a) == ReadWord(env, d, a)
  {
  }

  lemma LdrLitFollows(h: Hook, pc: Addr, base: Addr, w: Word, a: Asm, b: Asm, e: Asm, tail: seq<Word>,
                      c: Cpu, d: Cpu, dirty: bool) returns (k: nat)
    requires Decode(w).LdrLit? && Supported(h, pc, w, dirty, c)
    requires RelocateOne(a, pc, w) == Some(b) && Placed(h.hooked, base, a, b, e, tail) && Related(dirty, c, d)
    ensures Follows(h.hooked, base, a, b, d, EffectOf(h.env, pc, w, c), DirtyAfter(w, dirty), k)
  {
    LdrLitRuns(h.hooked, pc, base, w, a, b, e, tail, d);
    var i, address := Decode(w), Plus(pc, Decode(w).off);
    RelatedSame(dirty, c, d);
    MemSame(h.hooked, c, d, address);
    LiteralWritten(c, d, i.rt, address, Literal(h.env, c, i.is64, address), ReadDouble(h.hooked, d, address));
    k := 5;
  }

  /** Loading through X17: the states agree exactly if the register does not matter or the values agree. */
  lemma LiteralWritten(c: Cpu, d: Cpu, rt: nat, address: Addr, v: Addr, u: Addr)
    requires SameBut17(c, d)
    ensures SameBut17(WriteX(c, rt, v), WriteX(WriteX(d, 17, address), rt, u)) <==> rt == 17 || rt == 31 || u == v
    ensures rt == 17 && u == v ==> WriteX(c, rt, v) == WriteX(WriteX(d, 17, address), rt, u)
  {
    var d1 := WriteX(d, 17, address);
    WriteSame(c, d, 17, address);
    WriteSame(c, d1, rt, v);
    if rt == 17 {
      WriteSame(c, c, 17, v);
      WriteSame(c, d1, 17, u);
      assert Forget(WriteX(c, 17, v)) == Forget(c);
    } else if rt != 31 && u != v {
      assert Forget(WriteX(d1, rt, u)).x[rt] == u;
      assert Forget(WriteX(c, rt, v)).x[rt] == v;
    }
  }

  /** Exactly when a literal load survives relocation: its register does not matter, or the 64-bit value
      the hooked program reads is the value the original loads. */
  lemma LiteralExact(h: Hook, pc: Addr, base: Addr, w: Word, a: Asm, b: Asm, e: Asm, tail: seq<Word>, c: Cpu)
    requires Decode(w).LdrLit? && RelocateOne(a, pc, w) == Some(b) && Placed(h.hooked, base, a, b, e, tail)
    ensures var i, address := Decode(w), Plus(pc, Decode(w).off);
            SameBut17(EffectOf(h.env, pc, w, c).cpu, Run(h.hooked, State(At(base, |a.buf|), c), 5).cpu)
            <==> i.rt == 17 || i.rt == 31 || ReadDouble(h.hooked, c, address) == Literal(h.env, c, i.is64, address)
  {
    LdrLitRuns(h.hooked, pc, base, w, a, b, e, tail, c);
    var i, address := Decode(w), Plus(pc, Decode(w).off);
    LiteralWritten(c, c, i.rt, address, Literal(h.env, c, i.is64, address), ReadDouble(h.hooked, c, address));
  }

  /** Bytes written for a hook on n words at `start` do not reach the word at a. */
  predicate Clear(a: Addr, start: Addr, n: nat) { (a - start + 3) % TWO64 >= 4 * n + 3 }

  /** The hooked program is the original with the window overwritten. */
  ghost predicate Patched(h: Hook, start: Addr, n: nat) {
    forall a: Addr :: Clear(a, start, n) ==>
      (a in h.env.code <==> a in h.hooked.code) && (a in h.env.code ==> h.env.code[a] == h.hooked.code[a])
  }

  /** A literal load that does not read the window survives exactly if it is a 64-bit load, its register does
      not matter, or the word behind the literal is zero. */
  lemma NarrowLiteralExact(h: Hook, start: Addr, n: nat, pc: Addr, base: Addr, w: Word, a: Asm, b: Asm, e: Asm,
                           tail: seq<Word>, c: Cpu)
    requires Decode(w).LdrLit? && RelocateOne(a, pc, w) == Some(b) && Placed(h.hooked, base, a, b, e, tail)
    requires Patched(h, start, n) && Clear(Plus(pc, Decode(w).off), start, n)
    requires Clear(Plus(Plus(pc, Decode(w).off), 4), start, n)
    ensures var i, behind := Decode(w), Plus(Plus(pc, Decode(w).off), 4);
            SameBut17(EffectOf(h.env, pc, w, c).cpu, Run(h.hooked, State(At(base, |a.buf|), c), 5).cpu)
            <==> i.is64 || i.rt == 17 || i.rt == 31 || ReadWord(h.env, c, behind) == 0
  {
    LiteralExact(h, pc, base, w, a, b, e, tail, c);
  }

  // ----- instructions that are copied -----

  predicate Copied(w: Word) {
    var i := Decode(w);
    i.Movz? || i.Movk? || i.LdrX? || i.Br? || i.Blr? || i.Plain?
  }

  lemma LoadSame(h: Hook, pc: Addr, at: Addr, w: Word, dirty: bool, c: Cpu, d: Cpu)
    requires Decode(w).LdrX? && Supported(h, pc, w, dirty, c) && Related(dirty, c, d)
    ensures SameEffect(DirtyAfter(w, dirty), EffectOf(h.env, pc, w, c), EffectOf(h.hooked, at, w, d))
  {
    var i := Decode(w);
    RelatedSame(dirty, c, d);
    RelatedRead(dirty, c, d, i.rn);
    var address := LoadAddress(c, i.rn, i.off);
    MemSame(h.hooked, c, d, address);
    RelatedWrite(dirty, c, d, i.rt, ReadDouble(h.env, c, address));
  }

  lemma MoveSame(h: Hook, pc: Addr, at: Addr, w: Word, dirty: bool, c: Cpu, d: Cpu)
    requires (Decode(w).Movz? || Decode(w).Movk?) && Supported(h, pc, w, dirty, c) && Related(dirty, c, d)
    ensures SameEffect(DirtyAfter(w, dirty), EffectOf(h.env, pc, w, c), EffectOf(h.hooked, at, w, d))
  {
    var i := Decode(w);
    if i.Movz? {
      RelatedWrite(dirty, c, d, i.rd, SetLane(0, i.hw, i.imm));
    } else {
      RelatedRead(dirty, c, d, i.rd);
      RelatedWrite(dirty, c, d, i.rd, SetLane(ReadX(c, i.rd), i.hw, i.imm));
    }
  }

  lemma RegisterJumpSame(h: Hook, pc: Addr, at: Addr, w: Word, dirty: bool, c: Cpu, d: Cpu)
    requires (Decode(w).Br? || Decode(w).Blr?) && Supported(h, pc, w, dirty, c) && Related(dirty, c, d)
    ensures SameEffect(dirty, Relink(LinkOf(w, Plus(at, 4)), EffectOf(h.env, pc, w, c)), EffectOf(h.hooked, at, w, d))
  {
    var i := Decode(w);
    RelatedSame(dirty, c, d);
    RelatedRead(dirty, c, d, i.rn);
    if i.Blr? {
      WriteTwice(c, 30, Plus(pc, 4), Plus(at, 4));
      WriteSame(c, d, 30, Plus(at, 4));
    }
  }

  lemma CopiedSame(h: Hook, pc: Addr, at: Addr, w: Word, dirty: bool, c: Cpu, d: Cpu)
    requires Copied(w) && Supported(h, pc, w, dirty, c) && Related(dirty, c, d)
    ensures SameEffect(DirtyAfter(w, dirty), Relink(LinkOf(w, Plus(at, 4)), EffectOf(h.env, pc, w, c)),
                       EffectOf(h.hooked, at, w, d))
  {
    match Decode(w)
    case LdrX(_, _, _) => LoadSame(h, pc, at, w, dirty, c, d);
    case Movz(_, _, _) => MoveSame(h, pc, at, w, dirty, c, d);
    case Movk(_, _, _) => MoveSame(h, pc, at, w, dirty, c, d);
    case Br(_) => RegisterJumpSame(h, pc, at, w, dirty, c, d);
    case Blr(_) => RegisterJumpSame(h, pc, at, w, dirty, c, d);
    case _ =>
  }

  lemma CopyRelocated(a: Asm, pc: Addr, w: Word)
    requires Copied(w)
    ensures RelocateOne(a, pc, w) == Some(Emit(a, [w]))
  {
    MasksAgree(Top(w));
  }

  /** A single word whose effect in the block is known. */
  lemma WordFollows(env: Env, base: Addr, a: Asm, b: Asm, e: Asm, tail: seq<Word>, w: Word, d: Cpu,
                    original: Effect, dirty: bool)
    requires b == Emit(a, [w]) && Placed(env, base, a, b, e, tail)
    requires SameEffect(dirty, original, EffectOf(env, At(base, |a.buf|), w, d))
    ensures Follows(env, base, a, b, d, original, dirty, 1)
  {
    var p := |a.buf|;
    PlacedWord(env, base, a, b, e, tail, p);
    AtNext(base, p, 1);
    var s := State(At(base, p), d);
    assert Run(env, s, 1) == Step(env, s);
  }

  lemma CopyFollows(h: Hook, pc: Addr, base: Addr, w: Word, a: Asm, b: Asm, e: Asm, tail: seq<Word>,
                    c: Cpu, d: Cpu, dirty: bool)
    requires Copied(w) && Supported(h, pc, w, dirty, c)
    requires RelocateOne(a, pc, w) == Some(b) && Placed(h.hooked, base, a, b, e, tail) && Related(dirty, c, d)
    ensures Follows(h.hooked, base, a, b, d, Relink(LinkOf(w, At(base, |b.buf|)), EffectOf(h.env, pc, w, c)),
                    DirtyAfter(w, dirty), 1)
  {
    CopyRelocated(a, pc, w);
    var at := At(base, |a.buf|);
    AtNext(base, |a.buf|, 1);
    CopiedSame(h, pc, at, w, dirty, c, d);
    WordFollows(h.hooked, base, a, b, e, tail, w, d, Relink(LinkOf(w, At(base, |b.buf|)), EffectOf(h.env, pc, w, c)),
                DirtyAfter(w, dirty));
  }

  /** One instruction of a window: its words in the block follow it, and a call returns behind them. */
  lemma InstructionFollows(h: Hook, pc: Addr, base: Addr, w: Word, a: Asm, b: Asm, e: Asm, tail: seq<Word>,
                           c: Cpu, d: Cpu, dirty: bool) returns (k: nat)
    requires Supported(h, pc, w, dirty, c)
    requires RelocateOne(a, pc, w) == Some(b) && Placed(h.hooked, base, a, b, e, tail) && Related(dirty, c, d)
    ensures Follows(h.hooked, base, a, b, d, Relink(LinkOf(w, At(base, |b.buf|)), EffectOf(h.env, pc, w, c)),
                    DirtyAfter(w, dirty), k)
  {
    match Decode(w)
    case LdrLit(_, _, _) => k := LdrLitFollows(h, pc, base, w, a, b, e, tail, c, d, dirty);
    case Adr(_, _) => k := AdrFollows(h, pc, base, w, a, b, e, tail, c, d, dirty);
    case Adrp(_, _) => k := AdrFollows(h, pc, base, w, a, b, e, tail, c, d, dirty);
    case B(_) => k := BFollows(h, pc, base, w, a, b, e, tail, c, d, dirty);
    case Bl(_) => k := BlFollows(h, pc, base, w, a, b, e, tail, c, d, dirty);
    case Tb(_, _, _, _) => k := TbFollows(h, pc, base, w, a, b, e, tail, c, d, dirty);
    case Cb(_, _, _, _) => k := CbFollows(h, pc, base, w, a, b, e, tail, c, d, dirty);
    case BCond(_, _) => k := BCondExact(h, pc, base, w, a, b, e, tail, c, d, dirty);
    case _ => CopyFollows(h, pc, base, w, a, b, e, tail, c, d, dirty); k := 1;
  }
}
