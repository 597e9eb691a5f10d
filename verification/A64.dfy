/** A small semantics of the A64 instructions that the relocator reads or emits.
    Meanings follow section C6.2 of the Arm Architecture Reference Manual (DDI 0487).
    Every instruction not listed here is executed by an arbitrary function of the code, the address,
    the word and the CPU state.
    Words and addresses are numbers; a bit field is a quotient and a remainder. */
module A64 {
  import opened Common

  type Word = w: int | 0 <= w < 0x1_0000_0000

  /** Everything but the program counter. `mem[a]` is the 32-bit word read at address `a`;
      `simd` stands for the vector registers. */
  datatype Cpu = Cpu(x: map<nat, Addr>, sp: Addr, flags: Flags, simd: map<nat, nat>, mem: map<Addr, Word>)
  datatype Flags = Flags(n: bool, z: bool, c: bool, v: bool)

  datatype Effect = Fall(cpu: Cpu) | Jump(cpu: Cpu, target: Addr)

  type Code = map<Addr, Word>

  /** Read-only code pages, and the meaning of the instructions this file does not interpret. */
  datatype Env = Env(code: Code, exec: (Code, Addr, Word, Cpu) -> Effect)

  datatype State = State(pc: Addr, cpu: Cpu)

  datatype Insn =
    | LdrLit(is64: bool, rt: nat, off: int)
    | Adr(rd: nat, off: int)
    | Adrp(rd: nat, off: int)
    | B(off: int)
    | Tb(nonzero: bool, pos: nat, rt: nat, off: int)
    | Cb(nonzero: bool, is64: bool, rt: nat, off: int)
    | BCond(cond: nat, off: int)
    | Movz(rd: nat, hw: nat, imm: nat)
    | Movk(rd: nat, hw: nat, imm: nat)
    | LdrX(rt: nat, rn: nat, off: int)
    | Br(rn: nat)
    | Bl(off: int)
    | Blr(rn: nat)
    | Unmodelled // literal loads and calls that this file gives no meaning to
    | Plain      // everything else

  // ----- registers and memory -----

  function ReadX(c: Cpu, r: nat): Addr {
    if r == 31 || r !in c.x then 0 else c.x[r]
  }

  /** Register 31 is the zero register in every instruction modelled here. */
  function WriteX(c: Cpu, r: nat, v: Addr): Cpu {
    if r == 31 then c else c.(x := c.x[r := v])
  }

  function ReadWord(env: Env, c: Cpu, a: Addr): Word {
    if a in env.code then env.code[a] else if a in c.mem then c.mem[a] else 0
  }

  function ReadDouble(env: Env, c: Cpu, a: Addr): Addr {
    ReadWord(env, c, a) + ReadWord(env, c, Plus(a, 4)) * 0x1_0000_0000
  }

  /** Address arithmetic modulo 2^64. */
  function Plus(a: Addr, off: int): Addr { (a + off) % TWO64 }

  // ----- bit fields -----

  /** The field of `w` whose lowest bit has weight `unit` and which has `size` values. */
  function Field(w: nat, unit: nat, size: nat): nat
    requires unit > 0 && size > 0
  {
    (w / unit) % size
  }

  /** Two's complement reading of a field with `size` values. */
  function Signed(f: int, size: nat): int { if 2 * f >= size then f - size else f }

  function Imm14(w: Word): int { 4 * Signed(Field(w, 0x20, 0x4000), 0x4000) }
  function Imm19(w: Word): int { 4 * Signed(Field(w, 0x20, 0x8_0000), 0x8_0000) }
  function Imm26(w: Word): int { 4 * Signed(Field(w, 1, 0x400_0000), 0x400_0000) }
  function ImmHiLo(w: Word): int {
    Signed(4 * Field(w, 0x20, 0x8_0000) + Field(w, 0x2000_0000, 4), 0x20_0000)
  }
  function Rd(w: Word): nat { w % 32 }
  function Rn(w: Word): nat { Field(w, 0x20, 32) }
  /** Bits 24 to 31. */
  function Top(w: Word): nat { w / 0x100_0000 }

  // ----- decoding, from the encoding diagrams -----

  // The instruction classes, by bits 24 to 31.
  predicate IsLiteral(t: nat) {
    t == 0x18 || t == 0x1C || t == 0x58 || t == 0x5C || t == 0x98 || t == 0x9C || t == 0xD8 || t == 0xDC
  }
  predicate IsAdr(t: nat) { t == 0x10 || t == 0x30 || t == 0x50 || t == 0x70 }
  predicate IsAdrp(t: nat) { t == 0x90 || t == 0xB0 || t == 0xD0 || t == 0xF0 }
  predicate IsB(t: nat) { t == 0x14 || t == 0x15 || t == 0x16 || t == 0x17 }
  predicate IsBl(t: nat) { t == 0x94 || t == 0x95 || t == 0x96 || t == 0x97 }
  predicate IsTest(t: nat) { t == 0x36 || t == 0x37 || t == 0xB6 || t == 0xB7 }
  predicate IsCompare(t: nat) { t == 0x34 || t == 0x35 || t == 0xB4 || t == 0xB5 }

  predicate IsBranchRegister(t: nat) { t == 0xD6 || t == 0xD7 }

  function Decode(w: Word): Insn {
    var t := Top(w);
    if t == 0x18 || t == 0x58 then LdrLit(t == 0x58, Rd(w), Imm19(w))
    else if IsLiteral(t) then Unmodelled // LDRSW, PRFM and SIMD literals
    else if IsAdr(t) then Adr(Rd(w), ImmHiLo(w))
    else if IsAdrp(t) then Adrp(Rd(w), 0x1000 * ImmHiLo(w))
    else if IsB(t) then B(Imm26(w))
    else if IsBl(t) then Bl(Imm26(w))
    else if IsTest(t) then
      Tb(t == 0x37 || t == 0xB7, (if t >= 0x80 then 32 else 0) + Field(w, 0x8_0000, 32), Rd(w), Imm14(w))
    else if IsCompare(t) then Cb(t == 0x35 || t == 0xB5, t >= 0x80, Rd(w), Imm19(w))
    else if t == 0x54 && Field(w, 16, 2) == 0 then BCond(w % 16, Imm19(w))
    else if t == 0x54 || t == 0x55 then Unmodelled // BC.cond and unallocated
    else if t == 0xD2 && Field(w, 0x80_0000, 2) == 1 then
      Movz(Rd(w), Field(w, 0x20_0000, 4), Field(w, 0x20, 0x1_0000))
    else if t == 0xF2 && Field(w, 0x80_0000, 2) == 1 then
      Movk(Rd(w), Field(w, 0x20_0000, 4), Field(w, 0x20, 0x1_0000))
    else if t == 0xF9 && Field(w, 0x40_0000, 4) == 1 then LdrX(Rd(w), Rn(w), 8 * Field(w, 0x400, 0x1000))
    else if t == 0xD6 && Field(w, 0x400, 0x4000) == 0x7C0 && Rd(w) == 0 then Br(Rn(w))
    else if t == 0xD6 && Field(w, 0x400, 0x4000) == 0xFC0 && Rd(w) == 0 then Blr(Rn(w))
    else if IsBranchRegister(t) && Field(w, 0x20_0000, 8) == 1 then Unmodelled // authenticated calls
    else Plain
  }

  // ----- execution -----

  /** ConditionHolds of the manual. */
  predicate ConditionHolds(cond: nat, f: Flags) {
    var base :=
      match cond / 2
      case 0 => f.z
      case 1 => f.c
      case 2 => f.n
      case 3 => f.v
      case 4 => f.c && !f.z
      case 5 => f.n == f.v
      case 6 => f.n == f.v && !f.z
      case _ => true;
    if cond % 2 == 1 && cond != 15 then !base else base
  }

  predicate CompareHolds(nonzero: bool, is64: bool, v: Addr) {
    ((if is64 then v else v % 0x1_0000_0000) != 0) == nonzero
  }

  predicate TestHolds(nonzero: bool, pos: nat, v: Addr) {
    (Field(v, Pow2(pos), 2) == 1) == nonzero
  }

  function SetLane1(v: Addr, imm: nat): Addr
    requires imm < 0x1_0000
  {
    var high := v / 0x1_0000_0000;
    assert high < 0x1_0000_0000;
    high * 0x1_0000_0000 + imm * 0x1_0000 + v % 0x1_0000
  }

  function SetLane2(v: Addr, imm: nat): Addr
    requires imm < 0x1_0000
  {
    var high := v / 0x1_0000_0000_0000;
    assert high < 0x1_0000;
    high * 0x1_0000_0000_0000 + imm * 0x1_0000_0000 + v % 0x1_0000_0000
  }

  /** `v` with its 16-bit lane `hw` replaced by `imm`. */
  function SetLane(v: Addr, hw: nat, imm: nat): Addr
    requires imm < 0x1_0000
  {
    match hw
    case 0 => v / 0x1_0000 * 0x1_0000 + imm
    case 1 => SetLane1(v, imm)
    case 2 => SetLane2(v, imm)
    case _ => imm * 0x1_0000_0000_0000 + v % 0x1_0000_0000_0000
  }

  function Branch(c: Cpu, taken: bool, target: Addr): Effect {
    if taken then Jump(c, target) else Fall(c)
  }

  /** Register 31 as a base is the stack pointer. */
  function LoadAddress(c: Cpu, rn: nat, off: int): Addr { Plus(if rn == 31 then c.sp else ReadX(c, rn), off) }

  function EffectOf(env: Env, pc: Addr, w: Word, c: Cpu): Effect {
    match Decode(w)
    case LdrLit(is64, rt, off) =>
      Fall(WriteX(c, rt, if is64 then ReadDouble(env, c, Plus(pc, off)) else ReadWord(env, c, Plus(pc, off))))
    case Adr(rd, off) => Fall(WriteX(c, rd, Plus(pc, off)))
    case Adrp(rd, off) => Fall(WriteX(c, rd, Plus(pc - pc % 0x1000, off)))
    case B(off) => Jump(c, Plus(pc, off))
    case Tb(nonzero, pos, rt, off) => Branch(c, TestHolds(nonzero, pos, ReadX(c, rt)), Plus(pc, off))
    case Cb(nonzero, is64, rt, off) => Branch(c, CompareHolds(nonzero, is64, ReadX(c, rt)), Plus(pc, off))
    case BCond(cond, off) => Branch(c, ConditionHolds(cond, c.flags), Plus(pc, off))
    case Movz(rd, hw, imm) => Fall(WriteX(c, rd, SetLane(0, hw, imm)))
    case Movk(rd, hw, imm) => Fall(WriteX(c, rd, SetLane(ReadX(c, rd), hw, imm)))
    case LdrX(rt, rn, off) => Fall(WriteX(c, rt, ReadDouble(env, c, LoadAddress(c, rn, off))))
    case Br(rn) => Jump(c, ReadX(c, rn))
    case Bl(off) => Jump(WriteX(c, 30, Plus(pc, 4)), Plus(pc, off))
    case Blr(rn) => Jump(WriteX(c, 30, Plus(pc, 4)), ReadX(c, rn))
    case Unmodelled => env.exec(env.code, pc, w, c)
    case Plain => env.exec(env.code, pc, w, c)
  }

  function Continue(pc: Addr, e: Effect): State {
    match e
    case Fall(c) => State(Plus(pc, 4), c)
    case Jump(c, t) => State(t, c)
  }

  /** One machine step; the machine stays put outside the mapped code. */
  function Step(env: Env, s: State): State {
    if s.pc !in env.code then s else Continue(s.pc, EffectOf(env, s.pc, env.code[s.pc], s.cpu))
  }

  function Run(env: Env, s: State, k: nat): State
    decreases k
  {
    if k == 0 then s else Run(env, Step(env, s), k - 1)
  }

  lemma {:induction false} RunAdd(env: Env, s: State, j: nat, k: nat)
    ensures Run(env, s, j + k) == Run(env, Run(env, s, j), k)
    decreases j
  {
    if j > 0 {
      RunAdd(env, Step(env, s), j - 1, k);
    }
  }

  // ----- code layout -----

  /** Address of the i-th word of a block that starts at `base`. */
  function At(base: Addr, i: nat): Addr { (base + 4 * i) % TWO64 }

  ghost predicate Loaded(env: Env, base: Addr, words: seq<Word>) {
    forall i :: 0 <= i < |words| ==> At(base, i) in env.code && env.code[At(base, i)] == words[i]
  }

  lemma AtNext(base: Addr, i: nat, n: nat)
    ensures Plus(At(base, i), 4 * n) == At(base, i + n)
  {
  }
}
