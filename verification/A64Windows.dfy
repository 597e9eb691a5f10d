/** Running a relocated block has the effect of running the original window. */
module A64Windows {
  import opened Common
  import opened A64
  import opened A64Relocator
  import opened A64Encodings
  import opened A64Layout
  import opened A64Simulation

  // ----- the original window -----

  /** `effect(i, c)` is what the i-th instruction of the window does to the state c. */
  ghost predicate Describes(effect: (nat, Cpu) -> Effect, env: Env, window: seq<Word>, pc: Addr) {
    forall i: nat, c {:trigger EffectOf(env, At(pc, i), window[i], c)} ::
      i < |window| ==> effect(i, c) == EffectOf(env, At(pc, i), window[i], c)
  }

  /** The state in which control leaves n instructions at pc, entered at the i-th:
      after the first jump, or behind the last instruction. */
  function Leave(effect: (nat, Cpu) -> Effect, n: nat, pc: Addr, i: nat, c: Cpu): State
    requires i <= n
    decreases n - i
  {
    if i == n then State(At(pc, i), c)
    else match effect(i, c)
      case Jump(c', t) => State(t, c')
      case Fall(c') => Leave(effect, n, pc, i + 1, c')
  }

  function StepsToLeave(effect: (nat, Cpu) -> Effect, n: nat, i: nat, c: Cpu): nat
    requires i <= n
    decreases n - i
  {
    if i == n then 0
    else match effect(i, c)
      case Jump(c', t) => 1
      case Fall(c') => 1 + StepsToLeave(effect, n, i + 1, c')
  }

  /** The instruction that jumps out of the window, or n. */
  function LeavesAt(effect: (nat, Cpu) -> Effect, n: nat, i: nat, c: Cpu): (x: nat)
    requires i <= n
    ensures i <= x <= n
    decreases n - i
  {
    if i == n then n
    else match effect(i, c)
      case Jump(c', t) => i
      case Fall(c') => LeavesAt(effect, n, i + 1, c')
  }

  /** Leaving the window is what the machine does on the original code. */
  lemma {:induction false} LeaveIsRun(env: Env, window: seq<Word>, pc: Addr, effect: (nat, Cpu) -> Effect,
                                      i: nat, c: Cpu)
    requires i <= |window| && Loaded(env, pc, window) && Describes(effect, env, window, pc)
    ensures Run(env, State(At(pc, i), c), StepsToLeave(effect, |window|, i, c)) == Leave(effect, |window|, pc, i, c)
    decreases |window| - i
  {
    if i < |window| {
      var s := State(At(pc, i), c);
      assert effect(i, c) == EffectOf(env, At(pc, i), window[i], c);
      match effect(i, c)
      case Jump(c', t) =>
        assert Run(env, s, 1) == Step(env, s);
      case Fall(c') =>
        StepFalls(env, pc, i, window[i], c, c');
        LeaveIsRun(env, window, pc, effect, i + 1, c');
    }
  }

  /** A window left by a call holds the address behind the call in X30. */
  lemma {:induction false} CallLinks(env: Env, window: seq<Word>, pc: Addr, effect: (nat, Cpu) -> Effect, i: nat, c: Cpu)
    requires i <= |window| && Describes(effect, env, window, pc)
    ensures var x := LeavesAt(effect, |window|, i, c);
            x < |window| && IsCall(window[x]) ==> ReadX(Leave(effect, |window|, pc, i, c).cpu, 30) == At(pc, x + 1)
    decreases |window| - i
  {
    if i < |window| {
      assert effect(i, c) == EffectOf(env, At(pc, i), window[i], c);
      match effect(i, c)
      case Jump(c', t) =>
        if IsCall(window[i]) { CallEffect(env, pc, i, window[i], c); }
      case Fall(c') => CallLinks(env, window, pc, effect, i + 1, c');
    }
  }

  lemma CallEffect(env: Env, pc: Addr, i: nat, w: Word, c: Cpu)
    requires IsCall(w)
    ensures ReadX(EffectOf(env, At(pc, i), w, c).cpu, 30) == At(pc, i + 1)
  {
    AtNext(pc, i, 1);
    WriteTwice(c, 30, At(pc, i + 1), 0);
  }

  // ----- the whole window -----

  /** The same exit; after a call, up to the return address. */
  ghost predicate SameExit(s: State, t: State, link: Option<Addr>) {
    s.pc == t.pc && SameBut17(if link.Some? then WriteX(t.cpu, 30, link.value) else t.cpu, s.cpu)
  }

  /** The assembler states of a relocation of the window, and whether X17 is dirty, before each instruction.
      The triggers keep the per-instruction definitions folded in the induction over the window. */
  ghost predicate Stages(env: Env, window: seq<Word>, pc: Addr, base: Addr, asms: seq<Asm>, dirty: seq<bool>) {
    var n := |window|;
    && |asms| == n + 1 && |dirty| == n + 1
    && Bindable(asms[n], asms[n].buf + Tail(At(pc, n)))
    && Loaded(env, base, BindFrom(asms[n].buf + Tail(At(pc, n)), asms[n].labels, 0))
    && (forall i {:trigger Placed(env, base, asms[i], asms[i + 1], asms[n], Tail(At(pc, n)))} :: 0 <= i < n ==>
          Placed(env, base, asms[i], asms[i + 1], asms[n], Tail(At(pc, n))))
    && (forall i {:trigger RelocateOne(asms[i], At(pc, i), window[i])} :: 0 <= i < n ==>
          RelocateOne(asms[i], At(pc, i), window[i]) == Some(asms[i + 1]))
    && (forall i {:trigger DirtyAfter(window[i], dirty[i])} :: 0 <= i < n ==>
          dirty[i + 1] == DirtyAfter(window[i], dirty[i]))
  }

  /** `ok(i, c)` is enough for the i-th instruction to be supported in the state c. */
  ghost predicate Suffices(ok: (nat, Cpu) -> bool, h: Hook, window: seq<Word>, pc: Addr, dirty: seq<bool>) {
    |dirty| == |window| + 1 &&
    forall i: nat, c {:trigger Supported(h, At(pc, i), window[i], dirty[i], c)} ::
      i < |window| && ok(i, c) ==> Supported(h, At(pc, i), window[i], dirty[i], c)
  }

  /** `links(i)` is the return address in the block if the i-th instruction is a call. */
  ghost predicate Links(links: nat -> Option<Addr>, window: seq<Word>, base: Addr, asms: seq<Asm>) {
    && |asms| == |window| + 1 && links(|window|) == None
    && forall i: nat {:trigger LinkOf(window[i], At(base, |asms[i + 1].buf|))} :: i < |window| ==>
         links(i) == LinkOf(window[i], At(base, |asms[i + 1].buf|))
  }

  /** Every instruction executed in the window, entered at the i-th in the state c, is supported. */
  ghost predicate SupportedFrom(effect: (nat, Cpu) -> Effect, ok: (nat, Cpu) -> bool, n: nat, i: nat, c: Cpu)
    requires i <= n
    decreases n - i
  {
    i < n ==> ok(i, c) && (effect(i, c).Fall? ==> SupportedFrom(effect, ok, n, i + 1, effect(i, c).cpu))
  }

  lemma StageFollows(h: Hook, window: seq<Word>, pc: Addr, base: Addr, asms: seq<Asm>, dirty: seq<bool>,
                     effect: (nat, Cpu) -> Effect, links: nat -> Option<Addr>, i: nat, c: Cpu, d: Cpu) returns (k: nat)
    requires Stages(h.hooked, window, pc, base, asms, dirty) && Describes(effect, h.env, window, pc)
    requires Links(links, window, base, asms)
    requires i < |window| && Related(dirty[i], c, d) && Supported(h, At(pc, i), window[i], dirty[i], c)
    ensures Follows(h.hooked, base, asms[i], asms[i + 1], d, Relink(links(i), effect(i, c)), dirty[i + 1], k)
  {
    var e, tail := asms[|window|], Tail(At(pc, |window|));
    assert Placed(h.hooked, base, asms[i], asms[i + 1], e, tail);
    assert RelocateOne(asms[i], At(pc, i), window[i]) == Some(asms[i + 1]);
    assert dirty[i + 1] == DirtyAfter(window[i], dirty[i]);
    assert effect(i, c) == EffectOf(h.env, At(pc, i), window[i], c);
    assert links(i) == LinkOf(window[i], At(base, |asms[i + 1].buf|));
    k := InstructionFollows(h, At(pc, i), base, window[i], asms[i], asms[i + 1], e, tail, c, d, dirty[i]);
  }

  /** The simulation from any instruction of the window on. */
  lemma {:induction false} WindowFollows(h: Hook, window: seq<Word>, pc: Addr, base: Addr,
                                         asms: seq<Asm>, dirty: seq<bool>,
                                         effect: (nat, Cpu) -> Effect, ok: (nat, Cpu) -> bool,
                                         links: nat -> Option<Addr>, i: nat, c: Cpu, d: Cpu) returns (k: nat)
    requires Stages(h.hooked, window, pc, base, asms, dirty) && Describes(effect, h.env, window, pc)
    requires Links(links, window, base, asms) && Suffices(ok, h, window, pc, dirty)
    requires i <= |window| && Related(dirty[i], c, d) && SupportedFrom(effect, ok, |window|, i, c)
    ensures SameExit(Run(h.hooked, State(At(base, |asms[i].buf|), d), k), Leave(effect, |window|, pc, i, c),
                     links(LeavesAt(effect, |window|, i, c)))
    decreases |window| - i
  {
    if i == |window| {
      RelatedSame(dirty[i], c, d);
      k := TailFollows(h.hooked, base, asms[i], At(pc, i), c, d);
    } else {
      var s := State(At(base, |asms[i].buf|), d);
      assert Supported(h, At(pc, i), window[i], dirty[i], c);
      var j := StageFollows(h, window, pc, base, asms, dirty, effect, links, i, c, d);
      match effect(i, c)
      case Jump(_, _) => k := j;
      case Fall(c') =>
        var k' := WindowFollows(h, window, pc, base, asms, dirty, effect, ok, links, i + 1, c', Run(h.hooked, s, j).cpu);
        RunAdd(h.hooked, s, j, k');
        k := j + k';
    }
  }

  lemma TailFollows(env: Env, base: Addr, e: Asm, address: Addr, c: Cpu, d: Cpu) returns (k: nat)
    requires Bindable(e, e.buf + Tail(address)) && SameBut17(c, d)
    requires Loaded(env, base, BindFrom(e.buf + Tail(address), e.labels, 0))
    ensures k == 2
    ensures var s := Run(env, State(At(base, |e.buf|), d), k);
            s.pc == address && SameBut17(c, s.cpu)
  {
    var p, tail := |e.buf|, Tail(address);
    TailStays(e, tail, 0);
    TailStays(e, tail, 1);
    TailStays(e, tail, 2);
    TailStays(e, tail, 3);
    RunLdrBr(env, base, p, 2, address, d);
    WriteSame(c, d, 17, address);
    k := 2;
  }

  // ----- collecting the stages -----

  /** Whether X17 may have been overwritten before the i-th instruction. */
  function DirtyBefore(window: seq<Word>, i: nat): bool
    requires i <= |window|
  {
    i > 0 && DirtyAfter(window[i - 1], DirtyBefore(window, i - 1))
  }

  lemma StageAt(env: Env, window: seq<Word>, pc: Addr, base: Addr, words: seq<Word>, i: nat)
    requires Relocate(window, pc) == Some(words) && |words| <= 0x4_0000 && Loaded(env, base, words)
    requires i < |window|
    ensures Emitted(window, pc, |window|).Some? && Emitted(window, pc, i).Some? && Emitted(window, pc, i + 1).Some?
    ensures var a, b, e := Emitted(window, pc, i).value, Emitted(window, pc, i + 1).value,
                           Emitted(window, pc, |window|).value;
            && RelocateOne(a, At(pc, i), window[i]) == Some(b)
            && Placed(env, base, a, b, e, Tail(At(pc, |window|)))
  {
    StagesExtend(window, pc, i);
    var e := BlockIsBound(window, pc, i, words);
  }

  lemma StagesExtend(window: seq<Word>, pc: Addr, i: nat)
    requires i < |window| && Emitted(window, pc, |window|).Some?
    ensures Emitted(window, pc, i).Some? && Emitted(window, pc, i + 1).Some?
    ensures var a, b, e := Emitted(window, pc, i).value, Emitted(window, pc, i + 1).value,
                           Emitted(window, pc, |window|).value;
            Extends(a, b) && Extends(a, e) && Extends(b, e) && RelocateOne(a, At(pc, i), window[i]) == Some(b)
  {
    EmittedExtends(window, pc, i, |window|);
    EmittedExtends(window, pc, i + 1, |window|);
    EmittedExtends(window, pc, i, i + 1);
  }

  /** The assembler states before each instruction. */
  lemma CollectAsms(window: seq<Word>, pc: Addr) returns (asms: seq<Asm>)
    requires Emitted(window, pc, |window|).Some?
    ensures |asms| == |window| + 1
    ensures forall i {:trigger asms[i]} :: 0 <= i <= |window| ==> Emitted(window, pc, i) == Some(asms[i])
  {
    forall i | 0 <= i <= |window|
      ensures Emitted(window, pc, i).Some?
    {
      EmittedExtends(window, pc, i, |window|);
    }
    asms := seq(|window| + 1, i requires 0 <= i <= |window| => Emitted(window, pc, i).value);
  }

  lemma CollectStages(env: Env, window: seq<Word>, pc: Addr, base: Addr, words: seq<Word>)
      returns (asms: seq<Asm>, dirty: seq<bool>)
    requires Relocate(window, pc) == Some(words) && |words| <= 0x4_0000 && Loaded(env, base, words)
    ensures Stages(env, window, pc, base, asms, dirty)
    ensures forall i {:trigger asms[i]} :: 0 <= i <= |window| ==> Emitted(window, pc, i) == Some(asms[i])
    ensures forall i {:trigger dirty[i]} :: 0 <= i <= |window| ==> dirty[i] == DirtyBefore(window, i)
  {
    var n := |window|;
    asms := CollectAsms(window, pc);
    dirty := seq(n + 1, i requires 0 <= i <= n => DirtyBefore(window, i));
    var e := BlockIsBound(window, pc, n, words);
    assert e == asms[n];
    forall i | 0 <= i < n
      ensures RelocateOne(asms[i], At(pc, i), window[i]) == Some(asms[i + 1])
      ensures Placed(env, base, asms[i], asms[i + 1], asms[n], Tail(At(pc, n)))
    {
      StageAt(env, window, pc, base, words, i);
      assert Emitted(window, pc, i) == Some(asms[i]) && Emitted(window, pc, i + 1) == Some(asms[i + 1]);
    }
  }

  // ----- the theorem -----

  /** Position of the i-th instruction's words in the relocated block. */
  function Start(window: seq<Word>, pc: Addr, i: nat): nat {
    if i <= |window| && Emitted(window, pc, i).Some? then |Emitted(window, pc, i).value.buf| else 0
  }

  /** The effects of a window's instructions as a function. */
  function Effects(env: Env, window: seq<Word>, pc: Addr): (nat, Cpu) -> Effect {
    (i: nat, c: Cpu) => if i < |window| then EffectOf(env, At(pc, i), window[i], c) else Fall(c)
  }

  ghost function Supports(h: Hook, window: seq<Word>, pc: Addr): (nat, Cpu) -> bool {
    (i: nat, c: Cpu) => i < |window| && Supported(h, At(pc, i), window[i], DirtyBefore(window, i), c)
  }

  /** The return address in the block of a call at x. */
  function ReturnAt(window: seq<Word>, pc: Addr, base: Addr, x: nat): Option<Addr> {
    if x < |window| then LinkOf(window[x], At(base, Start(window, pc, x + 1))) else None
  }

  function Returns(window: seq<Word>, pc: Addr, base: Addr): nat -> Option<Addr> {
    (x: nat) => ReturnAt(window, pc, base, x)
  }

  lemma EffectsDescribe(env: Env, window: seq<Word>, pc: Addr)
    ensures Describes(Effects(env, window, pc), env, window, pc)
  {
  }

  lemma SupportsSuffices(h: Hook, window: seq<Word>, pc: Addr, dirty: seq<bool>)
    requires |dirty| == |window| + 1
    requires forall i {:trigger dirty[i]} :: 0 <= i <= |window| ==> dirty[i] == DirtyBefore(window, i)
    ensures Suffices(Supports(h, window, pc), h, window, pc, dirty)
  {
  }

  lemma ReturnsLink(window: seq<Word>, pc: Addr, base: Addr, asms: seq<Asm>)
    requires |asms| == |window| + 1
    requires forall i {:trigger asms[i]} :: 0 <= i <= |window| ==> Emitted(window, pc, i) == Some(asms[i])
    ensures Links(Returns(window, pc, base), window, base, asms)
  {
  }

  /** Every instruction the original executes in the window, entered at the i-th, is supported in the state it
      is executed in. */
  ghost predicate SupportedRun(h: Hook, window: seq<Word>, pc: Addr, i: nat, c: Cpu)
    requires i <= |window|
  {
    SupportedFrom(Effects(h.env, window, pc), Supports(h, window, pc), |window|, i, c)
  }

  /** The simulation with the exit of the window as a state. */
  lemma RelocationPreservesMeaning(h: Hook, window: seq<Word>, pc: Addr, base: Addr, words: seq<Word>,
                                   i: nat, c: Cpu, d: Cpu) returns (k: nat)
    requires Relocate(window, pc) == Some(words) && |words| <= 0x4_0000 && Loaded(h.hooked, base, words)
    requires i <= |window| && Related(DirtyBefore(window, i), c, d) && SupportedRun(h, window, pc, i, c)
    ensures var effect := Effects(h.env, window, pc);
            SameExit(Run(h.hooked, State(At(base, Start(window, pc, i)), d), k), Leave(effect, |window|, pc, i, c),
                     ReturnAt(window, pc, base, LeavesAt(effect, |window|, i, c)))
  {
    var asms, dirty := CollectStages(h.hooked, window, pc, base, words);
    EffectsDescribe(h.env, window, pc);
    SupportsSuffices(h, window, pc, dirty);
    ReturnsLink(window, pc, base, asms);
    assert Emitted(window, pc, i) == Some(asms[i]) && dirty[i] == DirtyBefore(window, i);
    k := WindowFollows(h, window, pc, base, asms, dirty, Effects(h.env, window, pc), Supports(h, window, pc),
                       Returns(window, pc, base), i, c, d);
  }

  /** The main theorem, about two runs. The program before the hook is entered at the i-th instruction of the
      window; the hooked program is entered at that instruction's place in the block, in a state that agrees
      except for X17 where the block has overwritten it. The first run leaves the window after j steps, by the
      x-th instruction or at the end. The second comes to the same address with the same state except for X17
      and, if x is a call, with the return address of the instruction behind it in the block. So the theorem
      applies again when the call returns. */
  lemma RelocatedRunsAlike(h: Hook, window: seq<Word>, pc: Addr, base: Addr, words: seq<Word>, i: nat, c: Cpu, d: Cpu)
      returns (j: nat, k: nat, x: nat)
    requires Relocate(window, pc) == Some(words) && |words| <= 0x4_0000
    requires Loaded(h.env, pc, window) && Loaded(h.hooked, base, words)
    requires i <= |window| && Related(DirtyBefore(window, i), c, d) && SupportedRun(h, window, pc, i, c)
    ensures j == StepsToLeave(Effects(h.env, window, pc), |window|, i, c)
    ensures x == LeavesAt(Effects(h.env, window, pc), |window|, i, c)
    ensures var t := Run(h.env, State(At(pc, i), c), j);
            var s := Run(h.hooked, State(At(base, Start(window, pc, i)), d), k);
            && s.pc == t.pc
            && if x < |window| && IsCall(window[x]) then
                 && ReadX(t.cpu, 30) == At(pc, x + 1)
                 && SameBut17(WriteX(t.cpu, 30, At(base, Start(window, pc, x + 1))), s.cpu)
               else SameBut17(t.cpu, s.cpu)
  {
    j, x := OriginalLeaves(h.env, window, pc, i, c);
    k := RelocationPreservesMeaning(h, window, pc, base, words, i, c, d);
  }

  lemma OriginalLeaves(env: Env, window: seq<Word>, pc: Addr, i: nat, c: Cpu) returns (j: nat, x: nat)
    requires Loaded(env, pc, window) && i <= |window|
    ensures var effect := Effects(env, window, pc);
            && j == StepsToLeave(effect, |window|, i, c) && x == LeavesAt(effect, |window|, i, c)
            && Run(env, State(At(pc, i), c), j) == Leave(effect, |window|, pc, i, c)
            && (x < |window| && IsCall(window[x]) ==> ReadX(Leave(effect, |window|, pc, i, c).cpu, 30) == At(pc, x + 1))
  {
    var effect := Effects(env, window, pc);
    EffectsDescribe(env, window, pc);
    LeaveIsRun(env, window, pc, effect, i, c);
    CallLinks(env, window, pc, effect, i, c);
    j, x := StepsToLeave(effect, |window|, i, c), LeavesAt(effect, |window|, i, c);
  }

  // ----- windows that do not survive -----

  /** A 32-bit literal load as a window, with anything but zero in the word behind the literal: the block
      leaves to the same place with another value in the register. */
  lemma NarrowWindowFails(h: Hook, w: Word, rt: nat, off: int, pc: Addr, base: Addr, words: seq<Word>, c: Cpu)
    requires Decode(w) == LdrLit(false, rt, off) && rt != 17 && rt != 31
    requires Relocate([w], pc) == Some(words) && |words| <= 0x4_0000
    requires Loaded(h.env, pc, [w]) && Loaded(h.hooked, base, words) && Patched(h, pc, 1)
    requires Clear(Plus(pc, off), pc, 1) && Clear(Plus(Plus(pc, off), 4), pc, 1)
    requires ReadWord(h.env, c, Plus(Plus(pc, off), 4)) != 0
    ensures var t, s := Run(h.env, State(pc, c), 1), Run(h.hooked, State(base, c), 7);
            t.pc == s.pc == At(pc, 1) && ReadX(t.cpu, rt) != ReadX(s.cpu, rt)
  {
    NarrowOriginal(h.env, w, rt, off, pc, c);
    var b := BlockOfOne(h.hooked, w, pc, base, words);
    NarrowBlock(h.hooked, w, rt, off, pc, base, b, c);
  }

  /** For instance `ldr w0`, eight bytes on. */
  lemma NarrowInstance()
    ensures Decode(0x1800_0040) == LdrLit(false, 0, 8)
  {
  }

  /** The stages of a window of one instruction. */
  lemma BlockOfOne(env: Env, w: Word, pc: Addr, base: Addr, words: seq<Word>) returns (b: Asm)
    requires Relocate([w], pc) == Some(words) && |words| <= 0x4_0000 && Loaded(env, base, words)
    ensures RelocateOne(Asm([], []), pc, w) == Some(b)
    ensures Placed(env, base, Asm([], []), b, b, Tail(At(pc, 1)))
  {
    b := FirstStage(env, [w], pc, base, words);
  }

  lemma FirstStage(env: Env, window: seq<Word>, pc: Addr, base: Addr, words: seq<Word>) returns (b: Asm)
    requires Relocate(window, pc) == Some(words) && |words| <= 0x4_0000 && Loaded(env, base, words) && |window| == 1
    ensures RelocateOne(Asm([], []), pc, window[0]) == Some(b)
    ensures Placed(env, base, Asm([], []), b, b, Tail(At(pc, |window|)))
  {
    var asms, dirty := CollectStages(env, window, pc, base, words);
    FromBase(pc);
    assert Emitted(window, pc, 0) == Some(asms[0]);
    assert RelocateOne(asms[0], At(pc, 0), window[0]) == Some(asms[0 + 1]);
    assert Placed(env, base, asms[0], asms[0 + 1], asms[|window|], Tail(At(pc, |window|)));
    b := asms[|window|];
  }

  lemma NarrowBlock(env: Env, w: Word, rt: nat, off: int, pc: Addr, base: Addr, b: Asm, c: Cpu)
    requires Decode(w) == LdrLit(false, rt, off) && rt != 17 && rt != 31
    requires RelocateOne(Asm([], []), pc, w) == Some(b)
    requires Placed(env, base, Asm([], []), b, b, Tail(At(pc, 1)))
    ensures var s := Run(env, State(base, c), 7);
            s.pc == At(pc, 1) && ReadX(s.cpu, rt) == ReadDouble(env, c, Plus(pc, off))
  {
    var address := Plus(pc, off);
    var v := ReadDouble(env, c, address);
    LdrLitRuns(env, pc, base, w, Asm([], []), b, b, Tail(At(pc, 1)), c);
    WriteTwice(WriteX(c, 17, address), rt, v, 0);
    FromBase(base);
    LoadThenLeave(env, base, b, At(pc, 1), State(base, c), WriteX(WriteX(c, 17, address), rt, v), 5, rt);
  }

  lemma FromBase(base: Addr)
    ensures At(base, 0) == base
  {
  }

  /** The branch back, run behind what came before it. */
  lemma LoadThenLeave(env: Env, base: Addr, b: Asm, address: Addr, s: State, d: Cpu, k: nat, r: nat)
    requires Bindable(b, b.buf + Tail(address)) && Run(env, s, k) == State(At(base, |b.buf|), d) && r != 17
    requires Loaded(env, base, BindFrom(b.buf + Tail(address), b.labels, 0))
    ensures Run(env, s, k + 2).pc == address && ReadX(Run(env, s, k + 2).cpu, r) == ReadX(d, r)
  {
    var two := TailFollows(env, base, b, address, d, d);
    RunAdd(env, s, k, 2);
    ReadSame(d, Run(env, s, k + 2).cpu, r);
  }

  lemma NarrowOriginal(env: Env, w: Word, rt: nat, off: int, pc: Addr, c: Cpu)
    requires Loaded(env, pc, [w]) && Decode(w) == LdrLit(false, rt, off) && rt != 31
    ensures Run(env, State(pc, c), 1).pc == At(pc, 1)
    ensures ReadX(Run(env, State(pc, c), 1).cpu, rt) == ReadWord(env, c, Plus(pc, off))
  {
    var v := ReadWord(env, c, Plus(pc, off));
    FromBase(pc);
    assert InCode(env, pc, 0, [w][0]);
    StepFalls(env, pc, 0, w, c, WriteX(c, rt, v));
    assert Run(env, State(pc, c), 1) == Step(env, State(pc, c));
    WriteTwice(c, rt, v, 0);
  }
}
