/** The x64 relocator: one pass over a window, and the loop that retries it with larger chunks. */
module X64Relocator {
  import opened Common

  const TWO31 := 0x8000_0000

  /** What the decoder reports. `rip`: the memory operand is relative to the instruction pointer. */
  datatype Insn = Insn(length: nat, opcode: nat, rip: bool, disp: int, dispOffset: nat, immediate: int, immOffset: nat)

  datatype Kind = Jcc8 | Jmp8 | Rip | Rel32 | Unimplemented | Plain

  /** The order of the source's tests. */
  function KindOf(i: Insn): Kind {
    if 0x70 <= i.opcode <= 0x7F then Jcc8
    else if i.opcode == 0xEB then Jmp8
    else if i.rip then Rip
    else if i.opcode == 0xE8 || i.opcode == 0xE9 then Rel32
    else if 0xE0 <= i.opcode <= 0xE3 then Unimplemented
    else Plain
  }

  /** The decoder's contract, by what it reports: at most 15 bytes; an 8-bit jump has an opcode and an
      immediate; a displacement relative to the instruction pointer and that of a call or jump have 32 bits and
      stand at the end or before the immediate. */
  predicate WellDecoded(i: Insn) {
    && 1 <= i.length <= 15
    && (0x70 <= i.opcode <= 0x7F || i.opcode == 0xEB ==> i.length >= 2)
    && (i.rip ==> if i.immOffset == 0 then i.dispOffset + 4 == i.length
                  else i.immOffset == i.dispOffset + 4 <= i.length)
    && ((i.opcode == 0xE8 || i.opcode == 0xE9) && !i.rip ==> i.immOffset + 4 == i.length)
  }

  // ----- emission -----

  /** A number truncated to a signed byte. */
  function AsInt8(v: int): int {
    var m := v % 0x100;
    if m >= 0x80 then m - 0x100 else m
  }

  function AsInt32(v: int): int {
    var m := v % TWO32;
    if m >= TWO31 then m - TWO32 else m
  }

  /** The bytes emitted for the instruction at origin address `orig` when the output has reached `relo`. */
  function Emit(i: Insn, bytes: seq<Byte>, orig: int, relo: int): seq<Byte>
    requires WellDecoded(i) && |bytes| == i.length
  {
    match KindOf(i)
    case Jcc8 => [0x0F, 0x80 + i.opcode % 16] + Le32(orig + AsInt8(i.immediate) - relo)
    case Jmp8 => [0xE9] + Le32(AsInt8(orig + AsInt8(i.immediate) - relo))
    case Rip =>
      bytes[..i.dispOffset] + Le32(orig + i.disp - relo) + (if i.immOffset != 0 then bytes[i.immOffset..] else [])
    case Rel32 => bytes[..i.immOffset] + Le32(orig + i.immediate - relo)
    case Unimplemented => []
    case Plain => bytes
  }

  function EmitSize(i: Insn): (n: nat)
    ensures WellDecoded(i) ==> n <= 3 * i.length
  {
    match KindOf(i)
    case Jcc8 => 6
    case Jmp8 => 5
    case Unimplemented => 0
    case _ => i.length
  }

  /** The size of what is emitted does not depend on any address. */
  lemma EmitSizeIs(i: Insn, bytes: seq<Byte>, orig: int, relo: int)
    requires WellDecoded(i) && |bytes| == i.length
    ensures |Emit(i, bytes, orig, relo)| == EmitSize(i) <= 3 * i.length
  {
  }

  // ----- one pass -----

  /** Code at the origin, and what the decoder makes of it at each offset. */
  datatype Code = Code(bytes: seq<Byte>, decode: nat -> Insn)

  ghost predicate Readable(c: Code, size: nat) {
    size + 15 <= |c.bytes| && forall p :: WellDecoded(c.decode(p))
  }

  datatype Pass = Pass(consumed: nat, out: seq<Byte>) | Aborted

  /** `Emitter(c, orig, relo)(p, q)` is what is emitted for the instruction at offset p of code at `orig`
      when q bytes have been written at `relo`. */
  function Emitter(c: Code, orig: Addr, relo: Addr): (nat, nat) -> seq<Byte> {
    (p: nat, q: nat) =>
      var i := c.decode(p);
      if WellDecoded(i) && p + i.length <= |c.bytes| then Emit(i, c.bytes[p..p + i.length], orig + p, relo + q)
      else []
  }

  /** The loop from offset p on, with the output so far. */
  function Scan(c: Code, size: nat, emit: (nat, nat) -> seq<Byte>, p: nat, out: seq<Byte>): Pass
    requires Readable(c, size)
    decreases size + 15 - p
  {
    if p >= size then Pass(p, out)
    else if KindOf(c.decode(p)) == Unimplemented then Aborted
    else Scan(c, size, emit, p + c.decode(p).length, out + emit(p, |out|))
  }

  function Pass0(c: Code, size: nat, orig: Addr, relo: Addr): Pass
    requires Readable(c, size)
  {
    Scan(c, size, Emitter(c, orig, relo), 0, [])
  }

  /** An emitter writes the right number of bytes for every instruction of the window. */
  ghost predicate Sized(c: Code, size: nat, emit: (nat, nat) -> seq<Byte>) {
    forall p: nat, q: nat {:trigger emit(p, q)} :: p < size ==> |emit(p, q)| == EmitSize(c.decode(p))
  }

  lemma EmitterSized(c: Code, size: nat, orig: Addr, relo: Addr)
    requires Readable(c, size)
    ensures Sized(c, size, Emitter(c, orig, relo))
  {
    forall p: nat, q: nat | p < size
      ensures |Emitter(c, orig, relo)(p, q)| == EmitSize(c.decode(p))
    {
      var i := c.decode(p);
      EmitSizeIs(i, c.bytes[p..p + i.length], orig + p, relo + q);
    }
  }

  /** The jump to the rest of the original code: through the address stored behind it. */
  function Tail(rest: int): seq<Byte> { [0xFF, 0x25] + Le32(0) + Le64(rest % TWO64) }

  // ----- sizes -----

  /** Offset reached, and bytes emitted, by the instructions from p until at least `size`. */
  function Reach(c: Code, size: nat, p: nat): nat
    requires Readable(c, size)
    decreases size + 15 - p
  {
    if p >= size then p else Reach(c, size, p + c.decode(p).length)
  }

  function OutSize(c: Code, size: nat, p: nat): nat
    requires Readable(c, size)
    decreases size + 15 - p
  {
    if p >= size then 0 else EmitSize(c.decode(p)) + OutSize(c, size, p + c.decode(p).length)
  }

  predicate Relocatable(c: Code, size: nat, p: nat)
    requires Readable(c, size)
    decreases size + 15 - p
  {
    p < size ==> KindOf(c.decode(p)) != Unimplemented && Relocatable(c, size, p + c.decode(p).length)
  }

  /** Offset of the n-th instruction. */
  function Boundary(c: Code, size: nat, n: nat): nat {
    if n == 0 then 0
    else
      var p := Boundary(c, size, n - 1);
      if p >= size then p else p + c.decode(p).length
  }

  lemma {:induction false} RelocatableFrom(c: Code, size: nat, n: nat)
    requires Readable(c, size) && Relocatable(c, size, 0)
    ensures Relocatable(c, size, Boundary(c, size, n))
  {
    if n > 0 {
      RelocatableFrom(c, size, n - 1);
    }
  }

  lemma {:induction false} FirstAborting(c: Code, size: nat, n: nat) returns (m: nat)
    requires Readable(c, size) && !Relocatable(c, size, Boundary(c, size, n))
    ensures var p := Boundary(c, size, m);
            p < size && !c.decode(p).rip && 0xE0 <= c.decode(p).opcode <= 0xE3
    decreases size + 15 - Boundary(c, size, n)
  {
    var p := Boundary(c, size, n);
    if KindOf(c.decode(p)) == Unimplemented {
      m := n;
    } else {
      assert Boundary(c, size, n + 1) == p + c.decode(p).length;
      m := FirstAborting(c, size, n + 1);
    }
  }

  /** The relocator gives up exactly on windows with a loop or jcxz instruction. */
  lemma RelocatableExact(c: Code, size: nat)
    requires Readable(c, size)
    ensures Relocatable(c, size, 0) <==>
            forall n: nat :: Boundary(c, size, n) < size ==>
              var i := c.decode(Boundary(c, size, n)); i.rip || !(0xE0 <= i.opcode <= 0xE3)
  {
    if Relocatable(c, size, 0) {
      forall n: nat | Boundary(c, size, n) < size
        ensures var i := c.decode(Boundary(c, size, n)); i.rip || !(0xE0 <= i.opcode <= 0xE3)
      {
        RelocatableFrom(c, size, n);
      }
    } else {
      var m := FirstAborting(c, size, 0);
    }
  }

  /** A pass consumes Reach and emits OutSize bytes, wherever origin and output are. */
  lemma {:induction false} ScanSize(c: Code, size: nat, emit: (nat, nat) -> seq<Byte>, p: nat, out: seq<Byte>)
    requires Readable(c, size) && Sized(c, size, emit)
    ensures var s := Scan(c, size, emit, p, out);
            && (s.Pass? <==> Relocatable(c, size, p))
            && (s.Pass? ==> s.consumed == Reach(c, size, p) && |s.out| == |out| + OutSize(c, size, p) && out <= s.out)
    decreases size + 15 - p
  {
    if p < size {
      ScanSize(c, size, emit, p + c.decode(p).length, out + emit(p, |out|));
    }
  }

  /** A window ends on an instruction boundary, less than an instruction behind what was asked for, and
      emits at most three times its length. */
  lemma {:induction false} ReachBounds(c: Code, size: nat, p: nat)
    requires Readable(c, size) && p <= size + 14
    ensures p <= Reach(c, size, p) <= size + 14 && size <= Reach(c, size, p)
    ensures OutSize(c, size, p) <= 3 * (Reach(c, size, p) - p)
    decreases size + 15 - p
  {
    if p < size {
      ReachBounds(c, size, p + c.decode(p).length);
    }
  }

  /** Rounding the window up changes nothing: a later pass sees the same instructions. */
  lemma {:induction false} RoundedWindow(c: Code, size: nat, p: nat, window: nat)
    requires Readable(c, size) && Readable(c, window) && p <= size + 14 && window == Reach(c, size, p)
    ensures Reach(c, window, p) == window && OutSize(c, window, p) == OutSize(c, size, p)
    ensures Relocatable(c, window, p) == Relocatable(c, size, p)
    decreases size + 15 - p
  {
    ReachBounds(c, size, p);
    if p < size {
      ReachBounds(c, size, p + c.decode(p).length);
      RoundedWindow(c, size, p + c.decode(p).length, window);
    }
  }

  // ----- the methods -----

  /** The cases of the loop, for one instruction. */
  method EmitOne(i: Insn, bytes: seq<Byte>, orig: int, relo: int) returns (out: seq<Byte>)
    requires WellDecoded(i) && |bytes| == i.length && KindOf(i) != Unimplemented
    ensures out == Emit(i, bytes, orig, relo)
  {
    if 0x70 <= i.opcode <= 0x7F {
      out := [0x0F] + [0x80 + i.opcode % 16] + Le32(orig + AsInt8(i.immediate) - relo);
    } else if i.opcode == 0xEB {
      out := [0xE9] + Le32(AsInt8(orig + AsInt8(i.immediate) - relo));
    } else if i.rip {
      out := bytes[..i.dispOffset] + Le32(orig + i.disp - relo);
      if i.immOffset != 0 {
        out := out + bytes[i.immOffset..];
      }
    } else if i.opcode == 0xE8 || i.opcode == 0xE9 {
      out := bytes[..i.immOffset] + Le32(orig + i.immediate - relo);
    } else {
      out := bytes;
    }
  }

  ghost predicate Emits(emit: (nat, nat) -> seq<Byte>, c: Code, orig: Addr, relo: Addr) {
    forall p: nat, q: nat {:trigger Emitter(c, orig, relo)(p, q)} :: emit(p, q) == Emitter(c, orig, relo)(p, q)
  }

  method EmitAt(c: Code, size: nat, orig: Addr, relo: Addr, p: nat, q: nat, ghost emit: (nat, nat) -> seq<Byte>)
      returns (out: seq<Byte>)
    requires Readable(c, size) && p < size && Emits(emit, c, orig, relo) && KindOf(c.decode(p)) != Unimplemented
    ensures out == emit(p, q)
  {
    var i := c.decode(p);
    EmitterIs(c, orig, relo, p, q);
    out := EmitOne(i, c.bytes[p..p + i.length], orig + p, relo + q);
  }

  /** The loop of a pass. */
  method PassOver(c: Code, size: nat, orig: Addr, relo: Addr, ghost emit: (nat, nat) -> seq<Byte>) returns (r: Pass)
    requires Readable(c, size) && Emits(emit, c, orig, relo)
    ensures r == Scan(c, size, emit, 0, [])
  {
    var p, out := 0, [];
    while p < size
      invariant p <= size + 14
      invariant Scan(c, size, emit, p, out) == Scan(c, size, emit, 0, [])
      decreases size + 15 - p
    {
      if KindOf(c.decode(p)) == Unimplemented { return Aborted; }
      var e := EmitAt(c, size, orig, relo, p, |out|, emit);
      out := out + e;
      p := p + c.decode(p).length;
    }
    r := Pass(p, out);
  }

  /** GenRelocateCodeFixed: None is the abort; `ok` says whether the code fits the chunk. */
  method GenRelocateCodeFixed(c: Code, size: nat, orig: Addr, relo: Addr, chunk: nat)
      returns (r: Option<(bool, nat, seq<Byte>)>)
    requires Readable(c, size)
    ensures var s := Pass0(c, size, orig, relo);
            r == match s
                 case Aborted => None
                 case Pass(n, out) =>
                   var code := out + Tail(orig + n);
                   Some((|code| <= chunk, n, code))
  {
    var pass := PassOver(c, size, orig, relo, Emitter(c, orig, relo));
    if pass.Aborted? { return None; }
    var code := pass.out + Tail(orig + pass.consumed);
    r := Some((|code| <= chunk, pass.consumed, code));
  }

  datatype Result = Done(start: Addr, chunk: nat, window: nat, code: seq<Byte>) | NoMemory | Abort

  /** The smallest chunk size 32 + 16k that holds n bytes. */
  function ChunkFor(n: nat): nat { if n <= 32 then 32 else 32 + (n - 32 + 15) / 16 * 16 }

  /** What an attempt does, whether the window was rounded before or not. */
  lemma Attempt(c: Code, size: nat, origin: nat, orig: Addr, start: Addr)
    requires Readable(c, size + 15) && (origin == size || origin == Reach(c, size, 0))
    ensures Readable(c, origin)
    ensures var window, s := Reach(c, size, 0), Pass0(c, origin, orig, start);
            && Readable(c, window) && s == Pass0(c, window, orig, start)
            && (s.Pass? <==> Relocatable(c, size, 0))
            && (s.Pass? ==> s.consumed == window && |s.out| == OutSize(c, size, 0))
  {
    var window := Reach(c, size, 0);
    ReachBounds(c, size, 0);
    RoundedWindow(c, size, 0, window);
    ScanRounds(c, size, Emitter(c, orig, start), 0, [], window);
    EmitterSized(c, origin, orig, start);
    ScanSize(c, origin, Emitter(c, orig, start), 0, []);
  }

  /** The code for the whole window, placed at `start`. */
  function Relocated(c: Code, window: nat, orig: Addr, start: Addr): Option<seq<Byte>>
    requires Readable(c, window)
  {
    match Pass0(c, window, orig, start)
    case Aborted => None
    case Pass(n, out) => Some(out + Tail(orig + n))
  }

  /** GenRelocateCodeAndBranch: allocate, try, and go again with 16 bytes more. `alloc(k)` is the address of
      the k-th chunk, if there is memory for it. The loop ends for every window. */
  method GenRelocateCodeAndBranch(c: Code, size: nat, orig: Addr, alloc: nat -> Option<Addr>) returns (r: Result)
    requires Readable(c, size + 15)
    ensures r.Abort? ==> !Relocatable(c, size, 0)
    ensures r.NoMemory? ==> exists k: nat :: 32 + 16 * k <= ChunkFor(OutSize(c, size, 0) + 14) && alloc(k) == None
    ensures r.Done? ==>
              && Relocatable(c, size, 0) && r.window == Reach(c, size, 0)
              && r.chunk == ChunkFor(OutSize(c, size, 0) + 14)
              && |r.code| == OutSize(c, size, 0) + 14 <= r.chunk && (r.chunk == 32 || r.chunk - 16 < |r.code|)
              && Readable(c, r.window) && Relocated(c, r.window, orig, r.start) == Some(r.code)
              && exists k: nat :: r.chunk == 32 + 16 * k && alloc(k) == Some(r.start)
  {
    ghost var total := OutSize(c, size, 0) + 14;
    var origin, k := size, 0;
    while true
      invariant origin == size || origin == Reach(c, size, 0)
      invariant k > 0 ==> Relocatable(c, size, 0) && 32 + 16 * (k - 1) < total
      decreases total - 16 * k
    {
      var chunk := 32 + 16 * k;
      ChunkIs(total, k);
      if alloc(k) == None { return NoMemory; }
      var start := alloc(k).value;
      Attempt(c, size, origin, orig, start);
      var pass := GenRelocateCodeFixed(c, origin, orig, start, chunk);
      if pass == None { return Abort; }
      var (ok, n, code) := pass.value;
      if ok { return Done(start, chunk, n, code); }
      origin := n;
      k := k + 1;
    }
  }

  /** The size of the relocated code is bounded by the window, and the window by the request. */
  lemma SizeBounds(c: Code, size: nat)
    requires Readable(c, size)
    ensures OutSize(c, size, 0) + 14 <= 3 * Reach(c, size, 0) + 14
    ensures size <= Reach(c, size, 0) <= size + 14
  {
    ReachBounds(c, size, 0);
  }

  lemma ChunkIs(total: nat, k: nat)
    requires k > 0 ==> 32 + 16 * (k - 1) < total
    ensures 32 + 16 * k <= ChunkFor(total)
    ensures 32 + 16 * k >= total ==> 32 + 16 * k == ChunkFor(total)
  {
  }

  /** A pass over the rounded window emits the same bytes. */
  lemma {:induction false} ScanRounds(c: Code, size: nat, emit: (nat, nat) -> seq<Byte>, p: nat, out: seq<Byte>,
                                      window: nat)
    requires Readable(c, size) && Readable(c, window) && p <= size + 14 && window == Reach(c, size, p)
    ensures Scan(c, window, emit, p, out) == Scan(c, size, emit, p, out)
    decreases size + 15 - p
  {
    ReachBounds(c, size, p);
    if p < size {
      var p' := p + c.decode(p).length;
      ReachBounds(c, size, p');
      ScanRounds(c, size, emit, p', out + emit(p, |out|), window);
    }
  }

  // ----- branch and operand targets -----

  lemma {:induction false} Le32RoundTrip(before: seq<Byte>, v: int, after: seq<Byte>)
    ensures ReadLe32(before + Le32(v) + after, |before|) == v % TWO32
  {
    var b := before + Le32(v) + after;
    assert forall k :: 0 <= k < 4 ==> b[|before| + k] == Le32(v)[k];
    Digits(v % TWO32);
  }

  lemma Digits(x: nat)
    requires x < TWO32
    ensures x == x % 0x100 + x / 0x100 % 0x100 * 0x100 + x / 0x1_0000 % 0x100 * 0x1_0000 + x / 0x100_0000 * 0x100_0000
  {
  }

  /** Where the 32-bit displacement at `off` of an instruction at `ip` points. */
  function Target(ip: int, bytes: seq<Byte>, off: nat): Addr
    requires off + 4 <= |bytes|
  {
    (ip + |bytes| + AsInt32(ReadLe32(bytes, off))) % TWO64
  }

  predicate IsInt32(d: int) { -TWO31 <= d < TWO31 }

  /** Some 32-bit displacement of an instruction of n bytes at `ip` points to the target. */
  ghost predicate InReach(ip: int, n: nat, target: Addr) {
    exists d :: IsInt32(d) && (ip + n + d) % TWO64 == target
  }

  /** The instruction `before` at `orig` became `after` at `relo`, and its field still points to the same
      address, exactly when that address can be reached from there. */
  ghost predicate TargetKept(orig: int, relo: int, before: seq<Byte>, after: seq<Byte>, off: nat) {
    && |before| == |after| && off + 4 <= |before|
    && (Target(relo, after, off) == Target(orig, before, off) <==>
        InReach(relo, |before|, Target(orig, before, off)))
  }

  /** The target is kept where it can be, and no byte outside the field has changed. */
  ghost predicate OnlyFieldMoved(orig: int, relo: int, before: seq<Byte>, after: seq<Byte>, off: nat) {
    && TargetKept(orig, relo, before, after, off)
    && after[..off] == before[..off] && after[off + 4..] == before[off + 4..]
  }

  lemma Congruent(x: int, y: int, m: nat) returns (k: int)
    requires m > 0 && x % m == y % m
    ensures x - y == k * m
  {
    k := x / m - y / m;
    assert x == x / m * m + x % m && y == y / m * m + y % m;
    assert k * m == x / m * m - y / m * m;
  }

  lemma AsInt32Is(v: int)
    ensures IsInt32(AsInt32(v)) && (AsInt32(v) - v) % TWO32 == 0
  {
  }

  /** The displacement written: it is the exact one whenever the exact one has 32 bits. */
  lemma DisplacementExact(orig: int, relo: int, n: nat, field: int, d: int)
    requires IsInt32(d) && (relo + n + d) % TWO64 == (orig + n + AsInt32(field)) % TWO64
    ensures AsInt32(orig + field - relo) == d
  {
    var k := Congruent(relo + n + d, orig + n + AsInt32(field), TWO64);
    AsInt32Is(field);
    var e := AsInt32(orig + field - relo);
    AsInt32Is(orig + field - relo);
    var a := (AsInt32(field) - field) / TWO32;
    var b := (e - (orig + field - relo)) / TWO32;
    assert e - d == (b - a - k * TWO32) * TWO32;
  }

  /** An instruction with a displacement field keeps its target exactly when that target is in reach. */
  lemma FieldKeepsTarget(orig: int, relo: int, bytes: seq<Byte>, out: seq<Byte>, off: nat, field: int)
    requires off + 4 <= |bytes| == |out|
    requires field % TWO32 == ReadLe32(bytes, off)
    requires ReadLe32(out, off) == (orig + field - relo) % TWO32
    ensures TargetKept(orig, relo, bytes, out, off)
  {
    var n, target := |bytes|, Target(orig, bytes, off);
    var e := AsInt32(orig + field - relo);
    assert Target(relo, out, off) == (relo + n + e) % TWO64;
    assert target == (orig + n + AsInt32(field)) % TWO64;
    AsInt32Is(orig + field - relo);
    if InReach(relo, n, target) {
      var d :| IsInt32(d) && (relo + n + d) % TWO64 == target;
      DisplacementExact(orig, relo, n, field, d);
    }
  }

  /** The offset of the displacement field that is rewritten. */
  function FieldOffset(i: Insn): nat { if i.rip then i.dispOffset else i.immOffset }

  function FieldValue(i: Insn): int { if i.rip then i.disp else i.immediate }

  /** Calls, jumps and instruction-pointer-relative operands with 32-bit displacements. */
  lemma EmitKeepsTarget(i: Insn, bytes: seq<Byte>, orig: int, relo: int)
    requires WellDecoded(i) && |bytes| == i.length
    requires if i.rip then !(0x70 <= i.opcode <= 0x7F) && i.opcode != 0xEB else i.opcode == 0xE8 || i.opcode == 0xE9
    requires FieldValue(i) % TWO32 == ReadLe32(bytes, FieldOffset(i))
    ensures OnlyFieldMoved(orig, relo, bytes, Emit(i, bytes, orig, relo), FieldOffset(i))
  {
    var off, v := FieldOffset(i), orig + FieldValue(i) - relo;
    var after := if i.rip && i.immOffset != 0 then bytes[i.immOffset..] else [];
    var e := Emit(i, bytes, orig, relo);
    assert e == bytes[..off] + Le32(v) + after;
    Le32RoundTrip(bytes[..off], v, after);
    FieldKeepsTarget(orig, relo, bytes, e, off, FieldValue(i));
  }

  /** Where a jump with an 8-bit displacement goes. */
  function ShortTarget(i: Insn, orig: int): Addr { (orig + i.length + AsInt8(i.immediate)) % TWO64 }

  /** A short conditional jump becomes one of six bytes, but its displacement is taken as if the length had
      stayed: its target is kept exactly if the original was padded to six bytes and the target is in reach.
      So the usual two-byte jump never keeps it. */
  lemma ShortConditionalExact(i: Insn, bytes: seq<Byte>, orig: int, relo: int)
    requires WellDecoded(i) && |bytes| == i.length && 0x70 <= i.opcode <= 0x7F
    ensures var e := Emit(i, bytes, orig, relo);
            && |e| == 6 && e[0] == 0x0F && e[1] == 0x80 + i.opcode % 16
            && (Target(relo, e, 2) == ShortTarget(i, orig) <==> i.length == 6 && InReach(relo, 6, ShortTarget(i, orig)))
  {
    var field := AsInt8(i.immediate);
    var v := orig + field - relo;
    assert Emit(i, bytes, orig, relo) == [0x0F, 0x80 + i.opcode % 16] + Le32(v);
    LastField([0x0F, 0x80 + i.opcode % 16], v, relo);
    LongDisplacement(orig, relo, i.length, field, AsInt32(v));
  }

  lemma LongDisplacement(orig: int, relo: int, length: nat, field: int, t: int)
    requires t == AsInt32(orig + field - relo) && IsInt8(field) && length <= 15
    ensures (relo + 6 + t) % TWO64 == (orig + length + field) % TWO64 <==>
            length == 6 && InReach(relo, 6, (orig + length + field) % TWO64)
  {
    var v, target := orig + field - relo, (orig + length + field) % TWO64;
    AsInt32Is(v);
    SameLow32(relo + 6 + t, orig + length + field);
    LengthLow(t - v, 6 - length, TWO32);
    if length == 6 && InReach(relo, 6, target) {
      var d :| IsInt32(d) && (relo + 6 + d) % TWO64 == target;
      DisplacementExact(orig, relo, 6, field, d);
    }
  }

  predicate IsInt8(d: int) { -0x80 <= d < 0x80 }

  /** Some 8-bit displacement of an instruction of n bytes at `ip` points to the target. */
  ghost predicate InShortReach(ip: int, n: nat, target: Addr) {
    exists d :: IsInt8(d) && (ip + n + d) % TWO64 == target
  }

  /** A short jump becomes one of five bytes whose displacement is moreover cut to eight bits. */
  lemma ShortJumpExact(i: Insn, bytes: seq<Byte>, orig: int, relo: int)
    requires WellDecoded(i) && |bytes| == i.length && i.opcode == 0xEB
    ensures var e := Emit(i, bytes, orig, relo);
            && |e| == 5 && e[0] == 0xE9
            && (Target(relo, e, 1) == ShortTarget(i, orig) <==>
                i.length == 5 && InShortReach(relo, 5, ShortTarget(i, orig)))
  {
    var field := AsInt8(i.immediate);
    var t := AsInt8(orig + field - relo);
    ShortJumpTarget(i, bytes, orig, relo, t);
    CutDisplacement(orig, relo, i.length, field, t);
  }

  lemma ShortJumpTarget(i: Insn, bytes: seq<Byte>, orig: int, relo: int, t: int)
    requires WellDecoded(i) && |bytes| == i.length && i.opcode == 0xEB
    requires t == AsInt8(orig + AsInt8(i.immediate) - relo)
    ensures |Emit(i, bytes, orig, relo)| == 5 && Emit(i, bytes, orig, relo)[0] == 0xE9
    ensures Target(relo, Emit(i, bytes, orig, relo), 1) == (relo + 5 + t) % TWO64
  {
    ShortJumpEmits(i, bytes, orig, relo, t);
    LastField([0xE9], t, relo);
    ShortAsInt32(t);
  }

  lemma ShortJumpEmits(i: Insn, bytes: seq<Byte>, orig: int, relo: int, t: int)
    requires WellDecoded(i) && |bytes| == i.length && i.opcode == 0xEB
    requires t == AsInt8(orig + AsInt8(i.immediate) - relo)
    ensures Emit(i, bytes, orig, relo) == [0xE9] + Le32(t) && IsInt8(t)
  {
  }

  lemma ShortAsInt32(t: int)
    requires IsInt8(t)
    ensures AsInt32(t) == t
  {
  }

  /** Where a displacement at the end of an instruction points. */
  lemma LastField(before: seq<Byte>, v: int, ip: int)
    ensures Target(ip, before + Le32(v), |before|) == (ip + |before| + 4 + AsInt32(v)) % TWO64
  {
    assert before + Le32(v) == before + Le32(v) + [];
    Le32RoundTrip(before, v, []);
  }

  lemma CutDisplacement(orig: int, relo: int, length: nat, field: int, t: int)
    requires t == AsInt8(orig + field - relo) && length <= 15
    ensures (relo + 5 + t) % TWO64 == (orig + length + field) % TWO64 <==>
            length == 5 && InShortReach(relo, 5, (orig + length + field) % TWO64)
  {
    var v, target := orig + field - relo, (orig + length + field) % TWO64;
    assert IsInt8(t) && (t - v) % 0x100 == 0;
    SameLow32(relo + 5 + t, orig + length + field);
    LowByte(relo + 5 + t - (orig + length + field));
    LengthLow(t - v, 5 - length, 0x100);
    if length == 5 && InShortReach(relo, 5, target) {
      var d :| IsInt8(d) && (relo + 5 + d) % TWO64 == target;
      SameLow32(relo + 5 + d, orig + 5 + field);
      LowByte(d - v);
      ByteExact(v, d);
    }
  }

  lemma ByteExact(v: int, d: int)
    requires IsInt8(d) && (d - v) % 0x100 == 0
    ensures AsInt8(v) == d
  {
  }

  lemma SameLow32(x: int, y: int)
    ensures x % TWO64 == y % TWO64 ==> (x - y) % TWO32 == 0
  {
    if x % TWO64 == y % TWO64 {
      var k := Congruent(x, y, TWO64);
      assert x - y == (k * TWO32) * TWO32;
    }
  }

  lemma LowByte(x: int)
    ensures x % TWO32 == 0 ==> x % 0x100 == 0
  {
  }

  /** A difference of lengths does not vanish modulo m. */
  lemma LengthLow(d: int, n: int, m: nat)
    requires (m == TWO32 || m == 0x100) && d % m == 0 && -15 <= n <= 15
    ensures (d + n) % m == 0 <==> n == 0
  {
  }

  // ----- through a whole pass -----

  /** Offset and output after n instructions. */
  function Prefix(c: Code, size: nat, emit: (nat, nat) -> seq<Byte>, n: nat): (nat, seq<Byte>) {
    if n == 0 then (0, [])
    else
      var (p, out) := Prefix(c, size, emit, n - 1);
      if p >= size then (p, out) else (p + c.decode(p).length, out + emit(p, |out|))
  }

  lemma {:induction false} PrefixScans(c: Code, size: nat, emit: (nat, nat) -> seq<Byte>, n: nat)
    requires Readable(c, size) && Scan(c, size, emit, 0, []).Pass?
    ensures var (p, out) := Prefix(c, size, emit, n);
            Scan(c, size, emit, p, out) == Scan(c, size, emit, 0, [])
  {
    if n > 0 {
      PrefixScans(c, size, emit, n - 1);
    }
  }

  /** The n-th instruction's bytes are in the output where the ones before it end. */
  lemma {:induction false} PrefixPlaced(c: Code, size: nat, emit: (nat, nat) -> seq<Byte>, n: nat)
    requires Readable(c, size) && Sized(c, size, emit) && Scan(c, size, emit, 0, []).Pass?
    requires Prefix(c, size, emit, n).0 < size
    ensures var (p, out) := Prefix(c, size, emit, n);
            var final, e := Scan(c, size, emit, 0, []).out, emit(p, |out|);
            |out| + |e| <= |final| && final[|out|..|out| + |e|] == e
  {
    var (p, out) := Prefix(c, size, emit, n);
    PrefixScans(c, size, emit, n);
    NextPlaced(c, size, emit, p, out);
  }

  /** What a scan emits next stands behind what it has emitted. */
  lemma {:induction false} NextPlaced(c: Code, size: nat, emit: (nat, nat) -> seq<Byte>, p: nat, out: seq<Byte>)
    requires Readable(c, size) && Sized(c, size, emit) && Scan(c, size, emit, p, out).Pass? && p < size
    ensures var final, e := Scan(c, size, emit, p, out).out, emit(p, |out|);
            |out| + |e| <= |final| && final[|out|..|out| + |e|] == e
  {
    var e := emit(p, |out|);
    ScanSize(c, size, emit, p + c.decode(p).length, out + e);
    SliceOfPrefix(out, e, Scan(c, size, emit, p, out).out);
  }

  lemma SliceOfPrefix(out: seq<Byte>, e: seq<Byte>, final: seq<Byte>)
    requires out + e <= final
    ensures |out| + |e| <= |final| && final[|out|..|out| + |e|] == e
  {
    assert final[..|out + e|] == out + e;
  }

  lemma EmitterIs(c: Code, orig: Addr, relo: Addr, p: nat, q: nat)
    requires var i := c.decode(p); WellDecoded(i) && p + i.length <= |c.bytes|
    ensures var i := c.decode(p);
            Emitter(c, orig, relo)(p, q) == Emit(i, c.bytes[p..p + i.length], orig + p, relo + q)
  {
  }

  /** In the code of a whole window, whatever the drift before it, the n-th instruction stands at its place,
      and its rewritten displacement points to the original target exactly when that is in reach. */
  lemma {:induction false} PassKeepsTargets(c: Code, size: nat, orig: Addr, relo: Addr, n: nat, p: nat, q: nat, i: Insn)
    requires Readable(c, size) && Pass0(c, size, orig, relo).Pass?
    requires p == Prefix(c, size, Emitter(c, orig, relo), n).0 < size
    requires q == |Prefix(c, size, Emitter(c, orig, relo), n).1| && i == c.decode(p)
    requires if i.rip then !(0x70 <= i.opcode <= 0x7F) && i.opcode != 0xEB else i.opcode == 0xE8 || i.opcode == 0xE9
    requires FieldValue(i) % TWO32 == ReadLe32(c.bytes[p..p + i.length], FieldOffset(i))
    ensures q + i.length <= |Pass0(c, size, orig, relo).out|
    ensures var before, after := c.bytes[p..p + i.length], Pass0(c, size, orig, relo).out[q..q + i.length];
            OnlyFieldMoved(orig + p, relo + q, before, after, if i.rip then i.dispOffset else i.immOffset)
  {
    var e := PassPlaces(c, size, orig, relo, n, p, q, i);
    FieldMovedAt(i, c.bytes[p..p + i.length], orig + p, relo + q, e);
  }

  lemma FieldMovedAt(i: Insn, bytes: seq<Byte>, orig: int, relo: int, e: seq<Byte>)
    requires WellDecoded(i) && |bytes| == i.length && e == Emit(i, bytes, orig, relo)
    requires if i.rip then !(0x70 <= i.opcode <= 0x7F) && i.opcode != 0xEB else i.opcode == 0xE8 || i.opcode == 0xE9
    requires FieldValue(i) % TWO32 == ReadLe32(bytes, FieldOffset(i))
    ensures |e| == i.length && OnlyFieldMoved(orig, relo, bytes, e, if i.rip then i.dispOffset else i.immOffset)
  {
    EmitKeepsTarget(i, bytes, orig, relo);
  }

  /** Every other instruction is in the output byte for byte. */
  lemma {:induction false} PassCopies(c: Code, size: nat, orig: Addr, relo: Addr, n: nat, p: nat, q: nat)
    requires Readable(c, size) && Pass0(c, size, orig, relo).Pass?
    requires p == Prefix(c, size, Emitter(c, orig, relo), n).0 < size
    requires q == |Prefix(c, size, Emitter(c, orig, relo), n).1|
    requires var i := c.decode(p);
             && !i.rip && !(0x70 <= i.opcode <= 0x7F) && !(0xE0 <= i.opcode <= 0xE3)
             && i.opcode != 0xEB && i.opcode != 0xE8 && i.opcode != 0xE9
    ensures var out, len := Pass0(c, size, orig, relo).out, c.decode(p).length;
            q + len <= |out| && out[q..q + len] == c.bytes[p..p + len]
  {
    EmitterSized(c, size, orig, relo);
    PrefixPlaced(c, size, Emitter(c, orig, relo), n);
    EmitterIs(c, orig, relo, p, q);
  }

  /** What stands in the output of a pass at the place of the n-th instruction. */
  lemma {:induction false} PassPlaces(c: Code, size: nat, orig: Addr, relo: Addr, n: nat, p: nat, q: nat, i: Insn)
      returns (e: seq<Byte>)
    requires Readable(c, size) && Pass0(c, size, orig, relo).Pass?
    requires p == Prefix(c, size, Emitter(c, orig, relo), n).0 < size
    requires q == |Prefix(c, size, Emitter(c, orig, relo), n).1| && i == c.decode(p)
    ensures e == Emit(i, c.bytes[p..p + i.length], orig + p, relo + q)
    ensures var out := Pass0(c, size, orig, relo).out; q + |e| <= |out| && out[q..q + |e|] == e
  {
    EmitterSized(c, size, orig, relo);
    PrefixPlaced(c, size, Emitter(c, orig, relo), n);
    EmitterIs(c, orig, relo, p, q);
    e := Emitter(c, orig, relo)(p, q);
  }

  /** A short conditional jump through a whole pass: what stands at its place, and where it goes. */
  lemma {:induction false} PassShortConditional(c: Code, size: nat, orig: Addr, relo: Addr, n: nat, p: nat, q: nat, i: Insn)
    requires Readable(c, size) && Pass0(c, size, orig, relo).Pass?
    requires p == Prefix(c, size, Emitter(c, orig, relo), n).0 < size
    requires q == |Prefix(c, size, Emitter(c, orig, relo), n).1| && i == c.decode(p)
    requires 0x70 <= i.opcode <= 0x7F
    ensures var out, target := Pass0(c, size, orig, relo).out, ShortTarget(i, orig + p);
            && q + 6 <= |out| && out[q] == 0x0F && out[q + 1] == 0x80 + i.opcode % 16
            && (Target(relo + q, out[q..q + 6], 2) == target <==> i.length == 6 && InReach(relo + q, 6, target))
  {
    var e := PassPlaces(c, size, orig, relo, n, p, q, i);
    ShortConditionalExact(i, c.bytes[p..p + i.length], orig + p, relo + q);
    SliceAt(Pass0(c, size, orig, relo).out, q, e);
  }

  /** The same for a short jump. */
  lemma {:induction false} PassShortJump(c: Code, size: nat, orig: Addr, relo: Addr, n: nat, p: nat, q: nat, i: Insn)
    requires Readable(c, size) && Pass0(c, size, orig, relo).Pass?
    requires p == Prefix(c, size, Emitter(c, orig, relo), n).0 < size
    requires q == |Prefix(c, size, Emitter(c, orig, relo), n).1| && i == c.decode(p)
    requires i.opcode == 0xEB
    ensures var out, target := Pass0(c, size, orig, relo).out, ShortTarget(i, orig + p);
            && q + 5 <= |out| && out[q] == 0xE9
            && (Target(relo + q, out[q..q + 5], 1) == target <==> i.length == 5 && InShortReach(relo + q, 5, target))
  {
    var e := PassPlaces(c, size, orig, relo, n, p, q, i);
    ShortJumpExact(i, c.bytes[p..p + i.length], orig + p, relo + q);
    SliceAt(Pass0(c, size, orig, relo).out, q, e);
  }

  lemma SliceAt(out: seq<Byte>, q: nat, e: seq<Byte>)
    requires q + |e| <= |out| && out[q..q + |e|] == e
    ensures forall k :: 0 <= k < |e| ==> out[q + k] == e[k]
  {
    forall k | 0 <= k < |e|
      ensures out[q + k] == e[k]
    {
      assert out[q..q + |e|][k] == out[q + k];
    }
  }

  /** A copied instruction with a 32-bit displacement at its end, such as a near conditional jump: its target
      is kept exactly if the instruction did not move. */
  lemma CopiedTarget(bytes: seq<Byte>, orig: int, relo: int)
    requires 4 <= |bytes|
    ensures var off := |bytes| - 4;
            Target(relo, bytes, off) == Target(orig, bytes, off) <==> orig % TWO64 == relo % TWO64
  {
    var x := |bytes| + AsInt32(ReadLe32(bytes, |bytes| - 4));
    ShiftedMod(orig, relo, x);
  }

  lemma ShiftedMod(a: int, b: int, x: int)
    ensures (a + x) % TWO64 == (b + x) % TWO64 <==> a % TWO64 == b % TWO64
  {
    ModShift(a, x);
    ModShift(b, x);
    ModShift(a + x, -x);
    ModShift(b + x, -x);
  }

  lemma ModShift(a: int, x: int)
    ensures (a + x) % TWO64 == (a % TWO64 + x) % TWO64
  {
  }

  /** A near conditional jump as the decoder reports it: the opcode is the second byte of 0F 80 to 0F 8F. */
  predicate IsNearJcc(i: Insn, bytes: seq<Byte>) {
    && i.length == |bytes| == 6 && bytes[0] == 0x0F && 0x80 <= bytes[1] <= 0x8F
    && i.opcode == bytes[1] && !i.rip
  }

  /** Through a whole pass, a near conditional jump is copied, and so misses its target unless it stands where
      it stood. */
  lemma {:induction false} NearJccExact(c: Code, size: nat, orig: Addr, relo: Addr, n: nat, p: nat, q: nat)
    requires Readable(c, size) && Pass0(c, size, orig, relo).Pass?
    requires p == Prefix(c, size, Emitter(c, orig, relo), n).0 < size
    requires q == |Prefix(c, size, Emitter(c, orig, relo), n).1| && p + 6 <= |c.bytes|
    requires IsNearJcc(c.decode(p), c.bytes[p..p + 6])
    ensures q + 6 <= |Pass0(c, size, orig, relo).out|
    ensures var before, after := c.bytes[p..p + 6], Pass0(c, size, orig, relo).out[q..q + 6];
            Target(relo + q, after, 2) == Target(orig + p, before, 2) <==> (orig + p) % TWO64 == (relo + q) % TWO64
  {
    PassCopies(c, size, orig, relo, n, p, q);
    CopiedTarget(c.bytes[p..p + 6], orig + p, relo + q);
  }

  // ----- the jump back -----

  function ReadLe64(b: seq<Byte>, p: nat): nat
    requires p + 8 <= |b|
  {
    ReadLe32(b, p) + TWO32 * ReadLe32(b, p + 4)
  }

  /** Where `jmp [RIP + disp32]` at offset p of code goes, if its pointer is in the code too. */
  function IndirectTarget(code: seq<Byte>, p: nat): Option<nat>
    requires p + 6 <= |code|
  {
    var pointer := p + 6 + AsInt32(ReadLe32(code, p + 2));
    if code[p] == 0xFF && code[p + 1] == 0x25 && 0 <= pointer && pointer + 8 <= |code|
    then Some(ReadLe64(code, pointer)) else None
  }

  lemma TailReturns(out: seq<Byte>, rest: int)
    ensures |Tail(rest)| == 14 && IndirectTarget(out + Tail(rest), |out|) == Some(rest % TWO64)
  {
    var a: Addr := rest % TWO64;
    var front, low, high := out + [0xFF, 0x25], Le32(a % TWO32), Le32(a / TWO32);
    var code := out + Tail(rest);
    assert code == front + Le32(0) + (low + high);
    Le32RoundTrip(front, 0, low + high);
    assert code[|out|] == front[|out|] && code[|out| + 1] == front[|out| + 1];
    assert code == (front + Le32(0)) + (low + high);
    Le64RoundTrip(front + Le32(0), a);
  }

  lemma Le64RoundTrip(before: seq<Byte>, a: Addr)
    ensures ReadLe64(before + (Le32(a % TWO32) + Le32(a / TWO32)), |before|) == a
  {
    var low, high := Le32(a % TWO32), Le32(a / TWO32);
    var code := before + (low + high);
    assert code == before + low + high;
    Le32RoundTrip(before, a % TWO32, high);
    assert code == (before + low) + high + [];
    Le32RoundTrip(before + low, a / TWO32, []);
  }

  /** Behind the relocated instructions stands a jump to the first original instruction that was not moved. */
  lemma JumpsBack(c: Code, window: nat, orig: Addr, start: Addr, code: seq<Byte>)
    requires Readable(c, window) && Relocated(c, window, orig, start) == Some(code)
    ensures |code| == OutSize(c, window, 0) + 14
    ensures IndirectTarget(code, |code| - 14) == Some((orig + Reach(c, window, 0)) % TWO64)
  {
    EmitterSized(c, window, orig, start);
    ScanSize(c, window, Emitter(c, orig, start), 0, []);
    TailReturns(Pass0(c, window, orig, start).out, orig + Reach(c, window, 0));
  }
}
