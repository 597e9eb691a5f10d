/** The variable-length integers of section 7.6 of DWARF version 4, as read by the export-trie code. */
module Leb128 {
  import opened Common

  const TWO63 := 0x8000_0000_0000_0000

  /** Unreadable: a byte outside the mapped buffer was needed. Undefined: a shift by 64 bits or more. */
  datatype Leb = Ok(value: int, next: nat) | Unreadable | Undefined

  function Pow128(n: nat): (r: nat)
    ensures r > 0
  {
    if n == 0 then 1 else 128 * Pow128(n - 1)
  }

  /** The number whose 7-bit groups, least significant first, are the bytes without their top bit. */
  function Value(bs: seq<Byte>): nat {
    if bs == [] then 0 else bs[0] % 128 + 128 * Value(bs[1..])
  }

  /** The same read as two's complement: bit 6 of the last byte is the sign. */
  function SignedValue(bs: seq<Byte>): int
    requires bs != []
  {
    Value(bs) - (if bs[|bs| - 1] % 128 >= 64 then Pow128(|bs|) else 0)
  }

  /** Just behind the first byte from `p` on without the continuation bit; 0 if there is none. */
  function LebEnd(buf: seq<Byte>, p: nat): (q: nat)
    ensures q != 0 ==> p < q <= |buf| && buf[q - 1] < 128 && forall i :: p <= i < q - 1 ==> buf[i] >= 128
    ensures q == 0 ==> forall i :: p <= i < |buf| ==> buf[i] >= 128
    decreases |buf| - p
  {
    if p >= |buf| then 0 else if buf[p] < 128 then p + 1 else LebEnd(buf, p + 1)
  }

  lemma LebEndUnique(buf: seq<Byte>, p: nat, q: nat)
    requires p < q <= |buf| && buf[q - 1] < 128 && forall i :: p <= i < q - 1 ==> buf[i] >= 128
    ensures LebEnd(buf, p) == q
  {
    var e := LebEnd(buf, p);
    assert e == 0 || e == q || e - 1 < q - 1 || q - 1 < e - 1;
  }

  /** What read_uleb128 returns: the value modulo 2^64, and the position behind it. */
  function UlebAt(buf: seq<Byte>, p: nat): Leb {
    var q := LebEnd(buf, p);
    if q == 0 then Unreadable else Ok(Value(buf[p..q]) % TWO64, q)
  }

  /** A 64-bit pattern as a signed number. */
  function AsInt64(x: int): int {
    var m := x % TWO64;
    if m >= TWO63 then m - TWO64 else m
  }

  /** What read_sleb128 returns: undefined once a shift reaches 64, that is for an eleventh byte or
      for a negative number of ten bytes. */
  function SlebAt(buf: seq<Byte>, p: nat): Leb {
    var q := LebEnd(buf, p);
    if q == 0 || q - p > 10 then (if p + 10 < |buf| then Undefined else Unreadable)
    else if q - p == 10 && buf[q - 1] >= 64 then Undefined
    else Ok(AsInt64(SignedValue(buf[p..q])), q)
  }

  // ----- arithmetic -----

  lemma {:induction false} ValueAppend(bs: seq<Byte>, b: Byte)
    ensures Value(bs + [b]) == Value(bs) + (b % 128) * Pow128(|bs|)
  {
    if bs == [] {
      assert bs + [b] == [b] && [b][1..] == [];
    } else {
      ValueAppend(bs[1..], b);
      assert (bs + [b])[1..] == bs[1..] + [b];
      var d, k := b % 128, Pow128(|bs| - 1);
      assert 128 * (d * k) == d * (128 * k);
    }
  }

  lemma {:induction false} ValueBound(bs: seq<Byte>)
    ensures Value(bs) < Pow128(|bs|)
  {
    if bs != [] {
      ValueBound(bs[1..]);
    }
  }

  lemma {:induction false} PowersAgree(n: nat)
    ensures Pow2(7 * n) == Pow128(n)
  {
    if n > 0 {
      PowersAgree(n - 1);
      Pow2Add(7, 7 * (n - 1));
      assert Pow2(7) == 128;
    }
  }

  lemma {:induction false} Pow2Add(a: nat, b: nat)
    ensures Pow2(a + b) == Pow2(a) * Pow2(b)
  {
    if a > 0 {
      Pow2Add(a - 1, b);
    }
  }

  lemma Pow2Of64()
    ensures Pow2(64) == TWO64 && Pow2(63) == TWO63
  {
    assert Pow2(7) == 128;
    PowersAgree(9);
    assert Pow128(9) == TWO63 by {
      assert Pow128(3) == 0x20_0000;
      assert Pow128(6) == 0x400_0000_0000;
    }
  }

  /** From the tenth group on only multiples of 2^64 are added, except bit 63 of the tenth. */
  lemma HighGroupVanishes(d: nat, n: nat)
    requires n >= 10
    ensures (d * Pow128(n)) % TWO64 == 0
  {
    PowersAgree(n);
    Pow2Add(64, 7 * n - 64);
    Pow2Of64();
    var k := Pow2(7 * n - 64);
    assert d * Pow128(n) == (d * k) * TWO64;
    MultipleMod(d * k);
  }

  lemma MultipleMod(k: nat)
    ensures (k * TWO64) % TWO64 == 0
  {
  }

  // ----- readers -----

  /** One more group: the value grows by the new slice, shifted. */
  lemma GroupStep(buf: seq<Byte>, start: nat, p: nat)
    requires start <= p < |buf|
    ensures Value(buf[start..p + 1]) == Value(buf[start..p]) + buf[p] % 128 * Pow128(p - start)
    ensures Value(buf[start..p + 1]) % TWO64 ==
            (Value(buf[start..p]) % TWO64 + buf[p] % 128 * Pow2(7 * (p - start))) % TWO64
  {
    assert buf[start..p + 1] == buf[start..p] + [buf[p]];
    ValueAppend(buf[start..p], buf[p]);
    PowersAgree(p - start);
    ModAdd(Value(buf[start..p]), buf[p] % 128 * Pow128(p - start));
  }

  lemma HighGroupStep(buf: seq<Byte>, start: nat, p: nat)
    requires start + 10 <= p < |buf|
    ensures Value(buf[start..p + 1]) % TWO64 == Value(buf[start..p]) % TWO64
  {
    GroupStep(buf, start, p);
    HighGroupVanishes(buf[p] % 128, p - start);
    ModAdd(Value(buf[start..p]), buf[p] % 128 * Pow128(p - start));
  }

  /** The sign extension turns the unsigned pattern into the signed one. */
  lemma SignStep(bs: seq<Byte>)
    requires bs != [] && bs[|bs| - 1] < 128
    ensures bs[|bs| - 1] >= 64 ==>
              (Value(bs) % TWO64 - Pow2(7 * |bs|)) % TWO64 == SignedValue(bs) % TWO64
    ensures bs[|bs| - 1] < 64 ==> Value(bs) % TWO64 == SignedValue(bs) % TWO64
  {
    PowersAgree(|bs|);
    var power: int := Pow128(|bs|);
    ModAdd(Value(bs), -power);
  }

  lemma AsInt64Mod(x: int)
    ensures AsInt64(x % TWO64) == AsInt64(x)
  {
  }

  /** read_uleb128. Its end-of-buffer and overflow checks are empty macros, so groups beyond
      bit 63 are dropped and only the end of readable memory stops a run of continuation bytes. */
  method ReadUleb128(buf: seq<Byte>, start: nat) returns (r: Leb)
    ensures r == UlebAt(buf, start)
  {
    if start > |buf| { return Unreadable; }
    var p, result, bit := start, 0, 0;
    while p < |buf|
      invariant start <= p <= |buf|
      invariant LebEnd(buf, p) == LebEnd(buf, start)
      invariant result == Value(buf[start..p]) % TWO64
      invariant bit == if p - start < 10 then 7 * (p - start) else 70
    {
      var slice := buf[p] % 128;
      if bit > 63 {
        HighGroupStep(buf, start, p);
      } else {
        GroupStep(buf, start, p);
        result := (result + slice * Pow2(bit)) % TWO64;
        bit := bit + 7;
      }
      p := p + 1;
      if buf[p - 1] < 128 {
        return Ok(result, p);
      }
    }
    r := Unreadable;
  }

  lemma ModAdd(a: int, b: int)
    ensures (a + b) % TWO64 == (a % TWO64 + b) % TWO64
    ensures b % TWO64 == 0 ==> (a + b) % TWO64 == a % TWO64
  {
  }

  /** The loop of read_sleb128, whose shifts are not guarded. */
  method ReadSlebGroups(buf: seq<Byte>, start: nat) returns (r: Leb)
    ensures var q := LebEnd(buf, start);
            r == if q == 0 || q - start > 10 then (if start + 10 < |buf| then Undefined else Unreadable)
                 else Ok(Value(buf[start..q]) % TWO64, q)
  {
    if start > |buf| { return Unreadable; }
    var p, result, bit := start, 0, 0;
    while p < |buf|
      invariant start <= p <= |buf| && bit == 7 * (p - start) && bit <= 70
      invariant LebEnd(buf, p) == LebEnd(buf, start)
      invariant result == Value(buf[start..p]) % TWO64
    {
      var byte := buf[p];
      if bit > 63 { return Undefined; }
      GroupStep(buf, start, p);
      result := (result + byte % 128 * Pow2(bit)) % TWO64;
      p := p + 1;
      bit := bit + 7;
      if byte < 128 { return Ok(result, p); }
    }
    r := Unreadable;
  }

  /** read_sleb128: the loop, then the sign extension, whose shift is not guarded either. */
  method ReadSleb128(buf: seq<Byte>, start: nat) returns (r: Leb)
    ensures r == SlebAt(buf, start)
  {
    r := ReadSlebGroups(buf, start);
    if r.Ok? {
      var result, p := r.value, r.next;
      var bit := 7 * (p - start);
      ghost var bs := buf[start..p];
      SignStep(bs);
      AsInt64Mod(SignedValue(bs));
      if buf[p - 1] >= 64 {
        if bit > 63 { return Undefined; }
        result := (result - Pow2(bit)) % TWO64;
      }
      assert result == SignedValue(bs) % TWO64;
      r := Ok(AsInt64(result), p);
    }
  }

  // ----- encoders and round trips -----

  function EncodeUleb(v: nat): seq<Byte> {
    if v < 128 then [v] else [v % 128 + 128] + EncodeUleb(v / 128)
  }

  function EncodeSleb(v: int): seq<Byte>
    decreases if v >= 0 then v else -1 - v
  {
    var low, rest := v % 128, v / 128;
    if (rest == 0 && low < 64) || (rest == -1 && low >= 64) then [low] else [low + 128] + EncodeSleb(rest)
  }

  /** All bytes but the last carry the continuation bit. */
  ghost predicate Closed(e: seq<Byte>) {
    e != [] && e[|e| - 1] < 128 && forall i :: 0 <= i < |e| - 1 ==> e[i] >= 128
  }

  lemma {:induction false} EncodeUlebValue(v: nat)
    ensures Value(EncodeUleb(v)) == v && Closed(EncodeUleb(v))
  {
    if v < 128 {
      assert EncodeUleb(v)[1..] == [];
    } else {
      EncodeUlebValue(v / 128);
      assert EncodeUleb(v)[1..] == EncodeUleb(v / 128);
    }
  }

  lemma {:induction false} EncodeSlebValue(v: int)
    ensures Closed(EncodeSleb(v)) && SignedValue(EncodeSleb(v)) == v
    ensures EncodeSleb(v)[|EncodeSleb(v)| - 1] >= 64 <==> v < 0
    decreases if v >= 0 then v else -1 - v
  {
    var low, rest := v % 128, v / 128;
    var e := EncodeSleb(v);
    if (rest == 0 && low < 64) || (rest == -1 && low >= 64) {
      assert e[1..] == [] && Value(e[1..]) == 0;
      assert Pow128(1) == 128 * Pow128(0);
    } else {
      EncodeSlebValue(rest);
      assert e[1..] == EncodeSleb(rest);
    }
  }

  /** An encoding placed anywhere in a buffer ends where it ends, whatever follows. */
  lemma EndAnywhere(before: seq<Byte>, e: seq<Byte>, after: seq<Byte>)
    requires Closed(e)
    ensures LebEnd(before + e + after, |before|) == |before| + |e|
    ensures (before + e + after)[|before|..|before| + |e|] == e
  {
    var buf := before + e + after;
    assert forall i :: 0 <= i < |e| ==> buf[|before| + i] == e[i];
    LebEndUnique(buf, |before|, |before| + |e|);
  }

  /** read_uleb128 inverts the encoding of every 64-bit value, wherever it stands. */
  lemma UlebRoundTrip(before: seq<Byte>, v: nat, after: seq<Byte>)
    requires v < TWO64
    ensures UlebAt(before + EncodeUleb(v) + after, |before|) == Ok(v, |before| + |EncodeUleb(v)|)
  {
    EncodeUlebValue(v);
    EndAnywhere(before, EncodeUleb(v), after);
  }

  lemma Pieces(buf: seq<Byte>, i: nat, k: nat)
    requires i <= k <= |buf|
    ensures buf == buf[..i] + buf[i..k] + buf[k..]
  {
  }

  /** The same for an encoding found inside a buffer. */
  lemma UlebWithin(buf: seq<Byte>, pos: nat, v: nat)
    requires v < TWO64 && pos + |EncodeUleb(v)| <= |buf|
    requires buf[pos..pos + |EncodeUleb(v)|] == EncodeUleb(v)
    ensures UlebAt(buf, pos) == Ok(v, pos + |EncodeUleb(v)|)
  {
    var n := |EncodeUleb(v)|;
    Pieces(buf, pos, pos + n);
    UlebRoundTrip(buf[..pos], v, buf[pos + n..]);
  }

  lemma {:induction false} SlebLength(v: int, n: nat)
    requires n >= 1
    ensures |EncodeSleb(v)| <= n <==> -64 * Pow128(n - 1) <= v < 64 * Pow128(n - 1)
    decreases n
  {
    if n > 1 {
      SlebLength(v / 128, n - 1);
      var k := Pow128(n - 2);
      assert Pow128(n - 1) == 128 * k;
    } else {
      assert Pow128(0) == 1;
    }
  }

  /** read_sleb128 inverts the encoding of a 64-bit value exactly when it is at least -2^62;
      below that the final sign extension shifts by 70. */
  lemma SlebRoundTrip(before: seq<Byte>, v: int, after: seq<Byte>)
    requires -TWO63 <= v < TWO63
    ensures SlebAt(before + EncodeSleb(v) + after, |before|) ==
            if v >= -0x4000_0000_0000_0000 then Ok(v, |before| + |EncodeSleb(v)|) else Undefined
  {
    EncodeSlebValue(v);
    EndAnywhere(before, EncodeSleb(v), after);
    SlebSize(v);
  }

  lemma SlebSize(v: int)
    requires -TWO63 <= v < TWO63
    ensures AsInt64(v) == v && |EncodeSleb(v)| <= 10
    ensures |EncodeSleb(v)| == 10 <==> !(-0x4000_0000_0000_0000 <= v < 0x4000_0000_0000_0000)
  {
    SlebLength(v, 9);
    SlebLength(v, 10);
    Powers();
  }

  lemma Powers()
    ensures Pow128(8) == 0x100_0000_0000_0000 && Pow128(9) == TWO63
  {
    assert Pow128(3) == 0x20_0000;
    assert Pow128(6) == 0x400_0000_0000;
  }
}
