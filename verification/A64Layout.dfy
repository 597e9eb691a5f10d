/** Where the words of a relocated block end up, and what label linking leaves at each place. */
module A64Layout {
  import opened Common
  import opened A64
  import opened A64Relocator

  /** Every label has one recorded load, in order, and each records an unlinked load. */
  ghost predicate Shape(a: Asm) {
    && (forall j :: 0 <= j < |a.labels| ==>
          |a.labels[j].uses| == 1 && Use(a, j) < |a.buf| && a.buf[Use(a, j)] == LDR_X17)
    && (forall j, k :: 0 <= j < k < |a.labels| ==>
          |a.labels[j].uses| == 1 && |a.labels[k].uses| == 1 && Use(a, j) < Use(a, k))
  }

  function Use(a: Asm, j: nat): nat
    requires j < |a.labels| && |a.labels[j].uses| == 1
  {
    a.labels[j].uses[0]
  }

  /** `b` continues `a`: what `a` holds is kept, and what is added lies behind it. */
  ghost predicate Extends(a: Asm, b: Asm) {
    && Shape(a) && Shape(b)
    && a.buf <= b.buf && a.labels <= b.labels
    && (forall j :: |a.labels| <= j < |b.labels| ==> |a.buf| <= Use(b, j))
  }

  lemma EmitExtends(a: Asm, ws: seq<Word>)
    requires Shape(a)
    ensures Extends(a, Emit(a, ws))
  {
  }

  lemma LoadExtends(a: Asm, data: Addr, ws: seq<Word>, last: seq<Word>)
    requires Shape(a)
    ensures var b := Emit(LdrLast(Emit(AppendLabel(a, data), ws)), last);
            && Extends(a, b)
            && b.buf == a.buf + ws + [LDR_X17] + last
            && b.labels == a.labels + [Label(data, [|a.buf| + |ws|])]
  {
    var b := Emit(LdrLast(Emit(AppendLabel(a, data), ws)), last);
    assert b.buf == a.buf + ws + [LDR_X17] + last;
    assert Label(data, []).uses + [|a.buf| + |ws|] == [|a.buf| + |ws|];
    assert b.labels == a.labels + [Label(data, [|a.buf| + |ws|])];
  }

  lemma EmitTwiceExtends(a: Asm, ws: seq<Word>, last: seq<Word>)
    requires Shape(a)
    ensures Extends(a, Emit(Emit(a, ws), last))
  {
    EmitExtends(a, ws);
    EmitExtends(Emit(a, ws), last);
  }

  lemma LoadFirstExtends(a: Asm, data: Addr, last: seq<Word>)
    requires Shape(a)
    ensures Extends(a, Emit(LdrLast(AppendLabel(a, data)), last))
  {
    LoadExtends(a, data, [], last);
    assert Emit(AppendLabel(a, data), []) == AppendLabel(a, data);
  }

  lemma RelocateOneExtends(a: Asm, pc: Addr, w: Word)
    requires Shape(a) && RelocateOne(a, pc, w).Some?
    ensures Extends(a, RelocateOne(a, pc, w).value)
  {
    var t := Top(w);
    if MatchesLiteral(t) {
      EmitTwiceExtends(a, MovWords(TMP_REG_0, Plus(pc, DecodeImm19Offset(w))), [LdrRegister(w % 32, TMP_REG_0)]);
    } else if MatchesPcRel(t) && !HighBit(t) {
      EmitExtends(a, MovWords(w % 32, Plus(pc, DecodeImmHiImmLoOffset(w))));
    } else if MatchesPcRel(t) {
      EmitExtends(a, MovWords(w % 32, Plus(pc - pc % 0x1000, DecodeImmHiImmLoOffset(w) * 0x1000)));
    } else if MatchesBranch(t) {
      LoadFirstExtends(a, Plus(pc, DecodeImm26Offset(w)), [if HighBit(t) then BLR_X17 else BR_X17]);
    } else if MatchesTest(t) {
      LoadExtends(a, Plus(pc, DecodeImm14Offset(w)), [InvertTest(w)], [BR_X17]);
    } else if MatchesCompare(t) {
      LoadExtends(a, Plus(pc, DecodeImm19Offset(w)), [InvertCompare(w)], [BR_X17]);
    } else if MatchesCondition(t) {
      LoadExtends(a, Plus(pc, DecodeImm19Offset(w)), [InvertCondition(w)], [BR_X17]);
    } else {
      EmitExtends(a, [w]);
    }
  }

  lemma {:induction false} EmittedExtends(window: seq<Word>, pc: Addr, i: nat, n: nat)
    requires i <= n <= |window| && Emitted(window, pc, n).Some?
    ensures Emitted(window, pc, i).Some?
    ensures Extends(Emitted(window, pc, i).value, Emitted(window, pc, n).value)
  {
    if n > 0 {
      EmittedExtends(window, pc, if i < n then i else n - 1, n - 1);
      RelocateOneExtends(Emitted(window, pc, n - 1).value, At(pc, n - 1), window[n - 1]);
    }
  }

  /** The buffer after label j is bound. */
  function BindOne(a: Asm, buf: seq<Word>, j: nat): seq<Word>
    requires Shape(a) && j < |a.labels| && |a.buf| <= |buf|
  {
    buf[Use(a, j) := Link(buf[Use(a, j)], |buf| - Use(a, j))] + DoubleWords(a.labels[j].data)
  }

  ghost predicate Bindable(a: Asm, buf: seq<Word>) {
    Shape(a) && |a.buf| <= |buf| && UsesBelow(a.labels, |buf|)
  }

  lemma BindStep(a: Asm, buf: seq<Word>, j: nat)
    requires Bindable(a, buf) && j < |a.labels|
    ensures Bindable(a, BindOne(a, buf, j))
    ensures BindFrom(buf, a.labels, j) == BindFrom(BindOne(a, buf, j), a.labels, j + 1)
  {
    assert a.labels[j].uses == [Use(a, j)];
    assert a.labels[j].uses[1..] == [];
    var linked := buf[Use(a, j) := Link(buf[Use(a, j)], |buf| - Use(a, j))];
    assert LinkUses(buf, a.labels[j].uses, |buf|) == LinkUses(linked, [], |buf|) == linked;
  }

  /** RelocBind leaves every word that is not a recorded load as it was. */
  lemma {:induction false} BindKeeps(a: Asm, buf: seq<Word>, j: nat, q: nat)
    requires Bindable(a, buf) && j <= |a.labels| && q < |buf|
    requires forall k :: j <= k < |a.labels| ==> Use(a, k) != q
    ensures |BindFrom(buf, a.labels, j)| == |buf| + 2 * (|a.labels| - j)
    ensures BindFrom(buf, a.labels, j)[q] == buf[q]
    decreases |a.labels| - j
  {
    if j < |a.labels| {
      BindStep(a, buf, j);
      BindKeeps(a, BindOne(a, buf, j), j + 1, q);
    }
  }

  /** Position of label k's data when binding starts at label j with this buffer. */
  function Pool(buf: seq<Word>, j: nat, k: nat): nat
    requires j <= k
  {
    |buf| + 2 * (k - j)
  }

  /** RelocBind links the load of label k to the data it emits for that label. */
  lemma {:induction false} BindLinks(a: Asm, buf: seq<Word>, j: nat, k: nat)
    requires Bindable(a, buf) && j <= k < |a.labels| && buf[Use(a, k)] == LDR_X17
    ensures var f, p := BindFrom(buf, a.labels, j), Pool(buf, j, k);
            && Use(a, k) < p && p + 2 <= |f| && f[Use(a, k)] == Link(LDR_X17, p - Use(a, k))
            && f[p] == DoubleWords(a.labels[k].data)[0] && f[p + 1] == DoubleWords(a.labels[k].data)[1]
    decreases k - j
  {
    if j < k {
      BindStep(a, buf, j);
      assert BindOne(a, buf, j)[Use(a, k)] == LDR_X17;
      BindLinks(a, BindOne(a, buf, j), j + 1, k);
    } else {
      BindLinksNow(a, buf, j);
    }
  }

  /** The label bound next: its load is linked to the end of the buffer, where its data is put. */
  lemma BindLinksNow(a: Asm, buf: seq<Word>, j: nat)
    requires Bindable(a, buf) && j < |a.labels| && buf[Use(a, j)] == LDR_X17
    ensures var f, p := BindFrom(buf, a.labels, j), |buf|;
            && Use(a, j) < p && p + 2 <= |f| && f[Use(a, j)] == Link(LDR_X17, p - Use(a, j))
            && f[p] == DoubleWords(a.labels[j].data)[0] && f[p + 1] == DoubleWords(a.labels[j].data)[1]
  {
    BoundKeeps(a, buf, j, Use(a, j));
    BoundKeeps(a, buf, j, |buf|);
    BoundKeeps(a, buf, j, |buf| + 1);
  }

  /** What binding label j leaves is kept by the labels after it. */
  lemma BoundKeeps(a: Asm, buf: seq<Word>, j: nat, q: nat)
    requires Bindable(a, buf) && j < |a.labels| && (q == Use(a, j) || |buf| <= q < |buf| + 2)
    ensures var f := BindFrom(buf, a.labels, j);
            q < |BindOne(a, buf, j)| <= |f| && f[q] == BindOne(a, buf, j)[q]
  {
    BindStep(a, buf, j);
    BindKeeps(a, BindOne(a, buf, j), j + 1, q);
  }

  /** The block is the final assembler state `e` with its branch back, bound. */
  lemma BlockIsBound(window: seq<Word>, pc: Addr, i: nat, words: seq<Word>) returns (e: Asm)
    requires i <= |window| && Relocate(window, pc) == Some(words)
    ensures Emitted(window, pc, |window|) == Some(e)
    ensures Emitted(window, pc, i).Some? && Extends(Emitted(window, pc, i).value, e)
    ensures Bindable(e, e.buf + Tail(At(pc, |window|)))
    ensures words == BindFrom(e.buf + Tail(At(pc, |window|)), e.labels, 0)
  {
    e := Emitted(window, pc, |window|).value;
    EmittedExtends(window, pc, i, |window|);
  }

  /** A word emitted between states a and b stays, unless it is a recorded load. */
  lemma PlainStays(a: Asm, b: Asm, e: Asm, tail: seq<Word>, q: nat)
    requires Extends(a, e) && Extends(b, e) && |a.buf| <= q < |b.buf| && |a.labels| <= |b.labels|
    requires Bindable(e, e.buf + tail)
    requires forall k :: |a.labels| <= k < |b.labels| ==> Use(b, k) != q
    ensures var f := BindFrom(e.buf + tail, e.labels, 0); q < |f| && f[q] == b.buf[q]
  {
    forall k | 0 <= k < |e.labels|
      ensures Use(e, k) != q
    {
      if k < |a.labels| {
        assert e.labels[k] == a.labels[k] && Use(e, k) == Use(a, k) < |a.buf|;
      } else if k < |b.labels| {
        assert e.labels[k] == b.labels[k] && Use(e, k) == Use(b, k);
      }
    }
    BindKeeps(e, e.buf + tail, 0, q);
  }

  /** A load recorded at `u` for a label of state b reaches that label's data, n words on. */
  lemma LoadReaches(b: Asm, e: Asm, tail: seq<Word>, k: nat) returns (n: nat)
    requires Extends(b, e) && k < |b.labels| && Bindable(e, e.buf + tail)
    ensures var f, u := BindFrom(e.buf + tail, e.labels, 0), Use(b, k);
            && u + n + 2 <= |f| && f[u] == Link(LDR_X17, n)
            && f[u + n] == DoubleWords(b.labels[k].data)[0] && f[u + n + 1] == DoubleWords(b.labels[k].data)[1]
  {
    assert e.labels[k] == b.labels[k] && Use(e, k) == Use(b, k);
    var buf := e.buf + tail;
    BindLinks(e, buf, 0, k);
    n := Pool(buf, 0, k) - Use(b, k);
  }

  /** The branch back stands behind the last instruction's words. */
  lemma TailStays(e: Asm, tail: seq<Word>, q: nat)
    requires Bindable(e, e.buf + tail) && q < |tail|
    ensures var f := BindFrom(e.buf + tail, e.labels, 0);
            |e.buf| + q < |f| && f[|e.buf| + q] == tail[q]
  {
    BindKeeps(e, e.buf + tail, 0, |e.buf| + q);
  }

  // ----- when relocation succeeds, and how large its result is -----

  /** LDRSW, PRFM and 128-bit literals, which the relocator aborts on. */
  predicate Unimplemented(w: Word) { Top(w) == 0x98 || Top(w) == 0x9C || Top(w) == 0xD8 || Top(w) == 0xDC }

  lemma AbortsOn(t: nat)
    requires t < 0x100
    ensures MatchesLiteral(t) && t / 0x40 > 1 <==> t == 0x98 || t == 0x9C || t == 0xD8 || t == 0xDC
  {
  }

  lemma {:induction false} EmittedDefined(window: seq<Word>, pc: Addr, n: nat)
    requires n <= |window|
    ensures Emitted(window, pc, n).Some? <==> forall i :: 0 <= i < n ==> !Unimplemented(window[i])
  {
    if n > 0 {
      EmittedDefined(window, pc, n - 1);
      AbortsOn(Top(window[n - 1]));
    }
  }

  /** Relocation aborts exactly on those literal loads. */
  lemma RelocateDefined(window: seq<Word>, pc: Addr)
    ensures Relocate(window, pc).Some? <==> forall i :: 0 <= i < |window| ==> !Unimplemented(window[i])
  {
    EmittedDefined(window, pc, |window|);
  }

  /** Words of the block so far, counting the label data still to come. */
  function Cost(a: Asm): nat { |a.buf| + 2 * |a.labels| }

  lemma {:induction false} EmittedCost(window: seq<Word>, pc: Addr, n: nat)
    requires n <= |window| && Emitted(window, pc, n).Some?
    ensures Cost(Emitted(window, pc, n).value) <= 5 * n
  {
    if n > 0 {
      EmittedCost(window, pc, n - 1);
      RelocateOneCost(Emitted(window, pc, n - 1).value, At(pc, n - 1), window[n - 1]);
    }
  }

  lemma RelocateOneCost(a: Asm, pc: Addr, w: Word)
    ensures RelocateOne(a, pc, w).Some? ==> Cost(RelocateOne(a, pc, w).value) <= Cost(a) + 5
  {
  }

  lemma {:induction false} BindSize(buf: seq<Word>, labels: seq<Label>, j: nat)
    requires j <= |labels| && UsesBelow(labels, |buf|)
    ensures |BindFrom(buf, labels, j)| == |buf| + 2 * (|labels| - j)
    decreases |labels| - j
  {
    if j < |labels| {
      BindSize(LinkUses(buf, labels[j].uses, |buf|) + DoubleWords(labels[j].data), labels, j + 1);
    }
  }

  /** Five words for each instruction and four for the branch back are enough. */
  lemma RelocatedSize(window: seq<Word>, pc: Addr, words: seq<Word>)
    requires Relocate(window, pc) == Some(words)
    ensures |words| <= 5 * |window| + 4
  {
    var e := Emitted(window, pc, |window|).value;
    EmittedCost(window, pc, |window|);
    BindSize(e.buf + Tail(At(pc, |window|)), e.labels, 0);
  }
}
