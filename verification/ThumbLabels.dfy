/** Literal labels of the Thumb-2 assembler: loads are recorded while a label is unbound and linked when
    the label's data is emitted. */
module ThumbLabels {
  import opened Common
  import opened CodeBuffer

  /** A label's data, and the positions and destination registers of its recorded loads. */
  datatype Load = Load(position: nat, rt: nat)
  datatype Label = Label(data: nat, loads: seq<Load>)

  // ----- the instruction -----

  /** LDR.W Rt, [PC, #0] with the subtract form: what EmitThumb2LoadLiteral emits for offset 0. */
  function UnlinkedLoad(rt: nat): seq<Byte>
    requires rt < 16
  {
    Le16(0xF85F) + Le16(rt * 0x1000)
  }

  /** The add form with this displacement. */
  function LinkedLoad(rt: nat, imm12: nat): seq<Byte>
    requires rt < 16 && imm12 < 0x1000
  {
    Le16(0xF8DF) + Le16(rt * 0x1000 + imm12)
  }

  /** Where a literal load of the add form at position p of a 4-aligned block loads from, as an offset into
      the block: Align(PC, 4) plus the immediate, with PC four bytes on. */
  function LoadsFrom(code: seq<Byte>, p: nat): nat
    requires p + 4 <= |code|
  {
    (p + 4) / 4 * 4 + ReadLe16(code, p + 2) % 0x1000
  }

  predicate IsLoad(code: seq<Byte>, p: nat, rt: nat)
    requires p + 4 <= |code|
  {
    ReadLe16(code, p) == 0xF8DF && ReadLe16(code, p + 2) / 0x1000 == rt
  }

  /** The two numbers or-ed, as far as their low n bits go. */
  function Or(a: nat, b: nat, n: nat): (r: nat)
    ensures r < Pow2(n)
  {
    if n == 0 then 0 else (if a % 2 == 1 || b % 2 == 1 then 1 else 0) + 2 * Or(a / 2, b / 2, n - 1)
  }

  /** The subtract form for a displacement of -m: bits of m above the twelfth run into the register field. */
  function BackwardLoad(rt: nat, m: nat): seq<Byte>
    requires rt < 16
  {
    assert Pow2(4) == 16;
    Le16(0xF85F) + Le16(Or(rt, m / 0x1000, 4) * 0x1000 + m % 0x1000)
  }

  /** Where a literal load of the subtract form at p loads from. */
  function LoadsBackFrom(code: seq<Byte>, p: nat): int
    requires p + 4 <= |code|
  {
    (p + 4) / 4 * 4 - ReadLe16(code, p + 2) % 0x1000
  }

  /** The displacement linking computes. */
  function LinkOffset(pos: nat, p: nat): int { pos - p / 4 * 4 - 4 }

  // ----- linking, on values -----

  predicate LoadsBelow(loads: seq<Load>, n: nat) {
    forall k :: 0 <= k < |loads| ==> loads[k].rt < 16 && loads[k].position + 4 <= n
  }

  /** The check that each displacement has 12 bits; the process aborts where it fails. */
  predicate Linkable(loads: seq<Load>, pos: nat) {
    forall k :: 0 <= k < |loads| ==> 0 <= LinkOffset(pos, loads[k].position) < 0x1000
  }

  function LinkAll(code: seq<Byte>, loads: seq<Load>, pos: nat): (r: seq<Byte>)
    requires LoadsBelow(loads, |code|) && Linkable(loads, pos)
    ensures |r| == |code|
    decreases |loads|
  {
    if loads == [] then code
    else
      var l := loads[0];
      LinkAll(Overwrite(code, l.position, LinkedLoad(l.rt, LinkOffset(pos, l.position))), loads[1..], pos)
  }

  /** Where the data of label j is bound when binding starts with n bytes: labels follow each other. */
  function BoundAt(n: nat, j: nat): nat { n + 4 * j }

  ghost predicate WellLabelled(labels: seq<Label>, n: nat) {
    forall j :: 0 <= j < |labels| ==> labels[j].data < 0x1_0000_0000 && LoadsBelow(labels[j].loads, n)
  }

  /** The first m labels can be linked. */
  ghost predicate LinkableUpTo(labels: seq<Label>, n: nat, m: nat) {
    forall j :: 0 <= j < m && j < |labels| ==> Linkable(labels[j].loads, BoundAt(n, j))
  }

  /** The code after the first j labels are bound. */
  function Bound(code: seq<Byte>, labels: seq<Label>, j: nat): (r: seq<Byte>)
    requires j <= |labels| && WellLabelled(labels, |code|) && LinkableUpTo(labels, |code|, j)
    ensures |r| == BoundAt(|code|, j)
  {
    if j == 0 then code
    else LinkAll(Bound(code, labels, j - 1), labels[j - 1].loads, BoundAt(|code|, j - 1)) + Le32(labels[j - 1].data)
  }

  // ----- the assembler -----

  class ThumbTurboAssembler {
    const buffer: Buffer
    var labels: seq<Label>
    /** Where the first labels are bound. */
    var bound: seq<nat>

    ghost predicate Valid()
      reads this, buffer, buffer.data
    {
      && buffer.Valid() && |bound| <= |labels| && WellLabelled(labels, buffer.cursor)
      && RecordedFrom(buffer.Contents(), labels, |bound|)
      && (forall j :: 0 <= j < |bound| ==> bound[j] + 4 <= buffer.cursor)
    }

    constructor ()
      ensures Valid() && fresh(buffer) && fresh(buffer.data) && buffer.Contents() == [] && labels == [] && bound == []
    {
      buffer := new Buffer(32);
      labels, bound := [], [];
    }

    /** Any other code. */
    method Emit(bytes: seq<Byte>)
      requires Valid() && Grown(buffer.cursor + |bytes|) < 0x1_0000_0000
      modifies this, buffer, buffer.data
      ensures Valid() && (buffer.data == old(buffer.data) || fresh(buffer.data))
      ensures buffer.Contents() == old(buffer.Contents()) + bytes && labels == old(labels) && bound == old(bound)
    {
      RecordedFromGrows(buffer.Contents(), labels, |bound|, bytes);
      buffer.Emit(bytes);
    }

    method AppendRelocLabelEntry(data: nat)
      requires Valid() && data < 0x1_0000_0000
      modifies this
      ensures Valid() && buffer.Contents() == old(buffer.Contents()) && labels == old(labels) + [Label(data, [])]
      ensures bound == old(bound)
    {
      labels := labels + [Label(data, [])];
    }

    /** T2_Ldr of label j: if it is not yet bound, record the position and emit the load unlinked. */
    method T2Ldr(rt: nat, j: nat)
      requires Valid() && j < |labels| && rt < 16 && Grown(buffer.cursor + 4) < 0x1_0000_0000
      modifies this, buffer, buffer.data
      ensures Valid() && (buffer.data == old(buffer.data) || fresh(buffer.data)) && bound == old(bound)
      ensures var p := |old(buffer.Contents())|;
              if j < |bound| then
                buffer.Contents() == old(buffer.Contents()) + BackwardLoad(rt, p - bound[j]) && labels == old(labels)
              else
                && buffer.Contents() == old(buffer.Contents()) + UnlinkedLoad(rt)
                && labels == old(labels)[j := WithLoad(old(labels)[j], Load(p, rt))]
    {
      if j < |bound| {
        var m := buffer.cursor - bound[j];
        assert Pow2(4) == 16;
        RecordedFromGrows(buffer.Contents(), labels, |bound|, BackwardLoad(rt, m));
        EmitHalves(0xF85F, Or(rt, m / 0x1000, 4) * 0x1000 + m % 0x1000);
      } else {
        RecordedLoad(buffer.Contents(), labels, |bound|, j, rt);
        labels := labels[j := WithLoad(labels[j], Load(buffer.cursor, rt))];
        EmitHalves(0xF85F, rt * 0x1000);
      }
    }

    method EmitHalves(first: nat, second: nat)
      requires buffer.Valid() && Grown(buffer.cursor + 4) < 0x1_0000_0000 && first < 0x1_0000 && second < 0x1_0000
      modifies buffer, buffer.data
      ensures buffer.Valid() && (buffer.data == old(buffer.data) || fresh(buffer.data))
      ensures buffer.Contents() == old(buffer.Contents()) + (Le16(first) + Le16(second))
    {
      buffer.Emit(Le16(first));
      buffer.Emit(Le16(second));
    }

    /** Rewrite the two halfwords of one recorded load. */
    method LinkOne(l: Load, offset: nat)
      requires buffer.Valid() && IsUnlinked(buffer.Contents(), l) && offset < 0x1000
      modifies buffer.data
      ensures buffer.Valid()
      ensures buffer.Contents() == Overwrite(old(buffer.Contents()), l.position, LinkedLoad(l.rt, offset))
    {
      var inst1 := buffer.Load16(l.position);
      var inst2 := buffer.Load16(l.position + 2);
      UnlinkedWords(buffer.Contents(), l);
      LinkedWords(inst1, inst2, l.rt, offset);
      RewriteHalves(l.position, WithB7(inst1), inst2 / 0x1000 * 0x1000 + offset);
    }

    method RewriteHalves(p: nat, first: nat, second: nat)
      requires buffer.Valid() && p + 4 <= buffer.cursor && first < 0x1_0000 && second < 0x1_0000
      modifies buffer.data
      ensures buffer.Valid() && buffer.Contents() == Overwrite(old(buffer.Contents()), p, Le16(first) + Le16(second))
    {
      buffer.Rewrite(p, Le16(first));
      buffer.Rewrite(p + 2, Le16(second));
      TwoRewrites(old(buffer.Contents()), p, Le16(first), Le16(second));
    }

    /** link_confused_instructions, for all loads of a label bound at pos. False is the abort. */
    method LinkConfused(loads: seq<Load>, pos: nat) returns (ok: bool)
      requires buffer.Valid() && RecordedLoads(buffer.Contents(), loads)
      modifies buffer.data
      ensures buffer.Valid() && ok == Linkable(loads, pos)
      ensures ok ==> buffer.Contents() == LinkAll(old(buffer.Contents()), loads, pos)
    {
      for i := 0 to |loads|
        invariant buffer.Valid() && RecordedLoads(buffer.Contents(), loads[i..])
        invariant Linkable(loads[..i], pos)
        invariant Linkable(loads, pos) ==>
                    LinkAll(buffer.Contents(), loads[i..], pos) == LinkAll(old(buffer.Contents()), loads, pos)
      {
        var l := loads[i];
        assert loads[i..][0] == l && loads[i..][1..] == loads[i + 1..];
        var offset := LinkOffset(pos, l.position);
        if !(0 <= offset < 0x1000) { return false; }
        RestStays(buffer.Contents(), loads[i..], LinkedLoad(l.rt, offset));
        LinkOne(l, offset);
      }
      assert loads[..|loads|] == loads;
      ok := true;
    }

    /** ThumbPseudoBind and EmitAddress for label j, which is bound where the buffer ends. */
    method BindLabel(j: nat) returns (ok: bool)
      requires buffer.Valid() && j < |labels| && labels[j].data < 0x1_0000_0000
      requires RecordedLoads(buffer.Contents(), labels[j].loads) && Grown(buffer.cursor + 4) < 0x1_0000_0000
      modifies buffer, buffer.data
      ensures buffer.Valid() && (buffer.data == old(buffer.data) || fresh(buffer.data))
      ensures ok == Linkable(labels[j].loads, |old(buffer.Contents())|)
      ensures ok ==> buffer.Contents() ==
                     LinkAll(old(buffer.Contents()), labels[j].loads, |old(buffer.Contents())|) + Le32(labels[j].data)
    {
      ok := LinkConfused(labels[j].loads, buffer.cursor);
      if ok {
        buffer.Emit(Le32(labels[j].data));
      }
    }

    /** The loop of RelocBind: bind each label at the end of the buffer, link its loads, emit its data. */
    method BindAll() returns (ok: bool, positions: seq<nat>)
      requires Valid() && bound == [] && Grown(buffer.cursor + 4 * |labels|) < 0x1_0000_0000
      modifies buffer, buffer.data
      ensures buffer.Valid() && (buffer.data == old(buffer.data) || fresh(buffer.data))
      ensures ok == LinkableUpTo(labels, |old(buffer.Contents())|, |labels|)
      ensures ok ==> Progress(old(buffer.Contents()), labels, |labels|, buffer.Contents())
      ensures ok ==> BoundInOrder(positions, |old(buffer.Contents())|, |labels|)
    {
      ghost var code := buffer.Contents();
      positions := [];
      for j := 0 to |labels|
        invariant buffer.Valid() && (buffer.data == old(buffer.data) || fresh(buffer.data))
        invariant Progress(code, labels, j, buffer.Contents()) && BoundInOrder(positions, |code|, j)
      {
        ProgressStep(code, labels, j, buffer.Contents());
        positions := positions + [buffer.cursor];
        var linked := BindLabel(j);
        if !linked { return false, positions; }
      }
      ok := true;
    }

    method RelocBind() returns (ok: bool)
      requires Valid() && bound == [] && Grown(buffer.cursor + 4 * |labels|) < 0x1_0000_0000
      modifies this, buffer, buffer.data
      ensures buffer.Valid() && labels == old(labels)
      ensures ok == LinkableUpTo(labels, |old(buffer.Contents())|, |labels|)
      ensures ok ==> buffer.Contents() == Bound(old(buffer.Contents()), labels, |labels|)
      ensures ok ==> Valid() && BoundInOrder(bound, |old(buffer.Contents())|, |labels|)
    {
      ghost var n := |buffer.Contents()|;
      var positions;
      ok, positions := BindAll();
      if ok {
        WellLabelledGrows(labels, n, buffer.cursor);
        bound := positions;
      }
    }

    /** RelocBindFixup: rewrite only the word at the label. */
    method RelocBindFixup(pos: nat, data: nat)
      requires buffer.Valid() && pos + 4 <= buffer.cursor && data < 0x1_0000_0000
      modifies buffer.data
      ensures buffer.Valid() && buffer.Contents() == Overwrite(old(buffer.Contents()), pos, Le32(data))
    {
      buffer.Rewrite(pos, Le32(data));
    }
  }

  /** The labels are bound one behind the other from n on. */
  predicate BoundInOrder(bound: seq<nat>, n: nat, count: nat) {
    |bound| == count && forall j :: 0 <= j < count ==> bound[j] == BoundAt(n, j)
  }

  lemma WellLabelledGrows(labels: seq<Label>, n: nat, m: nat)
    requires WellLabelled(labels, n) && n <= m
    ensures WellLabelled(labels, m)
  {
    forall j | 0 <= j < |labels|
      ensures LoadsBelow(labels[j].loads, m)
    {
      assert LoadsBelow(labels[j].loads, n);
    }
  }

  // ----- recorded loads -----

  predicate Separate(a: Load, b: Load) { a.position + 4 <= b.position || b.position + 4 <= a.position }

  predicate IsUnlinked(code: seq<Byte>, l: Load) {
    l.rt < 16 && l.position + 4 <= |code| && code[l.position..l.position + 4] == UnlinkedLoad(l.rt)
  }

  /** The recorded loads of the labels from j on are in the code, unlinked, and no two overlap. */
  ghost predicate RecordedFrom(code: seq<Byte>, labels: seq<Label>, j: nat) {
    && (forall a, k {:trigger IsUnlinked(code, labels[a].loads[k])} ::
          j <= a < |labels| && 0 <= k < |labels[a].loads| ==> IsUnlinked(code, labels[a].loads[k]))
    && (forall a, k, b, m {:trigger Separate(labels[a].loads[k], labels[b].loads[m])} ::
          j <= a < |labels| && 0 <= k < |labels[a].loads| &&
          j <= b < |labels| && 0 <= m < |labels[b].loads| && (a, k) != (b, m) ==>
            Separate(labels[a].loads[k], labels[b].loads[m]))
  }

  ghost predicate Recorded(code: seq<Byte>, labels: seq<Label>) { RecordedFrom(code, labels, 0) }

  lemma RecordedFromGrows(code: seq<Byte>, labels: seq<Label>, j: nat, bytes: seq<Byte>)
    requires RecordedFrom(code, labels, j)
    ensures RecordedFrom(code + bytes, labels, j)
  {
    forall a, k | j <= a < |labels| && 0 <= k < |labels[a].loads|
      ensures IsUnlinked(code + bytes, labels[a].loads[k])
    {
      var p := labels[a].loads[k].position;
      assert IsUnlinked(code, labels[a].loads[k]);
      assert (code + bytes)[p..p + 4] == code[p..p + 4];
    }
  }

  function WithLoad(a: Label, l: Load): Label { a.(loads := a.loads + [l]) }

  lemma {:induction false} RecordedLoad(code: seq<Byte>, labels: seq<Label>, from: nat, j: nat, rt: nat)
    requires RecordedFrom(code, labels, from) && from <= j < |labels| && rt < 16
    ensures RecordedFrom(code + UnlinkedLoad(rt), labels[j := WithLoad(labels[j], Load(|code|, rt))], from)
  {
    var l, c := Load(|code|, rt), code + UnlinkedLoad(rt);
    RecordedFromGrows(code, labels, from, UnlinkedLoad(rt));
    assert c[|code|..|code| + 4] == UnlinkedLoad(rt);
    var grown := labels[j := WithLoad(labels[j], l)];
    forall a, k | from <= a < |grown| && 0 <= k < |grown[a].loads|
      ensures IsUnlinked(c, grown[a].loads[k])
      ensures (grown[a].loads[k] == l && a == j && k == |labels[j].loads|) || grown[a].loads[k].position + 4 <= |code|
    {
      if k < |labels[a].loads| {
        assert IsUnlinked(c, labels[a].loads[k]) && IsUnlinked(code, labels[a].loads[k]);
      }
    }
    forall a, k, b, m | from <= a < |grown| && 0 <= k < |grown[a].loads| &&
                        from <= b < |grown| && 0 <= m < |grown[b].loads| && (a, k) != (b, m)
      ensures Separate(grown[a].loads[k], grown[b].loads[m])
    {
      if k < |labels[a].loads| && m < |labels[b].loads| {
        assert Separate(labels[a].loads[k], labels[b].loads[m]);
      }
    }
  }

  lemma StaysUnlinked(code: seq<Byte>, l: Load, bytes: seq<Byte>, other: Load)
    requires l.position + 4 <= |code| && |bytes| == 4 && IsUnlinked(code, other) && Separate(l, other)
    ensures IsUnlinked(Overwrite(code, l.position, bytes), other)
  {
    var c, p := Overwrite(code, l.position, bytes), other.position;
    assert c[p..p + 4] == code[p..p + 4];
  }

  lemma UnlinkedWords(code: seq<Byte>, l: Load)
    requires IsUnlinked(code, l)
    ensures ReadLe16(code, l.position) == 0xF85F && ReadLe16(code, l.position + 2) == l.rt * 0x1000
  {
    var p := l.position;
    var u := code[p..p + 4];
    assert u == UnlinkedLoad(l.rt) == [0x5F, 0xF8, 0, l.rt * 0x10];
    assert code[p] == u[0] && code[p + 1] == u[1] && code[p + 2] == u[2] && code[p + 3] == u[3];
  }

  /** Bit 7, which makes it the add form. */
  function WithB7(inst1: nat): nat { if inst1 / 0x80 % 2 == 0 then inst1 + 0x80 else inst1 }

  lemma LinkedWords(inst1: nat, inst2: nat, rt: nat, offset: nat)
    requires inst1 == 0xF85F && inst2 == rt * 0x1000 && rt < 16 && offset < 0x1000
    ensures WithB7(inst1) == 0xF8DF && inst2 / 0x1000 * 0x1000 + offset == rt * 0x1000 + offset < 0x1_0000
  {
  }

  lemma TwoRewrites(code: seq<Byte>, p: nat, a: seq<Byte>, b: seq<Byte>)
    requires |a| == |b| == 2 && p + 4 <= |code|
    ensures Overwrite(Overwrite(code, p, a), p + 2, b) == Overwrite(code, p, a + b)
  {
  }

  /** Loads that are in the code, unlinked, no two overlapping. */
  ghost predicate RecordedLoads(code: seq<Byte>, loads: seq<Load>) {
    && (forall k :: 0 <= k < |loads| ==> IsUnlinked(code, loads[k]))
    && (forall i, k :: 0 <= i < k < |loads| ==> Separate(loads[i], loads[k]))
  }

  lemma LoadsOfLabel(code: seq<Byte>, labels: seq<Label>, j: nat)
    requires j < |labels| && RecordedFrom(code, labels, j)
    ensures RecordedLoads(code, labels[j].loads)
  {
  }

  lemma RestStays(code: seq<Byte>, loads: seq<Load>, bytes: seq<Byte>)
    requires loads != [] && RecordedLoads(code, loads) && |bytes| == 4
    ensures RecordedLoads(Overwrite(code, loads[0].position, bytes), loads[1..])
  {
    forall k | 0 <= k < |loads[1..]|
      ensures IsUnlinked(Overwrite(code, loads[0].position, bytes), loads[1..][k])
    {
      StaysUnlinked(code, loads[0], bytes, loads[k + 1]);
    }
  }

  lemma {:induction false} LinkKeepsUnlinked(code: seq<Byte>, loads: seq<Load>, pos: nat, other: Load)
    requires LoadsBelow(loads, |code|) && Linkable(loads, pos) && IsUnlinked(code, other)
    requires forall k :: 0 <= k < |loads| ==> Separate(loads[k], other)
    ensures IsUnlinked(LinkAll(code, loads, pos), other)
    decreases |loads|
  {
    if loads != [] {
      var l := loads[0];
      var bytes := LinkedLoad(l.rt, LinkOffset(pos, l.position));
      StaysUnlinked(code, l, bytes, other);
      LinkKeepsUnlinked(Overwrite(code, l.position, bytes), loads[1..], pos, other);
    }
  }

  lemma {:induction false} OthersStay(code: seq<Byte>, labels: seq<Label>, j: nat, pos: nat)
    requires j < |labels| && RecordedFrom(code, labels, j)
    requires LoadsBelow(labels[j].loads, |code|) && Linkable(labels[j].loads, pos)
    ensures RecordedFrom(LinkAll(code, labels[j].loads, pos), labels, j + 1)
  {
    forall a, k | j + 1 <= a < |labels| && 0 <= k < |labels[a].loads|
      ensures IsUnlinked(LinkAll(code, labels[j].loads, pos), labels[a].loads[k])
    {
      LinkKeepsUnlinked(code, labels[j].loads, pos, labels[a].loads[k]);
    }
  }

  lemma {:induction false} AfterLabel(code: seq<Byte>, labels: seq<Label>, j: nat)
    requires j < |labels| && RecordedFrom(code, labels, j) && labels[j].data < 0x1_0000_0000
    requires LoadsBelow(labels[j].loads, |code|) && Linkable(labels[j].loads, |code|)
    ensures RecordedFrom(LinkAll(code, labels[j].loads, |code|) + Le32(labels[j].data), labels, j + 1)
  {
    OthersStay(code, labels, j, |code|);
    RecordedFromGrows(LinkAll(code, labels[j].loads, |code|), labels, j + 1, Le32(labels[j].data));
  }

  /** The code after j labels, with the loads of the others still to be linked. */
  ghost predicate Progress(code: seq<Byte>, labels: seq<Label>, j: nat, now: seq<Byte>) {
    && j <= |labels| && WellLabelled(labels, |code|) && LinkableUpTo(labels, |code|, j)
    && now == Bound(code, labels, j) && RecordedFrom(now, labels, j)
  }

  lemma {:induction false} ProgressStep(code: seq<Byte>, labels: seq<Label>, j: nat, now: seq<Byte>)
    requires Progress(code, labels, j, now) && j < |labels|
    ensures |now| == BoundAt(|code|, j) && labels[j].data < 0x1_0000_0000
    ensures RecordedLoads(now, labels[j].loads) && LoadsBelow(labels[j].loads, |now|)
    ensures Linkable(labels[j].loads, |now|) ==>
              Progress(code, labels, j + 1, LinkAll(now, labels[j].loads, |now|) + Le32(labels[j].data))
    ensures !Linkable(labels[j].loads, |now|) ==> !LinkableUpTo(labels, |code|, |labels|)
  {
    LoadsOfLabel(now, labels, j);
    if Linkable(labels[j].loads, |now|) {
      AfterLabel(now, labels, j);
    }
  }

  // ----- what binding leaves -----

  predicate Avoids(loads: seq<Load>, q: nat) {
    forall k :: 0 <= k < |loads| ==> q < loads[k].position || loads[k].position + 4 <= q
  }

  /** No load of the labels from j on covers byte q. */
  ghost predicate AllAvoid(labels: seq<Label>, j: nat, q: nat) {
    forall a {:trigger Avoids(labels[a].loads, q)} :: j <= a < |labels| ==> Avoids(labels[a].loads, q)
  }

  /** Linking changes no byte outside the loads. */
  lemma {:induction false} LinkAllElsewhere(code: seq<Byte>, loads: seq<Load>, pos: nat, q: nat)
    requires LoadsBelow(loads, |code|) && Linkable(loads, pos) && q < |code| && Avoids(loads, q)
    ensures LinkAll(code, loads, pos)[q] == code[q]
    decreases |loads|
  {
    if loads != [] {
      var l := loads[0];
      LinkAllElsewhere(Overwrite(code, l.position, LinkedLoad(l.rt, LinkOffset(pos, l.position))), loads[1..], pos, q);
    }
  }

  /** Linking puts the linked form in the place of each load. */
  lemma {:induction false} LinkAllAt(code: seq<Byte>, loads: seq<Load>, pos: nat, k: nat, b: nat)
    requires LoadsBelow(loads, |code|) && Linkable(loads, pos) && k < |loads| && b < 4
    requires forall i, m :: 0 <= i < m < |loads| ==> Separate(loads[i], loads[m])
    ensures LinkAll(code, loads, pos)[loads[k].position + b] ==
            LinkedLoad(loads[k].rt, LinkOffset(pos, loads[k].position))[b]
    decreases |loads|
  {
    var l := loads[0];
    var bytes := LinkedLoad(l.rt, LinkOffset(pos, l.position));
    var next := Overwrite(code, l.position, bytes);
    if k > 0 {
      LinkAllAt(next, loads[1..], pos, k - 1, b);
    } else {
      LinkAllElsewhere(next, loads[1..], pos, l.position + b);
      assert next[l.position + b] == bytes[b];
    }
  }

  /** Binding further labels changes no byte outside their loads. */
  lemma {:induction false} BoundElsewhere(code: seq<Byte>, labels: seq<Label>, j: nat, m: nat, q: nat)
    requires j <= m <= |labels| && WellLabelled(labels, |code|) && LinkableUpTo(labels, |code|, m)
    requires q < BoundAt(|code|, j) && AllAvoid(labels, j, q)
    ensures Bound(code, labels, m)[q] == Bound(code, labels, j)[q]
    decreases m
  {
    if j < m {
      BoundElsewhere(code, labels, j, m - 1, q);
      LinkAllElsewhere(Bound(code, labels, m - 1), labels[m - 1].loads, BoundAt(|code|, m - 1), q);
    }
  }

  /** No byte of the code changes outside the recorded loads. */
  lemma {:induction false} OnlyLoadsChange(code: seq<Byte>, labels: seq<Label>, q: nat)
    requires WellLabelled(labels, |code|) && LinkableUpTo(labels, |code|, |labels|)
    requires q < |code| && AllAvoid(labels, 0, q)
    ensures Bound(code, labels, |labels|)[q] == code[q]
  {
    BoundElsewhere(code, labels, 0, |labels|, q);
  }

  /** Later labels' loads avoid the bytes of a load. */
  lemma LaterAvoid(code: seq<Byte>, labels: seq<Label>, a: nat, k: nat, q: nat)
    requires Recorded(code, labels) && a < |labels| && k < |labels[a].loads|
    requires labels[a].loads[k].position <= q < labels[a].loads[k].position + 4
    ensures AllAvoid(labels, a + 1, q)
  {
    forall c, m | a + 1 <= c < |labels| && 0 <= m < |labels[c].loads|
      ensures q < labels[c].loads[m].position || labels[c].loads[m].position + 4 <= q
    {
      assert Separate(labels[a].loads[k], labels[c].loads[m]);
    }
  }

  /** All loads lie before the label data. */
  lemma DataAvoided(labels: seq<Label>, n: nat, j: nat, q: nat)
    requires WellLabelled(labels, n) && n <= q
    ensures AllAvoid(labels, j, q)
  {
    forall c, m | j <= c < |labels| && 0 <= m < |labels[c].loads|
      ensures labels[c].loads[m].position + 4 <= q
    {
      assert LoadsBelow(labels[c].loads, n);
    }
  }

  lemma {:induction false} JustBound(code: seq<Byte>, labels: seq<Label>, a: nat, k: nat, b: nat)
    requires Recorded(code, labels) && WellLabelled(labels, |code|) && LinkableUpTo(labels, |code|, a + 1)
    requires a < |labels| && k < |labels[a].loads| && b < 4
    ensures var l := labels[a].loads[k];
            Bound(code, labels, a + 1)[l.position + b] ==
            LinkedLoad(l.rt, LinkOffset(BoundAt(|code|, a), l.position))[b]
  {
    LoadsOfLabelSeparate(code, labels, a);
    LinkAllAt(Bound(code, labels, a), labels[a].loads, BoundAt(|code|, a), k, b);
  }

  lemma {:induction false} BoundLoadByte(code: seq<Byte>, labels: seq<Label>, a: nat, k: nat, b: nat)
    requires Recorded(code, labels) && WellLabelled(labels, |code|) && LinkableUpTo(labels, |code|, |labels|)
    requires a < |labels| && k < |labels[a].loads| && b < 4
    ensures var l := labels[a].loads[k];
            Bound(code, labels, |labels|)[l.position + b] ==
            LinkedLoad(l.rt, LinkOffset(BoundAt(|code|, a), l.position))[b]
  {
    var l := labels[a].loads[k];
    JustBound(code, labels, a, k, b);
    LaterAvoid(code, labels, a, k, l.position + b);
    BoundElsewhere(code, labels, a + 1, |labels|, l.position + b);
  }

  lemma LoadsOfLabelSeparate(code: seq<Byte>, labels: seq<Label>, a: nat)
    requires Recorded(code, labels) && a < |labels|
    ensures forall i, m :: 0 <= i < m < |labels[a].loads| ==> Separate(labels[a].loads[i], labels[a].loads[m])
  {
  }

  lemma {:induction false} JustData(code: seq<Byte>, labels: seq<Label>, a: nat, b: nat)
    requires WellLabelled(labels, |code|) && a < |labels| && LinkableUpTo(labels, |code|, a + 1) && b < 4
    ensures Bound(code, labels, a + 1)[BoundAt(|code|, a) + b] == Le32(labels[a].data)[b]
  {
    var before := LinkAll(Bound(code, labels, a), labels[a].loads, BoundAt(|code|, a));
    assert |before| == BoundAt(|code|, a);
  }

  lemma {:induction false} BoundDataByte(code: seq<Byte>, labels: seq<Label>, a: nat, b: nat)
    requires WellLabelled(labels, |code|) && LinkableUpTo(labels, |code|, |labels|) && a < |labels| && b < 4
    ensures Bound(code, labels, |labels|)[BoundAt(|code|, a) + b] == Le32(labels[a].data)[b]
  {
    JustData(code, labels, a, b);
    DataAvoided(labels, |code|, a + 1, BoundAt(|code|, a) + b);
    BoundElsewhere(code, labels, a + 1, |labels|, BoundAt(|code|, a) + b);
  }

  /** The main theorem: after binding, every recorded load keeps its register and loads exactly its own
      label's word. */
  lemma {:induction false} LoadsReachTheirLabels(code: seq<Byte>, labels: seq<Label>, a: nat, k: nat)
    requires Recorded(code, labels) && WellLabelled(labels, |code|) && LinkableUpTo(labels, |code|, |labels|)
    requires a < |labels| && k < |labels[a].loads|
    ensures var l, pos := labels[a].loads[k], BoundAt(|code|, a);
            var final := Bound(code, labels, |labels|);
            && pos + 4 <= |final| && final[pos..pos + 4] == Le32(labels[a].data)
            && IsLoad(final, l.position, l.rt) && LoadsFrom(final, l.position) == pos
  {
    var l, pos := labels[a].loads[k], BoundAt(|code|, a);
    var final := Bound(code, labels, |labels|);
    forall b | 0 <= b < 4
      ensures final[pos + b] == Le32(labels[a].data)[b]
    {
      BoundDataByte(code, labels, a, b);
    }
    assert final[pos..pos + 4] == Le32(labels[a].data);
    var linked := LinkedLoad(l.rt, LinkOffset(pos, l.position));
    forall b | 0 <= b < 4
      ensures final[l.position + b] == linked[b]
    {
      BoundLoadByte(code, labels, a, k, b);
    }
    assert final[l.position..l.position + 4] == linked;
    LinkedReads(final, l, LinkOffset(pos, l.position));
  }

  lemma LinkedReads(code: seq<Byte>, l: Load, offset: nat)
    requires l.rt < 16 && offset < 0x1000 && l.position + 4 <= |code|
    requires code[l.position..l.position + 4] == LinkedLoad(l.rt, offset)
    ensures IsLoad(code, l.position, l.rt) && LoadsFrom(code, l.position) == l.position / 4 * 4 + 4 + offset
  {
    var v, p := l.rt * 0x1000 + offset, l.position;
    var u := code[p..p + 4];
    assert u == [0xDF, 0xF8, v % 0x100, v / 0x100];
    assert code[p] == u[0] && code[p + 1] == u[1] && code[p + 2] == u[2] && code[p + 3] == u[3];
    assert ReadLe16(code, p + 2) == v;
    assert v / 0x1000 == l.rt && v % 0x1000 == offset;
  }

  /** Binding aborts exactly if some recorded load, read from Align(PC, 4), is not 0 to 4095 bytes before the
      word its label gets. */
  lemma LinkableExact(labels: seq<Label>, n: nat)
    ensures LinkableUpTo(labels, n, |labels|) <==>
            forall j, k :: 0 <= j < |labels| && 0 <= k < |labels[j].loads| ==>
              0 <= n + 4 * j - (labels[j].loads[k].position + 4) / 4 * 4 < 4096
  {
    forall j, k | 0 <= j < |labels| && 0 <= k < |labels[j].loads|
      ensures LinkOffset(BoundAt(n, j), labels[j].loads[k].position) ==
              n + 4 * j - (labels[j].loads[k].position + 4) / 4 * 4
    {
    }
    if LinkableUpTo(labels, n, |labels|) {
      forall j, k | 0 <= j < |labels| && 0 <= k < |labels[j].loads|
        ensures 0 <= n + 4 * j - (labels[j].loads[k].position + 4) / 4 * 4 < 4096
      {
        assert Linkable(labels[j].loads, BoundAt(n, j));
      }
    }
  }

  /** A load of a label that is already bound is emitted with the distance to the label instead of that to
      Align(PC, 4): wherever it stands and whatever the distance, it does not load from its label. */
  lemma BoundLoadMisses(code: seq<Byte>, rt: nat, pos: nat)
    requires rt < 16 && pos <= |code|
    ensures var m := |code| - pos;
            var after := code + BackwardLoad(rt, m);
            && LoadsBackFrom(after, |code|) != pos
            && (m < 0x1000 ==> LoadsBackFrom(after, |code|) == pos + 4 - |code| % 4)
  {
    var m, p := |code| - pos, |code|;
    assert Pow2(4) == 16;
    var v := Or(rt, m / 0x1000, 4) * 0x1000 + m % 0x1000;
    var after := code + BackwardLoad(rt, m);
    assert BackwardLoad(rt, m) == [0x5F, 0xF8, v % 0x100, v / 0x100];
    assert after[p + 2] == v % 0x100 && after[p + 3] == v / 0x100;
    assert ReadLe16(after, p + 2) == v;
    assert v % 0x1000 == m % 0x1000;
  }
}
