/** Lookup in a serialized Mach-O export trie. Positions are offsets from the start of the trie;
    `base` is the address it is mapped at and `end` its length. */
module ExportTrie {
  import opened Common
  import opened Leb128

  /** Fault: a byte outside the readable buffer was needed. */
  datatype Outcome = Found(pos: nat) | NotFound | Fault

  /** Result of scanning the edges of a node: the child reached and the rest of the symbol. */
  datatype Scan = Child(offset: nat, rest: seq<Byte>) | NoEdge | Malformed | Unmapped

  // ----- what the walk computes -----

  /** The first zero byte from p on; |buf| if there is none. */
  function StringEnd(buf: seq<Byte>, p: nat): (z: nat)
    ensures z <= |buf| && (z < |buf| ==> p <= z)
    decreases |buf| - p
  {
    if p >= |buf| then |buf| else if buf[p] == 0 then p else StringEnd(buf, p + 1)
  }

  /** The integers of the buffer; the walk is specified for any such reading of it. */
  function Ulebs(buf: seq<Byte>): nat -> Leb { (p: nat) => UlebAt(buf, p) }

  /** The loop over the n edges that start at p. */
  function ScanEdges(buf: seq<Byte>, uleb: nat -> Leb, end: nat, p: nat, n: nat, symbol: seq<Byte>): (r: Scan)
    ensures r.Child? ==> 0 < r.offset <= end
    decreases n
  {
    if n == 0 then NoEdge else
    var z := StringEnd(buf, p);
    if z == |buf| then Unmapped
    else match uleb(z + 1)
      case Unreadable => Unmapped
      case Undefined => Unmapped
      case Ok(offset, q) =>
        if buf[p..z] <= symbol then
          if offset <= 0 || offset > end then Malformed else Child(offset, symbol[z - p..])
        else if q > end then Malformed
        else ScanEdges(buf, uleb, end, q, n - 1, symbol)
  }

  datatype Visit = Done(outcome: Outcome) | Follow(offset: nat, rest: seq<Byte>)

  /** Offset of the children: pointer arithmetic wraps at the end of the address space. */
  function ChildrenAt(base: nat, offset: int): int {
    if 0 <= base + offset < TWO64 then offset else (base + offset) % TWO64 - base
  }

  /** The children of a node. */
  function VisitChildren(buf: seq<Byte>, uleb: nat -> Leb, end: nat, children: int, symbol: seq<Byte>): Visit {
    if children > end then Done(NotFound)
    else if !(0 <= children < |buf|) then Done(Fault)
    else match ScanEdges(buf, uleb, end, children + 1, buf[children], symbol)
      case Child(offset, rest) => Follow(offset, rest)
      case NoEdge => Done(NotFound)
      case Malformed => Done(NotFound)
      case Unmapped => Done(Fault)
  }

  /** One node of the walk. */
  function VisitNode(buf: seq<Byte>, uleb: nat -> Leb, base: nat, end: nat, p: nat, symbol: seq<Byte>): Visit {
    var size := uleb(p);
    if !size.Ok? then Done(Fault)
    else if symbol == [] && size.value != 0 then Done(Found(size.next))
    else VisitChildren(buf, uleb, end, ChildrenAt(base, size.next + size.value), symbol)
  }

  /** The walk from the node at p, with the offsets recorded so far. `visit` is what VisitNode computes. */
  function Walk(visit: (nat, seq<Byte>) -> Visit, end: nat, p: nat, symbol: seq<Byte>, visited: seq<nat>): Outcome
    requires |visited| < 128
    decreases 128 - |visited|
  {
    if p >= end then NotFound
    else match visit(p, symbol)
      case Done(outcome) => outcome
      case Follow(offset, rest) =>
        if offset in visited || |visited| == 127 then NotFound
        else Walk(visit, end, offset, rest, visited + [offset % 0x1_0000_0000])
  }

  /** The offsets recorded by a walk, the root first. */
  function Trail(visit: (nat, seq<Byte>) -> Visit, end: nat, p: nat, symbol: seq<Byte>, visited: seq<nat>): seq<nat>
    requires |visited| < 128
    decreases 128 - |visited|
  {
    if p >= end then visited
    else match visit(p, symbol)
      case Done(_) => visited
      case Follow(offset, rest) =>
        if offset in visited || |visited| == 127 then visited
        else Trail(visit, end, offset, rest, visited + [offset % 0x1_0000_0000])
  }

  ghost predicate Visits(visit: (nat, seq<Byte>) -> Visit, buf: seq<Byte>, uleb: nat -> Leb, base: nat, end: nat) {
    forall p, symbol {:trigger VisitNode(buf, uleb, base, end, p, symbol)} ::
      visit(p, symbol) == VisitNode(buf, uleb, base, end, p, symbol)
  }

  // ----- the loops -----

  /** Scan one edge label, comparing it with the symbol until they differ. */
  method MatchEdge(buf: seq<Byte>, p: nat, symbol: seq<Byte>) returns (z: nat, wrongEdge: bool)
    ensures z == StringEnd(buf, p)
    ensures z < |buf| ==> (wrongEdge <==> !(buf[p..z] <= symbol))
  {
    if p >= |buf| { return |buf|, true; }
    z, wrongEdge := p, false;
    var ss := 0;
    while z < |buf| && buf[z] != 0
      invariant p <= z <= |buf| && StringEnd(buf, z) == StringEnd(buf, p)
      invariant !wrongEdge ==> ss == z - p && ss <= |symbol| && buf[p..z] == symbol[..ss]
      invariant wrongEdge ==> !(buf[p..z] <= symbol)
    {
      assert buf[p..z + 1] == buf[p..z] + [buf[z]];
      if !wrongEdge {
        if ss == |symbol| || buf[z] != symbol[ss] { // the terminator differs from every label byte
          wrongEdge := true;
          assert |symbol| > ss ==> buf[p..z + 1][ss] != symbol[ss];
        }
        ss := ss + 1;
      } else {
        PrefixOfPrefix(buf[p..z], buf[p..z + 1], symbol);
      }
      z := z + 1;
    }
  }

  lemma PrefixOfPrefix(a: seq<Byte>, b: seq<Byte>, c: seq<Byte>)
    requires a <= b && !(a <= c)
    ensures !(b <= c)
  {
  }

  ghost predicate Reads(uleb: nat -> Leb, buf: seq<Byte>) {
    forall p {:trigger UlebAt(buf, p)} :: uleb(p) == UlebAt(buf, p)
  }

  method ReadAt(buf: seq<Byte>, p: nat, ghost uleb: nat -> Leb) returns (r: Leb)
    requires Reads(uleb, buf)
    ensures r == uleb(p) && !r.Undefined? && (r.Ok? ==> r.value >= 0)
  {
    r := ReadUleb128(buf, p);
  }

  method ScanChildren(buf: seq<Byte>, end: nat, first: nat, count: nat, symbol: seq<Byte>,
                      ghost uleb: nat -> Leb) returns (r: Scan)
    requires Reads(uleb, buf)
    ensures r == ScanEdges(buf, uleb, end, first, count, symbol)
  {
    var p, remaining := first, count;
    while remaining > 0
      invariant ScanEdges(buf, uleb, end, p, remaining, symbol) == ScanEdges(buf, uleb, end, first, count, symbol)
    {
      var z, wrongEdge := MatchEdge(buf, p, symbol);
      if z == |buf| { return Unmapped; }
      var offset := ReadAt(buf, z + 1, uleb);
      if !offset.Ok? { return Unmapped; }
      if wrongEdge {
        if offset.next > end { return Malformed; }
        p := offset.next;
      } else {
        if offset.value == 0 || offset.value > end { return Malformed; }
        return Child(offset.value, symbol[z - p..]);
      }
      remaining := remaining - 1;
    }
    r := NoEdge;
  }

  method VisitChildrenAt(buf: seq<Byte>, end: nat, children: int, symbol: seq<Byte>, ghost uleb: nat -> Leb)
      returns (v: Visit)
    requires Reads(uleb, buf)
    ensures v == VisitChildren(buf, uleb, end, children, symbol)
  {
    if children > end { return Done(NotFound); }
    if !(0 <= children < |buf|) { return Done(Fault); }
    var scan := ScanChildren(buf, end, children + 1, buf[children], symbol, uleb);
    match scan
    case Unmapped => return Done(Fault);
    case Malformed => return Done(NotFound);
    case NoEdge => return Done(NotFound); // p = end
    case Child(offset, rest) => return Follow(offset, rest);
  }

  /** The body of the outer loop up to the choice of the next node. */
  method VisitOne(buf: seq<Byte>, base: nat, end: nat, p: nat, symbol: seq<Byte>,
                  ghost uleb: nat -> Leb) returns (v: Visit)
    requires Reads(uleb, buf)
    ensures v == VisitNode(buf, uleb, base, end, p, symbol)
  {
    var size := ReadAt(buf, p, uleb);
    if !size.Ok? { return Done(Fault); }
    if symbol == [] && size.value != 0 { return Done(Found(size.next)); }
    v := VisitChildrenAt(buf, end, ChildrenAt(base, size.next + size.value), symbol, uleb);
  }

  /** The outer loop, with its array of 128 visited offsets. */
  method WalkNodes(buf: seq<Byte>, base: nat, end: nat, name: seq<Byte>,
                   ghost uleb: nat -> Leb, ghost visit: (nat, seq<Byte>) -> Visit) returns (r: Outcome, ghost recorded: seq<nat>)
    requires Reads(uleb, buf) && Visits(visit, buf, uleb, base, end)
    ensures r == Walk(visit, end, 0, name, [0])
    ensures recorded == Trail(visit, end, 0, name, [0])
  {
    var visited := new nat[128](_ => 0);
    var count, p: nat, symbol := 1, 0, name;
    assert visited[..1] == [0];
    while p < end
      invariant 1 <= count < 128
      invariant Walk(visit, end, p, symbol, visited[..count]) == Walk(visit, end, 0, name, [0])
      invariant Trail(visit, end, p, symbol, visited[..count]) == Trail(visit, end, 0, name, [0])
      decreases 128 - count
    {
      var v := VisitOne(buf, base, end, p, symbol, uleb);
      if v.Done? { return v.outcome, visited[..count]; }
      for i := 0 to count
        invariant v.offset !in visited[..i]
      {
        if visited[i] == v.offset { return NotFound, visited[..count]; }
      }
      ghost var before := visited[..count];
      visited[count] := v.offset % 0x1_0000_0000;
      count := count + 1;
      assert visited[..count] == before + [v.offset % 0x1_0000_0000];
      if count >= 128 { return NotFound, before; }
      p, symbol := v.offset, v.rest;
    }
    r, recorded := NotFound, visited[..count];
  }

  function Visitor(buf: seq<Byte>, base: nat, end: nat): (nat, seq<Byte>) -> Visit {
    (p: nat, symbol: seq<Byte>) => VisitNode(buf, Ulebs(buf), base, end, p, symbol)
  }

  lemma VisitorVisits(buf: seq<Byte>, base: nat, end: nat)
    ensures Visits(Visitor(buf, base, end), buf, Ulebs(buf), base, end)
  {
  }

  /** walk_exported_trie. */
  method WalkExportedTrie(buf: seq<Byte>, base: nat, end: nat, name: seq<Byte>)
      returns (r: Outcome, ghost recorded: seq<nat>)
    ensures r == Walk(Visitor(buf, base, end), end, 0, name, [0])
    ensures |recorded| <= 127 && (end < 0x1_0000_0000 ==> Distinct(recorded))
  {
    VisitorVisits(buf, base, end);
    r, recorded := WalkNodes(buf, base, end, name, Ulebs(buf), Visitor(buf, base, end));
    TrailLength(Visitor(buf, base, end), end, 0, name, [0]);
    if end < 0x1_0000_0000 {
      TrailIsSimple(Visitor(buf, base, end), buf, Ulebs(buf), base, end, 0, name, [0]);
    }
  }

  /** What a lookup reports; re-exported symbols are reported as missing. */
  datatype Export = Address(value: nat, flags: nat) | Missing | ExportFault

  const EXPORT_SYMBOL_FLAGS_REEXPORT := 8

  /** Reading the payload: flags, then the address. */
  function ReadExport(uleb: nat -> Leb, r: Outcome): Export {
    match r
    case NotFound => Missing
    case Fault => ExportFault
    case Found(pos) =>
      var flags := uleb(pos);
      if !flags.Ok? || flags.value < 0 then ExportFault
      else if (flags.value / EXPORT_SYMBOL_FLAGS_REEXPORT) % 2 == 1 then Missing
      else
        var value := uleb(flags.next);
        if !value.Ok? || value.value < 0 then ExportFault else Address(value.value, flags.value)
  }

  /** The part of iterate_exported_symbol that reads the trie. */
  method IterateExportedSymbol(buf: seq<Byte>, base: nat, end: nat, name: seq<Byte>) returns (e: Export)
    ensures e == ReadExport(Ulebs(buf), Walk(Visitor(buf, base, end), end, 0, name, [0]))
  {
    var node, _ := WalkExportedTrie(buf, base, end, name);
    if node.NotFound? { return Missing; }
    if node.Fault? { return ExportFault; }
    var flags := ReadAt(buf, node.pos, Ulebs(buf));
    if !flags.Ok? { return ExportFault; }
    if (flags.value / EXPORT_SYMBOL_FLAGS_REEXPORT) % 2 == 1 { return Missing; }
    var value := ReadAt(buf, flags.next, Ulebs(buf));
    if !value.Ok? { return ExportFault; }
    e := Address(value.value, flags.value);
  }

  // ----- malformed tries: no node twice, no more than 126 edges -----

  ghost predicate Distinct(s: seq<nat>) { forall i, j :: 0 <= i < j < |s| ==> s[i] != s[j] }

  lemma {:induction false} TrailLength(visit: (nat, seq<Byte>) -> Visit, end: nat, p: nat, symbol: seq<Byte>, visited: seq<nat>)
    requires |visited| < 128
    ensures |Trail(visit, end, p, symbol, visited)| <= 127
    decreases 128 - |visited|
  {
    if p < end && visit(p, symbol).Follow? {
      var v := visit(p, symbol);
      if v.offset !in visited && |visited| < 127 {
        TrailLength(visit, end, v.offset, v.rest, visited + [v.offset % 0x1_0000_0000]);
      }
    }
  }

  /** Whatever the bytes, a walk follows at most 126 edges and, in a trie below 4 GB, no node twice. */
  lemma {:induction false} TrailIsSimple(visit: (nat, seq<Byte>) -> Visit, buf: seq<Byte>, uleb: nat -> Leb, base: nat, end: nat,
                                         p: nat, symbol: seq<Byte>, visited: seq<nat>)
    requires Visits(visit, buf, uleb, base, end) && end < 0x1_0000_0000
    requires |visited| < 128 && Distinct(visited)
    ensures var t := Trail(visit, end, p, symbol, visited);
            |t| <= 127 && visited <= t && Distinct(t)
    decreases 128 - |visited|
  {
    if p < end {
      match visit(p, symbol)
      case Done(_) =>
      case Follow(offset, rest) =>
        assert visit(p, symbol) == VisitNode(buf, uleb, base, end, p, symbol);
        if offset !in visited && |visited| < 127 {
          assert offset % 0x1_0000_0000 == offset;
          TrailIsSimple(visit, buf, uleb, base, end, offset, rest, visited + [offset]);
        }
    }
  }
}
