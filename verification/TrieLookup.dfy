/** On the bytes of a well-formed trie, the walk computes the map from names to terminals. */
module TrieLookup {
  import opened Common
  import opened Leb128
  import opened ExportTrie

  datatype Trie = Node(terminal: seq<Byte>, edges: seq<Edge>)
  datatype Edge = Edge(name: seq<Byte>, child: Trie)

  // ----- the abstract map -----

  /** The trie maps `symbol` to the non-empty `payload`: the names on some path spell the symbol. */
  ghost predicate Maps(t: Trie, symbol: seq<Byte>, payload: seq<Byte>)
    decreases t
  {
    || (symbol == [] && t.terminal != [] && payload == t.terminal)
    || (exists i :: 0 <= i < |t.edges| && t.edges[i].name <= symbol &&
                    Maps(t.edges[i].child, symbol[|t.edges[i].name|..], payload))
  }

  function Max(a: nat, b: nat): nat { if a < b then b else a }

  /** Number of edges on the longest path. */
  function Height(t: Trie): nat
    decreases t, 1
  {
    EdgesHeight(t.edges)
  }

  function EdgesHeight(es: seq<Edge>): nat
    decreases es, 0
  {
    if es == [] then 0 else Max(1 + Height(es[0].child), EdgesHeight(es[1..]))
  }

  /** Edge names are not empty, and none is a prefix of a sibling's. */
  ghost predicate Unambiguous(t: Trie)
    decreases t
  {
    && (forall i :: 0 <= i < |t.edges| ==> t.edges[i].name != [] && Unambiguous(t.edges[i].child))
    && (forall i, j :: 0 <= i < |t.edges| && 0 <= j < |t.edges| && i != j ==>
          !(t.edges[i].name <= t.edges[j].name))
  }

  // ----- its serialized form -----

  /** The node at offset p of the buffer is the root of t. */
  ghost predicate Holds(buf: seq<Byte>, uleb: nat -> Leb, end: nat, p: nat, t: Trie)
    decreases t, 1
  {
    && p < end <= |buf|
    && uleb(p).Ok? && uleb(p).value == |t.terminal|
    && var q := uleb(p).next;
       && q + |t.terminal| < end
       && buf[q..q + |t.terminal|] == t.terminal
       && buf[q + |t.terminal|] == |t.edges|
       && HoldsEdges(buf, uleb, end, q + |t.terminal| + 1, t.edges)
  }

  ghost predicate HoldsEdges(buf: seq<Byte>, uleb: nat -> Leb, end: nat, p: nat, es: seq<Edge>)
    decreases es, 0
  {
    es != [] ==>
      var z := p + |es[0].name|;
      && z < end <= |buf|
      && buf[p..z] == es[0].name && 0 !in es[0].name && buf[z] == 0
      && uleb(z + 1).Ok? && 0 < uleb(z + 1).value && uleb(z + 1).next <= end
      && Holds(buf, uleb, end, uleb(z + 1).value, es[0].child)
      && HoldsEdges(buf, uleb, end, uleb(z + 1).next, es[1..])
  }

  lemma {:induction false} StringEndIs(buf: seq<Byte>, p: nat, z: nat)
    requires p <= z < |buf| && buf[z] == 0 && 0 !in buf[p..z]
    ensures StringEnd(buf, p) == z
    decreases z - p
  {
    if p < z {
      assert buf[p] == buf[p..z][0];
      assert buf[p + 1..z] == buf[p..z][1..];
      StringEndIs(buf, p + 1, z);
    }
  }

  /** The bytes determine the trie. */
  lemma {:induction false} HoldsOnce(buf: seq<Byte>, uleb: nat -> Leb, end: nat, p: nat, t: Trie, u: Trie)
    requires Holds(buf, uleb, end, p, t) && Holds(buf, uleb, end, p, u)
    ensures t == u
    decreases t, 1
  {
    var q := uleb(p).next;
    EdgesOnce(buf, uleb, end, q + |t.terminal| + 1, t.edges, u.edges);
  }

  lemma {:induction false} EdgesOnce(buf: seq<Byte>, uleb: nat -> Leb, end: nat, p: nat, es: seq<Edge>, fs: seq<Edge>)
    requires HoldsEdges(buf, uleb, end, p, es) && HoldsEdges(buf, uleb, end, p, fs) && |es| == |fs|
    ensures es == fs
    decreases es, 0
  {
    if es != [] {
      var z := p + |es[0].name|;
      StringEndIs(buf, p, z);
      StringEndIs(buf, p, p + |fs[0].name|);
      HoldsOnce(buf, uleb, end, uleb(z + 1).value, es[0].child, fs[0].child);
      EdgesOnce(buf, uleb, end, uleb(z + 1).next, es[1..], fs[1..]);
      assert es == [es[0]] + es[1..] && fs == [fs[0]] + fs[1..];
    }
  }

  lemma {:induction false} ChildLower(es: seq<Edge>, i: nat)
    requires i < |es|
    ensures Height(es[i].child) < EdgesHeight(es)
    decreases i
  {
    if i > 0 {
      ChildLower(es[1..], i - 1);
    }
  }

  // ----- the scan over a node's edges -----

  lemma ScanStep(buf: seq<Byte>, uleb: nat -> Leb, end: nat, p: nat, es: seq<Edge>, symbol: seq<Byte>)
    requires HoldsEdges(buf, uleb, end, p, es) && es != []
    ensures var u := uleb(p + |es[0].name| + 1);
            && u.Ok? && u.value >= 0 && Holds(buf, uleb, end, u.value, es[0].child)
            && HoldsEdges(buf, uleb, end, u.next, es[1..])
            && ScanEdges(buf, uleb, end, p, |es|, symbol) ==
               if es[0].name <= symbol then Child(u.value, symbol[|es[0].name|..])
               else ScanEdges(buf, uleb, end, u.next, |es| - 1, symbol)
  {
    StringEndIs(buf, p, p + |es[0].name|);
  }

  /** The scan result for the edge it took. */
  ghost predicate Takes(buf: seq<Byte>, uleb: nat -> Leb, end: nat, scan: Scan, e: Edge, symbol: seq<Byte>) {
    && e.name <= symbol && scan.Child? && scan.rest == symbol[|e.name|..]
    && Holds(buf, uleb, end, scan.offset, e.child)
  }

  /** The first edge whose name is a prefix of the symbol; |es| if there is none. */
  function FirstEdge(es: seq<Edge>, symbol: seq<Byte>): (i: nat)
    ensures i <= |es| && (i < |es| ==> es[i].name <= symbol)
    ensures forall j :: 0 <= j < i ==> !(es[j].name <= symbol)
  {
    if es == [] || es[0].name <= symbol then 0 else 1 + FirstEdge(es[1..], symbol)
  }

  /** The scan result for these edges: the first that is a prefix, or none. */
  ghost predicate TakesFirst(buf: seq<Byte>, uleb: nat -> Leb, end: nat, scan: Scan, es: seq<Edge>, symbol: seq<Byte>) {
    var i := FirstEdge(es, symbol);
    if i == |es| then scan == NoEdge else Takes(buf, uleb, end, scan, es[i], symbol)
  }

  lemma TakesLater(buf: seq<Byte>, uleb: nat -> Leb, end: nat, scan: Scan, es: seq<Edge>, symbol: seq<Byte>)
    requires es != [] && !(es[0].name <= symbol) && TakesFirst(buf, uleb, end, scan, es[1..], symbol)
    ensures TakesFirst(buf, uleb, end, scan, es, symbol)
  {
    var i := FirstEdge(es[1..], symbol);
    assert FirstEdge(es, symbol) == i + 1 && (i < |es| - 1 ==> es[1..][i] == es[i + 1]);
  }

  lemma {:induction false} ScanTakes(buf: seq<Byte>, uleb: nat -> Leb, end: nat, p: nat, es: seq<Edge>, symbol: seq<Byte>)
    requires HoldsEdges(buf, uleb, end, p, es)
    ensures TakesFirst(buf, uleb, end, ScanEdges(buf, uleb, end, p, |es|, symbol), es, symbol)
    decreases |es|
  {
    if es != [] {
      ScanStep(buf, uleb, end, p, es, symbol);
      if !(es[0].name <= symbol) {
        var q := uleb(p + |es[0].name| + 1).next;
        ScanTakes(buf, uleb, end, q, es[1..], symbol);
        TakesLater(buf, uleb, end, ScanEdges(buf, uleb, end, q, |es| - 1, symbol), es, symbol);
      }
    }
  }

  // ----- the walk -----

  /** The outcome of a walk is the answer of the map. */
  ghost predicate Answers(buf: seq<Byte>, t: Trie, symbol: seq<Byte>, r: Outcome) {
    && !r.Fault?
    && (r.Found? ==> exists payload :: Maps(t, symbol, payload))
    && (forall payload :: Maps(t, symbol, payload) ==>
          r.Found? && r.pos + |payload| <= |buf| && buf[r.pos..r.pos + |payload|] == payload)
  }

  /** Visiting a node: the answer itself, or the child whose answer it is. */
  lemma VisitAnswers(buf: seq<Byte>, uleb: nat -> Leb, base: nat, end: nat, p: nat, t: Trie, symbol: seq<Byte>) returns (i: nat)
    requires Holds(buf, uleb, end, p, t) && Unambiguous(t) && base + end < TWO64
    ensures i <= |t.edges|
    ensures var v := VisitNode(buf, uleb, base, end, p, symbol);
            if i == |t.edges| then v.Done? && Answers(buf, t, symbol, v.outcome)
            else
              && v.Follow? && Takes(buf, uleb, end, Child(v.offset, v.rest), t.edges[i], symbol)
              && (symbol == [] ==> t.terminal == [])
  {
    if symbol == [] && t.terminal != [] {
      i := |t.edges|;
      TerminalAnswers(buf, t, uleb(p).next);
    } else {
      i := FirstEdge(t.edges, symbol);
      EdgesAnswer(buf, uleb, base, end, p, t, symbol);
    }
  }

  /** A node whose own terminal is not the answer. */
  lemma EdgesAnswer(buf: seq<Byte>, uleb: nat -> Leb, base: nat, end: nat, p: nat, t: Trie, symbol: seq<Byte>)
    requires Holds(buf, uleb, end, p, t) && base + end < TWO64 && !(symbol == [] && t.terminal != [])
    ensures var i, v := FirstEdge(t.edges, symbol), VisitNode(buf, uleb, base, end, p, symbol);
            if i == |t.edges| then v == Done(NotFound) && Answers(buf, t, symbol, NotFound)
            else v.Follow? && Takes(buf, uleb, end, Child(v.offset, v.rest), t.edges[i], symbol)
  {
    ScanTakes(buf, uleb, end, uleb(p).next + |t.terminal| + 1, t.edges, symbol);
    VisitScans(buf, uleb, base, end, p, t, symbol);
    if FirstEdge(t.edges, symbol) == |t.edges| {
      NoEdgeAnswers(buf, t, symbol);
    }
  }

  lemma TerminalAnswers(buf: seq<Byte>, t: Trie, q: nat)
    requires Unambiguous(t) && t.terminal != []
    requires q + |t.terminal| <= |buf| && buf[q..q + |t.terminal|] == t.terminal
    ensures Answers(buf, t, [], Found(q))
  {
    assert Maps(t, [], t.terminal);
  }

  lemma NoEdgeAnswers(buf: seq<Byte>, t: Trie, symbol: seq<Byte>)
    requires forall j :: 0 <= j < |t.edges| ==> !(t.edges[j].name <= symbol)
    requires symbol == [] ==> t.terminal == []
    ensures Answers(buf, t, symbol, NotFound)
  {
  }

  lemma VisitScans(buf: seq<Byte>, uleb: nat -> Leb, base: nat, end: nat, p: nat, t: Trie, symbol: seq<Byte>)
    requires Holds(buf, uleb, end, p, t) && base + end < TWO64 && !(symbol == [] && t.terminal != [])
    ensures var scan := ScanEdges(buf, uleb, end, uleb(p).next + |t.terminal| + 1, |t.edges|, symbol);
            && (scan == NoEdge ==> VisitNode(buf, uleb, base, end, p, symbol) == Done(NotFound))
            && (scan.Child? ==> VisitNode(buf, uleb, base, end, p, symbol) == Follow(scan.offset, scan.rest))
  {
    VisitIsChildren(buf, uleb, base, end, p, t, symbol);
  }

  lemma VisitIsChildren(buf: seq<Byte>, uleb: nat -> Leb, base: nat, end: nat, p: nat, t: Trie, symbol: seq<Byte>)
    requires Holds(buf, uleb, end, p, t) && base + end < TWO64 && !(symbol == [] && t.terminal != [])
    ensures VisitNode(buf, uleb, base, end, p, symbol) ==
            VisitChildren(buf, uleb, end, uleb(p).next + |t.terminal|, symbol)
  {
    assert ChildrenAt(base, uleb(p).next + uleb(p).value) == uleb(p).next + |t.terminal|;
  }

  lemma PrefixesNest(a: seq<Byte>, b: seq<Byte>, c: seq<Byte>)
    requires a <= c && b <= c
    ensures a <= b || b <= a
  {
  }

  /** Only the edge the scan takes can lead to the symbol. */
  lemma OnlyThatEdge(t: Trie, symbol: seq<Byte>, i: nat, payload: seq<Byte>)
    requires Unambiguous(t) && i < |t.edges| && t.edges[i].name <= symbol && (symbol == [] ==> t.terminal == [])
    ensures Maps(t, symbol, payload) <==> Maps(t.edges[i].child, symbol[|t.edges[i].name|..], payload)
  {
    if Maps(t, symbol, payload) {
      var j :| 0 <= j < |t.edges| && t.edges[j].name <= symbol &&
               Maps(t.edges[j].child, symbol[|t.edges[j].name|..], payload);
      PrefixesNest(t.edges[i].name, t.edges[j].name, symbol);
    }
  }

  lemma AnswersUp(buf: seq<Byte>, t: Trie, symbol: seq<Byte>, i: nat, r: Outcome)
    requires Unambiguous(t) && i < |t.edges| && t.edges[i].name <= symbol && (symbol == [] ==> t.terminal == [])
    requires Answers(buf, t.edges[i].child, symbol[|t.edges[i].name|..], r)
    ensures Answers(buf, t, symbol, r)
  {
    forall payload
      ensures Maps(t, symbol, payload) <==> Maps(t.edges[i].child, symbol[|t.edges[i].name|..], payload)
    {
      OnlyThatEdge(t, symbol, i, payload);
    }
  }

  /** Ancestors recorded so far: each is the root of a trie at least as high as t. */
  ghost predicate Ancestors(buf: seq<Byte>, uleb: nat -> Leb, end: nat, visited: seq<nat>, above: seq<Trie>, t: Trie) {
    && |above| == |visited|
    && forall j {:trigger above[j]} :: 0 <= j < |visited| ==>
         Holds(buf, uleb, end, visited[j], above[j]) && Height(above[j]) >= Height(t)
  }

  /** The node of a lower trie is none of the ancestors. */
  lemma NoAncestor(buf: seq<Byte>, uleb: nat -> Leb, end: nat, visited: seq<nat>, above: seq<Trie>, t: Trie, offset: nat, child: Trie)
    requires Ancestors(buf, uleb, end, visited, above, t) && Height(child) < Height(t) && Holds(buf, uleb, end, offset, child)
    ensures offset !in visited
    ensures Ancestors(buf, uleb, end, visited + [offset], above + [child], child)
  {
    if j :| 0 <= j < |visited| && visited[j] == offset {
      HoldsOnce(buf, uleb, end, offset, above[j], child);
      assert false;
    }
  }

  /** The same through the visiting function of the walk. */
  lemma VisitorAnswers(visit: (nat, seq<Byte>) -> Visit, buf: seq<Byte>, uleb: nat -> Leb, base: nat, end: nat,
                       p: nat, t: Trie, symbol: seq<Byte>) returns (i: nat)
    requires Visits(visit, buf, uleb, base, end) && Holds(buf, uleb, end, p, t) && Unambiguous(t) && base + end < TWO64
    ensures p < end && i <= |t.edges|
    ensures var v := visit(p, symbol);
            if i == |t.edges| then v.Done? && Answers(buf, t, symbol, v.outcome)
            else
              && v.Follow? && Takes(buf, uleb, end, Child(v.offset, v.rest), t.edges[i], symbol)
              && (symbol == [] ==> t.terminal == []) && v.offset < end
  {
    i := VisitAnswers(buf, uleb, base, end, p, t, symbol);
    assert visit(p, symbol) == VisitNode(buf, uleb, base, end, p, symbol);
  }

  /** One turn of the walk. */
  lemma {:induction false} WalkOn(visit: (nat, seq<Byte>) -> Visit, end: nat, p: nat, symbol: seq<Byte>, visited: seq<nat>)
    requires p < end && visit(p, symbol).Follow? && visit(p, symbol).offset < 0x1_0000_0000
    requires visit(p, symbol).offset !in visited && |visited| < 127
    ensures var v := visit(p, symbol);
            Walk(visit, end, p, symbol, visited) == Walk(visit, end, v.offset, v.rest, visited + [v.offset])
  {
    assert visit(p, symbol).offset % 0x1_0000_0000 == visit(p, symbol).offset;
  }

  lemma {:induction false} WalkAnswers(visit: (nat, seq<Byte>) -> Visit, buf: seq<Byte>, uleb: nat -> Leb, base: nat, end: nat,
                                       p: nat, t: Trie, symbol: seq<Byte>, visited: seq<nat>, above: seq<Trie>)
    requires Visits(visit, buf, uleb, base, end) && Holds(buf, uleb, end, p, t) && Unambiguous(t)
    requires base + end < TWO64 && end < 0x1_0000_0000
    requires |visited| + Height(t) <= 127 && Ancestors(buf, uleb, end, visited, above, t)
    ensures Answers(buf, t, symbol, Walk(visit, end, p, symbol, visited))
    decreases t
  {
    var i := VisitorAnswers(visit, buf, uleb, base, end, p, t, symbol);
    var v := visit(p, symbol);
    if i < |t.edges| {
      var child := t.edges[i].child;
      ChildLower(t.edges, i);
      NoAncestor(buf, uleb, end, visited, above, t, v.offset, child);
      WalkAnswers(visit, buf, uleb, base, end, v.offset, child, v.rest, visited + [v.offset], above + [child]);
      WalkOn(visit, end, p, symbol, visited);
      AnswersUp(buf, t, symbol, i, Walk(visit, end, v.offset, v.rest, visited + [v.offset]));
    }
  }

  /** The main theorem: for every name, the walk over a well-formed trie finds a payload exactly when
      the trie maps the name to one, and then it points at that payload. */
  lemma LookupIsMap(buf: seq<Byte>, base: nat, end: nat, t: Trie, name: seq<Byte>)
    requires Holds(buf, Ulebs(buf), end, 0, t) && Unambiguous(t) && Height(t) <= 126
    requires base + end < TWO64 && end < 0x1_0000_0000
    ensures Answers(buf, t, name, Walk(Visitor(buf, base, end), end, 0, name, [0]))
  {
    VisitorVisits(buf, base, end);
    WalkAnswers(Visitor(buf, base, end), buf, Ulebs(buf), base, end, 0, t, name, [0], [t]);
  }

  /** From the bytes of the trie to the address: a name exported with these flags and this address is
      reported with both, unless it is a re-export, which bit 3 of the flags says. */
  lemma ExportIsFound(buf: seq<Byte>, base: nat, end: nat, t: Trie, name: seq<Byte>,
                      flags: nat, value: nat, more: seq<Byte>)
    requires Holds(buf, Ulebs(buf), end, 0, t) && Unambiguous(t) && Height(t) <= 126
    requires base + end < TWO64 && end < 0x1_0000_0000
    requires flags < TWO64 && value < TWO64
    requires Maps(t, name, EncodeUleb(flags) + EncodeUleb(value) + more)
    ensures ReadExport(Ulebs(buf), Walk(Visitor(buf, base, end), end, 0, name, [0])) ==
            if flags / 8 % 2 == 1 then Missing else Address(value, flags)
  {
    LookupIsMap(buf, base, end, t, name);
    ExportOfAnswer(buf, t, name, Walk(Visitor(buf, base, end), end, 0, name, [0]),
                   flags, EncodeUleb(flags), value, EncodeUleb(value), more);
  }

  lemma {:induction false} ExportOfAnswer(buf: seq<Byte>, t: Trie, name: seq<Byte>, r: Outcome,
                                          flags: nat, f: seq<Byte>, value: nat, v: seq<Byte>, more: seq<Byte>)
    requires flags < TWO64 && value < TWO64 && f == EncodeUleb(flags) && v == EncodeUleb(value)
    requires Answers(buf, t, name, r) && Maps(t, name, f + v + more)
    ensures ReadExport(Ulebs(buf), r) ==
            if flags / 8 % 2 == 1 then Missing else Address(value, flags)
  {
    FoundPayload(buf, t, name, r, f + v + more);
    FoundExport(buf, r, flags, f, value, v, more);
  }

  lemma {:induction false} FoundExport(buf: seq<Byte>, r: Outcome, flags: nat, f: seq<Byte>, value: nat, v: seq<Byte>, more: seq<Byte>)
    requires flags < TWO64 && value < TWO64 && f == EncodeUleb(flags) && v == EncodeUleb(value) && r.Found?
    requires r.pos + |f + v + more| <= |buf| && buf[r.pos..r.pos + |f + v + more|] == f + v + more
    ensures ReadExport(Ulebs(buf), r) ==
            if flags / 8 % 2 == 1 then Missing else Address(value, flags)
  {
    Slices(buf, r.pos, f, v, more);
    PayloadExport(buf, r, flags, f, value, v);
  }

  lemma FoundPayload(buf: seq<Byte>, t: Trie, name: seq<Byte>, r: Outcome, payload: seq<Byte>)
    requires Answers(buf, t, name, r) && Maps(t, name, payload)
    ensures r.Found? && r.pos + |payload| <= |buf| && buf[r.pos..r.pos + |payload|] == payload
  {
  }

  lemma Slices(buf: seq<Byte>, pos: nat, f: seq<Byte>, v: seq<Byte>, more: seq<Byte>)
    requires pos + |f + v + more| <= |buf| && buf[pos..pos + |f + v + more|] == f + v + more
    ensures buf[pos..pos + |f|] == f && buf[pos + |f|..pos + |f| + |v|] == v
  {
    var payload := f + v + more;
    SliceOfSlice(buf, pos, payload, 0, |f|);
    SliceOfSlice(buf, pos, payload, |f|, |f| + |v|);
    assert payload[..|f|] == f && payload[|f|..|f| + |v|] == v;
  }

  lemma SliceOfSlice(buf: seq<Byte>, pos: nat, payload: seq<Byte>, i: nat, k: nat)
    requires pos + |payload| <= |buf| && buf[pos..pos + |payload|] == payload && i <= k <= |payload|
    ensures buf[pos + i..pos + k] == payload[i..k]
  {
    forall m | 0 <= m < k - i
      ensures buf[pos + i..pos + k][m] == payload[i..k][m]
    {
      assert buf[pos..pos + |payload|][i + m] == buf[pos + i + m];
    }
  }

  lemma {:induction false} PayloadReads(buf: seq<Byte>, pos: nat, flags: nat, f: seq<Byte>, value: nat, v: seq<Byte>)
    requires flags < TWO64 && value < TWO64 && f == EncodeUleb(flags) && v == EncodeUleb(value)
    requires pos + |f| + |v| <= |buf| && buf[pos..pos + |f|] == f && buf[pos + |f|..pos + |f| + |v|] == v
    ensures Ulebs(buf)(pos) == Ok(flags, pos + |f|) && Ulebs(buf)(pos + |f|) == Ok(value, pos + |f| + |v|)
  {
    ReadHere(buf, pos, flags, f);
    ReadHere(buf, pos + |f|, value, v);
  }

  lemma {:induction false} PayloadExport(buf: seq<Byte>, r: Outcome, flags: nat, f: seq<Byte>, value: nat, v: seq<Byte>)
    requires flags < TWO64 && value < TWO64 && f == EncodeUleb(flags) && v == EncodeUleb(value)
    requires r.Found? && r.pos + |f| + |v| <= |buf|
    requires buf[r.pos..r.pos + |f|] == f && buf[r.pos + |f|..r.pos + |f| + |v|] == v
    ensures ReadExport(Ulebs(buf), r) ==
            if flags / 8 % 2 == 1 then Missing else Address(value, flags)
  {
    PayloadReads(buf, r.pos, flags, f, value, v);
    ReadsBoth(Ulebs(buf), r, flags, value, r.pos + |f|, r.pos + |f| + |v|);
  }

  lemma {:induction false} ReadHere(buf: seq<Byte>, pos: nat, v: nat, e: seq<Byte>)
    requires v < TWO64 && e == EncodeUleb(v) && pos + |e| <= |buf| && buf[pos..pos + |e|] == e
    ensures Ulebs(buf)(pos) == Ok(v, pos + |e|)
  {
    UlebWithin(buf, pos, v);
  }

  lemma ReadsBoth(uleb: nat -> Leb, r: Outcome, flags: nat, value: nat, next: nat, last: nat)
    requires r.Found? && uleb(r.pos) == Ok(flags, next) && uleb(next) == Ok(value, last)
    ensures ReadExport(uleb, r) ==
            if flags / 8 % 2 == 1 then Missing else Address(value, flags)
  {
  }

  /** A trie of nine bytes that exports the name "a": root, one edge, and a leaf with flags 0 and address 16. */
  const SMALL: seq<Byte> := [0, 1, 97, 0, 5, 2, 0, 16, 0]

  lemma SmallTrie()
    ensures Holds(SMALL, Ulebs(SMALL), 9, 0, Node([], [Edge([97], Node([0, 16], []))]))
  {
    SmallUleb(SMALL, 0);
    SmallUleb(SMALL, 4);
    SmallUleb(SMALL, 5);
    var leaf := Node([0, 16], []);
    assert Holds(SMALL, Ulebs(SMALL), 9, 5, leaf);
    assert HoldsEdges(SMALL, Ulebs(SMALL), 9, 2, [Edge([97], leaf)]);
  }

  lemma SmallMaps(t: Trie, leaf: Trie)
    requires leaf == Node([0, 16], []) && t == Node([], [Edge([97], leaf)])
    ensures Maps(t, [97], [0, 16]) && Unambiguous(t) && Height(t) <= 126
  {
    assert t.edges[0].name <= [97] && [97][1..] == [] && Maps(leaf, [], [0, 16]);
    assert t.edges[1..] == [] && EdgesHeight(t.edges[1..]) == 0 && Height(leaf) == 0;
    assert Height(t) == 1;
  }

  /** The premises of the theorems above can be met. */
  lemma PremisesMet()
    ensures var t := Node([], [Edge([97], Node([0, 16], []))]);
            Holds(SMALL, Ulebs(SMALL), 9, 0, t) && Unambiguous(t) && Height(t) <= 126 && Maps(t, [97], [0, 16])
  {
    SmallTrie();
    SmallMaps(Node([], [Edge([97], Node([0, 16], []))]), Node([0, 16], []));
  }

  lemma SmallUleb(buf: seq<Byte>, p: nat)
    requires p < |buf| && buf[p] < 128
    ensures Ulebs(buf)(p) == Ok(buf[p], p + 1)
  {
    assert buf[p..p + 1] == [buf[p]];
    assert Value([buf[p]]) == buf[p] by {
      assert [buf[p]][1..] == [];
    }
  }
}
