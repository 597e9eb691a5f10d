/** The allocator of chunks within branch range of a position, over 64-bit addresses. */
module NearArena {
  import opened Common
  import opened MemoryArena

  datatype Region = Region(address: Addr, length: nat)

  // ----- saturating address arithmetic -----

  function AddrSub(a: Addr, b: Addr): Addr {
    var d := (a - b) % TWO64;
    if a > d then d else 0
  }

  function AddrAdd(a: Addr, b: Addr): Addr {
    var s := (a + b) % TWO64;
    if a < s then s else TWO64 - 1
  }

  /** A page size, and ALIGN, which rounds an address down to a page start. */
  datatype Paging = Paging(size: nat, floor: Addr -> Addr)

  /** What rounding to pages does. */
  ghost predicate ValidPaging(pg: Paging) {
    && pg.size > 0
    && (forall a: Addr :: pg.floor(a) <= a < pg.floor(a) + pg.size)
    && (forall a: Addr, m: Addr :: pg.floor(m) == m && a < m ==> pg.floor(a) + pg.size <= m)
    && (forall a: Addr :: pg.floor(pg.floor(a)) == pg.floor(a))
    && (forall a: Addr :: pg.floor(a) >= pg.size ==> pg.floor(pg.floor(a) - pg.size) == pg.floor(a) - pg.size)
  }

  function Rem(a: nat, size: nat): nat
    requires size > 0
  {
    a % size
  }

  function Floor(size: nat): Addr -> Addr
    requires size > 0
  {
    (a: Addr) => a - Rem(a, size)
  }

  /** Clearing the low bits does so. */
  lemma FloorValid(size: nat, floor: Addr -> Addr)
    requires size > 0
    requires forall a: Addr {:trigger Rem(a, size)} :: floor(a) == a - Rem(a, size)
    ensures ValidPaging(Paging(size, floor))
  {
    forall a: Addr
      ensures floor(a) <= a < floor(a) + size && floor(floor(a)) == floor(a)
      ensures floor(a) >= size ==> floor(floor(a) - size) == floor(a) - size
    {
      FloorOne(size, floor, a);
    }
    forall a: Addr, m: Addr | floor(m) == m && a < m
      ensures floor(a) + size <= m
    {
      assert floor(m) == m - Rem(m, size) && floor(a) == a - Rem(a, size);
      PagesApart(a, m, size);
    }
  }

  lemma FloorOne(size: nat, floor: Addr -> Addr, a: Addr)
    requires size > 0
    requires forall a: Addr {:trigger Rem(a, size)} :: floor(a) == a - Rem(a, size)
    ensures floor(a) <= a < floor(a) + size && floor(floor(a)) == floor(a)
    ensures floor(a) >= size ==> floor(floor(a) - size) == floor(a) - size
  {
    assert floor(a) == a - Rem(a, size) && Rem(a, size) < size;
    PageStart(a, size);
    assert floor(floor(a)) == floor(a) - Rem(floor(a), size);
    if floor(a) >= size {
      assert floor(floor(a) - size) == floor(a) - size - Rem(floor(a) - size, size);
    }
  }

  lemma PagesApart(a: nat, m: nat, size: nat)
    requires size > 0 && m % size == 0 && a < m
    ensures a - a % size + size <= m
  {
    var p, q := a / size, m / size;
    assert a == p * size + a % size && m == q * size;
    if p >= q {
      MulMono(q, p, size);
      assert false;
    }
    MulMono(p + 1, q, size);
    assert (p + 1) * size == p * size + size;
  }

  lemma PageStart(a: nat, size: nat)
    requires size > 0
    ensures (a - a % size) % size == 0
    ensures a - a % size >= size ==> (a - a % size - size) % size == 0
  {
    var p := a / size;
    assert a - a % size == p * size;
    ModMul(p, size);
    if p > 0 {
      assert p * size - size == (p - 1) * size;
      ModMul(p - 1, size);
    } else {
      assert p * size == 0;
    }
  }

  lemma MulMono(a: int, b: int, size: nat)
    requires a <= b
    ensures a * size <= b * size
  {
  }

  lemma {:induction false} ModMul(p: nat, size: nat)
    requires size > 0
    ensures (p * size) % size == 0
  {
    if p > 0 {
      ModMul(p - 1, size);
      assert p * size == (p - 1) * size + size;
      ModShift((p - 1) * size, size);
    }
  }

  lemma ModShift(x: nat, size: nat)
    requires size > 0
    ensures (x + size) % size == x % size
  {
    var q, r := x / size, x % size;
    assert x + size == (q + 1) * size + r;
    DivUnique(x + size, size, q + 1, r);
  }

  lemma DivUnique(x: nat, size: nat, q: nat, r: nat)
    requires size > 0 && x == q * size + r && r < size
    ensures x % size == r
  {
    var q', r' := x / size, x % size;
    assert q * size + r == q' * size + r';
    if q < q' { MulMono(q + 1, q', size); assert false; }
    if q' < q { MulMono(q' + 1, q, size); assert false; }
  }

  function PrevPage(cur: Addr, pg: Paging): Addr {
    var aligned := pg.floor(cur);
    var ret := (aligned - pg.size) % TWO64;
    if ret <= aligned then ret else aligned
  }

  function NextPage(cur: Addr, pg: Paging): Addr {
    var aligned := pg.floor(cur);
    var ret := (aligned + pg.size) % TWO64;
    if ret >= aligned then ret else aligned
  }

  function Max(a: Addr, b: Addr): Addr { if a > b then a else b }

  /** The end of a region as the code computes it. */
  function End(r: Region): Addr { (r.address + r.length) % TWO64 }

  /** Strictly less than `range` away. */
  predicate Within(a: Addr, pos: Addr, range: nat) { pos < a + range && a < pos + range }

  // ----- the page search -----

  function MinPage(pos: Addr, range: Addr, pg: Paging): Addr
  {
    NextPage(AddrSub(pos, range), pg)
  }

  function MaxPage(pos: Addr, range: Addr, pg: Paging): Addr
  {
    PrevPage(AddrAdd(pos, range), pg)
  }

  /** The region lies between the limits. */
  predicate Inside(layout: seq<Region>, min: Addr, max: Addr, i: nat)
    requires i < |layout|
  {
    End(layout[i]) < max && layout[i].address >= min
  }

  /** The page asked for when there is a blank before the i-th region. */
  function Left(layout: seq<Region>, pg: Paging, min: Addr, max: Addr, i: nat, guess: Addr): Option<Addr> {
    if 1 <= i < |layout| && Inside(layout, min, max, i) && guess == min &&
       layout[i].address > NextPage(End(layout[i - 1]), pg)
    then Some(Max(min, NextPage(End(layout[i - 1]), pg))) else None
  }

  /** The page asked for when there is a blank behind the i-th region. */
  function Right(layout: seq<Region>, pg: Paging, min: Addr, max: Addr, i: nat): Option<Addr> {
    if i + 1 < |layout| && Inside(layout, min, max, i) && End(layout[i]) < layout[i + 1].address
    then Some(NextPage(End(layout[i]), pg)) else None
  }

  /** One request: the page if it is honoured, and otherwise the next guess and request number. */
  datatype Try = Got(page: Addr) | Go(guess: Addr, n: nat)

  function Ask(grant: (nat, Addr) -> bool, c: Option<Addr>, guess: Addr, n: nat): Try {
    match c
    case None => Go(guess, n)
    case Some(a) => if grant(n, a) then Got(a) else Go(a, n + 1)
  }

  /** The loop over the regions from the i-th on. `grant(n, a)` says whether the n-th fixed-address request,
      for address a, is honoured; `guess` is the address asked for last. 0 means no page. */
  function Scan(left: (nat, Addr) -> Option<Addr>, right: nat -> Option<Addr>, grant: (nat, Addr) -> bool,
                len: nat, i: nat, guess: Addr, n: nat): Addr
    requires i <= len
    decreases len - i
  {
    if i == len then 0
    else match Ask(grant, left(i, guess), guess, n)
      case Got(a) => a
      case Go(g, n') =>
        match Ask(grant, right(i), g, n')
        case Got(a) => a
        case Go(h, n'') => Scan(left, right, grant, len, i + 1, h, n'')
  }

  function Lefts(layout: seq<Region>, pg: Paging, min: Addr, max: Addr): (nat, Addr) -> Option<Addr> {
    (i: nat, guess: Addr) => Left(layout, pg, min, max, i, guess)
  }

  function Rights(layout: seq<Region>, pg: Paging, min: Addr, max: Addr): nat -> Option<Addr> {
    (i: nat) => Right(layout, pg, min, max, i)
  }

  /** The two requests before the loop. */
  function FirstAsks(grant: (nat, Addr) -> bool, min: Addr, max: Addr, layout: seq<Region>): Try
    requires layout != []
  {
    match Ask(grant, if min < layout[0].address then Some(min) else None, min, 0)
    case Got(a) => Got(a)
    case Go(_, n) => Ask(grant, if max < End(layout[|layout| - 1]) then Some(min) else None, min, n)
  }

  /** What the search finds between given limits. */
  function SearchBetween(min: Addr, max: Addr, pg: Paging, layout: seq<Region>, grant: (nat, Addr) -> bool): Addr
    requires layout != []
  {
    match FirstAsks(grant, min, max, layout)
    case Got(a) => a
    case Go(_, n) => Scan(Lefts(layout, pg, min, max), Rights(layout, pg, min, max), grant, |layout|, 0, min, n)
  }

  /** search_near_blank_page */
  function Search(pos: Addr, range: Addr, pg: Paging, layout: seq<Region>, grant: (nat, Addr) -> bool): Addr
    requires layout != []
  {
    SearchBetween(MinPage(pos, range, pg), MaxPage(pos, range, pg), pg, layout, grant)
  }

  /** For a list of a single region that lies between the limits, the unsigned comparison with its size minus
      two makes the loop read behind the end of the list. */
  predicate Strays(pos: Addr, range: Addr, pg: Paging, layout: seq<Region>, grant: (nat, Addr) -> bool)
    requires layout != []
  {
    var min, max := MinPage(pos, range, pg), MaxPage(pos, range, pg);
    |layout| == 1 && Inside(layout, min, max, 0) && FirstAsks(grant, min, max, layout).Go?
  }

  /** It happens exactly for one region that lies between the limits, unless the request before the loop is honoured. */
  lemma StraysExactly(pos: Addr, range: Addr, pg: Paging, layout: seq<Region>, grant: (nat, Addr) -> bool)
    requires layout != []
    ensures var min, max, r := MinPage(pos, range, pg), MaxPage(pos, range, pg), layout[0];
            Strays(pos, range, pg, layout, grant) <==>
              && |layout| == 1 && min <= r.address && (r.address + r.length) % TWO64 < max
              && !(min < r.address && grant(0, min))
  {
  }

  /** None stands for undefined behaviour. */
  method SearchNearBlankPage(pos: Addr, range: Addr, pg: Paging, layout: seq<Region>, grant: (nat, Addr) -> bool)
      returns (r: Option<Addr>)
    requires layout != []
    ensures r == if Strays(pos, range, pg, layout, grant) then None else Some(Search(pos, range, pg, layout, grant))
  {
    var min, max := MinPage(pos, range, pg), MaxPage(pos, range, pg);
    var guess: Addr, n: nat := min, 0;
    if min < layout[0].address {
      if grant(n, guess) { return Some(guess); }
      n := n + 1;
    }
    if max < End(layout[|layout| - 1]) {
      if grant(n, guess) { return Some(guess); }
      n := n + 1;
    }
    r := SearchRegions(pg, min, max, layout, grant, n);
  }

  /** The loop over the regions. */
  method SearchRegions(pg: Paging, min: Addr, max: Addr, layout: seq<Region>, grant: (nat, Addr) -> bool, asked: nat)
      returns (r: Option<Addr>)
    requires layout != []
    ensures r == if |layout| == 1 && Inside(layout, min, max, 0) then None
                 else Some(Scan(Lefts(layout, pg, min, max), Rights(layout, pg, min, max), grant, |layout|, 0, min, asked))
  {
    var guess: Addr, n := min, asked;
    ghost var left, right := Lefts(layout, pg, min, max), Rights(layout, pg, min, max);
    for i := 0 to |layout|
      invariant Scan(left, right, grant, |layout|, i, guess, n) == Scan(left, right, grant, |layout|, 0, min, asked)
      invariant i > 0 && |layout| == 1 ==> !Inside(layout, min, max, 0)
    {
      ghost var g := left(i, guess);
      if End(layout[i]) < max && layout[i].address >= min {
        if i >= 1 && guess == min {
          var prevEnd := NextPage(End(layout[i - 1]), pg);
          if layout[i].address > prevEnd {
            guess := Max(min, prevEnd);
            assert g == Some(guess);
            if grant(n, guess) { return Some(guess); }
            n := n + 1;
          }
        }
        if |layout| == 1 || i + 1 < |layout| {
          if |layout| == 1 { return None; }
          if End(layout[i]) < layout[i + 1].address {
            guess := NextPage(End(layout[i]), pg);
            assert right(i) == Some(guess);
            if grant(n, guess) { return Some(guess); }
            n := n + 1;
          }
        }
      }
    }
    r := Some(0);
  }

  // ----- the limits -----

  lemma MinPageWithin(pos: Addr, range: Addr, pg: Paging)
    requires ValidPaging(pg) && pg.size < range
    ensures Within(MinPage(pos, range, pg), pos, range) && MinPage(pos, range, pg) > 0
  {
    var low := AddrSub(pos, range);
    assert low == if range < pos then pos - range else 0;
    assert pg.floor(low) <= low < pg.floor(low) + pg.size;
  }

  /** The upper limit is below the range and starts a page. */
  lemma MaxPageBelow(pos: Addr, range: Addr, pg: Paging)
    requires ValidPaging(pg) && pg.size < range
    ensures var max := MaxPage(pos, range, pg); max < pos + range && pg.floor(max) == max
  {
    var high := AddrAdd(pos, range);
    assert high == if pos + range < TWO64 then pos + range else TWO64 - 1;
    assert pg.floor(high) <= high < pg.floor(high) + pg.size;
    if pg.floor(high) < pg.size {
      FloorBelow(high, pg);
    }
  }

  /** The limits leave nothing out: every page start above 0 that is less than `range` below the position is at
      or above the lower limit, and every page that ends within `range` above it starts at or below the upper. */
  lemma LimitsExact(pos: Addr, range: Addr, pg: Paging, a: Addr)
    requires ValidPaging(pg) && pg.size < range && pg.floor(a) == a
    ensures 0 < a && pos < a + range ==> MinPage(pos, range, pg) <= a
    ensures a + pg.size <= pos + range && a + pg.size < TWO64 ==> a <= MaxPage(pos, range, pg)
  {
    if 0 < a && pos < a + range {
      LowestPage(pos, range, pg, a);
    }
    if a + pg.size <= pos + range && a + pg.size < TWO64 {
      HighestPage(pos, range, pg, a);
    }
  }

  lemma LowestPage(pos: Addr, range: Addr, pg: Paging, a: Addr)
    requires ValidPaging(pg) && pg.floor(a) == a && 0 < a && pos < a + range
    ensures MinPage(pos, range, pg) <= a
  {
    var low := AddrSub(pos, range);
    assert low < a;
    PageAfter(low, a, pg);
  }

  lemma PageAfter(low: Addr, a: Addr, pg: Paging)
    requires ValidPaging(pg) && pg.floor(a) == a && low < a
    ensures NextPage(low, pg) <= a
  {
    assert pg.floor(low) + pg.size <= a;
  }

  lemma HighestPage(pos: Addr, range: Addr, pg: Paging, a: Addr)
    requires ValidPaging(pg) && pg.floor(a) == a && a + pg.size <= pos + range && a + pg.size < TWO64
    ensures a <= MaxPage(pos, range, pg)
  {
    var high := AddrAdd(pos, range);
    assert a + pg.size <= high;
    NextStart(a, pg);
    PagesBelow(a + pg.size, high, pg);
    PageBefore(a, high, pg);
  }

  lemma PageBefore(a: Addr, high: Addr, pg: Paging)
    requires ValidPaging(pg) && a + pg.size <= pg.floor(high)
    ensures a <= PrevPage(high, pg)
  {
  }

  lemma NextStart(a: Addr, pg: Paging)
    requires ValidPaging(pg) && pg.floor(a) == a && a + pg.size < TWO64
    ensures pg.floor(a + pg.size) == a + pg.size
  {
    var m: Addr := a + pg.size;
    assert pg.floor(m) <= m < pg.floor(m) + pg.size && pg.floor(pg.floor(m)) == pg.floor(m);
    assert pg.floor(a) + pg.size <= pg.floor(m);
  }

  lemma PagesBelow(m: Addr, high: Addr, pg: Paging)
    requires ValidPaging(pg) && pg.floor(m) == m && m <= high
    ensures m <= pg.floor(high)
  {
    var f := pg.floor(high);
    assert high < f + pg.size && pg.floor(f) == f;
  }

  lemma FloorBelow(a: Addr, pg: Paging)
    requires ValidPaging(pg) && pg.floor(a) < pg.size
    ensures pg.floor(a) == 0
  {
    var m := pg.floor(a);
    var zero: Addr := 0;
    assert pg.floor(m) == m;
    assert pg.floor(zero) + pg.size <= m || zero >= m;
  }

  lemma NextPageFits(end: Addr, max: Addr, pg: Paging)
    requires ValidPaging(pg) && end < max && pg.floor(max) == max
    ensures end < NextPage(end, pg) <= max
  {
    assert pg.floor(end) + pg.size <= max;
  }

  // ----- exactly when everything found is in range -----

  /** Regions in address order; the last may end at 2^64. */
  ghost predicate SortedToEnd(layout: seq<Region>) {
    && (forall i :: 0 <= i < |layout| ==> layout[i].address + layout[i].length <= TWO64)
    && (forall i, j :: 0 <= i < j < |layout| ==> layout[i].address + layout[i].length <= layout[j].address)
  }

  function OrElse(c: Option<Addr>, guess: Addr): Addr { if c.Some? then c.value else guess }

  /** The guess at the i-th region when every request before was refused. */
  function Refused(left: (nat, Addr) -> Option<Addr>, right: nat -> Option<Addr>, min: Addr, i: nat): Addr {
    if i == 0 then min
    else OrElse(right(i - 1), OrElse(left(i - 1, Refused(left, right, min, i - 1)), Refused(left, right, min, i - 1)))
  }

  predicate Safe(r: Addr, pos: Addr, range: nat) { r == 0 || Within(r, pos, range) }

  /** The last region ends at 2^64, behind a blank that is out of range, and no blank before it was tried. */
  ghost predicate EscapesBetween(min: Addr, max: Addr, pos: Addr, range: Addr, pg: Paging, layout: seq<Region>)
    requires |layout| >= 2
  {
    var last := |layout| - 1;
    var blank := NextPage(End(layout[last - 1]), pg);
    && layout[last].address + layout[last].length == TWO64 && min <= layout[last].address && 0 < max
    && pos + range <= blank < layout[last].address
    && Refused(Lefts(layout, pg, min, max), Rights(layout, pg, min, max), min, last) == min
  }

  ghost predicate Escapes(pos: Addr, range: Addr, pg: Paging, layout: seq<Region>) {
    |layout| >= 2 && EscapesBetween(MinPage(pos, range, pg), MaxPage(pos, range, pg), pos, range, pg, layout)
  }

  /** `guess(i)` is the guess at the i-th region when every request before was refused. */
  ghost predicate Guesses(guess: nat -> Addr, left: (nat, Addr) -> Option<Addr>, right: nat -> Option<Addr>, len: nat) {
    forall i: nat {:trigger left(i, guess(i))} :: i < len ==>
      guess(i + 1) == OrElse(right(i), OrElse(left(i, guess(i)), guess(i)))
  }

  /** Every candidate a refused search comes to is in range. */
  ghost predicate AllWithin(guess: nat -> Addr, left: (nat, Addr) -> Option<Addr>, right: nat -> Option<Addr>, len: nat,
                            pos: Addr, range: nat) {
    forall i: nat {:trigger left(i, guess(i))} :: i < len ==>
      && (left(i, guess(i)).Some? ==> Within(left(i, guess(i)).value, pos, range))
      && (right(i).Some? ==> Within(right(i).value, pos, range))
  }

  function Refusals(left: (nat, Addr) -> Option<Addr>, right: nat -> Option<Addr>, min: Addr): nat -> Addr {
    (i: nat) => Refused(left, right, min, i)
  }

  lemma RefusalsAre(left: (nat, Addr) -> Option<Addr>, right: nat -> Option<Addr>, min: Addr, len: nat)
    ensures Guesses(Refusals(left, right, min), left, right, len) && Refusals(left, right, min)(0) == min
  {
  }

  lemma {:induction false} ScanSafe(left: (nat, Addr) -> Option<Addr>, right: nat -> Option<Addr>,
                                    grant: (nat, Addr) -> bool, guess: nat -> Addr, len: nat, i: nat, n: nat,
                                    pos: Addr, range: nat)
    requires i <= len && Guesses(guess, left, right, len) && AllWithin(guess, left, right, len, pos, range)
    ensures Safe(Scan(left, right, grant, len, i, guess(i), n), pos, range)
    decreases len - i
  {
    if i < len {
      var first := Ask(grant, left(i, guess(i)), guess(i), n);
      if first.Go? {
        var second := Ask(grant, right(i), first.guess, first.n);
        if second.Go? {
          assert second.guess == guess(i + 1);
          ScanSafe(left, right, grant, guess, len, i + 1, second.n, pos, range);
        }
      }
    }
  }

  /** If only one address is granted, and the last region leads to it, the scan returns it. */
  lemma {:induction false} ScanReturns(left: (nat, Addr) -> Option<Addr>, right: nat -> Option<Addr>,
                                       grant: (nat, Addr) -> bool, guess: nat -> Addr, last: nat, i: nat, n: nat,
                                       pos: Addr, range: nat, a: Addr)
    requires i <= last && Guesses(guess, left, right, last) && AllWithin(guess, left, right, last, pos, range)
    requires !Within(a, pos, range) && forall n: nat, x: Addr :: grant(n, x) <==> x == a
    requires left(last, guess(last)) == Some(a)
    ensures Scan(left, right, grant, last + 1, i, guess(i), n) == a
    decreases last - i
  {
    if i < last {
      var first := Ask(grant, left(i, guess(i)), guess(i), n);
      var second := Ask(grant, right(i), first.guess, first.n);
      assert second.guess == guess(i + 1);
      ScanReturns(left, right, grant, guess, last, i + 1, second.n, pos, range, a);
    }
  }

  /** Before the last region all candidates are in range. */
  lemma EarlierWithin(layout: seq<Region>, pg: Paging, min: Addr, max: Addr, pos: Addr, range: Addr, guess: nat -> Addr)
    requires ValidPaging(pg) && pg.floor(max) == max && |layout| >= 2 && SortedToEnd(layout)
    requires Within(min, pos, range) && max < pos + range
    ensures AllWithin(guess, Lefts(layout, pg, min, max), Rights(layout, pg, min, max), |layout| - 1, pos, range)
    ensures Right(layout, pg, min, max, |layout| - 1) == None
  {
    var left, right := Lefts(layout, pg, min, max), Rights(layout, pg, min, max);
    forall i: nat | i < |layout| - 1
      ensures left(i, guess(i)).Some? ==> Within(left(i, guess(i)).value, pos, range)
      ensures right(i).Some? ==> Within(right(i).value, pos, range)
    {
      EndsEarly(layout, i);
      var g := guess(i);
      assert left(i, g) == Left(layout, pg, min, max, i, g) && right(i) == Right(layout, pg, min, max, i);
      if right(i).Some? {
        NextPageFits(End(layout[i]), max, pg);
      }
    }
  }

  lemma EndsEarly(layout: seq<Region>, i: nat)
    requires SortedToEnd(layout) && i < |layout| - 1
    ensures End(layout[i]) == layout[i].address + layout[i].length
  {
    assert layout[i].address + layout[i].length <= layout[i + 1].address;
  }

  /** What the last region leads to. */
  lemma LastCandidate(layout: seq<Region>, pg: Paging, min: Addr, max: Addr, pos: Addr, range: Addr, guess: Addr)
    requires |layout| >= 2 && SortedToEnd(layout) && Within(min, pos, range) && max < pos + range
    ensures var last := |layout| - 1;
            var blank := NextPage(End(layout[last - 1]), pg);
            var c := Left(layout, pg, min, max, last, guess);
            if layout[last].address + layout[last].length == TWO64 && min <= layout[last].address && 0 < max &&
               pos + range <= blank < layout[last].address && guess == min
            then c == Some(blank) && !Within(blank, pos, range)
            else c.Some? ==> Within(c.value, pos, range)
  {
    var last := |layout| - 1;
    assert End(layout[last]) == if layout[last].address + layout[last].length == TWO64 then 0
                                else layout[last].address + layout[last].length;
  }

  lemma AddLast(guess: nat -> Addr, left: (nat, Addr) -> Option<Addr>, right: nat -> Option<Addr>, last: nat,
                pos: Addr, range: nat)
    requires AllWithin(guess, left, right, last, pos, range) && right(last) == None
    requires left(last, guess(last)).Some? ==> Within(left(last, guess(last)).value, pos, range)
    ensures AllWithin(guess, left, right, last + 1, pos, range)
  {
  }

  /** Exactly when the search is safe whatever the operating system grants. */
  lemma SearchExact(pos: Addr, range: Addr, pg: Paging, layout: seq<Region>)
    requires ValidPaging(pg) && pg.size < range && layout != [] && SortedToEnd(layout)
    ensures (forall grant: (nat, Addr) -> bool :: Safe(Search(pos, range, pg, layout, grant), pos, range))
            <==> !Escapes(pos, range, pg, layout)
  {
    MinPageWithin(pos, range, pg);
    MaxPageBelow(pos, range, pg);
    if Escapes(pos, range, pg, layout) {
      var grant := SearchEscapes(pos, range, pg, layout);
      assert !Safe(Search(pos, range, pg, layout, grant), pos, range);
    } else {
      forall grant: (nat, Addr) -> bool
        ensures Safe(Search(pos, range, pg, layout, grant), pos, range)
      {
        SearchSafe(pos, range, pg, layout, grant);
      }
    }
  }

  /** What is known of the limits of a search. */
  ghost predicate Limits(min: Addr, max: Addr, pos: Addr, range: Addr, pg: Paging) {
    ValidPaging(pg) && pg.floor(max) == max && Within(min, pos, range) && max < pos + range
  }

  lemma ScanRegionsSafe(min: Addr, max: Addr, pos: Addr, range: Addr, pg: Paging, layout: seq<Region>,
                        grant: (nat, Addr) -> bool, n: nat)
    requires Limits(min, max, pos, range, pg) && |layout| >= 2 && SortedToEnd(layout)
    requires !EscapesBetween(min, max, pos, range, pg, layout)
    ensures Safe(Scan(Lefts(layout, pg, min, max), Rights(layout, pg, min, max), grant, |layout|, 0, min, n), pos, range)
  {
    var last := |layout| - 1;
    var left, right := Lefts(layout, pg, min, max), Rights(layout, pg, min, max);
    var guess := Refusals(left, right, min);
    RefusalsAre(left, right, min, |layout|);
    EarlierWithin(layout, pg, min, max, pos, range, guess);
    LastCandidate(layout, pg, min, max, pos, range, guess(last));
    AddLast(guess, left, right, last, pos, range);
    ScanSafe(left, right, grant, guess, |layout|, 0, n, pos, range);
  }

  /** Where only the blank out of range is granted, the loop returns it. */
  lemma ScanRegionsEscape(min: Addr, max: Addr, pos: Addr, range: Addr, pg: Paging, layout: seq<Region>,
                          grant: (nat, Addr) -> bool, n: nat)
    requires Limits(min, max, pos, range, pg) && |layout| >= 2 && SortedToEnd(layout)
    requires EscapesBetween(min, max, pos, range, pg, layout)
    requires forall n: nat, x: Addr :: grant(n, x) <==> x == NextPage(End(layout[|layout| - 2]), pg)
    ensures !Within(NextPage(End(layout[|layout| - 2]), pg), pos, range)
    ensures Scan(Lefts(layout, pg, min, max), Rights(layout, pg, min, max), grant, |layout|, 0, min, n) ==
            NextPage(End(layout[|layout| - 2]), pg)
  {
    var last, blank := |layout| - 1, NextPage(End(layout[|layout| - 2]), pg);
    var left, right := Lefts(layout, pg, min, max), Rights(layout, pg, min, max);
    var guess := Refusals(left, right, min);
    RefusalsAre(left, right, min, last);
    EarlierWithin(layout, pg, min, max, pos, range, guess);
    LastCandidate(layout, pg, min, max, pos, range, guess(last));
    ScanReturns(left, right, grant, guess, last, 0, n, pos, range, blank);
  }

  /** Nothing is asked for around a single region. */
  lemma ScanOne(layout: seq<Region>, pg: Paging, min: Addr, max: Addr, grant: (nat, Addr) -> bool, n: nat)
    requires |layout| == 1
    ensures Scan(Lefts(layout, pg, min, max), Rights(layout, pg, min, max), grant, 1, 0, min, n) == 0
  {
    assert Lefts(layout, pg, min, max)(0, min) == None && Rights(layout, pg, min, max)(0) == None;
  }

  /** A page found lies strictly within the range, in spite of saturation at both ends of the address space. */
  lemma SearchSafe(pos: Addr, range: Addr, pg: Paging, layout: seq<Region>, grant: (nat, Addr) -> bool)
    requires ValidPaging(pg) && pg.size < range && layout != [] && SortedToEnd(layout)
    requires !Escapes(pos, range, pg, layout)
    ensures Safe(Search(pos, range, pg, layout, grant), pos, range)
  {
    MinPageWithin(pos, range, pg);
    MaxPageBelow(pos, range, pg);
    var min, max := MinPage(pos, range, pg), MaxPage(pos, range, pg);
    match FirstAsks(grant, min, max, layout)
    case Got(_) =>
    case Go(_, n) =>
      if |layout| == 1 {
        ScanOne(layout, pg, min, max, grant, n);
      } else {
        ScanRegionsSafe(min, max, pos, range, pg, layout, grant, n);
      }
  }

  /** Grants only the blank out of range. */
  lemma SearchEscapes(pos: Addr, range: Addr, pg: Paging, layout: seq<Region>) returns (grant: (nat, Addr) -> bool)
    requires ValidPaging(pg) && pg.size < range && SortedToEnd(layout) && Escapes(pos, range, pg, layout)
    ensures !Safe(Search(pos, range, pg, layout, grant), pos, range)
  {
    MinPageWithin(pos, range, pg);
    MaxPageBelow(pos, range, pg);
    var min, max := MinPage(pos, range, pg), MaxPage(pos, range, pg);
    grant := Only(NextPage(End(layout[|layout| - 2]), pg));
    EscapeFound(min, max, pos, range, pg, layout, grant);
  }

  function Only(blank: Addr): (nat, Addr) -> bool { (n: nat, x: Addr) => x == blank }

  lemma EscapeFound(min: Addr, max: Addr, pos: Addr, range: Addr, pg: Paging, layout: seq<Region>,
                    grant: (nat, Addr) -> bool)
    requires Limits(min, max, pos, range, pg) && |layout| >= 2 && SortedToEnd(layout)
    requires EscapesBetween(min, max, pos, range, pg, layout)
    requires forall n: nat, x: Addr :: grant(n, x) <==> x == NextPage(End(layout[|layout| - 2]), pg)
    ensures var first := FirstAsks(grant, min, max, layout);
            && first.Go?
            && !Safe(Scan(Lefts(layout, pg, min, max), Rights(layout, pg, min, max), grant, |layout|, 0, min, first.n),
                     pos, range)
  {
    ScanRegionsEscape(min, max, pos, range, pg, layout, grant, 0);
    var first := FirstAsks(grant, min, max, layout);
    ScanRegionsEscape(min, max, pos, range, pg, layout, grant, first.n);
  }

  // ----- the search leaves no blank out -----

  /** There is a blank behind the i-th region, which lies between the limits. */
  ghost predicate BlankBehind(layout: seq<Region>, min: Addr, max: Addr, i: nat) {
    && i + 1 < |layout| && min <= layout[i].address
    && var end := (layout[i].address + layout[i].length) % TWO64;
       end < max && end < layout[i + 1].address
  }

  /** There is a blank page between the i-th region, which lies between the limits, and the one before it. */
  ghost predicate BlankBefore(layout: seq<Region>, pg: Paging, min: Addr, max: Addr, i: nat) {
    && 1 <= i < |layout| && min <= layout[i].address
    && (layout[i].address + layout[i].length) % TWO64 < max
    && NextPage(End(layout[i - 1]), pg) < layout[i].address
  }

  /** No blank was tried before the i-th region, but for the lowest page. */
  ghost predicate Untried(layout: seq<Region>, pg: Paging, min: Addr, max: Addr, i: nat) {
    forall j: nat :: j < i ==>
      !BlankBehind(layout, min, max, j) &&
      (BlankBefore(layout, pg, min, max, j) ==> NextPage(End(layout[j - 1]), pg) <= min)
  }

  /** The addresses the search asks for until one is honoured: the lowest page, if it lies before the first region
      or the last region reaches over the upper limit; the page behind each region with a blank behind it; and
      the page before a region, as long as no other blank was tried. */
  ghost predicate AskedFor(layout: seq<Region>, pg: Paging, min: Addr, max: Addr, a: Addr)
    requires layout != []
  {
    || (a == min && (min < layout[0].address || max < End(layout[|layout| - 1])))
    || (exists i: nat :: BlankBehind(layout, min, max, i) && a == NextPage(End(layout[i]), pg))
    || (exists i: nat :: BlankBefore(layout, pg, min, max, i) && Untried(layout, pg, min, max, i) &&
                         a == Max(min, NextPage(End(layout[i - 1]), pg)))
  }

  lemma RightIs(layout: seq<Region>, pg: Paging, min: Addr, max: Addr, i: nat)
    ensures Right(layout, pg, min, max, i) ==
            if BlankBehind(layout, min, max, i) then Some(NextPage(End(layout[i]), pg)) else None
  {
  }

  lemma LeftIs(layout: seq<Region>, pg: Paging, min: Addr, max: Addr, i: nat, g: Addr)
    ensures Left(layout, pg, min, max, i, g) ==
            if g == min && BlankBefore(layout, pg, min, max, i) then Some(Max(min, NextPage(End(layout[i - 1]), pg)))
            else None
  {
  }

  /** Candidates behind a region are above the lowest page, those before a region at or above it. */
  ghost predicate Rising(left: (nat, Addr) -> Option<Addr>, right: nat -> Option<Addr>, min: Addr, len: nat) {
    && (forall i: nat {:trigger right(i)} :: i < len && right(i).Some? ==> min < right(i).value)
    && (forall i: nat, g: Addr {:trigger left(i, g)} :: i < len && left(i, g).Some? ==> g == min <= left(i, g).value)
  }

  /** The guess is still the lowest page exactly if nothing else was asked for. */
  lemma {:induction false} GuessIsLowest(left: (nat, Addr) -> Option<Addr>, right: nat -> Option<Addr>,
                                         guess: nat -> Addr, min: Addr, len: nat, i: nat)
    requires Guesses(guess, left, right, len) && guess(0) == min && Rising(left, right, min, len) && i <= len
    ensures guess(i) >= min
    ensures guess(i) == min <==>
            forall j: nat {:trigger right(j)} {:trigger left(j, min)} :: j < i ==>
              right(j) == None && (left(j, min).Some? ==> left(j, min).value == min)
  {
    if i > 0 {
      GuessIsLowest(left, right, guess, min, len, i - 1);
      var g := guess(i - 1);
      assert left(i - 1, g).Some? ==> g == min;
      assert guess(i - 1 + 1) == OrElse(right(i - 1), OrElse(left(i - 1, g), g));
      assert right(i - 1).Some? ==> min < right(i - 1).value;
    }
  }

  ghost predicate CandidateAt(left: (nat, Addr) -> Option<Addr>, right: nat -> Option<Addr>, guess: nat -> Addr,
                              j: nat, a: Addr) {
    left(j, guess(j)) == Some(a) || right(j) == Some(a)
  }

  /** A scan that finds something was granted one of its candidates. */
  lemma {:induction false} ScanGranted(left: (nat, Addr) -> Option<Addr>, right: nat -> Option<Addr>,
                                       grant: (nat, Addr) -> bool, guess: nat -> Addr, len: nat, i: nat, n: nat)
    requires i <= len && Guesses(guess, left, right, len)
    ensures var r := Scan(left, right, grant, len, i, guess(i), n);
            r != 0 ==> (exists m: nat :: grant(m, r)) && exists j: nat :: i <= j < len && CandidateAt(left, right, guess, j, r)
    decreases len - i
  {
    if i < len {
      var r := Scan(left, right, grant, len, i, guess(i), n);
      var first := Ask(grant, left(i, guess(i)), guess(i), n);
      if first.Got? {
        assert CandidateAt(left, right, guess, i, r);
      } else {
        var second := Ask(grant, right(i), first.guess, first.n);
        if second.Got? {
          assert CandidateAt(left, right, guess, i, r);
        } else {
          assert second.guess == guess(i + 1);
          ScanGranted(left, right, grant, guess, len, i + 1, second.n);
        }
      }
    }
  }

  /** With grants that depend on the address alone, a scan that finds nothing was refused every candidate. */
  lemma {:induction false} ScanRefused(left: (nat, Addr) -> Option<Addr>, right: nat -> Option<Addr>,
                                       grant: (nat, Addr) -> bool, honours: Addr -> bool, guess: nat -> Addr,
                                       len: nat, i: nat, n: nat, j: nat, a: Addr)
    requires i <= j < len && Guesses(guess, left, right, len) && CandidateAt(left, right, guess, j, a) && honours(a)
    requires forall m: nat, x: Addr :: grant(m, x) <==> honours(x)
    requires forall k: nat, x: Addr {:trigger CandidateAt(left, right, guess, k, x)} ::
               k < len && CandidateAt(left, right, guess, k, x) ==> x != 0
    ensures Scan(left, right, grant, len, i, guess(i), n) != 0
    decreases len - i
  {
    var first := Ask(grant, left(i, guess(i)), guess(i), n);
    if first.Got? {
      assert CandidateAt(left, right, guess, i, first.page);
    } else {
      var second := Ask(grant, right(i), first.guess, first.n);
      if second.Got? {
        assert CandidateAt(left, right, guess, i, second.page);
      } else {
        assert second.guess == guess(i + 1);
        assert j != i;
        ScanRefused(left, right, grant, honours, guess, len, i + 1, second.n, j, a);
      }
    }
  }

  lemma LayoutRises(min: Addr, max: Addr, pos: Addr, range: Addr, pg: Paging, layout: seq<Region>)
    requires Limits(min, max, pos, range, pg) && SortedToEnd(layout)
    ensures Rising(Lefts(layout, pg, min, max), Rights(layout, pg, min, max), min, |layout|)
  {
    var left, right := Lefts(layout, pg, min, max), Rights(layout, pg, min, max);
    forall i: nat | i < |layout| && right(i).Some?
      ensures min < right(i).value
    {
      RightIs(layout, pg, min, max, i);
      EndsEarly(layout, i);
      NextPageFits(End(layout[i]), max, pg);
    }
    forall i: nat, g: Addr | i < |layout| && left(i, g).Some?
      ensures g == min <= left(i, g).value
    {
      LeftIs(layout, pg, min, max, i, g);
    }
  }

  /** The candidates of the loop are the blanks. */
  lemma CandidatesAre(min: Addr, max: Addr, pos: Addr, range: Addr, pg: Paging, layout: seq<Region>,
                      guess: nat -> Addr, i: nat, a: Addr)
    requires Limits(min, max, pos, range, pg) && SortedToEnd(layout) && i < |layout|
    requires Guesses(guess, Lefts(layout, pg, min, max), Rights(layout, pg, min, max), |layout|) && guess(0) == min
    ensures CandidateAt(Lefts(layout, pg, min, max), Rights(layout, pg, min, max), guess, i, a) <==>
            || (BlankBehind(layout, min, max, i) && a == NextPage(End(layout[i]), pg))
            || (BlankBefore(layout, pg, min, max, i) && Untried(layout, pg, min, max, i) &&
                a == Max(min, NextPage(End(layout[i - 1]), pg)))
  {
    var left, right := Lefts(layout, pg, min, max), Rights(layout, pg, min, max);
    LayoutRises(min, max, pos, range, pg, layout);
    GuessIsLowest(left, right, guess, min, |layout|, i);
    RightIs(layout, pg, min, max, i);
    LeftIs(layout, pg, min, max, i, guess(i));
    UntriedIs(layout, pg, min, max, i);
  }

  lemma UntriedIs(layout: seq<Region>, pg: Paging, min: Addr, max: Addr, i: nat)
    ensures var left, right := Lefts(layout, pg, min, max), Rights(layout, pg, min, max);
            Untried(layout, pg, min, max, i) <==>
            forall j: nat {:trigger right(j)} {:trigger left(j, min)} :: j < i ==>
              right(j) == None && (left(j, min).Some? ==> left(j, min).value == min)
  {
    var left, right := Lefts(layout, pg, min, max), Rights(layout, pg, min, max);
    forall j: nat
      ensures right(j) == None <==> !BlankBehind(layout, min, max, j)
      ensures (left(j, min).Some? ==> left(j, min).value == min) <==>
              (BlankBefore(layout, pg, min, max, j) ==> NextPage(End(layout[j - 1]), pg) <= min)
    {
      RightIs(layout, pg, min, max, j);
      LeftIs(layout, pg, min, max, j, min);
    }
  }

  function AddressOnly(honours: Addr -> bool): (nat, Addr) -> bool { (n: nat, a: Addr) => honours(a) }

  /** Whatever the grants, what is found was asked for and granted. */
  lemma SearchGranted(pos: Addr, range: Addr, pg: Paging, layout: seq<Region>, grant: (nat, Addr) -> bool)
    requires ValidPaging(pg) && pg.size < range && layout != [] && SortedToEnd(layout)
    ensures var r := Search(pos, range, pg, layout, grant);
            r != 0 ==> (exists n: nat :: grant(n, r)) &&
                       AskedFor(layout, pg, MinPage(pos, range, pg), MaxPage(pos, range, pg), r)
  {
    MinPageWithin(pos, range, pg);
    MaxPageBelow(pos, range, pg);
    var min, max := MinPage(pos, range, pg), MaxPage(pos, range, pg);
    FoundWasAsked(min, max, pos, range, pg, layout, grant);
  }

  lemma FoundWasAsked(min: Addr, max: Addr, pos: Addr, range: Addr, pg: Paging, layout: seq<Region>,
                      grant: (nat, Addr) -> bool)
    requires Limits(min, max, pos, range, pg) && layout != [] && SortedToEnd(layout)
    ensures var r := SearchBetween(min, max, pg, layout, grant);
            r != 0 ==> (exists n: nat :: grant(n, r)) && AskedFor(layout, pg, min, max, r)
  {
    var first := FirstAsks(grant, min, max, layout);
    if first.Go? {
      var left, right := Lefts(layout, pg, min, max), Rights(layout, pg, min, max);
      var guess := Refusals(left, right, min);
      RefusalsAre(left, right, min, |layout|);
      ScanGranted(left, right, grant, guess, |layout|, 0, first.n);
      var r := SearchBetween(min, max, pg, layout, grant);
      if r != 0 {
        var j: nat :| j < |layout| && CandidateAt(left, right, guess, j, r);
        CandidatesAre(min, max, pos, range, pg, layout, guess, j, r);
      }
    }
  }

  lemma AskedIsFound(min: Addr, max: Addr, pos: Addr, range: Addr, pg: Paging, layout: seq<Region>,
                     honours: Addr -> bool, a: Addr)
    requires Limits(min, max, pos, range, pg) && layout != [] && SortedToEnd(layout) && min > 0
    requires AskedFor(layout, pg, min, max, a) && honours(a)
    ensures SearchBetween(min, max, pg, layout, AddressOnly(honours)) != 0
  {
    var grant := AddressOnly(honours);
    var first := FirstAsks(grant, min, max, layout);
    if first.Go? {
      var left, right := Lefts(layout, pg, min, max), Rights(layout, pg, min, max);
      var guess := Refusals(left, right, min);
      RefusalsAre(left, right, min, |layout|);
      forall k: nat, x: Addr | k < |layout| && CandidateAt(left, right, guess, k, x)
        ensures x != 0
      {
        CandidatesAre(min, max, pos, range, pg, layout, guess, k, x);
        LayoutRises(min, max, pos, range, pg, layout);
      }
      var j := AskedAt(layout, pg, min, max, a);
      CandidatesAre(min, max, pos, range, pg, layout, guess, j, a);
      ScanRefused(left, right, grant, honours, guess, |layout|, 0, first.n, j, a);
    }
  }

  /** The region that an address asked for in the loop belongs to. */
  lemma AskedAt(layout: seq<Region>, pg: Paging, min: Addr, max: Addr, a: Addr) returns (j: nat)
    requires layout != [] && AskedFor(layout, pg, min, max, a)
    requires !(a == min && (min < layout[0].address || max < End(layout[|layout| - 1])))
    ensures j < |layout|
    ensures || (BlankBehind(layout, min, max, j) && a == NextPage(End(layout[j]), pg))
            || (BlankBefore(layout, pg, min, max, j) && Untried(layout, pg, min, max, j) &&
                a == Max(min, NextPage(End(layout[j - 1]), pg)))
  {
    if i: nat :| BlankBehind(layout, min, max, i) && a == NextPage(End(layout[i]), pg) {
      j := i;
    } else {
      j :| BlankBefore(layout, pg, min, max, j) && Untried(layout, pg, min, max, j) &&
           a == Max(min, NextPage(End(layout[j - 1]), pg));
    }
  }

  /** Where the system honours an address or not, whoever asks and however often, the search finds a page exactly
      if one of the pages it should ask for is honoured, and it is one of those. */
  lemma SearchComplete(pos: Addr, range: Addr, pg: Paging, layout: seq<Region>, honours: Addr -> bool)
    requires ValidPaging(pg) && pg.size < range && layout != [] && SortedToEnd(layout)
    ensures var r, min, max := Search(pos, range, pg, layout, AddressOnly(honours)),
                               MinPage(pos, range, pg), MaxPage(pos, range, pg);
            && (r != 0 <==> exists a: Addr :: AskedFor(layout, pg, min, max, a) && honours(a))
            && (r != 0 ==> AskedFor(layout, pg, min, max, r) && honours(r))
  {
    MinPageWithin(pos, range, pg);
    MaxPageBelow(pos, range, pg);
    var min, max := MinPage(pos, range, pg), MaxPage(pos, range, pg);
    FoundWasAsked(min, max, pos, range, pg, layout, AddressOnly(honours));
    if a: Addr :| AskedFor(layout, pg, min, max, a) && honours(a) {
      AskedIsFound(min, max, pos, range, pg, layout, honours, a);
    }
  }

  /** An operating system that honours requests for high addresses only. */
  predicate HighOnly(n: nat, a: Addr) { a > 0x1000_0000_0000 }

  /** A region that ends exactly at 2^64 has its computed end at 0, and the search can then ask for a page
      far away: here more than 2^46 bytes from the position, with a range of 2^27. */
  lemma WrappedRegionEscapes()
    ensures var layout := [Region(0x7000_0000_0000, 0x1000), Region(0xFFFF_FFFF_FFFF_F000, 0x1000)];
            var r := Search(0x1000_0000, 0x800_0000, Paging(0x1000, Floor(0x1000)), layout, HighOnly);
            r == 0x7000_0000_2000 && !Within(r, 0x1000_0000, 0x800_0000)
  {
    var layout := [Region(0x7000_0000_0000, 0x1000), Region(0xFFFF_FFFF_FFFF_F000, 0x1000)];
    var pg := Paging(0x1000, Floor(0x1000));
    assert AddrSub(0x1000_0000, 0x800_0000) == 0x800_0000 && AddrAdd(0x1000_0000, 0x800_0000) == 0x1800_0000;
    var min, max := MinPage(0x1000_0000, 0x800_0000, pg), MaxPage(0x1000_0000, 0x800_0000, pg);
    assert min == 0x800_1000 && max == 0x17FF_F000;
    assert End(layout[1]) == 0 && End(layout[0]) == 0x7000_0000_1000;
    assert NextPage(0x7000_0000_1000, pg) == 0x7000_0000_2000;
    var left, right := Lefts(layout, pg, min, max), Rights(layout, pg, min, max);
    assert left(0, min) == None && right(0) == None && left(1, min) == Some(0x7000_0000_2000);
    assert Scan(left, right, HighOnly, 2, 1, min, 1) == 0x7000_0000_2000;
    assert Scan(left, right, HighOnly, 2, 0, min, 1) == 0x7000_0000_2000;
  }

  lemma FloorInstance(size: nat)
    requires size > 0
    ensures ValidPaging(Paging(size, Floor(size)))
  {
    FloorValid(size, Floor(size));
  }

  // ----- allocating a chunk near a position -----

  /** llabs of the difference as a signed number. */
  function Distance(a: Addr, b: Addr): nat {
    var d := (a - b) % TWO64;
    if d <= TWO64 / 2 then d else TWO64 - d
  }

  lemma WithinDistance(a: Addr, pos: Addr, range: nat)
    requires Within(a, pos, range)
    ensures Distance(a, pos) < range
  {
  }

  datatype Need = Need(position: Addr, range: Addr, size: nat, permission: Permission)

  predicate Serves(p: Page, q: Need) {
    && p.permission == q.permission && p.cursor < TWO64
    && Distance(p.cursor, q.position) < q.range && p.cursor + q.size < p.address + p.length
  }

  /** The first page that serves the need; |pages| if none does. */
  function FirstServing(pages: seq<Page>, q: Need): (k: nat)
    ensures k <= |pages| && (k < |pages| ==> Serves(pages[k], q))
    ensures forall j :: 0 <= j < k ==> !Serves(pages[j], q)
  {
    if pages == [] || Serves(pages[0], q) then 0 else 1 + FirstServing(pages[1..], q)
  }

  function PushedPage(a: Addr, q: Need, page: nat): Page { Page(a, page, a, q.permission, []) }

  /** A page pushed after a successful search serves the need exactly when the size is below a page. */
  lemma PushedServes(a: Addr, q: Need, page: nat)
    requires Within(a, q.position, q.range)
    ensures Serves(PushedPage(a, q, page), q) <==> q.size < page
  {
    WithinDistance(a, q.position, q.range);
  }

  /** What the system reports at one search: the regions, and which requests it honours. */
  datatype Round = Round(layout: seq<Region>, grant: (nat, Addr) -> bool)

  /** Strayed: undefined behaviour in the search. Unfinished: the loop goes on behind the given searches. */
  datatype Outcome = Served(chunk: Chunk) | GaveUp | Strayed | Unfinished

  function Find(q: Need, pg: Paging, r: Round): Option<Addr>
    requires r.layout != []
  {
    if Strays(q.position, q.range, pg, r.layout, r.grant) then None
    else Some(Search(q.position, q.range, pg, r.layout, r.grant))
  }

  function Finds(q: Need, pg: Paging, rounds: seq<Round>): (found: seq<Option<Addr>>)
    requires forall i :: 0 <= i < |rounds| ==> rounds[i].layout != []
    ensures |found| == |rounds| && forall i :: 0 <= i < |rounds| ==> found[i] == Find(q, pg, rounds[i])
  {
    seq(|rounds|, i requires 0 <= i < |rounds| => Find(q, pg, rounds[i]))
  }

  /** The goto loop, given what the successive searches find. */
  function Attempts(pages: seq<Page>, q: Need, page: nat, found: seq<Option<Addr>>): (Outcome, seq<Page>)
    decreases |found|
  {
    var k := FirstServing(pages, q);
    if k < |pages| then (Served(Chunk(pages[k].cursor, q.size)), pages[k := Bump(pages[k], q.size)])
    else if found == [] then (Unfinished, pages)
    else match found[0]
      case None => (Strayed, pages)
      case Some(a) =>
        if a == 0 then (GaveUp, pages) else Attempts(pages + [PushedPage(a, q, page)], q, page, found[1..])
  }

  /** Less than `range` away, one way or the other round. */
  ghost predicate Near(a: int, pos: int, range: nat) { (a - pos) % TWO64 < range || (pos - a) % TWO64 < range }

  /** The next chunk of the page would be near the position and end before the end of the page. */
  ghost predicate Suits(p: Page, q: Need) {
    && p.permission == q.permission && Near(p.cursor, q.position, q.range)
    && p.cursor + q.size < p.address + p.length
  }

  lemma SuitsIsServes(p: Page, q: Need)
    ensures Serves(p, q) <==> p.cursor < TWO64 && Suits(p, q)
  {
  }

  ghost predicate FirstSuiting(pages: seq<Page>, q: Need, k: nat) {
    k < |pages| && Suits(pages[k], q) && forall j :: 0 <= j < k ==> !Suits(pages[j], q)
  }

  /** The chunk is the last of a page of the permission asked for, near the position, before the page's end. */
  ghost predicate ServedFrom(p: Page, q: Need, chunk: Chunk) {
    && p.permission == q.permission && chunk.length == q.size
    && Near(chunk.address, q.position, q.range) && chunk.address + q.size < p.address + p.length
    && p.cursor == chunk.address + q.size && p.chunks != [] && p.chunks[|p.chunks| - 1] == chunk
  }

  /** What a request does: the first page that suits it serves it; a page is pushed only if none does; and
      whatever serves it, the chunk is where it should be. */
  ghost predicate NearAnswer(before: seq<Page>, q: Need, outcome: Outcome, after: seq<Page>) {
    && (forall k: nat :: FirstSuiting(before, q, k) ==>
          && outcome == Served(Chunk(before[k].cursor, q.size)) && |after| == |before|
          && after[..k] == before[..k] && after[k + 1..] == before[k + 1..])
    && (|after| > |before| ==> forall j :: 0 <= j < |before| ==> !Suits(before[j], q))
    && (outcome.Served? ==> exists k :: 0 <= k < |after| && ServedFrom(after[k], q, outcome.chunk))
  }

  lemma {:induction false} AttemptsAnswer(pages: seq<Page>, q: Need, page: nat, found: seq<Option<Addr>>)
    requires forall j :: 0 <= j < |pages| ==> pages[j].cursor < TWO64
    ensures var (outcome, after) := Attempts(pages, q, page, found);
            |after| >= |pages| && NearAnswer(pages, q, outcome, after)
    decreases |found|
  {
    var k := FirstServing(pages, q);
    forall j | 0 <= j < |pages|
      ensures Serves(pages[j], q) <==> Suits(pages[j], q)
    {
      SuitsIsServes(pages[j], q);
    }
    if k < |pages| {
      assert ServedFrom(Bump(pages[k], q.size), q, Chunk(pages[k].cursor, q.size));
      assert forall m: nat :: FirstSuiting(pages, q, m) ==> m == k by {
        assert forall m: nat :: FirstSuiting(pages, q, m) ==> !(m < k) && !(k < m);
      }
      assert pages[k := Bump(pages[k], q.size)][k] == Bump(pages[k], q.size);
    } else if found != [] && found[0].Some? && found[0].value != 0 {
      var pushed := PushedPage(found[0].value, q, page);
      AttemptsAnswer(pages + [pushed], q, page, found[1..]);
    }
  }

  /** For a size below a page, the loop ends after one search, and the pages are scanned at most twice. */
  lemma TwoScans(pages: seq<Page>, q: Need, page: nat, found: seq<Option<Addr>>)
    requires q.size < page && found != [] && (found[0].Some? ==> Safe(found[0].value, q.position, q.range))
    ensures var k := FirstServing(pages, q);
            Attempts(pages, q, page, found) ==
            if k < |pages| then (Served(Chunk(pages[k].cursor, q.size)), pages[k := Bump(pages[k], q.size)])
            else if found[0].None? then (Strayed, pages)
            else if found[0].value == 0 then (GaveUp, pages)
            else (Served(Chunk(found[0].value, q.size)),
                  pages + [Bump(PushedPage(found[0].value, q, page), q.size)])
  {
    if FirstServing(pages, q) == |pages| && found[0].Some? && found[0].value != 0 {
      var added := PushedPage(found[0].value, q, page);
      var all := pages + [added];
      PushedServes(found[0].value, q, page);
      FirstIs(all, q, |pages|);
      assert all[|pages| := Bump(added, q.size)] == pages + [Bump(added, q.size)];
    }
  }

  /** For a size of a page or more that no page serves, the request is never served: the loop goes on exactly
      as long as every search finds a page. */
  lemma {:induction false} NeverServed(pages: seq<Page>, q: Need, page: nat, found: seq<Option<Addr>>)
    requires q.size >= page && FirstServing(pages, q) == |pages|
    ensures var outcome := Attempts(pages, q, page, found).0;
            && !outcome.Served?
            && (outcome.Unfinished? <==> forall i :: 0 <= i < |found| ==> found[i].Some? && found[i].value != 0)
    decreases |found|
  {
    if found != [] && found[0].Some? && found[0].value != 0 {
      var all := pages + [PushedPage(found[0].value, q, page)];
      FirstIs(all, q, |all|);
      NeverServed(all, q, page, found[1..]);
      assert forall i :: 1 <= i < |found| ==> found[i] == found[1..][i - 1];
    }
  }

  class NearMemoryArena {
    const paging: Paging
    var pages: seq<Page>

    constructor (paging: Paging)
      ensures this.paging == paging && pages == []
    {
      this.paging := paging;
      pages := [];
    }

    /** The scan of the page list. */
    method ScanPages(q: Need) returns (k: nat)
      ensures k == FirstServing(pages, q)
    {
      k := 0;
      while k < |pages| && !Serves(pages[k], q)
        invariant 0 <= k <= |pages| && forall j :: 0 <= j < k ==> !Serves(pages[j], q)
      {
        k := k + 1;
      }
      FirstIs(pages, q, k);
    }

    /** The goto loop, up to the given number of searches. */
    method Attempt(q: Need, rounds: seq<Round>) returns (outcome: Outcome)
      requires forall i :: 0 <= i < |rounds| ==> rounds[i].layout != []
      modifies this
      ensures (outcome, pages) == Attempts(old(pages), q, paging.size, Finds(q, paging, rounds))
    {
      ghost var found := Finds(q, paging, rounds);
      var i := 0;
      while true
        invariant 0 <= i <= |rounds| && |found| == |rounds|
        invariant Attempts(pages, q, paging.size, found[i..]) == Attempts(old(pages), q, paging.size, found)
        decreases |rounds| - i
      {
        var k := ScanPages(q);
        if k < |pages| {
          outcome := Served(Chunk(pages[k].cursor, q.size));
          pages := pages[k := Bump(pages[k], q.size)];
          return;
        }
        if i == |rounds| { return Unfinished; }
        var a := SearchNearBlankPage(q.position, q.range, paging, rounds[i].layout, rounds[i].grant);
        assert found[i..][0] == a && found[i..][1..] == found[i + 1..];
        if a == None { return Strayed; }
        if a.value == 0 { return GaveUp; }
        pages := pages + [PushedPage(a.value, q, paging.size)];
        i := i + 1;
      }
    }

    /** AllocateChunk, up to the given number of searches. `cave` is what the search for blank memory in mapped
        regions would find. */
    method AllocateChunk(q: Need, rounds: seq<Round>, cave: Option<Chunk>) returns (outcome: Outcome, chunk: Option<Chunk>)
      requires forall i :: 0 <= i < |rounds| ==> rounds[i].layout != []
      modifies this
      ensures (outcome, pages) == Attempts(old(pages), q, paging.size, Finds(q, paging, rounds))
      ensures (forall j :: 0 <= j < |old(pages)| ==> old(pages)[j].cursor < TWO64) ==>
                NearAnswer(old(pages), q, outcome, pages)
      ensures chunk == if outcome.Served? then Some(outcome.chunk)
                       else if outcome.GaveUp? && q.permission == ReadExecute then cave else None
    {
      if forall j :: 0 <= j < |pages| ==> pages[j].cursor < TWO64 {
        AttemptsAnswer(pages, q, paging.size, Finds(q, paging, rounds));
      }
      outcome := Attempt(q, rounds);
      match outcome
      case Served(served) => chunk := Some(served);
      case GaveUp => chunk := if q.permission == ReadWrite then None else cave;
      case _ => chunk := None;
    }
  }

  /** The arena and the search together: below a page, in a layout that does not escape, the first search
      decides, and a chunk on a new page is within the range. */
  lemma NearChunk(pages: seq<Page>, q: Need, pg: Paging, rounds: seq<Round>)
    requires ValidPaging(pg) && q.size < pg.size < q.range && rounds != []
    requires forall i :: 0 <= i < |rounds| ==> rounds[i].layout != []
    requires SortedToEnd(rounds[0].layout) && !Escapes(q.position, q.range, pg, rounds[0].layout)
    ensures var (outcome, after) := Attempts(pages, q, pg.size, Finds(q, pg, rounds));
            && !outcome.Unfinished? && |pages| <= |after| <= |pages| + 1
            && (outcome.Served? && |after| == |pages| + 1 ==>
                  var a := Find(q, pg, rounds[0]);
                  a.Some? && outcome.chunk == Chunk(a.value, q.size) && Within(a.value, q.position, q.range))
  {
    SearchSafe(q.position, q.range, pg, rounds[0].layout, rounds[0].grant);
    TwoScans(pages, q, pg.size, Finds(q, pg, rounds));
  }

  lemma FirstIs(pages: seq<Page>, q: Need, k: nat)
    requires k <= |pages| && (k < |pages| ==> Serves(pages[k], q))
    requires forall j :: 0 <= j < k ==> !Serves(pages[j], q)
    ensures FirstServing(pages, q) == k
  {
    var f := FirstServing(pages, q);
    assert f < k || f == k || k < f;
  }
}
