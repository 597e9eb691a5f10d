/** The bump allocator for code and data chunks. */
module MemoryArena {
  import opened Common

  datatype Permission = ReadWrite | ReadExecute

  datatype Chunk = Chunk(address: nat, length: nat)
  datatype Page = Page(address: nat, length: nat, cursor: nat, permission: Permission, chunks: seq<Chunk>)

  /** An allocation request, and the page the operating system would hand out if asked for one. */
  datatype Request = Request(size: nat, permission: Permission, os: Option<nat>)

  // ----- what an allocation does -----

  predicate Usable(p: Page, r: Request) {
    p.permission == r.permission && p.cursor + r.size < p.address + p.length
  }

  /** The first page with room, strictly; |pages| if there is none. */
  function FirstUsable(pages: seq<Page>, r: Request): (k: nat)
    ensures k <= |pages| && (k < |pages| ==> Usable(pages[k], r))
    ensures forall j :: 0 <= j < k ==> !Usable(pages[j], r)
  {
    if pages == [] || Usable(pages[0], r) then 0 else 1 + FirstUsable(pages[1..], r)
  }

  function NewPage(address: nat, r: Request, pageSize: nat): Page {
    Page(address, pageSize, address, r.permission, [])
  }

  function Bump(p: Page, size: nat): Page {
    p.(cursor := p.cursor + size, chunks := p.chunks + [Chunk(p.cursor, size)])
  }

  /** The pages after the request. A fresh page is used without asking whether the request fits. */
  function Allocated(pages: seq<Page>, pageSize: nat, r: Request): seq<Page> {
    var k := FirstUsable(pages, r);
    if k < |pages| then pages[k := Bump(pages[k], r.size)]
    else match r.os
      case None => pages
      case Some(a) => pages + [Bump(NewPage(a, r, pageSize), r.size)]
  }

  /** The page has the permission asked for, and more bytes left than the size. */
  ghost predicate HasRoom(p: Page, r: Request) {
    p.permission == r.permission && r.size < p.address + p.length - p.cursor
  }

  ghost predicate FirstWithRoom(pages: seq<Page>, r: Request, k: nat) {
    k < |pages| && HasRoom(pages[k], r) && forall j :: 0 <= j < k ==> !HasRoom(pages[j], r)
  }

  /** The k-th page serves the request from its cursor, and no other page changes. */
  ghost predicate ServedBy(before: seq<Page>, r: Request, k: nat, chunk: Option<Chunk>, after: seq<Page>) {
    && k < |before| == |after| && chunk == Some(Chunk(before[k].cursor, r.size))
    && after[k].cursor == before[k].cursor + r.size
    && after[..k] == before[..k] && after[k + 1..] == before[k + 1..]
  }

  /** The answer to a request: room on a page is used where there is some, by the first page that has it, and
      a page is added only if none has. */
  ghost predicate Answered(before: seq<Page>, r: Request, chunk: Option<Chunk>, after: seq<Page>) {
    && (forall k: nat :: FirstWithRoom(before, r, k) ==> ServedBy(before, r, k, chunk, after))
    && ((forall j :: 0 <= j < |before| ==> !HasRoom(before[j], r)) ==>
          if r.os == None then chunk == None && after == before
          else chunk == Some(Chunk(r.os.value, r.size)) && |after| == |before| + 1 && after[..|before|] == before)
  }

  /** The chunk a request is answered with. */
  function Answer(pages: seq<Page>, r: Request): Option<Chunk> {
    var k := FirstUsable(pages, r);
    if k < |pages| then Some(Chunk(pages[k].cursor, r.size))
    else if r.os == None then None else Some(Chunk(r.os.value, r.size))
  }

  lemma AllocatedAnswers(pages: seq<Page>, pageSize: nat, r: Request)
    ensures Answered(pages, r, Answer(pages, r), Allocated(pages, pageSize, r))
  {
    var f := FirstUsable(pages, r);
    assert forall p {:trigger HasRoom(p, r)} :: HasRoom(p, r) <==> Usable(p, r);
    forall k: nat | FirstWithRoom(pages, r, k)
      ensures ServedBy(pages, r, k, Answer(pages, r), Allocated(pages, pageSize, r))
    {
      assert f < k || f == k || k < f;
    }
    if f < |pages| {
      assert HasRoom(pages[f], r);
    }
  }

  class Arena {
    const pageSize: nat
    var pages: seq<Page>

    constructor (pageSize: nat)
      ensures this.pageSize == pageSize && pages == []
    {
      this.pageSize := pageSize;
      pages := [];
    }

    /** AllocateChunk; the result is the last chunk of the page that served it. */
    method AllocateChunk(r: Request) returns (chunk: Option<Chunk>)
      modifies this
      ensures pages == Allocated(old(pages), pageSize, r)
      ensures var k := FirstUsable(old(pages), r);
              if k == |old(pages)| && r.os == None then chunk == None
              else k < |pages| && pages[k].permission == r.permission && pages[k].chunks != [] &&
                   chunk == Some(pages[k].chunks[|pages[k].chunks| - 1]) && chunk.value.length == r.size
      ensures chunk == Answer(old(pages), r) && Answered(old(pages), r, chunk, pages)
    {
      AllocatedAnswers(pages, pageSize, r);
      var k := 0;
      while k < |pages| && !Usable(pages[k], r)
        invariant 0 <= k <= |pages| && pages == old(pages)
        invariant FirstUsable(pages, r) == k + FirstUsable(pages[k..], r)
      {
        assert pages[k..][1..] == pages[k + 1..];
        k := k + 1;
      }
      if k == |pages| {
        if r.os == None {
          return None;
        }
        pages := pages + [NewPage(r.os.value, r, pageSize)];
      }
      chunk := Some(Chunk(pages[k].cursor, r.size));
      pages := pages[k := Bump(pages[k], r.size)];
    }
  }

  // ----- what every run keeps -----

  predicate Apart(a: nat, m: nat, b: nat, n: nat) { a + m <= b || b + n <= a }

  /** The chunks stand one behind the other from `from` and end at `to`. */
  ghost predicate Tiles(chunks: seq<Chunk>, from: nat, to: nat)
    decreases |chunks|
  {
    if chunks == [] then from == to
    else chunks[0].address == from && Tiles(chunks[1..], from + chunks[0].length, to)
  }

  ghost predicate PageOk(p: Page, pageSize: nat) {
    p.length == pageSize && p.cursor <= p.address + p.length && Tiles(p.chunks, p.address, p.cursor)
  }

  ghost predicate Inv(pages: seq<Page>, pageSize: nat) {
    && (forall i :: 0 <= i < |pages| ==> PageOk(pages[i], pageSize))
    && (forall i, j :: 0 <= i < j < |pages| ==> Apart(pages[i].address, pageSize, pages[j].address, pageSize))
  }

  /** The operating system hands out pages that are not in use. */
  ghost predicate FreshPage(pages: seq<Page>, pageSize: nat, r: Request) {
    r.os.Some? ==> forall i :: 0 <= i < |pages| ==> Apart(pages[i].address, pageSize, r.os.value, pageSize)
  }

  lemma {:induction false} TilesAppend(chunks: seq<Chunk>, from: nat, to: nat, n: nat)
    requires Tiles(chunks, from, to)
    ensures Tiles(chunks + [Chunk(to, n)], from, to + n)
    decreases |chunks|
  {
    if chunks == [] {
      assert chunks + [Chunk(to, n)] == [Chunk(to, n)] && [Chunk(to, n)][1..] == [];
    } else {
      TilesAppend(chunks[1..], from + chunks[0].length, to, n);
      assert (chunks + [Chunk(to, n)])[1..] == chunks[1..] + [Chunk(to, n)];
    }
  }

  lemma BumpKeeps(p: Page, pageSize: nat, size: nat)
    requires PageOk(p, pageSize) && p.cursor + size <= p.address + p.length
    ensures PageOk(Bump(p, size), pageSize)
  {
    TilesAppend(p.chunks, p.address, p.cursor, size);
  }

  /** An allocation keeps the invariant exactly when it fits a page or gets no page. */
  lemma AllocateExact(pages: seq<Page>, pageSize: nat, r: Request)
    requires Inv(pages, pageSize) && FreshPage(pages, pageSize, r)
    ensures Inv(Allocated(pages, pageSize, r), pageSize) <==> r.size <= pageSize || r.os == None
  {
    var k := FirstUsable(pages, r);
    var after := Allocated(pages, pageSize, r);
    if k < |pages| {
      TilesForward(pages[k].chunks, pages[k].address, pages[k].cursor);
      BumpKeeps(pages[k], pageSize, r.size);
    } else if r.os.Some? {
      var p := NewPage(r.os.value, r, pageSize);
      if r.size <= pageSize {
        BumpKeeps(p, pageSize, r.size);
      } else {
        assert !PageOk(after[|pages|], pageSize);
      }
    }
  }

  lemma {:induction false} TileBounds(chunks: seq<Chunk>, from: nat, to: nat, a: nat)
    requires Tiles(chunks, from, to) && a < |chunks|
    ensures from <= chunks[a].address && chunks[a].address + chunks[a].length <= to
    decreases |chunks|
  {
    if a > 0 {
      TileBounds(chunks[1..], from + chunks[0].length, to, a - 1);
    } else {
      TilesForward(chunks[1..], from + chunks[0].length, to);
    }
  }

  lemma {:induction false} TilesForward(chunks: seq<Chunk>, from: nat, to: nat)
    requires Tiles(chunks, from, to)
    ensures from <= to
    decreases |chunks|
  {
    if chunks != [] {
      TilesForward(chunks[1..], from + chunks[0].length, to);
    }
  }

  lemma {:induction false} TilesApart(chunks: seq<Chunk>, from: nat, to: nat, a: nat, b: nat)
    requires Tiles(chunks, from, to) && a < b < |chunks|
    ensures chunks[a].address + chunks[a].length <= chunks[b].address
    decreases |chunks|
  {
    if a == 0 {
      TileBounds(chunks[1..], from + chunks[0].length, to, b - 1);
    } else {
      TilesApart(chunks[1..], from + chunks[0].length, to, a - 1, b - 1);
    }
  }

  /** Any two chunks are disjoint, and each lies inside its page. */
  lemma ChunksApart(pages: seq<Page>, pageSize: nat, i: nat, a: nat, j: nat, b: nat)
    requires Inv(pages, pageSize) && i < |pages| && j < |pages|
    requires a < |pages[i].chunks| && b < |pages[j].chunks| && (i, a) != (j, b)
    ensures var c, d := pages[i].chunks[a], pages[j].chunks[b];
            && Apart(c.address, c.length, d.address, d.length)
            && pages[i].address <= c.address && c.address + c.length <= pages[i].address + pageSize
  {
    TileBounds(pages[i].chunks, pages[i].address, pages[i].cursor, a);
    TileBounds(pages[j].chunks, pages[j].address, pages[j].cursor, b);
    if i == j && a < b {
      TilesApart(pages[i].chunks, pages[i].address, pages[i].cursor, a, b);
    } else if i == j {
      TilesApart(pages[i].chunks, pages[i].address, pages[i].cursor, b, a);
    }
  }

  // ----- whole runs -----

  function Execute(pages: seq<Page>, pageSize: nat, rs: seq<Request>): seq<Page>
    decreases |rs|
  {
    if rs == [] then pages else Execute(Allocated(pages, pageSize, rs[0]), pageSize, rs[1..])
  }

  ghost predicate GoodRun(pages: seq<Page>, pageSize: nat, rs: seq<Request>)
    decreases |rs|
  {
    rs != [] ==>
      && FreshPage(pages, pageSize, rs[0]) && rs[0].size <= pageSize
      && GoodRun(Allocated(pages, pageSize, rs[0]), pageSize, rs[1..])
  }

  /** Pages are never lost, nor are their chunks. */
  ghost predicate Grows(before: seq<Page>, after: seq<Page>) {
    |before| <= |after| && forall i :: 0 <= i < |before| ==>
      before[i].chunks <= after[i].chunks && before[i].permission == after[i].permission
  }

  /** Over every run of requests of at most a page, each page's chunks tile exactly the part up to its
      cursor, pages do not overlap, and every chunk ever handed out is still recorded. */
  lemma {:induction false} RunKeeps(pages: seq<Page>, pageSize: nat, rs: seq<Request>)
    requires Inv(pages, pageSize) && GoodRun(pages, pageSize, rs)
    ensures Inv(Execute(pages, pageSize, rs), pageSize)
    ensures Grows(pages, Execute(pages, pageSize, rs))
    decreases |rs|
  {
    if rs != [] {
      AllocateExact(pages, pageSize, rs[0]);
      RunKeeps(Allocated(pages, pageSize, rs[0]), pageSize, rs[1..]);
    }
  }

  /** The chunks handed out over any run are pairwise disjoint. */
  lemma RunChunksApart(pageSize: nat, rs: seq<Request>, i: nat, a: nat, j: nat, b: nat)
    requires GoodRun([], pageSize, rs)
    requires var pages := Execute([], pageSize, rs);
             i < |pages| && j < |pages| && a < |pages[i].chunks| && b < |pages[j].chunks| && (i, a) != (j, b)
    ensures var pages := Execute([], pageSize, rs);
            var c, d := pages[i].chunks[a], pages[j].chunks[b];
            Apart(c.address, c.length, d.address, d.length)
  {
    RunKeeps([], pageSize, rs);
    ChunksApart(Execute([], pageSize, rs), pageSize, i, a, j, b);
  }
}
