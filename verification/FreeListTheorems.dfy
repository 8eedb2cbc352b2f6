/** What the heap invariant means for callers and for pages. */
module FreeListTheorems {
  import opened FreeListHeap

  /** Two live allocations never share a byte. */
  lemma LiveDisjoint(h: Heap, loose: set<nat>, u: nat, v: nat)
    requires HeapOk(h, loose) && u in h.live && v in h.live && u != v
    ensures Disjoint(u, h.live[u].size, v, h.live[v].size)
  {
    LiveInBlock(h, loose, u);
    LiveInBlock(h, loose, v);
    BlocksApart(h, loose, h.live[u].block, h.live[v].block);
  }

  lemma LiveInBlock(h: Heap, loose: set<nat>, u: nat)
    requires HeapOk(h, loose) && u in h.live
    ensures var Alloc(b, size, align) := h.live[u];
            && InUse(h.head, b) && h.owner[b] == u
            && b + HDR_SIZE <= u && u + size <= b + Extent(h.head[b]) && align > 0 && u % align == 0
            && (h.head[b].Large? ==> b + LARGE_BLOCK_HEADER_SIZE <= u)
  {
    assert LiveOk(h.head, h.back, u, h.live[u]);
  }

  /** The bytes at the start of a block that belong to the allocator. */
  ghost function MetadataSize(header: Header): nat {
    match header
    case Small(_, use, _) => if use then HDR_SIZE else NODE_SIZE
    case Large(_) => LARGE_BLOCK_HEADER_SIZE
  }

  /** A live allocation is clear of every block header and free-tree node. */
  lemma LiveClearOfHeaders(h: Heap, loose: set<nat>, u: nat, c: nat)
    requires HeapOk(h, loose) && u in h.live && c in h.head
    ensures Disjoint(u, h.live[u].size, c, MetadataSize(h.head[c]))
  {
    LiveInBlock(h, loose, u);
    if c != h.live[u].block {
      BlocksApart(h, loose, h.live[u].block, c);
      MetadataFits(h, loose, c);
    }
  }

  lemma MetadataFits(h: Heap, loose: set<nat>, c: nat)
    requires HeapOk(h, loose) && c in h.head
    ensures MetadataSize(h.head[c]) <= Extent(h.head[c])
  {
    if h.head[c].Small? {
      assert IsSmall(h.head, c) && BlockOk(h.pageSize, h.pages, h.head, c);
    } else {
      assert LargeOk(h.pages, h.head, h.held, c);
    }
  }

  /** It is clear of the two bytes before any user pointer, where the distances are stored. Those two
      bytes are clear of the words of their own header that are still needed, and of all of every
      other header and tree node. */
  lemma LiveClearOfDistances(h: Heap, loose: set<nat>, u: nat, v: nat)
    requires HeapOk(h, loose) && u in h.live && v in h.live
    ensures 2 <= v && Disjoint(u, h.live[u].size, v - 2, 2)
    ensures var b := h.live[v].block; b + (if h.head[b].Small? then 6 else 34) <= v - 2
    ensures forall c: nat :: c in h.head && c != h.live[v].block ==> Disjoint(v - 2, 2, c, MetadataSize(h.head[c]))
  {
    LiveInBlock(h, loose, u);
    LiveInBlock(h, loose, v);
    var b := h.live[v].block;
    if u != v {
      BlocksApart(h, loose, h.live[u].block, b);
    }
    forall c: nat | c in h.head && c != b ensures Disjoint(v - 2, 2, c, MetadataSize(h.head[c])) {
      BlocksApart(h, loose, b, c);
      MetadataFits(h, loose, c);
    }
  }

  /** It is clear of every page header, and a small one lies inside one page. */
  lemma LiveInPage(h: Heap, loose: set<nat>, u: nat, p: nat)
    requires HeapOk(h, loose) && u in h.live && p in h.pages
    ensures PAGE_HEADER_SIZE <= p && Disjoint(u, h.live[u].size, p - PAGE_HEADER_SIZE, PAGE_HEADER_SIZE)
    ensures var b := h.live[u].block;
            h.head[b].Small? ==> h.head[b].page in h.pages && h.head[b].page <= u &&
                                 u + h.live[u].size <= h.head[b].page + h.pageSize
  {
    LiveInBlock(h, loose, u);
    var b := h.live[u].block;
    BlockInRegion(h, loose, b);
    assert PageOk(h.pageSize, h.head, h.held, p);
    var q, r := Region(h.head[b], b), p - PAGE_HEADER_SIZE;
    if q != r {
      assert Disjoint(q, h.held[q], r, h.held[r]);
    } else if h.head[b].Large? {
      OneKindPerRegion(h, loose, p, r);
    }
    if h.head[b].Small? {
      assert IsSmall(h.head, b) && BlockOk(h.pageSize, h.pages, h.head, b);
      assert PageOk(h.pageSize, h.head, h.held, h.head[b].page);
    }
  }

  // ---------------------------------------------------------------- tiling

  /** The blocks met by stepping from header to header, as far as the end of the page. */
  ghost function Walk(h: Heap, loose: set<nat>, b: nat): seq<nat>
    requires HeapOk(h, loose) && IsSmall(h.head, b)
    decreases h.head[b].page + h.pageSize - b
  {
    assert BlockOk(h.pageSize, h.pages, h.head, b);
    var next := b + h.head[b].size;
    if next == h.head[b].page + h.pageSize then [b]
    else
      assert BlockOk(h.pageSize, h.pages, h.head, next);
      [b] + Walk(h, loose, next)
  }

  ghost function TotalSize(head: Headers, blocks: seq<nat>): nat
    requires forall b :: b in blocks ==> IsSmall(head, b)
  {
    if blocks == [] then 0 else assert IsSmall(head, blocks[0]); head[blocks[0]].size + TotalSize(head, blocks[1..])
  }

  /** Stepping through a page from `b` meets exactly the blocks of the page from `b` on. */
  lemma {:induction false} WalkVisits(h: Heap, loose: set<nat>, b: nat)
    requires HeapOk(h, loose) && IsSmall(h.head, b)
    ensures forall c: nat :: c in Walk(h, loose, b) <==>
              IsSmall(h.head, c) && h.head[c].page == h.head[b].page && b <= c
    decreases h.head[b].page + h.pageSize - b
  {
    hide RegionsOk, BlocksOk, TreeOk, UsersOk;
    var next := b + h.head[b].size;
    BlockEnds(h, loose, b);
    AfterBlock(h, loose, b);
    if next < h.head[b].page + h.pageSize {
      WalkVisits(h, loose, next);
    }
  }

  /** The sizes met add up to what is left of the page: from its first block, to the whole page. */
  lemma {:induction false} WalkTiles(h: Heap, loose: set<nat>, b: nat)
    requires HeapOk(h, loose) && IsSmall(h.head, b)
    ensures forall c :: c in Walk(h, loose, b) ==> IsSmall(h.head, c)
    ensures TotalSize(h.head, Walk(h, loose, b)) == h.head[b].page + h.pageSize - b
    decreases h.head[b].page + h.pageSize - b
  {
    hide RegionsOk, BlocksOk, TreeOk, UsersOk;
    var next := b + h.head[b].size;
    BlockEnds(h, loose, b);
    WalkVisits(h, loose, b);
    if next < h.head[b].page + h.pageSize {
      WalkTiles(h, loose, next);
      var w := Walk(h, loose, next);
      assert Walk(h, loose, b) == [b] + w && ([b] + w)[1..] == w;
    }
  }

  /** A later block of the page starts where `b` ends, or after. */
  lemma AfterBlock(h: Heap, loose: set<nat>, b: nat)
    requires HeapOk(h, loose) && IsSmall(h.head, b)
    ensures forall c: nat :: IsSmall(h.head, c) && h.head[c].page == h.head[b].page ==>
              c < h.head[b].page + h.pageSize && (b < c ==> b + h.head[b].size <= c)
  {
    forall c: nat | IsSmall(h.head, c) && h.head[c].page == h.head[b].page
      ensures c < h.head[b].page + h.pageSize && (b < c ==> b + h.head[b].size <= c)
    {
      BlockEnds(h, loose, c);
      assert Ordered(h.head, b, c);
    }
  }

  // ---------------------------------------------------------------- compaction

  /** No two adjacent blocks of a page are both free. */
  ghost predicate Compacted(h: Heap) {
    forall b :: IsFree(h.head, b) ==> NextNotFree(h, b)
  }

  ghost predicate NextNotFree(h: Heap, b: nat)
    requires IsFree(h.head, b)
  {
    var next := b + h.head[b].size;
    next == h.head[b].page + h.pageSize || !IsFree(h.head, next)
  }

  /** Every free block of page `p` that starts before `limit` is followed by one in use. */
  ghost predicate CompactedBelow(h: Heap, p: nat, limit: nat) {
    forall b: nat {:trigger IsFree(h.head, b)} :: IsFree(h.head, b) && h.head[b].page == p && b < limit ==>
      NextNotFree(h, b)
  }

  ghost predicate PageCompacted(h: Heap, p: nat) {
    CompactedBelow(h, p, p + h.pageSize)
  }

  lemma CompactedLess(h: Heap, p: nat, limit: nat)
    requires CompactedBelow(h, p, limit) && p + h.pageSize <= limit
    ensures PageCompacted(h, p)
  {}

  lemma CompactedAtStart(h: Heap, loose: set<nat>, p: nat)
    requires HeapOk(h, loose)
    ensures CompactedBelow(h, p, p)
  {
    forall b: nat | IsFree(h.head, b) && h.head[b].page == p ensures p <= b {
      assert IsSmall(h.head, b) && BlockOk(h.pageSize, h.pages, h.head, b);
    }
  }

  /** Moving past a block that cannot be joined with the next one. */
  lemma CompactedFurther(h: Heap, loose: set<nat>, b: nat, limit: nat)
    requires HeapOk(h, loose) && IsSmall(h.head, b) && CompactedBelow(h, h.head[b].page, b)
    requires IsFree(h.head, b) ==> NextNotFree(h, b)
    requires limit <= b + h.head[b].size || b + h.head[b].size == h.head[b].page + h.pageSize
    ensures CompactedBelow(h, h.head[b].page, limit)
  {
    forall c: nat | IsFree(h.head, c) && h.head[c].page == h.head[b].page && c < limit ensures NextNotFree(h, c) {
      assert Ordered(h.head, b, c);
      assert IsSmall(h.head, c) && BlockOk(h.pageSize, h.pages, h.head, c);
    }
  }

  /** Joining two free blocks leaves what has been compacted before them, and in other pages. */
  lemma CompactedAfterMerge(h: Heap, loose: set<nat>, b: nat, g: Heap, p: nat, limit: nat)
    requires HeapOk(h, loose) && IsFree(h.head, b) && IsFree(h.head, b + h.head[b].size)
    requires h.head[b + h.head[b].size].page == h.head[b].page
    requires var next := b + h.head[b].size;
             g == h.(head := (h.head - {next})[b := h.head[b].(size := h.head[b].size + h.head[next].size)],
                     tree := g.tree)
    requires CompactedBelow(h, p, limit) && (p == h.head[b].page ==> limit <= b)
    ensures CompactedBelow(g, p, limit)
  {
    forall c: nat | IsFree(g.head, c) && g.head[c].page == p && c < limit ensures NextNotFree(g, c) {
      assert IsFree(h.head, c) && NextNotFree(h, c);
      if p == h.head[b].page {
        assert Ordered(h.head, c, b);
      }
    }
  }

  /** All that joining `b` with the next block does for a walk over its page. */
  lemma JoinEffects(h: Heap, b: nat, g: Heap)
    requires HeapOk(h, {}) && IsFree(h.head, b) && IsFree(h.head, b + h.head[b].size)
    requires h.head[b + h.head[b].size].page == h.head[b].page
    requires var next := b + h.head[b].size;
             g == h.(head := (h.head - {next})[b := h.head[b].(size := h.head[b].size + h.head[next].size)],
                     tree := g.tree)
    ensures |g.head| < |h.head| && IsSmall(g.head, b) && g.head[b].page == h.head[b].page
    ensures SameUsed(h.head, g.head)
    ensures CompactedBelow(h, h.head[b].page, b) ==> CompactedBelow(g, h.head[b].page, b)
    ensures forall q :: q != h.head[b].page && PageCompacted(h, q) ==> PageCompacted(g, q)
  {
    hide HeapOk, CompactedBelow;
    var page := h.head[b].page;
    BlockEnds(h, {}, b);
    JoinedHeaders(h.head, b, g.head);
    if CompactedBelow(h, page, b) {
      CompactedAfterMerge(h, {}, b, g, page, b);
    }
    forall q: nat | q != page && PageCompacted(h, q) ensures PageCompacted(g, q) {
      CompactedAfterMerge(h, {}, b, g, q, q + h.pageSize);
    }
  }

  lemma JoinedHeaders(head: Headers, b: nat, head': Headers)
    requires IsFree(head, b) && IsFree(head, b + head[b].size) && head[b].size > 0
    requires var next := b + head[b].size;
             head' == (head - {next})[b := head[b].(size := head[b].size + head[next].size)]
    ensures |head'| < |head| && IsSmall(head', b) && head'[b].page == head[b].page && SameUsed(head, head')
  {
    var next := b + head[b].size;
    hide SameUsed;
    OneHeaderLess(head, next, head');
    SameUsedAfterJoin(head, b, head');
  }

  lemma OneHeaderLess(head: Headers, next: nat, head': Headers)
    requires next in head && head'.Keys == head.Keys - {next}
    ensures |head'| < |head|
  {
    assert |head'.Keys| == |head.Keys| - 1;
  }

  lemma SameUsedAfterJoin(head: Headers, b: nat, head': Headers)
    requires IsFree(head, b) && IsFree(head, b + head[b].size)
    requires var next := b + head[b].size;
             head' == (head - {next})[b := head[b].(size := head[b].size + head[next].size)]
    ensures SameUsed(head, head')
  {}

  /** The blocks in use, and their headers, are the same. */
  ghost predicate SameUsed(head: Headers, head': Headers) {
    forall b :: InUse(head, b) || InUse(head', b) ==> b in head && b in head' && head'[b] == head[b]
  }

  lemma CompactedEverywhere(h: Heap)
    requires HeapOk(h, {}) && forall p :: p in h.pages ==> PageCompacted(h, p)
    ensures Compacted(h)
  {
    forall b | IsFree(h.head, b) ensures NextNotFree(h, b) {
      assert IsSmall(h.head, b) && BlockOk(h.pageSize, h.pages, h.head, b);
      assert PageCompacted(h, h.head[b].page);
    }
  }

  /** Once every allocation has been given back, a compacted page is one free block of full size. */
  lemma EmptyPagesAreWhole(h: Heap, p: nat)
    requires HeapOk(h, {}) && Compacted(h) && h.live == map[] && p in h.pages
    ensures IsFree(h.head, p) && h.head[p].size == h.pageSize && p in h.tree && h.tree[p] == h.pageSize
    ensures forall b :: IsSmall(h.head, b) && h.head[b].page == p ==> b == p
  {
    assert PageOk(h.pageSize, h.head, h.held, p);
    assert !InUse(h.head, p);
    assert BlockOk(h.pageSize, h.pages, h.head, p) && NextNotFree(h, p);
    var next := p + h.head[p].size;
    assert IsSmall(h.head, next) ==> !InUse(h.head, next);
    forall b | IsSmall(h.head, b) && h.head[b].page == p ensures b == p {
      assert BlockOk(h.pageSize, h.pages, h.head, b) && Ordered(h.head, p, b);
    }
  }
}
