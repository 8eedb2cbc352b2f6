/** The memory of the free-list allocator as a value, and the invariant every operation keeps:
    pages tiled by blocks, a tree of the free ones, and the allocations in the hands of callers. */
module FreeListHeap {

  // Sizes in bytes, on a platform with eight-byte pointers.
  const MIN_ALIGN: nat := 8
  const HDR_SIZE: nat := 8
  const NODE_SIZE: nat := 24
  const HDR_DIFF: nat := NODE_SIZE - HDR_SIZE
  const MIN_BLOCK_SIZE: nat := 24
  const LARGE_BLOCK_HEADER_SIZE: nat := 40
  const PAGE_HEADER_SIZE: nat := 32
  const FALLBACK_LIMIT: nat := 0x1_0000

  /** A block header. `page` is the page the block lies in; only the proof uses it. */
  datatype Header =
    | Small(size: nat, use: bool, page: nat)
    | Large(largeSize: nat)

  /** An allocation: the block that owns it, and the size and alignment it was made with. */
  datatype Alloc = Alloc(block: nat, size: nat, align: nat)

  type Headers = map<nat, Header>

  ghost predicate Disjoint(a: nat, m: nat, b: nat, n: nat) {
    a + m <= b || b + n <= a
  }

  ghost predicate IsSmall(head: Headers, b: nat) {
    b in head && head[b].Small?
  }

  ghost predicate IsFree(head: Headers, b: nat) {
    b in head && head[b].Small? && !head[b].use
  }

  ghost predicate InUse(head: Headers, b: nat) {
    b in head && (head[b].Small? ==> head[b].use)
  }

  // ---------------------------------------------------------------- the invariant

  /** Regions held from the parent do not overlap; each page and each large block is one of them. */
  ghost predicate RegionsOk(pageSize: nat, pages: seq<nat>, head: Headers, held: map<nat, nat>) {
    && pageSize % MIN_ALIGN == 0
    && (forall i, j :: 0 <= i < j < |pages| ==> pages[i] != pages[j])
    && (forall a :: a in held ==> a % MIN_ALIGN == 0)
    && (forall a, b :: a in held && b in held && a != b ==> Disjoint(a, held[a], b, held[b]))
    && (forall p {:trigger PageOk(pageSize, head, held, p)} :: p in pages ==> PageOk(pageSize, head, held, p))
    && (forall b {:trigger LargeOk(pages, head, held, b)} :: b in head && head[b].Large? ==>
          LargeOk(pages, head, held, b))
  }

  ghost predicate PageOk(pageSize: nat, head: Headers, held: map<nat, nat>, p: nat) {
    && PAGE_HEADER_SIZE <= p && p - PAGE_HEADER_SIZE in held
    && held[p - PAGE_HEADER_SIZE] == PAGE_HEADER_SIZE + pageSize
    && IsSmall(head, p) && head[p].page == p
  }

  ghost predicate LargeOk(pages: seq<nat>, head: Headers, held: map<nat, nat>, b: nat)
    requires b in head && head[b].Large?
  {
    && LARGE_BLOCK_HEADER_SIZE <= head[b].largeSize
    && b in held && held[b] == head[b].largeSize && b + PAGE_HEADER_SIZE !in pages
  }

  /** A small block lies in its page, is big enough for a free-tree node, and ends where the page
      ends or where another block of the page begins. */
  ghost predicate BlockOk(pageSize: nat, pages: seq<nat>, head: Headers, b: nat)
    requires IsSmall(head, b)
  {
    var Small(size, _, page) := head[b];
    && page in pages && page <= b && b % MIN_ALIGN == 0
    && MIN_BLOCK_SIZE <= size && size % MIN_ALIGN == 0
    && (b + size == page + pageSize ||
        (b + size < page + pageSize && IsSmall(head, b + size) && head[b + size].page == page))
  }

  /** Two blocks of one page do not overlap. */
  ghost predicate Ordered(head: Headers, b: nat, c: nat)
    requires IsSmall(head, b) && IsSmall(head, c)
  {
    head[b].page == head[c].page && b < c ==> b + head[b].size <= c
  }

  ghost predicate BlocksOk(pageSize: nat, pages: seq<nat>, head: Headers) {
    && (forall b {:trigger BlockOk(pageSize, pages, head, b)} :: IsSmall(head, b) ==> BlockOk(pageSize, pages, head, b))
    && (forall b: nat, c: nat {:trigger Ordered(head, b, c)} :: IsSmall(head, b) && IsSmall(head, c) ==>
          Ordered(head, b, c))
  }

  /** The tree links exactly the free blocks, except the `loose` ones, under their sizes. */
  ghost predicate TreeOk(head: Headers, tree: map<nat, nat>, loose: set<nat>) {
    && (forall b :: b in tree ==> IsFree(head, b) && b !in loose && tree[b] == head[b].size)
    && (forall b :: IsFree(head, b) ==> b in tree || b in loose)
    && (forall b :: b in loose ==> IsFree(head, b))
  }

  /** An allocation lies in its block behind the header, aligned, and the distance stored just
      before the user pointer is 16 bits wide and leads back to the block. */
  ghost predicate LiveOk(head: Headers, back: map<nat, nat>, u: nat, a: Alloc) {
    && InUse(head, a.block)
    && u in back && back[u] < FALLBACK_LIMIT && u == a.block + back[u]
    && a.align > 0 && u % a.align == 0
    && match head[a.block]
       case Small(blockSize, _, _) => HDR_SIZE <= back[u] && back[u] + a.size <= blockSize
       case Large(largeSize) => LARGE_BLOCK_HEADER_SIZE <= back[u] && back[u] + a.size <= largeSize
  }

  /** Blocks in use and allocations correspond one to one. */
  ghost predicate UsersOk(head: Headers, back: map<nat, nat>, live: map<nat, Alloc>, owner: map<nat, nat>) {
    && (forall u :: u in live ==> LiveOk(head, back, u, live[u]) && live[u].block in owner && owner[live[u].block] == u)
    && (forall b :: InUse(head, b) ==> b in owner && owner[b] in live && live[owner[b]].block == b)
  }

  /** `pages` are the addresses of the user areas; `head` the headers by block address; `tree` the
      keys under which free blocks are linked; `back` the 16-bit distances stored just before user
      pointers. `live`, `owner` and `held` are what the callers hold, the user pointer of each block
      in use, and the regions obtained from the parent allocator. */
  datatype Heap = Heap(
    pageSize: nat, pages: seq<nat>, head: Headers, tree: map<nat, nat>, back: map<nat, nat>,
    live: map<nat, Alloc>, owner: map<nat, nat>, held: map<nat, nat>)

  /** The heap invariant; `loose` are free blocks taken out of the tree for the moment. */
  ghost predicate HeapOk(h: Heap, loose: set<nat>) {
    && RegionsOk(h.pageSize, h.pages, h.head, h.held)
    && BlocksOk(h.pageSize, h.pages, h.head)
    && TreeOk(h.head, h.tree, loose)
    && UsersOk(h.head, h.back, h.live, h.owner)
  }

  // ---------------------------------------------------------------- steps that keep it

  lemma UnlinkKeeps(h: Heap, loose: set<nat>, b: nat)
    requires HeapOk(h, loose) && b in h.tree
    ensures HeapOk(h.(tree := h.tree - {b}), loose + {b})
  {}

  lemma LinkKeeps(h: Heap, loose: set<nat>, b: nat)
    requires HeapOk(h, loose) && b in loose
    ensures HeapOk(h.(tree := h.tree[b := h.head[b].size]), loose - {b})
  {}

  /** [a, a + n) is clear of everything held from the parent. */
  ghost predicate Fresh(held: map<nat, nat>, a: nat, n: nat) {
    a % MIN_ALIGN == 0 && n > 0 && a !in held && forall b :: b in held ==> Disjoint(a, n, b, held[b])
  }

  ghost function Extent(header: Header): nat {
    match header
    case Small(size, _, _) => size
    case Large(largeSize) => largeSize
  }

  /** The region held from the parent that a block lies in. */
  ghost function Region(header: Header, b: nat): int {
    match header
    case Small(_, _, page) => page - PAGE_HEADER_SIZE
    case Large(_) => b
  }

  lemma BlockInRegion(h: Heap, loose: set<nat>, b: nat)
    requires HeapOk(h, loose) && b in h.head
    ensures var r := Region(h.head[b], b);
            0 <= r && r in h.held && r <= b && b + Extent(h.head[b]) <= r + h.held[r] && 0 < Extent(h.head[b])
    ensures h.head[b].Small? ==> h.head[b].page <= b
  {
    if h.head[b].Small? {
      assert IsSmall(h.head, b) && BlockOk(h.pageSize, h.pages, h.head, b);
      assert PageOk(h.pageSize, h.head, h.held, h.head[b].page);
    } else {
      assert LargeOk(h.pages, h.head, h.held, b);
    }
  }

  /** Any two blocks, small or large, are disjoint. */
  lemma BlocksApart(h: Heap, loose: set<nat>, b: nat, c: nat)
    requires HeapOk(h, loose) && b in h.head && c in h.head && b != c
    ensures Disjoint(b, Extent(h.head[b]), c, Extent(h.head[c]))
  {
    BlockInRegion(h, loose, b);
    BlockInRegion(h, loose, c);
    var q, r := Region(h.head[b], b), Region(h.head[c], c);
    if q != r {
      assert Disjoint(q, h.held[q], r, h.held[r]);
    } else if h.head[b].Small? && h.head[c].Small? {
      assert IsSmall(h.head, b) && IsSmall(h.head, c);
      assert Ordered(h.head, b, c) && Ordered(h.head, c, b);
    } else {
      OneKindPerRegion(h, loose, if h.head[b].Small? then b else c, r);
    }
  }

  lemma OneKindPerRegion(h: Heap, loose: set<nat>, b: nat, r: nat)
    requires HeapOk(h, loose) && IsSmall(h.head, b) && r == h.head[b].page - PAGE_HEADER_SIZE
    ensures !(r in h.head && h.head[r].Large?)
  {
    assert BlockOk(h.pageSize, h.pages, h.head, b);
    assert r in h.head && h.head[r].Large? ==> LargeOk(h.pages, h.head, h.held, r);
  }

  /** A fresh region holds no block. */
  lemma NothingInside(h: Heap, loose: set<nat>, a: nat, n: nat)
    requires HeapOk(h, loose) && Fresh(h.held, a, n)
    ensures forall b :: b in h.head ==> b < a || a + n <= b
  {
    forall b | b in h.head ensures b < a || a + n <= b {
      BlockInRegion(h, loose, b);
      var r := Region(h.head[b], b);
      assert Disjoint(a, n, r, h.held[r]);
    }
  }

  /** No header lies strictly inside a block. */
  lemma NothingBetween(h: Heap, loose: set<nat>, b: nat, x: nat)
    requires HeapOk(h, loose) && b in h.head && b < x < b + Extent(h.head[b])
    ensures x !in h.head
  {
    if x in h.head {
      BlockInRegion(h, loose, x);
      BlocksApart(h, loose, b, x);
    }
  }

  /** A new page becomes one free block. */
  lemma AddPageKeeps(h: Heap, loose: set<nat>, p: nat, g: Heap)
    requires HeapOk(h, loose) && MIN_BLOCK_SIZE <= h.pageSize
    requires PAGE_HEADER_SIZE <= p && Fresh(h.held, p - PAGE_HEADER_SIZE, PAGE_HEADER_SIZE + h.pageSize)
    requires g == h.(pages := [p] + h.pages, head := h.head[p := Small(h.pageSize, false, p)],
                     held := h.held[p - PAGE_HEADER_SIZE := PAGE_HEADER_SIZE + h.pageSize])
    ensures p !in h.head && HeapOk(g, loose + {p})
  {
    hide RegionsOk, BlocksOk, UsersOk;
    NothingInside(h, loose, p - PAGE_HEADER_SIZE, PAGE_HEADER_SIZE + h.pageSize);
    LiveOutside(h, loose, p - PAGE_HEADER_SIZE, PAGE_HEADER_SIZE + h.pageSize);
    AddPageRegions(h, p, g);
    AddPageBlocks(h, p, g);
    MoreHeadersUsers(h, g);
  }

  lemma AddPageRegions(h: Heap, p: nat, g: Heap)
    requires RegionsOk(h.pageSize, h.pages, h.head, h.held)
    requires PAGE_HEADER_SIZE <= p && p !in h.head && p !in h.pages
    requires Fresh(h.held, p - PAGE_HEADER_SIZE, PAGE_HEADER_SIZE + h.pageSize)
    requires g == h.(pages := [p] + h.pages, head := h.head[p := Small(h.pageSize, false, p)],
                     held := h.held[p - PAGE_HEADER_SIZE := PAGE_HEADER_SIZE + h.pageSize])
    ensures RegionsOk(g.pageSize, g.pages, g.head, g.held)
  {
    forall q | q in g.pages ensures PageOk(g.pageSize, g.head, g.held, q) {
      if q != p {
        assert PageOk(h.pageSize, h.head, h.held, q);
      }
    }
    forall b | b in g.head && g.head[b].Large? ensures LargeOk(g.pages, g.head, g.held, b) {
      assert LargeOk(h.pages, h.head, h.held, b);
    }
  }

  lemma AddPageBlocks(h: Heap, p: nat, g: Heap)
    requires RegionsOk(h.pageSize, h.pages, h.head, h.held) && BlocksOk(h.pageSize, h.pages, h.head)
    requires MIN_BLOCK_SIZE <= h.pageSize && p % MIN_ALIGN == 0 && p !in h.head
    requires g == h.(pages := [p] + h.pages, head := h.head[p := Small(h.pageSize, false, p)], held := g.held)
    ensures BlocksOk(g.pageSize, g.pages, g.head)
  {
    assert p in h.pages ==> PageOk(h.pageSize, h.head, h.held, p);
    forall b | IsSmall(g.head, b) ensures BlockOk(g.pageSize, g.pages, g.head, b) {
      if b != p {
        assert IsSmall(h.head, b) && BlockOk(h.pageSize, h.pages, h.head, b);
      }
    }
    AddPageOrder(h, p, g);
  }

  lemma AddPageOrder(h: Heap, p: nat, g: Heap)
    requires BlocksOk(h.pageSize, h.pages, h.head) && p !in h.pages && p !in h.head
    requires g.head == h.head[p := Small(h.pageSize, false, p)]
    ensures forall b: nat, c: nat :: IsSmall(g.head, b) && IsSmall(g.head, c) ==> Ordered(g.head, b, c)
  {
    forall b: nat, c: nat | IsSmall(g.head, b) && IsSmall(g.head, c) ensures Ordered(g.head, b, c) {
      if b != p && c != p {
        assert IsSmall(h.head, b) && IsSmall(h.head, c) && Ordered(h.head, b, c);
      } else if b != p {
        assert IsSmall(h.head, b) && BlockOk(h.pageSize, h.pages, h.head, b);
      } else if c != p {
        assert IsSmall(h.head, c) && BlockOk(h.pageSize, h.pages, h.head, c);
      }
    }
  }

  /** Blocks in use are untouched when only free headers change. */
  lemma MoreHeadersUsers(h: Heap, g: Heap)
    requires UsersOk(h.head, h.back, h.live, h.owner)
    requires forall b :: InUse(g.head, b) <==> InUse(h.head, b)
    requires forall b :: InUse(g.head, b) ==> b in h.head && g.head[b] == h.head[b]
    requires g.back == h.back && g.live == h.live && g.owner == h.owner
    ensures UsersOk(g.head, g.back, g.live, g.owner)
  {
    forall u | u in g.live ensures LiveOk(g.head, g.back, u, g.live[u]) {
      assert LiveOk(h.head, h.back, u, h.live[u]);
    }
  }

  /** Regions stay in order as long as pages keep a first block and no large header appears. */
  lemma SameRegions(h: Heap, g: Heap)
    requires RegionsOk(h.pageSize, h.pages, h.head, h.held)
    requires g.pageSize == h.pageSize && g.pages == h.pages && g.held == h.held
    requires forall p :: p in h.pages && IsSmall(h.head, p) && h.head[p].page == p ==>
               IsSmall(g.head, p) && g.head[p].page == p
    requires forall c :: c in g.head && g.head[c].Large? ==> c in h.head && h.head[c] == g.head[c]
    ensures RegionsOk(g.pageSize, g.pages, g.head, g.held)
  {
    forall p | p in g.pages ensures PageOk(g.pageSize, g.head, g.held, p) {
      assert PageOk(h.pageSize, h.head, h.held, p);
    }
    forall c | c in g.head && g.head[c].Large? ensures LargeOk(g.pages, g.head, g.held, c) {
      assert LargeOk(h.pages, h.head, h.held, c);
    }
  }

  /** A loose block is cut in two loose blocks. */
  lemma SplitKeeps(h: Heap, loose: set<nat>, b: nat, n: nat, g: Heap)
    requires HeapOk(h, loose) && b in loose && n % MIN_ALIGN == 0
    requires MIN_BLOCK_SIZE <= n && n + MIN_BLOCK_SIZE <= h.head[b].size
    requires g == h.(head := h.head[b := h.head[b].(size := n)]
                                   [b + n := h.head[b].(size := h.head[b].size - n)])
    ensures b + n !in h.head && HeapOk(g, loose + {b + n})
  {
    hide RegionsOk, BlocksOk, UsersOk;
    NothingBetween(h, loose, b, b + n);
    SameRegions(h, g);
    SplitBlocks(h, b, n, g);
    MoreHeadersUsers(h, g);
  }

  lemma SplitBlocks(h: Heap, b: nat, n: nat, g: Heap)
    requires BlocksOk(h.pageSize, h.pages, h.head) && IsSmall(h.head, b) && b + n !in h.head
    requires n % MIN_ALIGN == 0 && MIN_BLOCK_SIZE <= n && n + MIN_BLOCK_SIZE <= h.head[b].size
    requires g == h.(head := h.head[b := h.head[b].(size := n)]
                                   [b + n := h.head[b].(size := h.head[b].size - n)])
    ensures BlocksOk(g.pageSize, g.pages, g.head)
  {
    assert BlockOk(h.pageSize, h.pages, h.head, b);
    forall c | IsSmall(g.head, c) ensures BlockOk(g.pageSize, g.pages, g.head, c) {
      if c != b && c != b + n {
        assert IsSmall(h.head, c) && BlockOk(h.pageSize, h.pages, h.head, c);
      }
    }
    SplitOrder(h, b, n, g);
  }

  lemma SplitOrder(h: Heap, b: nat, n: nat, g: Heap)
    requires BlocksOk(h.pageSize, h.pages, h.head) && IsSmall(h.head, b) && b + n !in h.head
    requires 0 < n < h.head[b].size
    requires g == h.(head := h.head[b := h.head[b].(size := n)]
                                   [b + n := h.head[b].(size := h.head[b].size - n)])
    ensures forall c: nat, d: nat :: IsSmall(g.head, c) && IsSmall(g.head, d) ==> Ordered(g.head, c, d)
  {
    forall c: nat, d: nat | IsSmall(g.head, c) && IsSmall(g.head, d) ensures Ordered(g.head, c, d) {
      var c', d' := if c == b + n then b else c, if d == b + n then b else d;
      assert IsSmall(h.head, c') && IsSmall(h.head, d') && Ordered(h.head, c', d') && Ordered(h.head, d', c');
    }
  }

  /** Two adjacent loose blocks of a page become one. */
  lemma MergeKeeps(h: Heap, loose: set<nat>, b: nat, g: Heap)
    requires HeapOk(h, loose) && b in loose && b + h.head[b].size in loose
    requires h.head[b + h.head[b].size].page == h.head[b].page
    requires var next := b + h.head[b].size;
             g == h.(head := (h.head - {next})[b := h.head[b].(size := h.head[b].size + h.head[next].size)])
    ensures HeapOk(g, loose - {b + h.head[b].size})
  {
    hide RegionsOk, UsersOk;
    assert BlockOk(h.pageSize, h.pages, h.head, b);
    FirstBlockStays(h, b);
    SameRegions(h, g);
    MergeBlocks(h, b, g);
    MoreHeadersUsers(h, g);
  }

  lemma FirstBlockStays(h: Heap, b: nat)
    requires RegionsOk(h.pageSize, h.pages, h.head, h.held) && BlocksOk(h.pageSize, h.pages, h.head)
    requires IsSmall(h.head, b) && IsSmall(h.head, b + h.head[b].size)
    requires h.head[b + h.head[b].size].page == h.head[b].page
    ensures b + h.head[b].size !in h.pages
  {
    var next := b + h.head[b].size;
    assert BlockOk(h.pageSize, h.pages, h.head, b);
    assert next in h.pages ==> PageOk(h.pageSize, h.head, h.held, next);
  }

  lemma MergeBlocks(h: Heap, b: nat, g: Heap)
    requires BlocksOk(h.pageSize, h.pages, h.head)
    requires IsSmall(h.head, b) && IsSmall(h.head, b + h.head[b].size)
    requires h.head[b + h.head[b].size].page == h.head[b].page
    requires var next := b + h.head[b].size;
             g == h.(head := (h.head - {next})[b := h.head[b].(size := h.head[b].size + h.head[next].size)])
    ensures BlocksOk(g.pageSize, g.pages, g.head)
  {
    var next := b + h.head[b].size;
    assert BlockOk(h.pageSize, h.pages, h.head, b) && BlockOk(h.pageSize, h.pages, h.head, next);
    forall c | IsSmall(g.head, c) ensures BlockOk(g.pageSize, g.pages, g.head, c) {
      assert IsSmall(h.head, c) && BlockOk(h.pageSize, h.pages, h.head, c);
      if c != b {
        NextIsUnique(h, b, c);
      }
    }
    MergeOrder(h, b, g);
  }

  lemma MergeOrder(h: Heap, b: nat, g: Heap)
    requires BlocksOk(h.pageSize, h.pages, h.head)
    requires IsSmall(h.head, b) && IsSmall(h.head, b + h.head[b].size)
    requires h.head[b + h.head[b].size].page == h.head[b].page
    requires var next := b + h.head[b].size;
             g == h.(head := (h.head - {next})[b := h.head[b].(size := h.head[b].size + h.head[next].size)])
    ensures forall c: nat, d: nat :: IsSmall(g.head, c) && IsSmall(g.head, d) ==> Ordered(g.head, c, d)
  {
    var next := b + h.head[b].size;
    forall c: nat, d: nat | IsSmall(g.head, c) && IsSmall(g.head, d) ensures Ordered(g.head, c, d) {
      assert IsSmall(h.head, c) && IsSmall(h.head, d) && Ordered(h.head, c, d);
      assert Ordered(h.head, next, d);
    }
  }

  lemma NextIsUnique(h: Heap, b: nat, c: nat)
    requires BlocksOk(h.pageSize, h.pages, h.head)
    requires IsSmall(h.head, b) && IsSmall(h.head, c) && b != c
    ensures h.head[b].page == h.head[c].page ==> b + h.head[b].size != c + h.head[c].size
  {
    assert Ordered(h.head, b, c) && Ordered(h.head, c, b);
    assert BlockOk(h.pageSize, h.pages, h.head, b) && BlockOk(h.pageSize, h.pages, h.head, c);
  }

  /** A loose block is handed to a caller. */
  lemma HandOutKeeps(h: Heap, loose: set<nat>, b: nat, u: nat, size: nat, align: nat, g: Heap)
    requires HeapOk(h, loose) && b in loose
    requires b + HDR_SIZE <= u < b + FALLBACK_LIMIT && u + size <= b + h.head[b].size
    requires size > 0 && align > 0 && u % align == 0
    requires g == h.(head := h.head[b := h.head[b].(use := true)], back := h.back[u := u - b],
                     live := h.live[u := Alloc(b, size, align)], owner := h.owner[b := u])
    ensures u !in h.live && HeapOk(g, loose - {b})
  {
    hide RegionsOk, BlocksOk, UsersOk;
    PointersApart(h, loose, b, u);
    SameRegions(h, g);
    UseFlagKeepsBlocks(h, b, true, g);
    HandOutUsers(h, b, u, size, align, g);
  }

  /** User pointers of distinct blocks differ. */
  lemma PointersApart(h: Heap, loose: set<nat>, b: nat, u: nat)
    requires HeapOk(h, loose) && IsFree(h.head, b) && b < u < b + h.head[b].size
    ensures u !in h.live
  {
    if u in h.live {
      assert LiveOk(h.head, h.back, u, h.live[u]);
      BlocksApart(h, loose, b, h.live[u].block);
    }
  }

  lemma UseFlagKeepsBlocks(h: Heap, b: nat, use: bool, g: Heap)
    requires BlocksOk(h.pageSize, h.pages, h.head) && IsSmall(h.head, b)
    requires g.pageSize == h.pageSize && g.pages == h.pages
    requires g.head == h.head[b := h.head[b].(use := use)]
    ensures BlocksOk(g.pageSize, g.pages, g.head)
  {
    forall c | IsSmall(g.head, c) ensures BlockOk(g.pageSize, g.pages, g.head, c) {
      assert IsSmall(h.head, c) && BlockOk(h.pageSize, h.pages, h.head, c);
    }
    forall c: nat, d: nat | IsSmall(g.head, c) && IsSmall(g.head, d) ensures Ordered(g.head, c, d) {
      assert IsSmall(h.head, c) && IsSmall(h.head, d) && Ordered(h.head, c, d);
    }
  }

  /** A caller gives a small block back; it is loose until it is linked. */
  lemma TakeBackKeeps(h: Heap, loose: set<nat>, u: nat, g: Heap)
    requires HeapOk(h, loose) && u in h.live && IsSmall(h.head, h.live[u].block)
    requires var b := h.live[u].block;
             g == h.(head := h.head[b := h.head[b].(use := false)], live := h.live - {u}, owner := h.owner - {b})
    ensures u in h.back && h.live[u].block + h.back[u] == u
    ensures HeapOk(g, loose + {h.live[u].block})
  {
    hide RegionsOk, BlocksOk;
    var b := h.live[u].block;
    assert LiveOk(h.head, h.back, u, h.live[u]);
    SameRegions(h, g);
    UseFlagKeepsBlocks(h, b, false, g);
    TakeBackUsers(h, u, g);
  }

  lemma TakeBackUsers(h: Heap, u: nat, g: Heap)
    requires UsersOk(h.head, h.back, h.live, h.owner) && u in h.live
    requires var b := h.live[u].block;
             && (forall c :: InUse(g.head, c) <==> InUse(h.head, c) && c != b)
             && (forall c :: InUse(g.head, c) && c in h.head ==> g.head[c] == h.head[c])
             && g.back == h.back && g.live == h.live - {u} && g.owner == h.owner - {b}
    ensures UsersOk(g.head, g.back, g.live, g.owner)
  {
    forall v | v in g.live
      ensures LiveOk(g.head, g.back, v, g.live[v]) && g.live[v].block in g.owner && g.owner[g.live[v].block] == v
    {
      assert LiveOk(h.head, h.back, v, h.live[v]) && LiveOk(h.head, h.back, u, h.live[u]);
    }
    forall c | InUse(g.head, c) ensures c in g.owner && g.owner[c] in g.live && g.live[g.owner[c]].block == c {
      assert InUse(h.head, c);
    }
  }

  /** A region of its own from the parent is handed to a caller. */
  lemma AddLargeKeeps(h: Heap, loose: set<nat>, b: nat, n: nat, u: nat, size: nat, align: nat, g: Heap)
    requires HeapOk(h, loose) && Fresh(h.held, b, n)
    requires b + LARGE_BLOCK_HEADER_SIZE <= u < b + FALLBACK_LIMIT && u + size <= b + n
    requires size > 0 && align > 0 && u % align == 0
    requires g == h.(head := h.head[b := Large(n)], back := h.back[u := u - b],
                     live := h.live[u := Alloc(b, size, align)], owner := h.owner[b := u], held := h.held[b := n])
    ensures u !in h.live && HeapOk(g, loose)
  {
    hide RegionsOk, BlocksOk, UsersOk;
    NothingInside(h, loose, b, n);
    LiveOutside(h, loose, b, n);
    AddLargeRegions(h, b, n, g);
    OtherHeaderKeepsBlocks(h, b, n, g);
    AddLargeUsers(h, b, n, u, size, align, g);
  }

  lemma AddLargeRegions(h: Heap, b: nat, n: nat, g: Heap)
    requires RegionsOk(h.pageSize, h.pages, h.head, h.held) && Fresh(h.held, b, n) && b !in h.head
    requires forall p :: p in h.pages ==> p < b || b + n <= p
    requires LARGE_BLOCK_HEADER_SIZE <= n
    requires g.pageSize == h.pageSize && g.pages == h.pages
    requires g.head == h.head[b := Large(n)] && g.held == h.held[b := n]
    ensures RegionsOk(g.pageSize, g.pages, g.head, g.held)
  {
    forall p | p in g.pages ensures PageOk(g.pageSize, g.head, g.held, p) && p != b + PAGE_HEADER_SIZE {
      assert PageOk(h.pageSize, h.head, h.held, p);
    }
    forall c | c in g.head && g.head[c].Large? ensures LargeOk(g.pages, g.head, g.held, c) {
      if c != b {
        assert LargeOk(h.pages, h.head, h.held, c);
      }
    }
  }

  /** No user pointer lies inside a fresh region. */
  lemma LiveOutside(h: Heap, loose: set<nat>, b: nat, n: nat)
    requires HeapOk(h, loose) && Fresh(h.held, b, n)
    ensures forall u :: u in h.live ==> u <= b || b + n <= u
    ensures forall p :: p in h.pages ==> p < b || b + n <= p
  {
    NothingInside(h, loose, b, n);
    forall u | u in h.live ensures u <= b || b + n <= u {
      assert LiveOk(h.head, h.back, u, h.live[u]);
      var c := h.live[u].block;
      BlockInRegion(h, loose, c);
      var r := Region(h.head[c], c);
      assert Disjoint(b, n, r, h.held[r]);
    }
    forall p | p in h.pages ensures p < b || b + n <= p {
      assert PageOk(h.pageSize, h.head, h.held, p);
    }
  }

  lemma OtherHeaderKeepsBlocks(h: Heap, b: nat, n: nat, g: Heap)
    requires BlocksOk(h.pageSize, h.pages, h.head) && b !in h.head
    requires g.pageSize == h.pageSize && g.pages == h.pages && g.head == h.head[b := Large(n)]
    ensures BlocksOk(g.pageSize, g.pages, g.head)
  {
    forall c | IsSmall(g.head, c) ensures BlockOk(g.pageSize, g.pages, g.head, c) {
      assert IsSmall(h.head, c) && BlockOk(h.pageSize, h.pages, h.head, c);
    }
    forall c: nat, d: nat | IsSmall(g.head, c) && IsSmall(g.head, d) ensures Ordered(g.head, c, d) {
      assert IsSmall(h.head, c) && IsSmall(h.head, d) && Ordered(h.head, c, d);
    }
  }

  lemma AddLargeUsers(h: Heap, b: nat, n: nat, u: nat, size: nat, align: nat, g: Heap)
    requires UsersOk(h.head, h.back, h.live, h.owner) && u !in h.live && b !in h.head
    requires b + LARGE_BLOCK_HEADER_SIZE <= u < b + FALLBACK_LIMIT && u + size <= b + n
    requires size > 0 && align > 0 && u % align == 0
    requires g == h.(head := h.head[b := Large(n)], back := h.back[u := u - b],
                     live := h.live[u := Alloc(b, size, align)], owner := h.owner[b := u], held := g.held)
    ensures UsersOk(g.head, g.back, g.live, g.owner)
  {
    forall v | v in g.live
      ensures LiveOk(g.head, g.back, v, g.live[v]) && g.live[v].block in g.owner && g.owner[g.live[v].block] == v
    {
      if v != u {
        assert LiveOk(h.head, h.back, v, h.live[v]);
      }
    }
    forall c | InUse(g.head, c) ensures c in g.owner && g.owner[c] in g.live && g.live[g.owner[c]].block == c {
      if c != b {
        assert InUse(h.head, c);
      }
    }
  }

  /** A caller gives a large block back, and its region returns to the parent. */
  lemma DropLargeKeeps(h: Heap, loose: set<nat>, u: nat, g: Heap)
    requires HeapOk(h, loose) && u in h.live && h.live[u].block in h.head && h.head[h.live[u].block].Large?
    requires var b := h.live[u].block;
             g == h.(head := h.head - {b}, live := h.live - {u}, owner := h.owner - {b}, held := h.held - {b})
    ensures var b := h.live[u].block;
            u in h.back && b + h.back[u] == u && b in h.held && h.held[b] == h.head[b].largeSize
    ensures HeapOk(g, loose)
  {
    hide BlocksOk;
    var b := h.live[u].block;
    assert LiveOk(h.head, h.back, u, h.live[u]) && LargeOk(h.pages, h.head, h.held, b);
    DropLargeRegions(h, b, g);
    DropHeaderKeepsBlocks(h, b, g);
    TakeBackUsers(h, u, g);
  }

  lemma DropLargeRegions(h: Heap, b: nat, g: Heap)
    requires RegionsOk(h.pageSize, h.pages, h.head, h.held) && b in h.head && h.head[b].Large?
    requires g.pageSize == h.pageSize && g.pages == h.pages && g.head == h.head - {b} && g.held == h.held - {b}
    ensures RegionsOk(g.pageSize, g.pages, g.head, g.held)
  {
    assert LargeOk(h.pages, h.head, h.held, b);
    forall p | p in g.pages ensures PageOk(g.pageSize, g.head, g.held, p) {
      assert PageOk(h.pageSize, h.head, h.held, p);
    }
    forall c | c in g.head && g.head[c].Large? ensures LargeOk(g.pages, g.head, g.held, c) {
      assert LargeOk(h.pages, h.head, h.held, c);
    }
  }

  lemma DropHeaderKeepsBlocks(h: Heap, b: nat, g: Heap)
    requires BlocksOk(h.pageSize, h.pages, h.head) && b in h.head && h.head[b].Large?
    requires g.pageSize == h.pageSize && g.pages == h.pages && g.head == h.head - {b}
    ensures BlocksOk(g.pageSize, g.pages, g.head)
  {
    forall c | IsSmall(g.head, c) ensures BlockOk(g.pageSize, g.pages, g.head, c) {
      assert IsSmall(h.head, c) && BlockOk(h.pageSize, h.pages, h.head, c);
    }
    forall c: nat, d: nat | IsSmall(g.head, c) && IsSmall(g.head, d) ensures Ordered(g.head, c, d) {
      assert IsSmall(h.head, c) && IsSmall(h.head, d) && Ordered(h.head, c, d);
    }
  }

  lemma HandOutUsers(h: Heap, b: nat, u: nat, size: nat, align: nat, g: Heap)
    requires UsersOk(h.head, h.back, h.live, h.owner) && u !in h.live && IsFree(h.head, b)
    requires b + HDR_SIZE <= u < b + FALLBACK_LIMIT && u + size <= b + h.head[b].size
    requires size > 0 && align > 0 && u % align == 0
    requires g == h.(head := h.head[b := h.head[b].(use := true)], back := h.back[u := u - b],
                     live := h.live[u := Alloc(b, size, align)], owner := h.owner[b := u])
    ensures UsersOk(g.head, g.back, g.live, g.owner)
  {
    forall v | v in g.live
      ensures LiveOk(g.head, g.back, v, g.live[v]) && g.live[v].block in g.owner && g.owner[g.live[v].block] == v
    {
      if v != u {
        assert LiveOk(h.head, h.back, v, h.live[v]);
      }
    }
    forall c | InUse(g.head, c) ensures c in g.owner && g.owner[c] in g.live && g.live[g.owner[c]].block == c {
      if c != b {
        assert InUse(h.head, c);
      }
    }
  }

  // ---------------------------------------------------------------- readings of the invariant

  lemma FirstBlock(h: Heap, p: nat)
    requires HeapOk(h, {}) && p in h.pages
    ensures IsSmall(h.head, p) && h.head[p].page == p
  {
    assert PageOk(h.pageSize, h.head, h.held, p);
  }

  lemma BlockEnds(h: Heap, loose: set<nat>, b: nat)
    requires HeapOk(h, loose) && IsSmall(h.head, b)
    ensures var next, end := b + h.head[b].size, h.head[b].page + h.pageSize;
            && MIN_BLOCK_SIZE <= h.head[b].size && b % MIN_ALIGN == 0 && h.head[b].size % MIN_ALIGN == 0
            && next <= end && (next < end ==> IsSmall(h.head, next) && h.head[next].page == h.head[b].page)
  {
    assert BlockOk(h.pageSize, h.pages, h.head, b);
  }

  lemma Linked(h: Heap, loose: set<nat>, b: nat)
    requires HeapOk(h, loose) && IsFree(h.head, b) && b !in loose
    ensures b in h.tree && h.tree[b] == h.head[b].size
  {}

  lemma InTree(h: Heap, loose: set<nat>, b: nat)
    requires HeapOk(h, loose) && b in h.tree
    ensures IsFree(h.head, b) && h.tree[b] == h.head[b].size
  {}
}
