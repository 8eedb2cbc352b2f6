/** How much of the pages is free: byte by byte, and as the sum of the keys in the tree. */
module FreeListRoom {
  import opened FreeListHeap
  import opened FreeListTheorems

  // ---------------------------------------------------------------- the keys of the tree

  /** The sum of all keys. */
  ghost function Total(tree: map<nat, nat>): nat
    decreases |tree|
  {
    if tree == map[] then 0
    else
      var b :| b in tree;
      Smaller(tree, b);
      tree[b] + Total(tree - {b})
  }

  lemma Smaller(tree: map<nat, nat>, b: nat)
    requires b in tree
    ensures |tree - {b}| < |tree|
  {
    assert (tree - {b}).Keys == tree.Keys - {b};
    assert |(tree - {b}).Keys| == |tree.Keys| - 1;
  }

  lemma {:induction false} TotalWithout(tree: map<nat, nat>, b: nat)
    requires b in tree
    ensures Total(tree) == tree[b] + Total(tree - {b})
    decreases |tree|
  {
    var c :| c in tree && Total(tree) == tree[c] + Total(tree - {c});
    if c != b {
      Smaller(tree, c);
      Smaller(tree, b);
      TotalWithout(tree - {c}, b);
      TotalWithout(tree - {b}, c);
      assert tree - {c} - {b} == tree - {b} - {c};
    }
  }

  lemma TotalWith(tree: map<nat, nat>, b: nat, n: nat)
    requires b !in tree
    ensures Total(tree[b := n]) == Total(tree) + n
  {
    TotalWithout(tree[b := n], b);
    assert tree[b := n] - {b} == tree;
  }

  // ---------------------------------------------------------------- free bytes

  ghost predicate InFree(head: Headers, b: nat, k: nat) {
    IsFree(head, b) && b <= k < b + head[b].size
  }

  /** The byte lies in a free block. */
  ghost predicate FreeByte(head: Headers, k: nat) {
    exists b: nat :: InFree(head, b, k)
  }

  ghost predicate SameFree(head: Headers, head': Headers) {
    forall k: nat :: FreeByte(head', k) <==> FreeByte(head, k)
  }

  /** The bytes from `b` on, `n` of them, are no longer free. */
  ghost predicate Taken(head: Headers, head': Headers, b: nat, n: nat) {
    forall k: nat :: FreeByte(head', k) <==> FreeByte(head, k) && !(b <= k < b + n)
  }

  /** They are free now. */
  ghost predicate Given(head: Headers, head': Headers, b: nat, n: nat) {
    forall k: nat :: FreeByte(head', k) <==> FreeByte(head, k) || b <= k < b + n
  }

  lemma JoinFree(head: Headers, b: nat, next: nat, head': Headers)
    requires IsFree(head, b) && next == b + head[b].size && IsFree(head, next) && next != b
    requires head' == (head - {next})[b := head[b].(size := head[b].size + head[next].size)]
    ensures SameFree(head, head')
  {
    forall k: nat ensures FreeByte(head', k) <==> FreeByte(head, k) {
      if c: nat :| InFree(head, c, k) {
        assert InFree(head', if c == next then b else c, k);
      }
      if c: nat :| InFree(head', c, k) {
        assert InFree(head, if c == b && k >= next then next else c, k);
      }
    }
  }

  lemma SplitFree(head: Headers, b: nat, n: nat, head': Headers)
    requires IsFree(head, b) && 0 < n < head[b].size && b + n !in head
    requires head' == head[b := head[b].(size := n)][b + n := head[b].(size := head[b].size - n)]
    ensures SameFree(head, head')
  {
    forall k: nat ensures FreeByte(head', k) <==> FreeByte(head, k) {
      if c: nat :| InFree(head, c, k) {
        assert InFree(head', if c == b && k >= b + n then b + n else c, k);
      }
      if c: nat :| InFree(head', c, k) {
        assert InFree(head, if c == b + n then b else c, k);
      }
    }
  }

  /** A block that is taken takes its own bytes only, and one that is given back gives those. */
  lemma BlockTaken(h: Heap, loose: set<nat>, b: nat, head': Headers)
    requires HeapOk(h, loose) && IsFree(h.head, b) && head' == h.head[b := h.head[b].(use := true)]
    ensures Taken(h.head, head', b, h.head[b].size)
  {
    hide HeapOk;
    forall k: nat ensures FreeByte(head', k) <==> FreeByte(h.head, k) && !(b <= k < b + h.head[b].size) {
      if c: nat :| InFree(h.head, c, k) {
        if c != b {
          BlocksApart(h, loose, b, c);
          assert InFree(head', c, k);
        }
      }
      if c: nat :| InFree(head', c, k) {
        BlocksApart(h, loose, b, c);
        assert InFree(h.head, c, k);
      }
    }
  }

  lemma BlockGiven(head: Headers, b: nat, head': Headers)
    requires IsSmall(head, b) && head[b].use && head' == head[b := head[b].(use := false)]
    ensures Given(head, head', b, head[b].size)
  {
    forall k: nat ensures FreeByte(head', k) <==> FreeByte(head, k) || b <= k < b + head[b].size {
      if c: nat :| InFree(head, c, k) {
        assert InFree(head', c, k);
      }
      if b <= k < b + head[b].size {
        assert InFree(head', b, k);
      }
      if c: nat :| InFree(head', c, k) {
        assert c != b ==> InFree(head, c, k);
      }
    }
  }

  lemma PageGiven(head: Headers, p: nat, n: nat, head': Headers)
    requires p !in head && head' == head[p := Small(n, false, p)]
    ensures Given(head, head', p, n)
  {
    forall k: nat ensures FreeByte(head', k) <==> FreeByte(head, k) || p <= k < p + n {
      if c: nat :| InFree(head, c, k) {
        assert InFree(head', c, k);
      }
      if p <= k < p + n {
        assert InFree(head', p, k);
      }
      if c: nat :| InFree(head', c, k) {
        assert c != p ==> InFree(head, c, k);
      }
    }
  }

  /** A large block has no free bytes. */
  lemma LargeIsNotFree(head: Headers, b: nat, n: nat)
    requires b !in head
    ensures SameFree(head, head[b := Large(n)])
  {
    var head' := head[b := Large(n)];
    forall k: nat ensures FreeByte(head', k) <==> FreeByte(head, k) {
      if c: nat :| InFree(head, c, k) {
        assert InFree(head', c, k);
      }
      if c: nat :| InFree(head', c, k) {
        assert InFree(head, c, k);
      }
    }
  }

  // ---------------------------------------------------------------- no room

  /** No page has `n` free bytes in a row. */
  ghost predicate NoRoom(h: Heap, n: nat) {
    forall p: nat, a: nat :: p in h.pages && p <= a && a + n <= p + h.pageSize ==> Interrupted(h.head, a, n)
  }

  ghost predicate Interrupted(head: Headers, a: nat, n: nat) {
    exists k: nat :: a <= k < a + n && !FreeByte(head, k)
  }

  /** The byte behind a free block of a page is not free, where no two adjacent blocks are. */
  lemma ByteBehind(h: Heap, b: nat)
    requires HeapOk(h, {}) && Compacted(h) && IsFree(h.head, b)
    requires b + h.head[b].size < h.head[b].page + h.pageSize
    ensures !FreeByte(h.head, b + h.head[b].size)
  {
    var c := b + h.head[b].size;
    assert NextNotFree(h, b);
    BlockIsNotEmpty(h, b);
    BlockIsNotEmpty(h, c);
    hide HeapOk;
    forall d: nat ensures !InFree(h.head, d, c) {
      if d in h.head && d != c {
        BlocksApart(h, {}, d, c);
      }
    }
  }

  lemma BlockIsNotEmpty(h: Heap, b: nat)
    requires HeapOk(h, {}) && IsSmall(h.head, b)
    ensures h.head[b].size > 0
    ensures var next := b + h.head[b].size;
            next == h.head[b].page + h.pageSize || (IsSmall(h.head, next) && h.head[next].page == h.head[b].page)
  {
    assert BlockOk(h.pageSize, h.pages, h.head, b);
  }

  /** Where no two adjacent blocks are free, free bytes in a row lie in one free block. */
  lemma InOneBlock(h: Heap, p: nat, a: nat, n: nat) returns (b: nat)
    requires HeapOk(h, {}) && Compacted(h) && p in h.pages && p <= a && a + n <= p + h.pageSize
    requires n > 0 && !Interrupted(h.head, a, n)
    ensures b in h.tree && n <= h.tree[b]
  {
    assert FreeByte(h.head, a);
    b :| InFree(h.head, b, a);
    SamePage(h, p, a, b);
    if b + h.head[b].size < a + n {
      ByteBehind(h, b);
    }
  }

  lemma RegionsApart(h: Heap, r: nat, s: nat)
    requires HeapOk(h, {}) && r in h.held && s in h.held && r != s
    ensures Disjoint(r, h.held[r], s, h.held[s])
  {}

  /** A block with a byte of a page lies in that page. */
  lemma SamePage(h: Heap, p: nat, a: nat, b: nat)
    requires HeapOk(h, {}) && p in h.pages && p <= a < p + h.pageSize && InFree(h.head, b, a)
    ensures h.head[b].page == p
  {
    assert IsSmall(h.head, b) && BlockOk(h.pageSize, h.pages, h.head, b);
    var q := h.head[b].page;
    assert PageOk(h.pageSize, h.head, h.held, p) && PageOk(h.pageSize, h.head, h.held, q);
    var r: nat, s: nat := p - PAGE_HEADER_SIZE, q - PAGE_HEADER_SIZE;
    if p != q {
      RegionsApart(h, r, s);
    }
  }

  /** If no key of the tree is enough, then after joining there is no room. */
  lemma KeysTooSmall(h: Heap, n: nat)
    requires HeapOk(h, {}) && Compacted(h) && n > 0 && forall b :: b in h.tree ==> h.tree[b] < n
    ensures NoRoom(h, n)
  {
    hide Compacted, HeapOk;
    forall p: nat, a: nat | p in h.pages && p <= a && a + n <= p + h.pageSize ensures Interrupted(h.head, a, n) {
      if !Interrupted(h.head, a, n) {
        var b := InOneBlock(h, p, a, n);
      }
    }
  }

  lemma NoRoomBefore(h: Heap, g: Heap, n: nat)
    requires g.pages == h.pages && g.pageSize == h.pageSize && SameFree(h.head, g.head) && NoRoom(g, n)
    ensures NoRoom(h, n)
  {
    hide FreeByte;
    forall p: nat, a: nat | p in h.pages && p <= a && a + n <= p + h.pageSize ensures Interrupted(h.head, a, n) {
      assert Interrupted(g.head, a, n);
      var k: nat :| a <= k < a + n && !FreeByte(g.head, k);
      assert !FreeByte(h.head, k);
    }
  }
}
