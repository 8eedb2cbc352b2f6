/** The free-list allocator: block headers, the tree of free blocks and the page list change in
    place, and the parent allocator is asked at most once per call. */
module FreeListAllocator {
  import opened Basics
  import opened FreeListHeap
  import opened FreeListTheorems
  import opened FreeListRoom
  import opened Alignment

  const MEMSIZE_LIMIT: nat := 0x1_0000_0000
  const ADDRESS_LIMIT: nat := 0x1_0000_0000_0000_0000
  const MAX_ALIGN: nat := 0x8000

  function Max(a: nat, b: nat): nat {
    if a < b then b else a
  }

  // ---------------------------------------------------------------- sizes of a request

  /** The size a request is rounded to. */
  function RoundedSize(size: nat): (r: nat)
    ensures size <= r && HDR_DIFF <= r && r % MIN_ALIGN == 0
    ensures r < Max(size, HDR_DIFF) + MIN_ALIGN
  {
    AlignUp(Max(size, HDR_DIFF), MIN_ALIGN)
  }

  /** What a block must offer so that the request fits at the worst padding. */
  function NeededSize(size: nat, align: nat): nat {
    var a, s := Max(align, MIN_ALIGN), RoundedSize(size);
    if a > MIN_ALIGN then HDR_SIZE + s + a - 1 else HDR_SIZE + s
  }

  /** The same as the source has it, in 32 bits. */
  function SearchedSize(size: nat, align: nat): nat {
    NeededSize(size, align) % MEMSIZE_LIMIT
  }

  /** What the caller must respect: a power of two, and a size that can be an address. */
  ghost predicate Requestable(size: nat, align: nat) {
    PowerOfTwo(align) && LARGE_BLOCK_HEADER_SIZE + NeededSize(size, align) < ADDRESS_LIMIT
  }

  /** What a call comes to: an allocation; null; a write near address zero, because the parent's
      refusal is taken for an address; a pointer in front of which a truncated distance has been
      stored; or the search for a block of a truncated size. After the last three nothing more is said
      of the heap. */
  datatype Answer =
    | Allocated(user: nat)
    | Refused
    | NullWrite(address: nat)
    | Misled(user: nat, stored: nat)
    | Shortened(searched: nat)

  /** How far behind the start of its region a large allocation begins. */
  function LargeDistance(grant: nat, align: nat): nat
    requires align > 0
  {
    AlignUp(grant + LARGE_BLOCK_HEADER_SIZE, align) - grant
  }

  /** What a distance is stored as that has more than 16 bits: only the low ones. */
  function Truncated(grant: nat, align: nat): Answer
    requires align > 0
  {
    Misled(grant + LargeDistance(grant, align), LargeDistance(grant, align) % FALLBACK_LIMIT)
  }

  /** Where the distance is stored if the parent's null is taken for a region. */
  function NullWriteAddress(align: nat): nat
    requires align > 0
  {
    AlignUp(LARGE_BLOCK_HEADER_SIZE, align) - 2
  }

  /** The distance fits its 16 bits for every region exactly when the alignment is at most 2^15. */
  lemma DistanceFitsIff(align: nat)
    requires PowerOfTwo(align) && MIN_ALIGN <= align
    ensures (forall grant: nat :: grant > 0 ==> LargeDistance(grant, align) < FALLBACK_LIMIT) <==> align <= MAX_ALIGN
  {
    if align > MAX_ALIGN {
      LongDistance(align);
      assert LargeDistance(align, align) >= FALLBACK_LIMIT;
    }
  }

  lemma LongDistance(align: nat)
    requires PowerOfTwo(align) && align > MAX_ALIGN
    ensures LargeDistance(align, align) == align >= FALLBACK_LIMIT
  {
    SixteenBits();
    PowersGap(MAX_ALIGN, align);
    hide AlignUp, PowerOfTwo;
    var u := AlignUp(align + LARGE_BLOCK_HEADER_SIZE, align);
    MultipleMod(2, align);
    NextMultiple(u, 2 * align, align);
  }

  /** Two multiples less than one period apart are the same. */
  lemma NextMultiple(u: nat, v: nat, align: nat)
    requires align > 0 && u % align == 0 && v % align == 0 && u < v + align && v < u + align
    ensures u == v
  {
    var p, q := u / align, v / align;
    assert u == align * p && v == align * q;
    Distribute(align, p, q);
    Distribute(align, q, p);
    if p > q {
      AtLeastOnce(align, p - q);
    } else if q > p {
      AtLeastOnce(align, q - p);
    }
  }

  function IsLargeRequest(pageSize: nat, size: nat, align: nat): bool {
    SearchedSize(size, align) + HDR_SIZE >= pageSize
  }

  /** What is asked of the parent, if it is asked. */
  function ParentSize(pageSize: nat, size: nat, align: nat): nat {
    if IsLargeRequest(pageSize, size, align)
    then LARGE_BLOCK_HEADER_SIZE + (Max(align, MIN_ALIGN) - 1) + RoundedSize(size)
    else PAGE_HEADER_SIZE + pageSize
  }

  /** Where a request goes in a block: the padding is a multiple of the header alignment and
      smaller than the requested alignment. */
  lemma Placement(start: nat, align: nat)
    requires PowerOfTwo(align) && MIN_ALIGN <= align && start % MIN_ALIGN == 0
    ensures var u := AlignUp(start + HDR_SIZE, align);
            u % MIN_ALIGN == 0 && start + HDR_SIZE <= u <= start + HDR_SIZE + align - MIN_ALIGN
  {
    hide AlignUp, PowerOfTwo;
    var u := AlignUp(start + HDR_SIZE, align);
    EightIsAPower();
    SelfMod(align);
    DivisorsOfPowers(MIN_ALIGN, align, align);
    DivisorsOfPowers(MIN_ALIGN, align, u);
    BelowByEight(u, start + HDR_SIZE, align);
  }

  /** What is needed is enough for every block, and for some it is at most seven bytes too much. */
  lemma NeededIsTight(size: nat, align: nat)
    requires PowerOfTwo(align)
    ensures forall start: nat :: start % MIN_ALIGN == 0 ==> UsedAt(start, size, align) <= NeededSize(size, align)
    ensures NeededSize(size, align) <= UsedAt(Max(align, MIN_ALIGN), size, align) + 7
  {
    StrongerAlignment(align);
    var a := Max(align, MIN_ALIGN);
    EightIsAPower();
    SelfMod(a);
    DivisorsOfPowers(MIN_ALIGN, a, a);
    hide AlignUp, PowerOfTwo, RoundedSize;
    forall start: nat | start % MIN_ALIGN == 0 ensures UsedAt(start, size, align) <= NeededSize(size, align) {
      Placement(start, a);
    }
    if a > MIN_ALIGN {
      var u := AlignUp(a + HDR_SIZE, a);
      MultipleMod(2, a);
      NextMultiple(u, 2 * a, a);
    }
  }

  /** What a request takes of a block at `start`, up to its end. */
  function UsedAt(start: nat, size: nat, align: nat): nat {
    AlignUp(start + HDR_SIZE, Max(align, MIN_ALIGN)) + RoundedSize(size) - start
  }

  lemma BelowByEight(u: nat, start: nat, align: nat)
    requires u % MIN_ALIGN == 0 && start % MIN_ALIGN == 0 && align % MIN_ALIGN == 0 && u < start + align
    ensures u <= start + align - MIN_ALIGN
  {
    EightApart(u, start + align);
  }

  lemma EightApart(m: nat, n: nat)
    requires m % MIN_ALIGN == 0 && n % MIN_ALIGN == 0 && m < n
    ensures m + MIN_ALIGN <= n
  {}

  /** Alignment to a larger power of two serves the one asked for. */
  lemma AlignedAsAsked(align: nat, u: nat)
    requires PowerOfTwo(align) && u % Max(align, MIN_ALIGN) == 0
    ensures u % align == 0
  {
    EightIsAPower();
    DivisorsOfPowers(align, Max(align, MIN_ALIGN), u);
  }

  predicate Aligned(u: nat, align: nat) {
    align > 0 && u % align == 0
  }

  class FreeListAllocator {
    const pageSize: nat
    var pages: seq<nat>
    var head: Headers
    var tree: map<nat, nat>
    var back: map<nat, nat>
    ghost var live: map<nat, Alloc>
    ghost var owner: map<nat, nat>
    ghost var held: map<nat, nat>

    ghost function Value(): Heap
      reads this
    {
      Heap(pageSize, pages, head, tree, back, live, owner, held)
    }

    ghost predicate Valid()
      reads this
    {
      HeapOk(Value(), {}) && MIN_ALIGN <= pageSize < MEMSIZE_LIMIT
    }

    constructor (pageSize: nat)
      requires pageSize % MIN_ALIGN == 0 && MIN_ALIGN <= pageSize < MEMSIZE_LIMIT
      ensures Valid() && this.pageSize == pageSize && live == map[] && held == map[]
      ensures pages == [] && head == map[] && tree == map[]
    {
      this.pageSize := pageSize;
      pages, head, tree, back, live, owner, held := [], map[], map[], map[], map[], map[], map[];
    }

    /** What no operation but the one on the allocation itself may change: the allocations, the
        distances stored for them and the headers of their blocks. */
    twostate predicate KeepsUsers()
      reads this
    {
      && live == old(live) && owner == old(owner)
      && (forall u :: u in live && u in old(back) ==> u in back && back[u] == old(back)[u])
      && SameUsed(old(head), head)
    }

    // -------------------------------------------------------------- the tree

    method Link(b: nat, ghost loose: set<nat>)
      requires HeapOk(Value(), loose) && b in loose
      modifies `tree
      ensures HeapOk(Value(), loose - {b}) && tree == old(tree)[b := head[b].size]
      ensures Total(tree) == old(Total(tree)) + head[b].size
    {
      TotalWith(tree, b, head[b].size);
      LinkKeeps(Value(), loose, b);
      tree := tree[b := head[b].size];
    }

    method Unlink(b: nat, ghost loose: set<nat>)
      requires HeapOk(Value(), loose) && b in tree
      modifies `tree
      ensures HeapOk(Value(), loose + {b}) && tree == old(tree) - {b}
      ensures old(Total(tree)) == Total(tree) + head[b].size
    {
      TotalWithout(tree, b);
      UnlinkKeeps(Value(), loose, b);
      tree := tree - {b};
    }

    /** A linked block with the least key that is not below `need`. */
    method CeilEntry(need: nat) returns (r: Option<nat>)
      ensures r.Some? ==> r.value in tree && need <= tree[r.value] &&
                          forall b :: b in tree && need <= tree[b] ==> tree[r.value] <= tree[b]
      ensures r.None? ==> forall b :: b in tree ==> tree[b] < need
    {
      r := None;
      var rest := tree.Keys;
      while rest != {}
        invariant rest <= tree.Keys
        invariant r.Some? ==> r.value in tree && need <= tree[r.value] &&
                              forall b :: b in tree && b !in rest && need <= tree[b] ==> tree[r.value] <= tree[b]
        invariant r.None? ==> forall b :: b in tree && b !in rest ==> tree[b] < need
      {
        var b :| b in rest;
        if need <= tree[b] && (r.None? || tree[b] < tree[r.value]) {
          r := Some(b);
        }
        rest := rest - {b};
      }
    }

    // -------------------------------------------------------------- compaction

    /** As many bytes are in the tree as before, and the same bytes are free. */
    twostate predicate SameRoom()
      reads this
    {
      Total(tree) == old(Total(tree)) && SameFree(old(head), head)
    }

    /** The walk over one page that joins neighbours. */
    method CompactPage(p: nat)
      requires HeapOk(Value(), {}) && p in pages
      modifies `head, `tree
      ensures HeapOk(Value(), {}) && KeepsUsers() && PageCompacted(Value(), p) && SameRoom()
      ensures forall q :: q != p && old(PageCompacted(Value(), q)) ==> PageCompacted(Value(), q)
    {
      assert KeepsUsers();
      hide HeapOk, CompactedBelow, PageCompacted, SameUsed, FreeByte;
      var block: nat := p;
      FirstBlock(Value(), p);
      CompactedAtStart(Value(), {}, p);
      while block < p + pageSize
        invariant HeapOk(Value(), {}) && KeepsUsers() && CompactedBelow(Value(), p, block) && SameRoom()
        invariant block < p + pageSize ==> IsSmall(head, block) && head[block].page == p
        invariant forall q :: q != p && old(PageCompacted(Value(), q)) ==> PageCompacted(Value(), q)
        decreases |head|, p + pageSize - block
      {
        ghost var before := head;
        block := CompactAt(block, p);
        SameUsedChain(old(head), before, head);
      }
      PageDone(Value(), p, block);
    }

    lemma PageDone(h: Heap, p: nat, limit: nat)
      requires CompactedBelow(h, p, limit) && p + h.pageSize <= limit
      ensures PageCompacted(h, p)
    {
      CompactedLess(h, p, limit);
    }

    /** Joins the block with the next one, and stays, if both are free; otherwise moves on. */
    method CompactAt(block: nat, p: nat) returns (next: nat)
      requires HeapOk(Value(), {}) && IsSmall(head, block) && head[block].page == p && block < p + pageSize
      requires CompactedBelow(Value(), p, block)
      modifies `head, `tree
      ensures HeapOk(Value(), {}) && SameUsed(old(head), head) && CompactedBelow(Value(), p, next) && SameRoom()
      ensures next < p + pageSize ==> IsSmall(head, next) && head[next].page == p
      ensures |head| < |old(head)| || (head == old(head) && block < next)
      ensures forall q :: q != p && old(PageCompacted(Value(), q)) ==> PageCompacted(Value(), q)
    {
      hide HeapOk, CompactedBelow, PageCompacted, FreeByte;
      BlockEnds(Value(), {}, block);
      next := block + head[block].size;
      if next >= p + pageSize {
        CompactedFurther(Value(), {}, block, next);
      } else if !head[block].use && !head[next].use {
        ghost var before := Value();
        JoinWithNext(block);
        JoinEffects(before, block, Value());
        next := block;
      } else {
        CompactedFurther(Value(), {}, block, next);
      }
    }

    method JoinWithNext(block: nat)
      requires HeapOk(Value(), {}) && IsFree(head, block) && IsFree(head, block + head[block].size)
      requires head[block + head[block].size].page == head[block].page
      modifies `head, `tree
      ensures HeapOk(Value(), {})
      ensures var next := block + old(head)[block].size;
              head == (old(head) - {next})
                [block := old(head)[block].(size := old(head)[block].size + old(head)[next].size)]
      ensures SameRoom()
    {
      hide HeapOk, SameFree, Total;
      var next := block + head[block].size;
      BlockEnds(Value(), {}, block);
      Linked(Value(), {}, block);
      Linked(Value(), {}, next);
      assert {} + {block} == {block} && {block} + {next} == {block, next};
      Unlink(block, {});
      Unlink(next, {block});
      ghost var before := Value();
      head := (head - {next})[block := head[block].(size := head[block].size + head[next].size)];
      JoinFree(before.head, block, next, head);
      MergeKeeps(before, {block, next}, block, Value());
      assert {block, next} - {next} == {block} && {block} - {block} == {};
      Link(block, {block});
    }

    /** Joins adjacent free blocks in every page. */
    method Compact()
      requires Valid()
      modifies `head, `tree
      ensures Valid() && KeepsUsers() && Compacted(Value()) && SameRoom()
    {
      hide HeapOk, PageCompacted, FreeByte;
      var i := 0;
      while i < |pages|
        invariant i <= |pages| && HeapOk(Value(), {}) && KeepsUsers() && SameRoom()
        invariant forall k :: 0 <= k < i ==> PageCompacted(Value(), pages[k])
      {
        PagesDistinct(Value(), i);
        CompactPage(pages[i]);
        i := i + 1;
      }
      CompactedEverywhere(Value());
    }

    lemma PagesDistinct(h: Heap, i: nat)
      requires HeapOk(h, {}) && i < |h.pages|
      ensures forall k :: 0 <= k < i ==> h.pages[k] != h.pages[i]
    {}

    // -------------------------------------------------------------- pages and the parent

    /** The parent's answer: nothing, or a region that is clear of all it has given before. */
    ghost predicate Grantable(grant: Option<nat>, size: nat)
      reads this
    {
      grant.Some? ==> grant.value > 0 && Fresh(held, grant.value, size)
    }

    /** Asks the parent for a page and links it as one free block. */
    method AllocatePage(grant: Option<nat>)
      requires Valid() && MIN_BLOCK_SIZE <= pageSize && Grantable(grant, PAGE_HEADER_SIZE + pageSize)
      modifies `pages, `head, `tree, `held
      ensures Valid() && KeepsUsers()
      ensures grant.None? ==> unchanged(this)
      ensures grant.Some? ==> var p := grant.value + PAGE_HEADER_SIZE;
                && p in tree && tree[p] == pageSize && held == old(held)[grant.value := PAGE_HEADER_SIZE + pageSize]
                && pages == [p] + old(pages) && Given(old(head), head, p, pageSize)
                && Total(tree) == old(Total(tree)) + pageSize
    {
      hide HeapOk, Fresh, Given, Total;
      if grant.None? {
        return;
      }
      ghost var before := Value();
      var p := grant.value + PAGE_HEADER_SIZE;
      held := held[grant.value := PAGE_HEADER_SIZE + pageSize];
      pages := [p] + pages;
      head := head[p := Small(pageSize, false, p)];
      AddPageKeeps(before, {}, p, Value());
      PageGiven(before.head, p, pageSize, head);
      assert {} + {p} == {p} && {p} - {p} == {};
      Link(p, {p});
    }

    /** A block of its own from the parent. The source does not ask whether the parent has refused. */
    method AllocFromParent(size: nat, align: nat, grant: Option<nat>) returns (r: Answer)
      requires Valid() && PowerOfTwo(align) && MIN_ALIGN <= align && size > 0
      requires Grantable(grant, LARGE_BLOCK_HEADER_SIZE + (align - 1) + size)
      modifies `head, `back, `live, `owner, `held
      ensures Valid()
      ensures grant.None? ==> r == NullWrite(NullWriteAddress(align)) && unchanged(this)
      ensures grant.Some? && LargeDistance(grant.value, align) >= FALLBACK_LIMIT ==>
                r == Truncated(grant.value, align) && r.stored != LargeDistance(grant.value, align) && unchanged(this)
      ensures grant.Some? && LargeDistance(grant.value, align) < FALLBACK_LIMIT ==>
                r.Allocated? && LargeIn(grant.value, r.user, size, align)
      ensures SameRoom()
    {
      hide HeapOk, Fresh, AlignUp, FreeByte, Total;
      if grant.None? {
        return NullWrite(AlignUp(0 + LARGE_BLOCK_HEADER_SIZE, align) - 2);
      }
      var hdr := grant.value;
      var user := AlignUp(hdr + LARGE_BLOCK_HEADER_SIZE, align);
      var fallback := (user - hdr) % FALLBACK_LIMIT;
      if fallback != user - hdr {
        return Misled(user, fallback);
      }
      ghost var before := head;
      TakeLarge(hdr, user, size, align);
      LargeIsNotFree(before, hdr, LARGE_BLOCK_HEADER_SIZE + (align - 1) + size);
      return Allocated(user);
    }

    /** What has changed after a block of its own has been made at `hdr`. */
    twostate predicate LargeIn(hdr: nat, user: nat, size: nat, align: nat)
      reads this
    {
      && user !in old(live) && Aligned(user, align) && hdr <= user
      && live == old(live)[user := Alloc(hdr, size, align)]
      && back == old(back)[user := user - hdr]
      && held == old(held)[hdr := LARGE_BLOCK_HEADER_SIZE + (align - 1) + size]
      && hdr !in old(head) && head == old(head)[hdr := Large(LARGE_BLOCK_HEADER_SIZE + (align - 1) + size)]
    }

    /** Writes the header and the distance of a large block. */
    method TakeLarge(hdr: nat, user: nat, size: nat, align: nat)
      requires Valid() && size > 0 && Aligned(user, align)
      requires hdr > 0 && Fresh(held, hdr, LARGE_BLOCK_HEADER_SIZE + (align - 1) + size)
      requires hdr + LARGE_BLOCK_HEADER_SIZE <= user < hdr + FALLBACK_LIMIT
      requires user < hdr + LARGE_BLOCK_HEADER_SIZE + align
      modifies `head, `back, `live, `owner, `held
      ensures Valid() && LargeIn(hdr, user, size, align)
    {
      hide HeapOk, Fresh;
      ghost var before := Value();
      var n := LARGE_BLOCK_HEADER_SIZE + (align - 1) + size;
      held := held[hdr := n];
      back := back[user := user - hdr];
      head := head[hdr := Large(n)];
      live := live[user := Alloc(hdr, size, align)];
      owner := owner[hdr := user];
      AddLargeKeeps(before, {}, hdr, n, user, size, align, Value());
      NothingInside(before, {}, hdr, n);
    }

    // -------------------------------------------------------------- allocation

    /** The block is no larger than it must be for an allocation in it, but for what is too small to be
        a block of its own on either side. */
    ghost predicate NotMuchMore(b: nat, u: nat, size: nat, need: nat)
      reads this
    {
      && IsSmall(head, b) && b + HDR_SIZE <= u < b + HDR_SIZE + MIN_BLOCK_SIZE
      && head[b].size < AlignUp(Max(u + size - b, need), MIN_ALIGN) + MIN_BLOCK_SIZE
    }

    /** A request of 16 bytes takes a block of less than 80. */
    lemma LittleTaken(u: nat, b: nat)
      requires Valid() && NotMuchMore(b, u, 16, 24)
      ensures 0 < head[b].size < 80
    {
      BlockIsNotEmpty(Value(), b);
    }

    /** Cuts the allocation out of a free block that is big enough: a front part when the padding
        can hold a block, and a rest when what is left can. */
    method Carve(block: nat, size: nat, align: nat, need: nat) returns (u: nat, ghost start: nat)
      requires Valid() && block in tree && need <= tree[block]
      requires PowerOfTwo(align) && MIN_ALIGN <= align && HDR_DIFF <= size && size % MIN_ALIGN == 0
      requires need == if align > MIN_ALIGN then HDR_SIZE + size + align - 1 else HDR_SIZE + size
      modifies `head, `tree, `back, `live, `owner
      ensures Valid() && u !in old(live) && Aligned(u, align) && start <= u
      ensures live == old(live)[u := Alloc(start, size, align)] && back == old(back)[u := u - start]
      ensures IsSmall(head, start) && SameUsed(old(head), head - {start})
      ensures NotMuchMore(start, u, size, need) && Taken(old(head), head, start, head[start].size)
      ensures old(Total(tree)) == Total(tree) + head[start].size
    {
      hide HeapOk, PowerOfTwo, SameUsed, Aligned, FreeByte, NotMuchMore, Total;
      InTree(Value(), {}, block);
      assert {} + {block} == {block};
      Unlink(block, {});
      BlockEnds(Value(), {block}, block);
      u := Place(block, align);
      var first := TrimFront(block, u - block - HDR_SIZE);
      ghost var fronted := head;
      CarveRest(first, u, size, align, need);
      SameUsedChain(old(head), fronted, head - {first});
      start := first;
    }

    /** Where the allocation goes in a block. */
    method Place(start: nat, align: nat) returns (u: nat)
      requires PowerOfTwo(align) && MIN_ALIGN <= align && start % MIN_ALIGN == 0
      ensures Aligned(u, align) && u % MIN_ALIGN == 0
      ensures start + HDR_SIZE <= u <= start + HDR_SIZE + align - MIN_ALIGN
    {
      hide PowerOfTwo;
      u := AlignUp(start + HDR_SIZE, align);
      Placement(start, align);
    }

    /** Leaves what the allocation does not need as a free block, and hands the block out. */
    method CarveRest(start: nat, u: nat, size: nat, align: nat, need: nat)
      requires HeapOk(Value(), {start}) && IsFree(head, start)
      requires start + HDR_SIZE <= u < start + HDR_SIZE + MIN_BLOCK_SIZE && u + size <= start + head[start].size
      requires HDR_DIFF <= size && Aligned(u, align)
      modifies `head, `tree, `back, `live, `owner
      ensures HeapOk(Value(), {}) && u !in old(live)
      ensures live == old(live)[u := Alloc(start, size, align)] && back == old(back)[u := u - start]
      ensures IsSmall(head, start) && SameUsed(old(head), head - {start})
      ensures NotMuchMore(start, u, size, need) && Taken(old(head), head, start, head[start].size)
      ensures Total(tree) + head[start].size == old(Total(tree)) + old(head)[start].size
    {
      hide HeapOk, AlignUp, SameUsed, Aligned, FreeByte, Total;
      var used := u + size - start;
      TrimRest(start, AlignUp(Max(used, need), MIN_ALIGN));
      ghost var trimmed := head;
      HandOut(start, u, size, align);
      SameUsedChain(old(head), trimmed, head - {start});
    }

    lemma SameUsedChain(a: Headers, b: Headers, c: Headers)
      requires SameUsed(a, b) && SameUsed(b, c)
      ensures SameUsed(a, c)
    {}

    /** Leaves padding that can hold a block as a free block of its own. */
    method TrimFront(block: nat, padding: nat) returns (start: nat)
      requires HeapOk(Value(), {block}) && IsFree(head, block) && padding % MIN_ALIGN == 0
      requires padding + MIN_BLOCK_SIZE <= head[block].size
      modifies `head, `tree
      ensures HeapOk(Value(), {start}) && IsFree(head, start) && SameUsed(old(head), head)
      ensures start == (if padding >= MIN_BLOCK_SIZE then block + padding else block)
      ensures start + head[start].size == block + old(head)[block].size
      ensures SameFree(old(head), head)
      ensures Total(tree) + head[start].size == old(Total(tree)) + old(head)[block].size
    {
      hide HeapOk, FreeByte, Total;
      start := block;
      if padding >= MIN_BLOCK_SIZE {
        start := block + padding;
        Cut(block, padding);
        Link(block, {block, start});
        assert {block, start} - {block} == {start};
      }
    }

    /** Leaves what lies behind `target` as a free block, when it can hold one. */
    method TrimRest(start: nat, target: nat)
      requires HeapOk(Value(), {start}) && IsFree(head, start) && target % MIN_ALIGN == 0 && MIN_BLOCK_SIZE <= target
      modifies `head, `tree
      ensures HeapOk(Value(), {start}) && IsFree(head, start) && SameUsed(old(head), head)
      ensures head[start].size ==
              if old(head)[start].size >= target + MIN_BLOCK_SIZE then target else old(head)[start].size
      ensures SameFree(old(head), head)
      ensures Total(tree) + head[start].size == old(Total(tree)) + old(head)[start].size
    {
      hide HeapOk, FreeByte, Total;
      var rest := if head[start].size > target then head[start].size - target else 0;
      if rest >= MIN_BLOCK_SIZE {
        Cut(start, target);
        Link(start + target, {start, start + target});
        assert {start, start + target} - {start + target} == {start};
      }
    }

    /** Writes the headers of the two parts of a block that is out of the tree. */
    method Cut(block: nat, n: nat)
      requires HeapOk(Value(), {block}) && n % MIN_ALIGN == 0 && IsFree(head, block)
      requires MIN_BLOCK_SIZE <= n && n + MIN_BLOCK_SIZE <= head[block].size
      modifies `head
      ensures HeapOk(Value(), {block, block + n}) && SameUsed(old(head), head)
      ensures IsFree(head, block) && head[block].size == n
      ensures IsFree(head, block + n) && head[block + n].size == old(head)[block].size - n
      ensures SameFree(old(head), head)
    {
      hide HeapOk, FreeByte;
      ghost var before := Value();
      var whole := head[block];
      NothingBetween(before, {block}, block, block + n);
      SplitFree(head, block, n, head[block := whole.(size := n)][block + n := whole.(size := whole.size - n)]);
      head := head[block := whole.(size := n)][block + n := whole.(size := whole.size - n)];
      SplitKeeps(before, {block}, block, n, Value());
      assert {block} + {block + n} == {block, block + n};
    }

    /** Marks a block as used and stores the way back just before the user pointer. */
    method HandOut(start: nat, u: nat, size: nat, align: nat)
      requires HeapOk(Value(), {start}) && IsFree(head, start)
      requires start + HDR_SIZE <= u < start + HDR_SIZE + MIN_BLOCK_SIZE && u + size <= start + head[start].size
      requires size > 0 && Aligned(u, align)
      modifies `head, `back, `live, `owner
      ensures HeapOk(Value(), {}) && u !in old(live)
      ensures live == old(live)[u := Alloc(start, size, align)] && back == old(back)[u := u - start]
      ensures IsSmall(head, start) && SameUsed(old(head), head - {start})
      ensures head[start].size == old(head)[start].size && Taken(old(head), head, start, head[start].size)
    {
      hide HeapOk, FreeByte;
      ghost var before := Value();
      var fallback := (u - start) % FALLBACK_LIMIT;
      BlockTaken(before, {start}, start, head[start := head[start].(use := true)]);
      assert fallback == u - start;
      back := back[u := fallback];
      head := head[start := head[start].(use := true)];
      live := live[u := Alloc(start, size, align)];
      owner := owner[start := u];
      HandOutKeeps(before, {start}, start, u, size, align, Value());
      assert {start} - {start} == {};
    }

    // -------------------------------------------------------------- deallocation

    /** Takes an allocation back. The stored distance leads to its block; a large block returns to
        the parent, whole, and a small one goes into the tree. */
    method Deallocate(u: Option<nat>) returns (ghost returned: Option<(nat, nat)>)
      requires Valid() && (u.Some? ==> u.value in live)
      modifies this
      ensures Valid()
      ensures u.None? ==> unchanged(this) && returned.None?
      ensures u.Some? ==> var b := old(live)[u.value].block;
        && live == old(live) - {u.value} && SameUsed(old(head) - {b}, head)
        && (forall v :: v in live ==> v in back && v in old(back) && back[v] == old(back)[v])
        && b in old(head)
        && match old(head)[b]
           case Small(size, _, page) =>
             && returned.None? && held == old(held)
             && head == old(head)[b := Small(size, false, page)] && tree == old(tree)[b := size]
             && Given(old(head), head, b, size) && Total(tree) == old(Total(tree)) + size
           case Large(n) =>
             b in old(held) && returned == Some((b, old(held)[b])) && held == old(held) - {b} &&
             head == old(head) - {b} && tree == old(tree)
    {
      hide HeapOk, Given, Total;
      returned := None;
      if u.None? {
        return;
      }
      var user := u.value;
      OwnerBehind(Value(), user);
      var block := user - back[user];
      ghost var before := Value();
      live := live - {user};
      owner := owner - {block};
      if head[block].Large? {
        returned := Some((block, head[block].largeSize));
        held := held - {block};
        head := head - {block};
        DropLargeKeeps(before, {}, user, Value());
      } else {
        head := head[block := head[block].(use := false)];
        TakeBackKeeps(before, {}, user, Value());
        BlockGiven(before.head, block, head);
        assert {} + {block} == {block} && {block} - {block} == {};
        Link(block, {block});
      }
    }

    lemma OwnerBehind(h: Heap, u: nat)
      requires HeapOk(h, {}) && u in h.live
      ensures u in h.back && h.back[u] <= u && h.live[u].block == u - h.back[u] && InUse(h.head, u - h.back[u])
      ensures forall v :: v in h.live ==> v in h.back
    {
      assert LiveOk(h.head, h.back, u, h.live[u]);
    }

    /** Serves a request: from the parent when it is large, otherwise from the tree, after joining
        free blocks if need be, and after asking the parent for a page if that was not enough. The
        answer is null only if the request is small and the parent has refused a page. A large
        request that the parent refuses writes near address zero, always and only then; one that is
        granted stores a wrong distance exactly when the true one has more than 16 bits. A request is
        mistaken for a small one exactly when what it needs has more than 32 bits and the low ones of
        them are small. */
    method AllocateAlign(size: nat, align: nat, grant: Option<nat>) returns (r: Answer)
      requires Valid() && Requestable(size, align)
      requires Grantable(grant, ParentSize(pageSize, size, align))
      modifies this
      ensures Valid()
      ensures r.Shortened? <==> !IsLargeRequest(pageSize, size, align) && NeededSize(size, align) >= MEMSIZE_LIMIT
      ensures r.Shortened? ==> r.searched == SearchedSize(size, align)
      ensures r.NullWrite? <==> IsLargeRequest(pageSize, size, align) && grant.None?
      ensures r.NullWrite? ==> r.address == NullWriteAddress(Max(align, MIN_ALIGN))
      ensures r.Misled? <==> IsLargeRequest(pageSize, size, align) && grant.Some? &&
                             LargeDistance(grant.value, Max(align, MIN_ALIGN)) >= FALLBACK_LIMIT
      ensures r.Misled? ==> r == Truncated(grant.value, Max(align, MIN_ALIGN))
      ensures r.Refused? ==>
                grant.None? && !IsLargeRequest(pageSize, size, align) && HadNoRoom(NeededSize(size, align))
      ensures r.Allocated? ==> Served(r.user, size, align)
      ensures r.Allocated? ==> (IsLargeAlloc(r.user) <==> IsLargeRequest(pageSize, size, align))
      ensures r.Allocated? && !IsLargeRequest(pageSize, size, align) ==>
                && NotMuchMore(live[r.user].block, r.user, RoundedSize(size), NeededSize(size, align))
                && TakesBlock(live[r.user].block, grant)
      ensures if IsLargeRequest(pageSize, size, align) then pages == old(pages) && SameRoom()
              else Grew(grant, NeededSize(size, align))
      ensures held == old(held) || (grant.Some? && held == old(held)[grant.value := ParentSize(pageSize, size, align)])
    {
      hide HeapOk, AlignUp, Fresh, HadNoRoom, TakesBlock, NotMuchMore, NoRoom, SameRoom;
      var a, s := Max(align, MIN_ALIGN), RoundedSize(size);
      StrongerAlignment(align);
      var need := (if a > MIN_ALIGN then HDR_SIZE + s + a - 1 else HDR_SIZE + s) % MEMSIZE_LIMIT;
      if need >= pageSize - HDR_SIZE {
        r := AllocLarge(size, align, s, a, grant);
        return;
      }
      if need != NeededSize(size, align) {
        return Shortened(need);
      }
      var u := AllocSmall(s, a, need, grant);
      if u.None? {
        return Refused;
      }
      AlignedAsAsked(align, u.value);
      r := Allocated(u.value);
    }

    /** A new allocation, aligned and large enough, that leaves all others alone. */
    twostate predicate Served(u: nat, size: nat, align: nat)
      reads this
    {
      && u !in old(live) && u in live && live == old(live)[u := live[u]]
      && Aligned(u, align) && size <= live[u].size && live[u].block <= u
      && back == old(back)[u := u - live[u].block] && SameUsed(old(head), head - {live[u].block})
    }

    ghost predicate IsLargeAlloc(u: nat)
      reads this
    {
      u in live && live[u].block in head && head[live[u].block].Large?
    }

    /** The large path, for a size and an alignment that have been rounded up. */
    method AllocLarge(size: nat, align: nat, s: nat, a: nat, grant: Option<nat>) returns (r: Answer)
      requires Valid() && PowerOfTwo(align) && PowerOfTwo(a) && a == Max(align, MIN_ALIGN) && size <= s && s > 0
      requires Grantable(grant, LARGE_BLOCK_HEADER_SIZE + (a - 1) + s)
      modifies this
      ensures Valid()
      ensures r.NullWrite? <==> grant.None?
      ensures r.NullWrite? ==> r.address == NullWriteAddress(a)
      ensures r.Misled? <==> grant.Some? && LargeDistance(grant.value, a) >= FALLBACK_LIMIT
      ensures r.Misled? ==> r == Truncated(grant.value, a)
      ensures !r.Refused? && !r.Shortened?
      ensures r.Allocated? ==> Served(r.user, size, align) && IsLargeAlloc(r.user)
      ensures pages == old(pages) && SameRoom()
      ensures held == old(held) ||
              (grant.Some? && held == old(held)[grant.value := LARGE_BLOCK_HEADER_SIZE + (a - 1) + s])
    {
      assert align > 0;
      hide HeapOk, AlignUp, Fresh, PowerOfTwo, SameRoom;
      r := AllocFromParent(s, a, grant);
      if r.Allocated? {
        AlignedAsAsked(align, r.user);
        assert head - {grant.value} == old(head);
      }
    }

    /** Nothing has been asked of the parent, or it has given a page, and before that no page had `need`
        free bytes in a row. */
    twostate predicate Grew(grant: Option<nat>, need: nat)
      reads this
    {
      (held == old(held) && pages == old(pages)) ||
      (grant.Some? && held == old(held)[grant.value := PAGE_HEADER_SIZE + pageSize] &&
       pages == [grant.value + PAGE_HEADER_SIZE] + old(pages) && NoRoom(old(Value()), need))
    }

    /** The bytes of a new page are in the tree and free besides those before. */
    twostate predicate RoomWithPage(grant: Option<nat>)
      reads this
    {
      if pages == old(pages) then SameRoom()
      else
        && grant.Some? && Given(old(head), head, grant.value + PAGE_HEADER_SIZE, pageSize)
        && Total(tree) == old(Total(tree)) + pageSize
    }

    /** Of the bytes that were free, and those of a new page, just the ones of the block `b` are taken. */
    twostate predicate TakesBlock(b: nat, grant: Option<nat>)
      requires IsSmall(head, b)
      reads this
    {
      if pages == old(pages) then
        && Taken(old(head), head, b, head[b].size)
        && old(Total(tree)) == Total(tree) + head[b].size
      else
        && grant.Some? && old(Total(tree)) + pageSize == Total(tree) + head[b].size
        && var p := grant.value + PAGE_HEADER_SIZE;
           forall k: nat :: FreeByte(head, k) <==>
             (FreeByte(old(head), k) || p <= k < p + pageSize) && !(b <= k < b + head[b].size)
    }

    /** There was no room: nothing is left to join, and no key in the tree is enough. */
    twostate predicate HadNoRoom(need: nat)
      reads this
    {
      && KeepsUsers() && held == old(held) && pages == old(pages) && SameRoom()
      && Compacted(Value()) && (forall b :: b in tree ==> tree[b] < need) && NoRoom(old(Value()), need)
    }

    /** Finds a block for a small request in three tries, with all free blocks joined before the second
        one and a new page before the third. */
    method FindRoom(need: nat, grant: Option<nat>) returns (block: Option<nat>)
      requires Valid() && Grantable(grant, PAGE_HEADER_SIZE + pageSize) && MIN_BLOCK_SIZE <= need < pageSize
      modifies this
      ensures Valid() && KeepsUsers() && back == old(back) && RoomWithPage(grant) && Grew(grant, need)
      ensures block.None? ==> grant.None? && HadNoRoom(need)
      ensures block.Some? ==> block.value in tree && need <= tree[block.value]
    {
      hide HeapOk, Fresh, FreeByte, Compacted, NoRoom, Total;
      var i := 0;
      while i < 3
        invariant i <= 3 && Valid() && KeepsUsers() && back == old(back)
        invariant RoomWithPage(grant) && Grew(grant, need)
        invariant i <= 1 ==> pages == old(pages)
        invariant i >= 1 && pages == old(pages) ==> Compacted(Value())
        invariant i >= 2 ==> NoRoom(old(Value()), need)
        invariant i == 2 && grant.Some? ==> exists b :: b in tree && need <= tree[b]
        invariant i >= 2 && grant.None? ==> pages == old(pages)
        invariant i == 3 ==> grant.None? && forall b :: b in tree ==> tree[b] < need
      {
        block := CeilEntry(need);
        if block.Some? {
          return;
        }
        if i == 0 {
          Compact();
        } else if i == 1 {
          KeysTooSmall(Value(), need);
          NoRoomBefore(old(Value()), Value(), need);
          AllocatePage(grant);
        }
        i := i + 1;
      }
      block := None;
    }

    /** The small path. */
    method AllocSmall(size: nat, align: nat, need: nat, grant: Option<nat>) returns (r: Option<nat>)
      requires Valid() && Grantable(grant, PAGE_HEADER_SIZE + pageSize)
      requires PowerOfTwo(align) && MIN_ALIGN <= align && HDR_DIFF <= size && size % MIN_ALIGN == 0
      requires need == if align > MIN_ALIGN then HDR_SIZE + size + align - 1 else HDR_SIZE + size
      requires need + HDR_SIZE < pageSize
      modifies this
      ensures Valid()
      ensures r.None? ==> grant.None? && HadNoRoom(need)
      ensures r.Some? ==> var u := r.value;
        && u !in old(live) && u in live && live == old(live)[u := Alloc(live[u].block, size, align)]
        && u % align == 0 && live[u].block <= u
        && back == old(back)[u := u - live[u].block] && SameUsed(old(head), head - {live[u].block})
        && IsSmall(head, live[u].block)
        && NotMuchMore(live[u].block, u, size, need) && TakesBlock(live[u].block, grant)
      ensures Grew(grant, need)
    {
      hide HeapOk, Fresh, PowerOfTwo, FreeByte, Compacted, NoRoom, Total, NotMuchMore;
      var block := FindRoom(need, grant);
      if block.None? {
        return None;
      }
      var u;
      ghost var start;
      u, start := Carve(block.value, size, align, need);
      return Some(u);
    }
  }

  lemma StrongerAlignment(align: nat)
    requires PowerOfTwo(align)
    ensures PowerOfTwo(Max(align, MIN_ALIGN))
  {
    EightIsAPower();
  }

  /** A concrete call that fails: 4096 bytes from an allocator with pages of 1024, whose parent
      refuses, are answered by a write to address 38. */
  method RefusedLargeRequest() returns (r: Answer)
    ensures r == NullWrite(38)
  {
    RefusedSizes();
    var a := new FreeListAllocator(1024);
    hide AlignUp, HeapOk, FreeListAllocator.SameRoom, FreeListAllocator.Served;
    r := a.AllocateAlign(4096, 8, None);
  }

  lemma RefusedSizes()
    ensures Requestable(4096, 8) && IsLargeRequest(1024, 4096, 8) && NullWriteAddress(8) == 38
  {
    EightIsAPower();
    assert AlignUp(4096, 8) == 4096 && AlignUp(40, 8) == 40;
  }

  /** Another: 16 bytes with an alignment of 2^16, from a parent that grants a region at 2^16. What is
      stored before the user pointer is 0 instead of 2^16. */
  method TruncatedLargeRequest() returns (r: Answer)
    ensures r == Misled(0x2_0000, 0)
  {
    TruncatedSizes();
    var a := new FreeListAllocator(1024);
    hide AlignUp, Requestable, IsLargeRequest, LargeDistance;
    hide HeapOk, FreeListAllocator.SameRoom, FreeListAllocator.Served;
    r := a.AllocateAlign(16, 0x1_0000, Some(0x1_0000));
  }

  lemma TruncatedSizes()
    ensures Requestable(16, 0x1_0000) && IsLargeRequest(1024, 16, 0x1_0000)
    ensures LargeDistance(0x1_0000, 0x1_0000) == 0x1_0000
  {
    SixteenBits();
    assert AlignUp(16, 8) == 16 && AlignUp(0x1_0028, 0x1_0000) == 0x2_0000;
  }

  /** A third: 4 GiB from an allocator with pages of 1024 start a search for a block of 8 bytes. */
  method ShortenedRequest(grant: Option<nat>) returns (r: Answer)
    requires grant.Some? ==> grant.value > 0 && grant.value % MIN_ALIGN == 0
    ensures r == Shortened(8)
  {
    ShortenedSizes();
    var a := new FreeListAllocator(1024);
    hide AlignUp, HeapOk, FreeListAllocator.Grew, FreeListAllocator.Served;
    hide Requestable, IsLargeRequest, SearchedSize, NeededSize;
    r := a.AllocateAlign(0x1_0000_0000, 8, grant);
  }

  lemma ShortenedSizes()
    ensures Requestable(0x1_0000_0000, 8) && !IsLargeRequest(1024, 0x1_0000_0000, 8)
    ensures NeededSize(0x1_0000_0000, 8) == 0x1_0000_0008 && SearchedSize(0x1_0000_0000, 8) == 8
  {
    EightIsAPower();
    assert AlignUp(0x1_0000_0000, 8) == 0x1_0000_0000;
  }

  /** A page serves more than one request: of 131072 bytes the first takes a small part, and the second
      needs nothing of the parent. */
  method SecondRequest(page: nat) returns (first: Answer, second: Answer)
    requires page > 0 && page % MIN_ALIGN == 0
    ensures first.Allocated? && second.Allocated?
  {
    SixteenBytes();
    var a := new FreeListAllocator(0x2_0000);
    hide AlignUp, HeapOk, Requestable, IsLargeRequest, NeededSize, RoundedSize, Compacted, NoRoom, Total, FreeByte;
    hide FreeListAllocator.NotMuchMore, FreeListAllocator.Served;
    EmptyHeap(a.Value());
    first := a.AllocateAlign(16, 8, Some(page));
    a.LittleTaken(first.user, a.live[first.user].block);
    RoomLeft(a.Value(), page + PAGE_HEADER_SIZE, a.live[first.user].block);
    second := a.AllocateAlign(16, 8, None);
  }

  lemma EmptyHeap(h: Heap)
    requires h.head == map[] && h.tree == map[]
    ensures Total(h.tree) == 0 && forall k: nat :: !FreeByte(h.head, k)
  {}

  /** Where all bytes of a page but those of one small block are free, there is room. */
  lemma RoomLeft(h: Heap, p: nat, b: nat)
    requires p in h.pages && h.pageSize == 0x2_0000 && IsSmall(h.head, b) && h.head[b].size < 80
    requires forall k: nat :: FreeByte(h.head, k) <==> p <= k < p + 0x2_0000 && !(b <= k < b + h.head[b].size)
    ensures !NoRoom(h, 24)
  {
    var a := if b >= p + 24 then p else p + 104;
    hide FreeByte;
    assert !Interrupted(h.head, a, 24);
  }

  lemma SixteenBytes()
    ensures Requestable(16, 8) && !IsLargeRequest(0x2_0000, 16, 8)
    ensures NeededSize(16, 8) == 24 && RoundedSize(16) == 16
  {
    EightIsAPower();
    assert AlignUp(16, 8) == 16;
  }

  lemma SixteenBits()
    ensures PowerOfTwo(MAX_ALIGN) && PowerOfTwo(0x1_0000)
  {
    assert PowerOfTwo(1) && PowerOfTwo(2) && PowerOfTwo(4) && PowerOfTwo(8) && PowerOfTwo(0x10) && PowerOfTwo(0x20);
    assert PowerOfTwo(0x40) && PowerOfTwo(0x80) && PowerOfTwo(0x100) && PowerOfTwo(0x200) && PowerOfTwo(0x400);
    assert PowerOfTwo(0x800) && PowerOfTwo(0x1000) && PowerOfTwo(0x2000) && PowerOfTwo(0x4000) && PowerOfTwo(0x8000);
  }
}
