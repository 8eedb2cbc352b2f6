/** The packer: it builds the tree, doubling the atlas until everything fits, and paints it. */
module AtlasPacker {
  import opened Basics
  import opened AtlasTree
  import opened AtlasNode
  import opened AtlasPasses
  import opened AtlasImage

  ghost function SizesOf(images: seq<Image>): (sizes: Sizes)
    ensures |sizes| == |images|
  {
    seq(|images|, i requires 0 <= i < |images| => (images[i].width, images[i].height))
  }

  /** The placements that the depth-first visit reports: it starts at the children of the root. */
  function Visited(t: Tree): seq<(nat, Rect)> {
    match t
    case Leaf(_, _) => []
    case Split(_, left, right) => Placements(left) + Placements(right)
  }

  /** The point lies in one of the placements. */
  ghost predicate Hit(placed: seq<(nat, Rect)>, x: int, y: int) {
    exists k :: 0 <= k < |placed| && Covers(placed[k].1, x, y)
  }

  lemma HitEither(a: seq<(nat, Rect)>, b: seq<(nat, Rect)>, x: int, y: int)
    ensures Hit(a, x, y) || Hit(b, x, y) ==> Hit(a + b, x, y)
  {
    if k :| 0 <= k < |a| && Covers(a[k].1, x, y) {
      assert Covers((a + b)[k].1, x, y);
    }
    if k :| 0 <= k < |b| && Covers(b[k].1, x, y) {
      assert Covers((a + b)[|a| + k].1, x, y);
    }
  }

  /** The image does nothing but fill the whole atlas. */
  ghost predicate RootIsImage(sizes: Sizes, w: int, h: int) {
    |sizes| == 1 && exists j: nat :: sizes[0] == (Doubled(w, j), Doubled(h, j))
  }

  // ---------------------------------------------------------------- sizes that are computed as ints

  /** After j doublings both sides fit an int. */
  predicate SidesFit(w: int, h: int, j: nat) {
    Doubled(w, j) < INT_LIMIT && Doubled(h, j) < INT_LIMIT
  }

  /** After j doublings the atlas has fewer than 2^31 bytes. */
  predicate BytesFit(w: int, h: int, channels: nat, j: nat) {
    Doubled(w, j) * Doubled(h, j) * channels < INT_LIMIT
  }

  /** Some pass succeeds while both sides fit an int. */
  ghost predicate TreeFits(sizes: Sizes, w: int, h: int) {
    exists j: nat :: Attempt(sizes, w, h, j).Some? && SidesFit(w, h, j)
  }

  /** Some pass succeeds while the bytes of the atlas can be counted by an int. */
  ghost predicate AtlasFits(sizes: Sizes, w: int, h: int, channels: nat) {
    exists j: nat :: Attempt(sizes, w, h, j).Some? && BytesFit(w, h, channels, j)
  }

  /** The first pass that succeeds. */
  ghost predicate Stops(sizes: Sizes, w: int, h: int, j: nat) {
    && Attempt(sizes, w, h, j).Some?
    && forall i: nat :: i < j ==> Attempt(sizes, w, h, i).None?
  }

  class ImagePacker {
    const images: seq<Image>
    var width: int
    var height: int
    var root: Node?

    constructor (images: seq<Image>, width: int, height: int)
      ensures this.images == images && this.width == width && this.height == height && root == null
    {
      this.images, this.width, this.height, this.root := images, width, height, null;
    }

    /** Puts all images into a fresh tree; whenever one finds no room, starts over with both sides
        doubled, until a side overflows. `m` bounds the sides of the images. */
    method CreateTree(ghost m: int) returns (overflow: bool, ghost doublings: nat)
      requires root == null && 0 < width < INT_LIMIT && 0 < height < INT_LIMIT && |images| <= NULL_ID
      requires 0 <= m && AtMost(SizesOf(images), m)
      modifies this
      ensures overflow <==> !TreeFits(SizesOf(images), old(width), old(height))
      ensures !overflow ==>
                && root != null && fresh(root) && fresh(root.Repr) && root.Valid()
                && Stops(SizesOf(images), old(width), old(height), doublings)
                && Attempt(SizesOf(images), old(width), old(height), doublings) == Some(root.tree)
      ensures !overflow ==>
                && width == Doubled(old(width), doublings) && 0 < width < INT_LIMIT
                && height == Doubled(old(height), doublings) && 0 < height < INT_LIMIT
      ensures !overflow ==> forall j :: Enough(SizesOf(images), m, old(width), old(height), j) ==>
                doublings <= j && width <= Doubled(old(width), j) && height <= Doubled(old(height), j)
    {
      hide SizesOf, Put, PutAll, AtMost, Enough, Node.Valid;
      ghost var sizes, w, h := SizesOf(images), width, height;
      root := new Node(Rect(0, 0, width, height));
      doublings := 0;
      ghost var limit := EnoughExists(sizes, m, w, h);
      EnoughSucceeds(sizes, m, w, h, limit);
      var done := TryAll();
      while !done
        invariant root != null && fresh(root) && fresh(root.Repr) && root.Valid()
        invariant width == Doubled(w, doublings) && 0 < width < INT_LIMIT
        invariant height == Doubled(h, doublings) && 0 < height < INT_LIMIT
        invariant Attempt(sizes, w, h, doublings) == if done then Some(root.tree) else None
        invariant forall j: nat :: j < doublings ==> Attempt(sizes, w, h, j).None?
        decreases limit - doublings, !done
      {
        if 2 * width >= INT_LIMIT || 2 * height >= INT_LIMIT {
          StuckOverflows(sizes, w, h, doublings);
          overflow := true;
          return;
        }
        width := 2 * width;
        height := 2 * height;
        doublings := doublings + 1;
        root.Reset(Rect(0, 0, width, height));
        done := TryAll();
      }
      overflow := false;
      assert SidesFit(w, h, doublings);
      forall j | Enough(sizes, m, w, h, j)
        ensures doublings <= j && width <= Doubled(w, j) && height <= Doubled(h, j)
      {
        EnoughSucceeds(sizes, m, w, h, j);
        DoubledAtMost(w, doublings, j);
        DoubledAtMost(h, doublings, j);
      }
    }

    /** One pass over the images, up to the first that finds no room. */
    method TryAll() returns (done: bool)
      requires root != null && root.Valid() && root.tree == Blank(width, height) && |images| <= NULL_ID
      modifies root.Repr
      ensures root == old(root) && root.Valid() && fresh(root.Repr - old(root.Repr))
      ensures var result := PutAll(Blank(width, height), SizesOf(images), 0);
              if done then result == Some(root.tree) else result == None
    {
      ghost var sizes := SizesOf(images);
      var i := 0;
      while i < |images|
        invariant i <= |images| && root == old(root) && root.Valid() && fresh(root.Repr - old(root.Repr))
        invariant PutAll(root.tree, sizes, i) == PutAll(Blank(width, height), sizes, 0)
      {
        var threw, n := root.PutImage(images[i].width, images[i].height, i);
        if n == null {
          return false;
        }
        i := i + 1;
      }
      done := true;
    }

    // -------------------------------------------------------------- painting

    ghost predicate ImagesValid(atlas: Image) {
      && atlas.Valid() && atlas.channels != 1
      && forall i :: 0 <= i < |images| ==> images[i].Valid() && images[i].pixels != atlas.pixels
    }

    /** A placement belongs to an image, has its size and lies in the atlas. */
    ghost predicate Sits(atlas: Image, p: (nat, Rect)) {
      && p.0 < |images| && p.1.w == images[p.0].width && p.1.h == images[p.0].height
      && Inside(p.1, Rect(0, 0, atlas.width, atlas.height))
    }

    ghost predicate Shows(atlas: Image, p: (nat, Rect))
      requires ImagesValid(atlas) && Sits(atlas, p)
      reads atlas.pixels, set i | 0 <= i < |images| :: images[i].pixels
    {
      Painted(atlas, images[p.0], p.1)
    }

    ghost predicate AllSit(atlas: Image, placed: seq<(nat, Rect)>) {
      ImagesValid(atlas) && AllApart(placed) && forall k :: 0 <= k < |placed| ==> Sits(atlas, placed[k])
    }

    ghost predicate AllShow(atlas: Image, placed: seq<(nat, Rect)>)
      requires AllSit(atlas, placed)
      reads atlas.pixels, set i | 0 <= i < |images| :: images[i].pixels
    {
      forall k :: 0 <= k < |placed| ==> Shows(atlas, placed[k])
    }

    /** Nothing outside the placements has changed. */
    twostate predicate OnlyPaints(atlas: Image, new placed: seq<(nat, Rect)>)
      requires atlas.Valid()
      reads atlas.pixels
    {
      forall x, y :: atlas.InRange(x, y) && !Hit(placed, x, y) ==> atlas.At(x, y) == old(atlas.At(x, y))
    }

    /** Paints one image; those painted before stay as they are. */
    method Paint(atlas: Image, n: Node, ghost done: seq<(nat, Rect)>)
      requires n.id < |images| && AllSit(atlas, done + [(n.id, n.rect)]) && AllSit(atlas, done) && AllShow(atlas, done)
      modifies atlas.pixels
      ensures AllShow(atlas, done + [(n.id, n.rect)])
      ensures OnlyPaints(atlas, [(n.id, n.rect)])
    {
      ghost var all := done + [(n.id, n.rect)];
      assert Sits(atlas, all[|done|]);
      label before:
      Blit(atlas, images[n.id], n.rect);
      forall x, y | atlas.InRange(x, y) && !Hit([(n.id, n.rect)], x, y) ensures atlas.At(x, y) == old(atlas.At(x, y)) {
        assert !Covers([(n.id, n.rect)][0].1, x, y);
      }
      forall k | 0 <= k < |all| ensures Shows(atlas, all[k]) {
        if k < |done| {
          assert Sits(atlas, all[k]) && old@before(Shows(atlas, done[k])) && Apart(all[k].1, all[|done|].1);
          var img, r := images[all[k].0], all[k].1;
          forall x, y | img.InRange(x, y) ensures atlas.At(r.x + x, r.y + y) == Shown(img.At(x, y), atlas.channels) {
            assert atlas.InRange(r.x + x, r.y + y) && !Covers(n.rect, r.x + x, r.y + y);
          }
        }
      }
    }

    /** The depth-first visit below a node. */
    method Visit(n: Node?, atlas: Image, ghost done: seq<(nat, Rect)>)
      requires (n != null ==> n.Valid()) && |images| <= NULL_ID
      requires AllSit(atlas, done + PlacedBelow(n)) && AllSit(atlas, done) && AllShow(atlas, done)
      modifies atlas.pixels
      ensures AllShow(atlas, done + PlacedBelow(n)) && OnlyPaints(atlas, PlacedBelow(n))
      decreases if n == null then {} else n.Repr, 0
    {
      if n == null {
        assert done + PlacedBelow(n) == done;
        return;
      }
      if n.IsLeaf() {
        if n.id != NULL_ID {
          assert PlacedBelow(n) == [(n.id, n.rect)];
          assert Sits(atlas, (done + PlacedBelow(n))[|done|]);
          Paint(atlas, n, done);
        } else {
          assert done + PlacedBelow(n) == done;
        }
        return;
      }
      VisitBoth(n.left, n.right, atlas, done, PlacedBelow(n));
    }

    /** Both halves, one after the other. */
    method VisitBoth(left: Node?, right: Node?, atlas: Image, ghost done: seq<(nat, Rect)>,
                     ghost below: seq<(nat, Rect)>)
      requires (left != null ==> left.Valid()) && (right != null ==> right.Valid()) && |images| <= NULL_ID
      requires below == PlacedBelow(left) + PlacedBelow(right)
      requires AllSit(atlas, done + below) && AllSit(atlas, done) && AllShow(atlas, done)
      modifies atlas.pixels
      ensures AllShow(atlas, done + below) && OnlyPaints(atlas, below)
      decreases (if left == null then {} else left.Repr) + (if right == null then {} else right.Repr), 1
    {
      hide AllSit, AllShow, Node.Valid, Image.At, Image.InRange, Hit;
      ghost var first, second := PlacedBelow(left), PlacedBelow(right);
      assert done + below == (done + first) + second;
      Prefix(atlas, done + first, second);
      SitMeansValid(atlas, done);
      Visit(left, atlas, done);
      Visit(right, atlas, done + first);
      forall x, y | atlas.InRange(x, y) && !Hit(below, x, y) ensures atlas.At(x, y) == old(atlas.At(x, y)) {
        HitEither(first, second, x, y);
      }
    }

    ghost function PlacedBelow(n: Node?): seq<(nat, Rect)>
      reads n
    {
      if n == null then [] else Placements(n.tree)
    }

    lemma Prefix(atlas: Image, a: seq<(nat, Rect)>, b: seq<(nat, Rect)>)
      requires AllSit(atlas, a + b)
      ensures AllSit(atlas, a)
    {
      forall k | 0 <= k < |a| ensures Sits(atlas, a[k]) {
        assert Sits(atlas, (a + b)[k]);
      }
      forall i, j | 0 <= i < j < |a| ensures Apart(a[i].1, a[j].1) {
        assert Apart((a + b)[i].1, (a + b)[j].1);
      }
    }

    /** The image is in the atlas, pixel for pixel, in a rectangle of its size. */
    ghost predicate Appears(atlas: Image, id: nat)
      requires ImagesValid(atlas) && id < |images|
      reads atlas.pixels, set i | 0 <= i < |images| :: images[i].pixels
    {
      exists r :: Sits(atlas, (id, r)) && Shows(atlas, (id, r))
    }

    /** Builds the tree and makes the atlas, without scaling. Null stands for an int overflow: an atlas
        comes back exactly when it and each of the images have fewer than 2^31 bytes. Then all images
        appear in it, unless the one and only image is as large as the starting size doubled some
        number of times: then the tree is a single leaf, the visit passes it over, and the atlas stays
        black. */
    method Pack(ghost m: int, outChannels: nat) returns (atlas: Image?)
      requires root == null && 0 < width < INT_LIMIT && 0 < height < INT_LIMIT && |images| <= NULL_ID
      requires 0 <= m && AtMost(SizesOf(images), m)
      requires forall i :: 0 <= i < |images| ==> images[i].Backed() && images[i].Supported()
      requires outChannels == 3 || outChannels == 4
      modifies this
      ensures atlas != null <==>
                && AtlasFits(SizesOf(images), old(width), old(height), outChannels)
                && forall i :: 0 <= i < |images| ==> images[i].Fits()
      ensures atlas != null ==>
                && fresh(atlas) && fresh(atlas.pixels) && atlas.channels == outChannels && ImagesValid(atlas)
                && atlas.width == width && atlas.height == height
      ensures atlas != null && !RootIsImage(SizesOf(images), old(width), old(height)) ==>
                forall id: nat :: id < |images| ==> Appears(atlas, id)
      ensures atlas != null && RootIsImage(SizesOf(images), old(width), old(height)) ==>
                forall x, y :: atlas.InRange(x, y) ==> atlas.At(x, y) == Shown(Pixel(0, 0, 0, 0), outChannels)
    {
      hide Put, PutAll, Attempt, Holds, AllSit, AllShow, RootIsImage, SizesOf, Visited, TreeFits, AtlasFits;
      ghost var w, h := width, height;
      var overflow, doublings := CreateTree(m);
      if overflow {
        BytesNeedSides(SizesOf(images), w, h, outChannels);
        return null;
      }
      AttemptHolds(SizesOf(images), m, w, h, doublings);
      FirstFits(SizesOf(images), w, h, outChannels, doublings);
      var rightSize := ImagesFit();
      if !rightSize || width * height * outChannels >= INT_LIMIT {
        return null;
      }
      RootImageIff(SizesOf(images), w, h, doublings);
      atlas := Render(outChannels);
      SitMeansValid(atlas, Placements(root.tree));
      VisitReportsAll(root.tree);
      if ImageAtRoot(root.tree) {
        assert forall x, y :: !Hit(Visited(root.tree), x, y);
      } else {
        forall id: nat | id < |images| ensures Appears(atlas, id) {
          Placed(atlas, id);
        }
      }
    }

    /** The sizes of all images in bytes are computed, too. */
    method ImagesFit() returns (all: bool)
      ensures all <==> forall i :: 0 <= i < |images| ==> images[i].Fits()
    {
      var i := 0;
      while i < |images|
        invariant i <= |images| && forall k :: 0 <= k < i ==> images[k].Fits()
      {
        if !images[i].Fits() {
          return false;
        }
        i := i + 1;
      }
      all := true;
    }

    lemma SitMeansValid(atlas: Image, placed: seq<(nat, Rect)>)
      requires AllSit(atlas, placed)
      ensures ImagesValid(atlas)
    {}

    lemma Placed(atlas: Image, id: nat)
      requires root != null && id < |images| && Holds(root.tree, SizesOf(images), |images|)
      requires AllSit(atlas, Placements(root.tree)) && AllShow(atlas, Placements(root.tree))
      ensures Appears(atlas, id)
    {
      assert Times(root.tree, id) == 1;
      var k := TimesPlaced(root.tree, id);
      var p := Placements(root.tree)[k];
      assert p == (id, p.1) && Sits(atlas, p) && Shows(atlas, p);
    }

    /** Makes the atlas, without scaling. Every image the visit reports is there, pixel for pixel, and
        everything else is black. */
    method Render(outChannels: nat) returns (atlas: Image)
      requires root != null && root.Valid() && |images| <= NULL_ID
      requires forall i :: 0 <= i < |images| ==> images[i].Valid()
      requires Holds(root.tree, SizesOf(images), |images|) && root.tree.rect.x == 0 == root.tree.rect.y
      requires outChannels == 3 || outChannels == 4
      requires root.tree.rect.w * root.tree.rect.h * outChannels < INT_LIMIT
      ensures fresh(atlas) && fresh(atlas.pixels) && atlas.channels == outChannels
      ensures atlas.width == root.tree.rect.w && atlas.height == root.tree.rect.h
      ensures AllSit(atlas, Placements(root.tree))
      ensures AllSit(atlas, Visited(root.tree)) && AllShow(atlas, Visited(root.tree))
      ensures forall x, y :: atlas.InRange(x, y) && !Hit(Visited(root.tree), x, y) ==>
                atlas.At(x, y) == Shown(Pixel(0, 0, 0, 0), outChannels)
    {
      assert 0 <= root.rect.w && 0 <= root.rect.h;
      hide Holds, AllSit, AllShow, SizesOf, Node.Valid, Image.At, Image.InRange, Hit, Visited;
      atlas := new Image(root.rect.w, root.rect.h, outChannels);
      EveryoneSits(atlas);
      DepthSearch(atlas);
    }

    /** Starts the visit at the children of the root: exactly what it reports is painted. */
    method DepthSearch(atlas: Image)
      requires root != null && root.Valid() && |images| <= NULL_ID && AllSit(atlas, Placements(root.tree))
      modifies atlas.pixels
      ensures AllSit(atlas, Visited(root.tree)) && AllShow(atlas, Visited(root.tree))
      ensures OnlyPaints(atlas, Visited(root.tree))
    {
      ReportedSit(atlas);
      hide AllSit, AllShow, Node.Valid, Image.At, Visited;
      ghost var reported := Visited(root.tree);
      assert [] + reported == reported;
      VisitBoth(root.left, root.right, atlas, [], reported);
    }

    /** What is reported is what lies below the root. */
    lemma ReportedSit(atlas: Image)
      requires root != null && root.Valid() && AllSit(atlas, Placements(root.tree))
      ensures Visited(root.tree) == PlacedBelow(root.left) + PlacedBelow(root.right)
      ensures AllSit(atlas, Visited(root.tree)) && AllSit(atlas, []) && AllShow(atlas, [])
      ensures (root.left != null ==> root.left.Valid()) && (root.right != null ==> root.right.Valid())
    {}

    lemma EveryoneSits(atlas: Image)
      requires root != null && root.Valid() && Holds(root.tree, SizesOf(images), |images|)
      requires ImagesValid(atlas) && root.tree.rect == Rect(0, 0, atlas.width, atlas.height)
      ensures AllSit(atlas, Placements(root.tree))
    {
      PlacementsApart(root.tree);
      forall k | 0 <= k < |Placements(root.tree)| ensures Sits(atlas, Placements(root.tree)[k]) {
        PlacedSized(root.tree, SizesOf(images), k);
      }
    }
  }

  lemma AttemptHolds(sizes: Sizes, m: int, w: int, h: int, j: nat)
    requires AtMost(sizes, m) && 1 <= w && 1 <= h && Attempt(sizes, w, h, j).Some?
    ensures var t := Attempt(sizes, w, h, j).value;
            Holds(t, sizes, |sizes|) && t.rect == Rect(0, 0, Doubled(w, j), Doubled(h, j))
  {
    DoubledGrows(w, j);
    DoubledGrows(h, j);
    PassHolds(Blank(Doubled(w, j), Doubled(h, j)), sizes, 0, m);
  }

  /** An inner node stays one. */
  lemma {:induction false} SplitStays(t: Tree, sizes: Sizes, i: nat)
    requires t.Split? && i <= |sizes| && PutAll(t, sizes, i).Some?
    ensures PutAll(t, sizes, i).value.Split?
    decreases |sizes| - i
  {
    if i < |sizes| {
      PutBelow(t, sizes[i].0, sizes[i].1, i);
      SplitStays(Put(t, sizes[i].0, sizes[i].1, i).value.0, sizes, i + 1);
    }
  }

  /** A pass leaves an image at the root exactly when it is over one image of the atlas's size. */
  lemma ImageAtRootIff(sizes: Sizes, w: int, h: int)
    requires PutAll(Blank(w, h), sizes, 0).Some?
    ensures ImageAtRoot(PutAll(Blank(w, h), sizes, 0).value) <==> |sizes| == 1 && sizes[0] == (w, h)
  {
    if |sizes| > 0 {
      var t := Put(Blank(w, h), sizes[0].0, sizes[0].1, 0).value.0;
      if sizes[0] != (w, h) {
        SplitStays(t, sizes, 1);
      } else {
        FullStaysFull(t, sizes);
      }
    }
  }

  /** A leaf that holds an image takes no other. */
  lemma FullStaysFull(t: Tree, sizes: Sizes)
    requires ImageAtRoot(t) && |sizes| > 0
    ensures PutAll(t, sizes, 1) == if |sizes| == 1 then Some(t) else None
  {}

  lemma TooSmallFails(sizes: Sizes, w: int, h: int)
    requires |sizes| > 0 && w < sizes[0].0
    ensures PutAll(Blank(w, h), sizes, 0).None?
  {}

  lemma OnlyImageFillsRoot(sizes: Sizes, w: int, h: int)
    requires |sizes| == 1 && sizes[0] == (w, h)
    ensures PutAll(Blank(w, h), sizes, 0) == Some(Leaf(Rect(0, 0, w, h), Some(0)))
  {
    FullStaysFull(Leaf(Rect(0, 0, w, h), Some(0)), sizes);
  }

  lemma {:induction false} DoubledIncreases(side: int, i: nat, j: nat)
    requires side >= 1 && i < j
    ensures Doubled(side, i) < Doubled(side, j)
  {
    DoubledGrows(side, j - 1);
    if i + 1 < j {
      DoubledIncreases(side, i, j - 1);
    }
  }

  lemma DoubledAtMost(side: int, i: nat, j: nat)
    requires side >= 1 && i <= j
    ensures 0 < Doubled(side, i) <= Doubled(side, j)
  {
    DoubledGrows(side, i);
    if i < j {
      DoubledIncreases(side, i, j);
    }
  }

  /** A pass that fails, after which a side would overflow. */
  lemma StuckOverflows(sizes: Sizes, w: int, h: int, i: nat)
    requires w >= 1 && h >= 1 && !SidesFit(w, h, i + 1)
    requires forall j: nat :: j <= i ==> Attempt(sizes, w, h, j).None?
    ensures !TreeFits(sizes, w, h)
  {
    hide Attempt;
    forall j: nat | Attempt(sizes, w, h, j).Some? ensures !SidesFit(w, h, j) {
      DoubledAtMost(w, i + 1, j);
      DoubledAtMost(h, i + 1, j);
    }
  }

  /** No side overflows an int, at any time, exactly when some pass succeeds while both sides fit one,
      be it the one with which the loop stops or a later one. */
  lemma NoSideOverflows(sizes: Sizes, w: int, h: int, j: nat)
    requires w >= 1 && h >= 1 && Stops(sizes, w, h, j)
    ensures (forall i: nat :: i <= j ==> SidesFit(w, h, i)) <==> TreeFits(sizes, w, h)
  {
    hide Attempt;
    if k: nat :| Attempt(sizes, w, h, k).Some? && SidesFit(w, h, k) {
      forall i: nat | i <= j ensures SidesFit(w, h, i) {
        DoubledAtMost(w, i, k);
        DoubledAtMost(h, i, k);
      }
    }
  }

  lemma ProductAtMost(a: nat, b: nat, a': nat, b': nat)
    requires a <= a' && b <= b'
    ensures a * b <= a' * b'
  {
    assert a' * b' == a * b + a * (b' - b) + (a' - a) * b';
    assert a * (b' - b) >= 0 && (a' - a) * b' >= 0;
  }

  /** The atlas fits exactly when it does with the first pass that succeeds. */
  lemma FirstFits(sizes: Sizes, w: int, h: int, channels: nat, j: nat)
    requires w >= 1 && h >= 1 && Stops(sizes, w, h, j)
    ensures AtlasFits(sizes, w, h, channels) <==> BytesFit(w, h, channels, j)
  {
    hide Attempt;
    if k: nat :| Attempt(sizes, w, h, k).Some? && BytesFit(w, h, channels, k) {
      DoubledAtMost(w, j, k);
      DoubledAtMost(h, j, k);
      ProductAtMost(Doubled(w, j), Doubled(h, j), Doubled(w, k), Doubled(h, k));
      ProductAtMost(Doubled(w, j) * Doubled(h, j), channels, Doubled(w, k) * Doubled(h, k), channels);
    }
  }

  /** An atlas with so few bytes has sides that fit an int. */
  lemma BytesNeedSides(sizes: Sizes, w: int, h: int, channels: nat)
    requires w >= 1 && h >= 1 && channels >= 1
    ensures AtlasFits(sizes, w, h, channels) ==> TreeFits(sizes, w, h)
  {
    hide Attempt;
    if k: nat :| Attempt(sizes, w, h, k).Some? && BytesFit(w, h, channels, k) {
      DoubledAtMost(w, k, k);
      DoubledAtMost(h, k, k);
      ProductAtMost(Doubled(w, k), 1, Doubled(w, k), Doubled(h, k));
      ProductAtMost(1, Doubled(h, k), Doubled(w, k), Doubled(h, k));
      ProductAtMost(Doubled(w, k) * Doubled(h, k), 1, Doubled(w, k) * Doubled(h, k), channels);
      assert SidesFit(w, h, k);
    }
  }

  /** In terms of the images alone: the atlas fits if it does at the first doubling that is enough. */
  lemma EnoughFits(sizes: Sizes, m: int, w: int, h: int, channels: nat, j: nat)
    requires AtMost(sizes, m) && 0 <= m && 1 <= w && 1 <= h && Enough(sizes, m, w, h, j) && BytesFit(w, h, channels, j)
    ensures AtlasFits(sizes, w, h, channels)
  {
    EnoughSucceeds(sizes, m, w, h, j);
  }

  /** A concrete input whose sides fit and whose bytes do not: one image of 20000 x 1, in an atlas that
      starts at 1024 x 1024 and ends at 32768 x 32768. With four channels the last pixel has the index
      2^32 - 4. */
  lemma WideImageOverflows()
    ensures Stops([(20000, 1)], 1024, 1024, 5) && TreeFits([(20000, 1)], 1024, 1024)
    ensures !AtlasFits([(20000, 1)], 1024, 1024, 4)
    ensures Doubled(1024, 5) == 32768 && Index(32767, 32767, 32768, 4) == 0x1_0000_0000 - 4
  {
    var sizes := [(20000, 1)];
    assert Doubled(1024, 2) == 4096 && Doubled(1024, 1) == 2048;
    assert Doubled(1024, 5) == 32768 && Doubled(1024, 4) == 16384 && Doubled(1024, 3) == 8192;
    forall i: nat | i < 5 ensures Attempt(sizes, 1024, 1024, i).None? {
      DoubledAtMost(1024, i, 4);
      TooSmallFails(sizes, Doubled(1024, i), Doubled(1024, i));
    }
    PassSucceeds(sizes, 20000, 32768, 32768);
    assert Attempt(sizes, 1024, 1024, 5).Some? && SidesFit(1024, 1024, 5);
    FirstFits(sizes, 1024, 1024, 4, 5);
  }

  /** A concrete start from which the first doubling overflows: one image of 2 x 2 in an atlas that
      starts one wide and 2^30 high. */
  lemma NarrowStartOverflows()
    ensures !TreeFits([(2, 2)], 1, 0x4000_0000)
  {
    assert Doubled(1, 0) == 1 && Doubled(0x4000_0000, 0) == 0x4000_0000;
    assert Doubled(0x4000_0000, 1) == 0x8000_0000;
    TooSmallFails([(2, 2)], 1, 0x4000_0000);
    StuckOverflows([(2, 2)], 1, 0x4000_0000, 0);
  }

  /** The condition in terms of the starting size: no need to know how often the atlas doubles. */
  lemma RootImageIff(sizes: Sizes, w: int, h: int, j: nat)
    requires 1 <= w && 1 <= h && Stops(sizes, w, h, j)
    ensures ImageAtRoot(Attempt(sizes, w, h, j).value) <==> RootIsImage(sizes, w, h)
  {
    ImageAtRootIff(sizes, Doubled(w, j), Doubled(h, j));
    if RootIsImage(sizes, w, h) {
      var k: nat :| sizes[0] == (Doubled(w, k), Doubled(h, k));
      OnlyImageFillsRoot(sizes, Doubled(w, k), Doubled(h, k));
      assert Attempt(sizes, w, h, k).Some? && j <= k;
      if j < k {
        DoubledIncreases(w, j, k);
        DoubledIncreases(h, j, k);
        TooSmallFails(sizes, Doubled(w, j), Doubled(h, j));
        assert false;
      }
    }
  }

  /** A concrete input that fails: one image of 1 x 1 in an atlas that starts at 1 x 1. The image is
      placed, and the visit does not report it. */
  lemma RootImageIsMissed()
    ensures RootIsImage([(1, 1)], 1, 1)
    ensures var t := Leaf(Rect(0, 0, 1, 1), Some(0));
            Attempt([(1, 1)], 1, 1, 0) == Some(t) && Placements(t) == [(0, Rect(0, 0, 1, 1))] && Visited(t) == []
  {
    assert Doubled(1, 0) == 1;
  }

  /** The visit reports every placement exactly when the root itself holds no image. */
  lemma VisitReportsAll(t: Tree)
    ensures Visited(t) == Placements(t) <==> !ImageAtRoot(t)
    ensures ImageAtRoot(t) ==> Visited(t) == []
  {}

  // ---------------------------------------------------------------- scaling

  function Scaled(r: Rect, s: int): Rect
    requires s >= 1
  {
    Rect(r.x / s, r.y / s, r.w / s, r.h / s)
  }

  /** `q` is a rounded down to a multiple of `s`. */
  lemma Floor(a: int, s: int)
    requires s >= 1 && 0 <= a
    ensures 0 <= a / s && s * (a / s) <= a < s * (a / s) + s
  {}

  lemma FloorsFit(a: int, w: int, b: int, s: int)
    requires s >= 1 && 0 <= a && 0 <= w && a + w <= b
    ensures 0 <= a / s && 0 <= w / s && a / s + w / s <= b / s
  {
    Floor(a, s);
    Floor(w, s);
    Floor(b, s);
    var p, q, r := a / s, w / s, b / s;
    assert s * (p + q) == s * p + s * q;
    if p + q > r {
      Steps(r, p + q, s);
    }
  }

  /** For any scale, the rectangles divided by it, rounding down, stay inside the atlas divided by
      it and stay pairwise disjoint. */
  lemma ScaledStaysApart(t: Tree, s: int, i: nat, j: nat)
    requires Tiled(t) && t.rect.x == 0 == t.rect.y && s >= 1 && i < j < |Placements(t)|
    ensures var a, b := Placements(t)[i].1, Placements(t)[j].1;
            && Apart(Scaled(a, s), Scaled(b, s))
            && Inside(Scaled(a, s), Scaled(t.rect, s)) && Inside(Scaled(b, s), Scaled(t.rect, s))
  {
    PlacementsApart(t);
    var a, b := Placements(t)[i].1, Placements(t)[j].1;
    assert Inside(a, t.rect) && Inside(b, t.rect) && Apart(a, b);
    FloorsFit(a.x, a.w, t.rect.w, s);
    FloorsFit(a.y, a.h, t.rect.h, s);
    FloorsFit(b.x, b.w, t.rect.w, s);
    FloorsFit(b.y, b.h, t.rect.h, s);
    if a.x + a.w <= b.x {
      FloorsFit(a.x, a.w, b.x, s);
    } else if b.x + b.w <= a.x {
      FloorsFit(b.x, b.w, a.x, s);
    } else if a.y + a.h <= b.y {
      FloorsFit(a.y, a.h, b.y, s);
    } else {
      FloorsFit(b.y, b.h, a.y, s);
    }
  }

  predicate ImageAtRoot(t: Tree) {
    t.Leaf? && t.id.Some?
  }
}
