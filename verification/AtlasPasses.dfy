/** A pass over all images, and the doubling of the atlas until a pass succeeds. */
module AtlasPasses {
  import opened Basics
  import opened AtlasTree

  /** Image sizes, in the order in which the images are put in; the id is the position. */
  type Sizes = seq<(int, int)>

  function PutAll(t: Tree, sizes: Sizes, i: nat): Option<Tree>
    requires i <= |sizes|
    decreases |sizes| - i
  {
    if i == |sizes| then Some(t)
    else match Put(t, sizes[i].0, sizes[i].1, i)
      case None => None
      case Some((t', _)) => PutAll(t', sizes, i + 1)
  }

  function Blank(w: int, h: int): Tree {
    Leaf(Rect(0, 0, w, h), None)
  }

  /** A side of the atlas after j doublings. */
  function Doubled(side: int, j: nat): int {
    if j == 0 then side else 2 * Doubled(side, j - 1)
  }

  ghost predicate AtMost(sizes: Sizes, m: int) {
    forall i :: 0 <= i < |sizes| ==> 0 <= sizes[i].0 <= m && 0 <= sizes[i].1 <= m
  }

  // ---------------------------------------------------------------- a pass that succeeds

  lemma {:induction false} FitsSmaller(t: Tree, a: int, b: int, a': int, b': int)
    requires a' <= a && b' <= b
    ensures Fits(t, a, b) ==> Fits(t, a', b')
    decreases t
  {
    if t.Split? {
      FitsSmaller(t.left, a, b, a', b');
      FitsSmaller(t.right, a, b, a', b');
    }
  }

  /** With k images left and a free leaf of at least k * m in both directions, all of them go in. */
  lemma {:induction false} RoomForTheRest(t: Tree, sizes: Sizes, i: nat, m: int, a: int, b: int)
    requires i <= |sizes| && AtMost(sizes, m) && Fits(t, a, b)
    requires (|sizes| - i) * m <= a && (|sizes| - i) * m <= b && 0 <= m && (i < |sizes| ==> 1 <= a)
    ensures PutAll(t, sizes, i).Some?
    decreases |sizes| - i
  {
    if i < |sizes| {
      var (w, h) := sizes[i];
      var k := |sizes| - i - 1;
      assert (k + 1) * m == k * m + m && k * m >= 0;
      FitsSmaller(t, a, b, w, h);
      PutIffFits(t, w, h, i);
      var t' := Put(t, w, h, i).value.0;
      if k == 0 {
        assert PutAll(t', sizes, i + 1) == Some(t');
      } else {
        assert k * m >= m;
        PutLeavesRoom(t, w, h, i, m, a, b);
        RoomForTheRest(t', sizes, i + 1, m, a - m, b - m);
      }
    }
  }

  /** A pass over N images with sides of at most m succeeds as soon as both sides of the atlas reach
      N * m. */
  lemma PassSucceeds(sizes: Sizes, m: int, w: int, h: int)
    requires AtMost(sizes, m) && 0 <= m && 1 <= w && 1 <= h
    requires |sizes| * m <= w && |sizes| * m <= h
    ensures PutAll(Blank(w, h), sizes, 0).Some?
  {
    RoomForTheRest(Blank(w, h), sizes, 0, m, w, h);
  }

  lemma {:induction false} DoubledGrows(side: int, j: nat)
    requires side >= 1
    ensures Doubled(side, j) > j
  {
    if j > 0 {
      DoubledGrows(side, j - 1);
    }
  }

  // ---------------------------------------------------------------- what a pass leaves

  /** How often an image is in the tree. */
  function Times(t: Tree, id: nat): nat {
    match t
    case Leaf(_, content) => if content == Some(id) then 1 else 0
    case Split(_, left, right) => Times(left, id) + Times(right, id)
  }

  /** Every image in the tree is one of `sizes`, in a rectangle of exactly its size. */
  predicate Sized(t: Tree, sizes: Sizes) {
    match t
    case Leaf(rect, content) =>
      content.Some? ==> content.value < |sizes| && rect.w == sizes[content.value].0 && rect.h == sizes[content.value].1
    case Split(_, left, right) => Sized(left, sizes) && Sized(right, sizes)
  }

  /** The images 0, ..., n - 1 are in the tree, each once and in its own size, and no others are;
      the leaves tile the atlas. */
  ghost predicate Holds(t: Tree, sizes: Sizes, n: nat) {
    && Tiled(t) && Sized(t, sizes)
    && forall id: nat :: Times(t, id) == if id < n then 1 else 0
  }

  lemma {:induction false} PutTimes(t: Tree, w: int, h: int, id: nat, k: nat)
    requires Put(t, w, h, id).Some?
    ensures Times(Put(t, w, h, id).value.0, k) == Times(t, k) + if k == id then 1 else 0
    decreases Height(t), Mismatch(t, w, h)
  {
    match t
    case Split(_, left, right) =>
      if Put(left, w, h, id).Some? {
        PutTimes(left, w, h, id, k);
      } else {
        PutTimes(right, w, h, id, k);
      }
    case Leaf(rect, _) =>
      if rect.w != w || rect.h != h {
        PutTimes(Leaf(Cut(rect, w, h).0, None), w, h, id, k);
      }
  }

  lemma {:induction false} PutSized(t: Tree, sizes: Sizes, id: nat)
    requires Sized(t, sizes) && id < |sizes| && Put(t, sizes[id].0, sizes[id].1, id).Some?
    ensures Sized(Put(t, sizes[id].0, sizes[id].1, id).value.0, sizes)
    decreases Height(t), Mismatch(t, sizes[id].0, sizes[id].1)
  {
    var (w, h) := sizes[id];
    match t
    case Split(_, left, right) =>
      if Put(left, w, h, id).Some? {
        PutSized(left, sizes, id);
      } else {
        PutSized(right, sizes, id);
      }
    case Leaf(rect, _) =>
      if rect.w != w || rect.h != h {
        PutSized(Leaf(Cut(rect, w, h).0, None), sizes, id);
      }
  }

  /** A pass that succeeds leaves all images in an atlas of the same size. */
  lemma {:induction false} PassHolds(t: Tree, sizes: Sizes, i: nat, m: int)
    requires i <= |sizes| && AtMost(sizes, m) && Holds(t, sizes, i) && PutAll(t, sizes, i).Some?
    ensures Holds(PutAll(t, sizes, i).value, sizes, |sizes|) && PutAll(t, sizes, i).value.rect == t.rect
    decreases |sizes| - i
  {
    if i < |sizes| {
      var (w, h) := sizes[i];
      var t' := Put(t, w, h, i).value.0;
      PutKeepsTiling(t, w, h, i);
      PutSized(t, sizes, i);
      forall id: nat ensures Times(t', id) == if id < i + 1 then 1 else 0 {
        PutTimes(t, w, h, i, id);
      }
      PassHolds(t', sizes, i + 1, m);
    }
  }

  /** An image in the tree is among the placements. */
  lemma {:induction false} TimesPlaced(t: Tree, id: nat) returns (k: nat)
    requires Times(t, id) > 0
    ensures k < |Placements(t)| && Placements(t)[k].0 == id
    decreases t
  {
    match t
    case Leaf(_, _) => k := 0;
    case Split(_, left, right) =>
      if Times(left, id) > 0 {
        k := TimesPlaced(left, id);
      } else {
        k := TimesPlaced(right, id);
        k := |Placements(left)| + k;
      }
  }

  lemma {:induction false} PlacedSized(t: Tree, sizes: Sizes, k: nat)
    requires Sized(t, sizes) && k < |Placements(t)|
    ensures var (id, r) := Placements(t)[k]; id < |sizes| && r.w == sizes[id].0 && r.h == sizes[id].1
    decreases t
  {
    if t.Split? {
      var n := |Placements(t.left)|;
      if k < n {
        PlacedSized(t.left, sizes, k);
      } else {
        PlacedSized(t.right, sizes, k - n);
      }
    }
  }

  // ---------------------------------------------------------------- doubling

  /** A pass over an atlas doubled j times. */
  function Attempt(sizes: Sizes, w: int, h: int, j: nat): Option<Tree> {
    PutAll(Blank(Doubled(w, j), Doubled(h, j)), sizes, 0)
  }

  /** j doublings are enough: both sides reach the number of images times the largest side. */
  ghost predicate Enough(sizes: Sizes, m: int, w: int, h: int, j: nat) {
    |sizes| * m <= Doubled(w, j) && |sizes| * m <= Doubled(h, j)
  }

  /** The loop stops at the first success; it never doubles past the first size that is enough. */
  lemma EnoughSucceeds(sizes: Sizes, m: int, w: int, h: int, j: nat)
    requires AtMost(sizes, m) && 0 <= m && 1 <= w && 1 <= h && Enough(sizes, m, w, h, j)
    ensures Attempt(sizes, w, h, j).Some?
  {
    DoubledGrows(w, j);
    DoubledGrows(h, j);
    PassSucceeds(sizes, m, Doubled(w, j), Doubled(h, j));
  }

  /** Some number of doublings is enough. */
  lemma EnoughExists(sizes: Sizes, m: int, w: int, h: int) returns (j: nat)
    requires 0 <= m && 1 <= w && 1 <= h
    ensures Enough(sizes, m, w, h, j)
  {
    j := |sizes| * m;
    DoubledGrows(w, j);
    DoubledGrows(h, j);
  }
}
