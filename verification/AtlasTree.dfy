/** The guillotine tree of the atlas packer as a value: what inserting an image does, that the
    leaves tile the atlas, and how much room is left after some insertions. */
module AtlasTree {
  import opened Basics

  datatype Rect = Rect(x: int, y: int, w: int, h: int)

  /** A leaf may hold an image; an inner node is cut into two. */
  datatype Tree =
    | Leaf(rect: Rect, id: Option<nat>)
    | Split(rect: Rect, left: Tree, right: Tree)

  function Height(t: Tree): nat {
    match t
    case Leaf(_, _) => 0
    case Split(_, left, right) => 1 + if Height(left) < Height(right) then Height(right) else Height(left)
  }

  /** In how many dimensions a leaf differs from the image. */
  function Mismatch(t: Tree, w: int, h: int): nat {
    (if t.rect.w == w then 0 else 1) + (if t.rect.h == h then 0 else 1)
  }

  /** The part of a free leaf cut off for the image, and the remainder. */
  function Cut(r: Rect, w: int, h: int): (Rect, Rect) {
    if r.w - w > r.h - h
    then (Rect(r.x, r.y, w, r.h), Rect(r.x + w, r.y, r.w - w, r.h))
    else (Rect(r.x, r.y, r.w, h), Rect(r.x, r.y + h, r.w, r.h - h))
  }

  /** The tree after the image has been put in, and where; nothing when it has found no room. */
  function Put(t: Tree, w: int, h: int, id: nat): Option<(Tree, Rect)>
    decreases Height(t), Mismatch(t, w, h)
  {
    match t
    case Split(rect, left, right) =>
      (match Put(left, w, h, id)
       case Some((left', r)) => Some((Split(rect, left', right), r))
       case None =>
         match Put(right, w, h, id)
         case Some((right', r)) => Some((Split(rect, left, right'), r))
         case None => None)
    case Leaf(rect, content) =>
      if content.Some? || rect.w < w || rect.h < h then None
      else if rect.w == w && rect.h == h then Some((Leaf(rect, Some(id)), rect))
      else
        var (first, second) := Cut(rect, w, h);
        match Put(Leaf(first, None), w, h, id)
        case Some((left, r)) => Some((Split(rect, left, Leaf(second, None)), r))
        case None => None
  }

  /** What `Put` does at an inner node: the right half is tried when the left one has no room. */
  lemma PutBelow(t: Tree, w: int, h: int, id: nat)
    requires t.Split?
    ensures Put(t, w, h, id) ==
            match Put(t.left, w, h, id)
            case Some((left, r)) => Some((Split(t.rect, left, t.right), r))
            case None =>
              match Put(t.right, w, h, id)
              case Some((right, r)) => Some((Split(t.rect, t.left, right), r))
              case None => None
  {}

  /** What it does at a free leaf that is big enough but not of the exact size. */
  lemma PutCut(rect: Rect, w: int, h: int, id: nat)
    requires w <= rect.w && h <= rect.h && !(rect.w == w && rect.h == h)
    ensures var (first, second) := Cut(rect, w, h);
            var p := Put(Leaf(first, None), w, h, id);
            && p.Some? && Mismatch(Leaf(first, None), w, h) < Mismatch(Leaf(rect, None), w, h)
            && Put(Leaf(rect, None), w, h, id) == Some((Split(rect, p.value.0, Leaf(second, None)), p.value.1))
  {
    PutIffFits(Leaf(Cut(rect, w, h).0, None), w, h, id);
  }

  // ---------------------------------------------------------------- completeness

  /** Some free leaf is at least `a` wide and `b` high. */
  predicate Fits(t: Tree, a: int, b: int) {
    match t
    case Leaf(rect, content) => content.None? && a <= rect.w && b <= rect.h
    case Split(_, left, right) => Fits(left, a, b) || Fits(right, a, b)
  }

  /** An image finds room exactly when some free leaf is big enough. */
  lemma {:induction false} PutIffFits(t: Tree, w: int, h: int, id: nat)
    ensures Put(t, w, h, id).Some? <==> Fits(t, w, h)
    decreases Height(t), Mismatch(t, w, h)
  {
    match t
    case Split(_, left, right) =>
      PutIffFits(left, w, h, id);
      PutIffFits(right, w, h, id);
    case Leaf(rect, content) =>
      if Fits(t, w, h) && (rect.w != w || rect.h != h) {
        PutIffFits(Leaf(Cut(rect, w, h).0, None), w, h, id);
      }
  }

  // ---------------------------------------------------------------- where an image goes

  /** The leaves from left to right. */
  function Leaves(t: Tree): seq<Tree> {
    match t
    case Leaf(_, _) => [t]
    case Split(_, left, right) => Leaves(left) + Leaves(right)
  }

  predicate HasRoom(t: Tree, w: int, h: int) {
    t.Leaf? && t.id.None? && w <= t.rect.w && h <= t.rect.h
  }

  /** What becomes of a free leaf: the image in its corner, then the rest of the strip in which that
      lies, then the rest of the leaf. The strip is as high as the leaf if there is more to spare in
      width, otherwise as wide; what is empty is no leaf. */
  function Pieces(r: Rect, w: int, h: int, id: nat): seq<Tree> {
    var image := Leaf(Rect(r.x, r.y, w, h), Some(id));
    if r.w - w > r.h - h then
      [image]
      + (if r.h == h then [] else [Leaf(Rect(r.x, r.y + h, w, r.h - h), None)])
      + [Leaf(Rect(r.x + w, r.y, r.w - w, r.h), None)]
    else
      [image]
      + (if r.w == w then [] else [Leaf(Rect(r.x + w, r.y, r.w - w, h), None)])
      + (if r.h == h then [] else [Leaf(Rect(r.x, r.y + h, r.w, r.h - h), None)])
  }

  predicate FirstRoomAt(a: seq<Tree>, w: int, h: int, k: nat) {
    k < |a| && HasRoom(a[k], w, h) && forall i :: 0 <= i < k ==> !HasRoom(a[i], w, h)
  }

  /** `k` is the first leaf with room for the image, and only that one is replaced. */
  ghost predicate ReplacesAt(t: Tree, w: int, h: int, id: nat, t': Tree, r: Rect, k: nat) {
    var a := Leaves(t);
    && FirstRoomAt(a, w, h, k) && r == Rect(a[k].rect.x, a[k].rect.y, w, h)
    && Leaves(t') == a[..k] + Pieces(a[k].rect, w, h, id) + a[k + 1..]
  }

  ghost predicate SomeRoom(a: seq<Tree>, w: int, h: int) {
    exists i :: 0 <= i < |a| && HasRoom(a[i], w, h)
  }

  lemma RoomInEither(a: seq<Tree>, b: seq<Tree>, w: int, h: int)
    ensures SomeRoom(a + b, w, h) <==> SomeRoom(a, w, h) || SomeRoom(b, w, h)
  {
    if i :| 0 <= i < |a| && HasRoom(a[i], w, h) {
      assert HasRoom((a + b)[i], w, h);
    }
    if i :| 0 <= i < |b| && HasRoom(b[i], w, h) {
      assert HasRoom((a + b)[|a| + i], w, h);
    }
    if i :| 0 <= i < |a + b| && HasRoom((a + b)[i], w, h) {
      assert i < |a| ==> (a + b)[i] == a[i];
    }
  }

  lemma {:induction false} LeavesWithRoom(t: Tree, w: int, h: int)
    ensures Fits(t, w, h) <==> SomeRoom(Leaves(t), w, h)
    decreases t
  {
    match t
    case Leaf(_, _) =>
      assert Leaves(t) == [t];
      assert HasRoom(t, w, h) <==> HasRoom(Leaves(t)[0], w, h);
    case Split(_, left, right) =>
      LeavesWithRoom(left, w, h);
      LeavesWithRoom(right, w, h);
      RoomInEither(Leaves(left), Leaves(right), w, h);
  }

  /** What becomes of a free leaf that is big enough. */
  lemma PutInLeaf(rect: Rect, w: int, h: int, id: nat)
    requires w <= rect.w && h <= rect.h
    ensures var p := Put(Leaf(rect, None), w, h, id);
            && p.Some? && p.value.1 == Rect(rect.x, rect.y, w, h)
            && Leaves(p.value.0) == Pieces(rect, w, h, id)
  {
    if rect.w != w || rect.h != h {
      PutCut(rect, w, h, id);
      var (first, second) := Cut(rect, w, h);
      var inner := Put(Leaf(first, None), w, h, id).value.0;
      if first.w != w || first.h != h {
        PutCut(first, w, h, id);
        var rest := Cut(first, w, h).1;
        assert inner == Split(first, Leaf(Rect(rect.x, rect.y, w, h), Some(id)), Leaf(rest, None));
        assert Leaves(inner) == [Leaf(Rect(rect.x, rect.y, w, h), Some(id)), Leaf(rest, None)];
      } else {
        assert Leaves(inner) == [Leaf(Rect(rect.x, rect.y, w, h), Some(id))];
      }
      assert Leaves(Split(rect, inner, Leaf(second, None))) == Leaves(inner) + [Leaf(second, None)];
    }
  }

  lemma FirstInEither(a: seq<Tree>, b: seq<Tree>, w: int, h: int, k: nat)
    ensures FirstRoomAt(a, w, h, k) ==> FirstRoomAt(a + b, w, h, k)
    ensures !SomeRoom(a, w, h) && FirstRoomAt(b, w, h, k) ==> FirstRoomAt(a + b, w, h, |a| + k)
  {
    hide HasRoom;
    if !SomeRoom(a, w, h) && FirstRoomAt(b, w, h, k) {
      forall i | 0 <= i < |a| + k ensures !HasRoom((a + b)[i], w, h) {
        assert (a + b)[i] == if i < |a| then a[i] else b[i - |a|];
      }
    }
  }

  lemma ReplacesLeft(a: seq<Tree>, b: seq<Tree>, k: nat, pieces: seq<Tree>)
    requires k < |a|
    ensures (a[..k] + pieces + a[k + 1..]) + b == (a + b)[..k] + pieces + (a + b)[k + 1..]
  {
    assert (a + b)[..k] == a[..k] && (a + b)[k + 1..] == a[k + 1..] + b;
  }

  lemma ReplacesRight(a: seq<Tree>, b: seq<Tree>, k: nat, pieces: seq<Tree>)
    requires k < |b|
    ensures a + (b[..k] + pieces + b[k + 1..]) == (a + b)[..|a| + k] + pieces + (a + b)[|a| + k + 1..]
  {
    assert (a + b)[..|a| + k] == a + b[..k] && (a + b)[|a| + k + 1..] == b[k + 1..];
  }

  /** An image goes into the first leaf with room for it. */
  lemma {:induction false} PutAtFirstRoom(t: Tree, w: int, h: int, id: nat) returns (k: nat)
    requires Put(t, w, h, id).Some?
    ensures ReplacesAt(t, w, h, id, Put(t, w, h, id).value.0, Put(t, w, h, id).value.1, k)
    decreases t
  {
    match t
    case Leaf(rect, content) =>
      PutInLeaf(rect, w, h, id);
      k := 0;
      assert [t][..0] == [] && [t][1..] == [];
    case Split(rect, left, right) =>
      PutBelow(t, w, h, id);
      PutIffFits(left, w, h, id);
      LeavesWithRoom(left, w, h);
      hide Put, Pieces, HasRoom, Leaves, FirstRoomAt, SomeRoom;
      var a, b := Leaves(left), Leaves(right);
      LeavesBelow(t);
      if Put(left, w, h, id).Some? {
        k := PutAtFirstRoom(left, w, h, id);
        FirstInEither(a, b, w, h, k);
        FirstIsIn(a, w, h, k);
        LeavesBelow(Put(t, w, h, id).value.0);
        ReplacesLeft(a, b, k, Pieces(a[k].rect, w, h, id));
      } else {
        var i := PutAtFirstRoom(right, w, h, id);
        FirstInEither(a, b, w, h, i);
        FirstIsIn(b, w, h, i);
        k := |a| + i;
        LeavesBelow(Put(t, w, h, id).value.0);
        ReplacesRight(a, b, i, Pieces(b[i].rect, w, h, id));
      }
  }

  lemma FirstIsIn(a: seq<Tree>, w: int, h: int, k: nat)
    requires FirstRoomAt(a, w, h, k)
    ensures k < |a|
  {}

  lemma LeavesBelow(t: Tree)
    requires t.Split?
    ensures Leaves(t) == Leaves(t.left) + Leaves(t.right)
  {}

  // ---------------------------------------------------------------- tiling

  /** Every inner node is cut, side by side or one above the other, into its two children. */
  predicate Tiled(t: Tree) {
    && 0 <= t.rect.w && 0 <= t.rect.h
    && match t
       case Leaf(_, _) => true
       case Split(r, left, right) =>
         && Tiled(left) && Tiled(right)
         && (|| (left.rect == Rect(r.x, r.y, left.rect.w, r.h) &&
                 right.rect == Rect(r.x + left.rect.w, r.y, r.w - left.rect.w, r.h))
             || (left.rect == Rect(r.x, r.y, r.w, left.rect.h) &&
                 right.rect == Rect(r.x, r.y + left.rect.h, r.w, r.h - left.rect.h)))
  }

  predicate Covers(r: Rect, x: int, y: int) {
    r.x <= x < r.x + r.w && r.y <= y < r.y + r.h
  }

  /** How many leaves a point lies in. */
  function LeavesAt(t: Tree, x: int, y: int): nat {
    match t
    case Leaf(rect, _) => if Covers(rect, x, y) then 1 else 0
    case Split(_, left, right) => LeavesAt(left, x, y) + LeavesAt(right, x, y)
  }

  /** Every point of the root lies in exactly one leaf, and no other point lies in any. */
  lemma {:induction false} LeavesTile(t: Tree, x: int, y: int)
    requires Tiled(t)
    ensures LeavesAt(t, x, y) == if Covers(t.rect, x, y) then 1 else 0
    decreases t
  {
    if t.Split? {
      LeavesTile(t.left, x, y);
      LeavesTile(t.right, x, y);
    }
  }

  // ---------------------------------------------------------------- placements

  /** The images in the tree and their rectangles, from left to right. */
  function Placements(t: Tree): seq<(nat, Rect)> {
    match t
    case Leaf(rect, content) => if content.Some? then [(content.value, rect)] else []
    case Split(_, left, right) => Placements(left) + Placements(right)
  }

  /** Putting an image in keeps the root and the tiling, and gives the image a rectangle of exactly
      its size. */
  lemma {:induction false} PutKeepsTiling(t: Tree, w: int, h: int, id: nat)
    requires Tiled(t) && 0 <= w && 0 <= h && Put(t, w, h, id).Some?
    ensures var (t', r) := Put(t, w, h, id).value;
            Tiled(t') && t'.rect == t.rect && r.w == w && r.h == h
    decreases Height(t), Mismatch(t, w, h)
  {
    match t
    case Split(_, left, right) =>
      if Put(left, w, h, id).Some? {
        PutKeepsTiling(left, w, h, id);
      } else {
        PutKeepsTiling(right, w, h, id);
      }
    case Leaf(rect, _) =>
      if rect.w != w || rect.h != h {
        PutKeepsTiling(Leaf(Cut(rect, w, h).0, None), w, h, id);
      }
  }

  /** Every image already in the tree keeps its rectangle; the new one is all that is added. */
  lemma {:induction false} PutKeepsPlacements(t: Tree, w: int, h: int, id: nat)
    requires Put(t, w, h, id).Some?
    ensures var (t', r) := Put(t, w, h, id).value;
            multiset(Placements(t')) == multiset(Placements(t)) + multiset{(id, r)}
    decreases Height(t), Mismatch(t, w, h)
  {
    match t
    case Split(_, left, right) =>
      if Put(left, w, h, id).Some? {
        PutKeepsPlacements(left, w, h, id);
      } else {
        PutKeepsPlacements(right, w, h, id);
      }
    case Leaf(rect, _) =>
      if rect.w != w || rect.h != h {
        PutKeepsPlacements(Leaf(Cut(rect, w, h).0, None), w, h, id);
      }
  }

  predicate Inside(inner: Rect, outer: Rect) {
    && outer.x <= inner.x && inner.x + inner.w <= outer.x + outer.w
    && outer.y <= inner.y && inner.y + inner.h <= outer.y + outer.h
  }

  predicate Apart(a: Rect, b: Rect) {
    a.x + a.w <= b.x || b.x + b.w <= a.x || a.y + a.h <= b.y || b.y + b.h <= a.y
  }

  predicate AllInside(placed: seq<(nat, Rect)>, outer: Rect) {
    forall i :: 0 <= i < |placed| ==> Inside(placed[i].1, outer) && 0 <= placed[i].1.w && 0 <= placed[i].1.h
  }

  predicate AllApart(placed: seq<(nat, Rect)>) {
    forall i, j :: 0 <= i < j < |placed| ==> Apart(placed[i].1, placed[j].1)
  }

  /** Placed rectangles lie in the root and are pairwise disjoint. */
  lemma {:induction false} PlacementsApart(t: Tree)
    requires Tiled(t)
    ensures AllInside(Placements(t), t.rect) && AllApart(Placements(t))
    decreases t
  {
    if t.Split? {
      PlacementsApart(t.left);
      PlacementsApart(t.right);
      var a, b := Placements(t.left), Placements(t.right);
      var c: seq<(nat, Rect)> := a + b;
      forall i, j | 0 <= i < j < |c| ensures Apart(c[i].1, c[j].1) {
        if i < |a| <= j {
          assert Inside(a[i].1, t.left.rect) && Inside(b[j - |a|].1, t.right.rect);
        }
      }
    }
  }

  // ---------------------------------------------------------------- room

  /** One insertion costs at most `m` in each direction of the room that some free leaf offers. */
  lemma {:induction false} PutLeavesRoom(t: Tree, w: int, h: int, id: nat, m: int, a: int, b: int)
    requires 0 <= w <= m && 0 <= h <= m < a && Fits(t, a, b) && Put(t, w, h, id).Some?
    ensures Fits(Put(t, w, h, id).value.0, a - m, b - m)
    decreases t
  {
    match t
    case Split(_, left, right) =>
      FitsLess(left, a, b, m);
      FitsLess(right, a, b, m);
      if Put(left, w, h, id).Some? {
        if Fits(left, a, b) {
          PutLeavesRoom(left, w, h, id, m, a, b);
        }
      } else if Fits(right, a, b) {
        PutLeavesRoom(right, w, h, id, m, a, b);
      }
    case Leaf(_, _) =>
  }

  lemma {:induction false} FitsLess(t: Tree, a: int, b: int, m: int)
    requires 0 <= m
    ensures Fits(t, a, b) ==> Fits(t, a - m, b - m)
    decreases t
  {
    if t.Split? {
      FitsLess(t.left, a, b, m);
      FitsLess(t.right, a, b, m);
    }
  }
}
