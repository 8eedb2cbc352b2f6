/** The nodes of the atlas tree as objects that are cut and filled in place. */
module AtlasNode {
  import opened Basics
  import opened AtlasTree

  const NULL_ID: nat := 0xFFFF_FFFF_FFFF_FFFF

  function Content(id: nat): Option<nat> {
    if id == NULL_ID then None else Some(id)
  }

  class Node {
    var left: Node?
    var right: Node?
    var rect: Rect
    var id: nat
    ghost var Repr: set<Node>
    /** The tree that hangs below this node. */
    ghost var tree: Tree

    ghost predicate Valid()
      reads this, Repr
      ensures Valid() ==> this in Repr
      decreases Repr
    {
      && this in Repr
      && (left == null <==> right == null)
      && (left == null ==> tree == Leaf(rect, Content(id)))
      && (left != null && right != null ==>
            && id == NULL_ID
            && left in Repr && right in Repr && left.Repr < Repr && right.Repr < Repr
            && this !in left.Repr && this !in right.Repr && left.Repr !! right.Repr
            && left.Valid() && right.Valid()
            && tree == Split(rect, left.tree, right.tree))
    }

    constructor (r: Rect)
      ensures Valid() && fresh(Repr) && tree == Leaf(r, None) && left == null
    {
      left, right, rect, id := null, null, r, NULL_ID;
      Repr, tree := {this}, Leaf(r, None);
    }

    predicate IsLeaf()
      reads this
    {
      left == null && right == null
    }

    /** Forgets everything and starts over as one free leaf. */
    method Reset(r: Rect)
      requires Valid()
      modifies this
      ensures Valid() && Repr == {this} && tree == Leaf(r, None) && left == null
    {
      left, right, rect, id := null, null, r, NULL_ID;
      Repr, tree := {this}, Leaf(r, None);
    }

    /** What one insertion does: the node below which the image has gone, or null and no change. */
    twostate predicate Inserted(w: int, h: int, imageId: nat, new n: Node?)
      reads this, Repr, n
    {
      && Valid() && fresh(Repr - old(Repr))
      && match Put(old(tree), w, h, imageId)
         case None => n == null && tree == old(tree)
         case Some((t, r)) => tree == t && n != null && n in Repr && n.rect == r && n.id == imageId && n.left == null
    }

    /** The source rejects negative sizes; otherwise the image goes where there is room. */
    method PutImage(w: int, h: int, imageId: nat) returns (threw: bool, n: Node?)
      requires Valid() && imageId != NULL_ID
      modifies Repr
      ensures threw <==> w < 0 || h < 0
      ensures threw ==> n == null && Valid() && Repr == old(Repr) && tree == old(tree)
      ensures !threw ==> Inserted(w, h, imageId, n)
    {
      threw, n := false, null;
      if w < 0 || h < 0 {
        return true, null;
      }
      n := Insert(w, h, imageId);
    }

    /** Looks for room, first in the left half and then in the right one. */
    method Insert(w: int, h: int, imageId: nat) returns (n: Node?)
      requires Valid() && imageId != NULL_ID
      modifies Repr
      ensures Inserted(w, h, imageId, n)
      decreases Height(tree), Mismatch(tree, w, h), 1
    {
      n := null;
      if !IsLeaf() {
        n := InsertBelow(w, h, imageId);
      } else if id != NULL_ID || rect.w < w || rect.h < h {
        return;
      } else if rect.w == w && rect.h == h {
        id := imageId;
        tree := Leaf(rect, Some(imageId));
        n := this;
      } else {
        n := CutAndInsert(w, h, imageId);
      }
    }

    method InsertBelow(w: int, h: int, imageId: nat) returns (n: Node?)
      requires Valid() && imageId != NULL_ID && !IsLeaf()
      modifies Repr
      ensures Inserted(w, h, imageId, n)
      decreases Height(tree), Mismatch(tree, w, h), 0
    {
      hide Put, Cut;
      PutBelow(tree, w, h, imageId);
      ghost var leftTree, rightTree := left.tree, right.tree;
      n := left.Insert(w, h, imageId);
      assert right.Valid() && right.tree == rightTree && left.Repr !! right.Repr;
      if n == null {
        n := right.Insert(w, h, imageId);
        assert left.Valid() && left.tree == leftTree && left.Repr !! right.Repr;
      }
      Refresh();
    }

    method CutAndInsert(w: int, h: int, imageId: nat) returns (n: Node?)
      requires Valid() && imageId != NULL_ID && IsLeaf() && id == NULL_ID
      requires w <= rect.w && h <= rect.h && !(rect.w == w && rect.h == h)
      modifies Repr
      ensures Inserted(w, h, imageId, n)
      decreases Height(tree), Mismatch(tree, w, h), 0
    {
      var (first, second) := Cut(rect, w, h);
      left := new Node(first);
      right := new Node(second);
      hide Put, Fits;
      PutCut(rect, w, h, imageId);
      n := left.Insert(w, h, imageId);
      assert right.Valid();
      Refresh();
    }

    /** Brings the proof's view of an inner node up to date with its children. */
    ghost method Refresh()
      requires left != null && right != null && id == NULL_ID
      requires left.Valid() && right.Valid() && this !in left.Repr && this !in right.Repr && left.Repr !! right.Repr
      modifies `Repr, `tree
      ensures Valid() && Repr == {this} + left.Repr + right.Repr && tree == Split(rect, left.tree, right.tree)
    {
      Repr := {this} + left.Repr + right.Repr;
      tree := Split(rect, left.tree, right.tree);
    }
  }
}
