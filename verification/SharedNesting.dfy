/** Shared handles that are members of shared objects: what a release takes down with it, and when
    copy assignment, which gives up the old reference before it reads the new one, is safe. */
module SharedNesting {

  type Handle = nat
  type Block = nat

  /** Which block each handle owns, and which handles lie in the object of a block; a handle that
      lies in no object is a variable or the like. */
  datatype Nest = Nest(owners: map<Handle, Block>, home: map<Handle, Block>)

  ghost predicate Owned(owners: map<Handle, Block>, c: Block) {
    exists h :: h in owners && owners[h] == c
  }

  /** The handles in the object of a block, which its destructor releases. */
  ghost function Members(n: Nest, c: Block): set<Handle> {
    set h | h in n.home && n.home[h] == c
  }

  /** Every handle lies in an object that is still there. */
  ghost predicate Housed(n: Nest) {
    forall h :: h in n.owners && h in n.home ==> Owned(n.owners, n.home[h])
  }

  ghost predicate AnyLeft(n: Nest, work: set<Handle>) {
    exists h :: h in work && h in n.owners
  }

  /** Some handle that is to be released; the order is left open. */
  ghost function Pick(n: Nest, work: set<Handle>): (h: Handle)
    requires AnyLeft(n, work)
    ensures h in work && h in n.owners
  {
    var h :| h in work && h in n.owners;
    h
  }

  ghost function Without(n: Nest, h: Handle): Nest {
    n.(owners := n.owners - {h})
  }

  /** What is to be released after `h`: the last owner of a block brings down all its members. */
  ghost function After(n: Nest, work: set<Handle>, h: Handle): set<Handle>
    requires h in n.owners
  {
    work - {h} + if Owned(n.owners - {h}, n.owners[h]) then {} else Members(n, n.owners[h])
  }

  /** The handles left after those in `work` have been released, with all that falls with them. */
  ghost function Fall(n: Nest, work: set<Handle>): map<Handle, Block>
    decreases |n.owners|
  {
    if AnyLeft(n, work) then
      var h := Pick(n, work);
      Fewer(n.owners, h);
      Fall(Without(n, h), After(n, work, h))
    else n.owners
  }

  lemma Fewer(owners: map<Handle, Block>, h: Handle)
    requires h in owners
    ensures |owners - {h}| < |owners|
  {
    assert (owners - {h}).Keys == owners.Keys - {h};
  }

  /** Handles that hold each other from outside: each lies in no object, or in one that another of
      them owns. */
  ghost predicate Holds(n: Nest, s: set<Handle>) {
    forall k :: k in s ==> k in n.owners && (k in n.home ==> HasOwnerIn(n, n.home[k], s))
  }

  ghost predicate HasOwnerIn(n: Nest, c: Block, s: set<Handle>) {
    exists h :: h in s && h in n.owners && n.owners[h] == c
  }

  /** Such handles survive any release of others. */
  lemma {:induction false} HeldSurvive(n: Nest, work: set<Handle>, s: set<Handle>)
    requires Holds(n, s) && s !! work
    ensures s <= Fall(n, work).Keys
    decreases |n.owners|
  {
    if AnyLeft(n, work) {
      var h := Pick(n, work);
      Fewer(n.owners, h);
      HeldStep(n, work, s, h);
      HeldSurvive(Without(n, h), After(n, work, h), s);
    }
  }

  lemma HeldStep(n: Nest, work: set<Handle>, s: set<Handle>, h: Handle)
    requires Holds(n, s) && s !! work && h in work && h in n.owners
    ensures Holds(Without(n, h), s) && s !! After(n, work, h)
  {
    var g := Without(n, h);
    forall k | k in s && k in n.home ensures HasOwnerIn(g, n.home[k], s) {
      var o :| o in s && o in n.owners && n.owners[o] == n.home[k];
      assert o in g.owners && g.owners[o] == n.home[k];
    }
    forall k | k in s && k in Members(n, n.owners[h]) ensures Owned(g.owners, n.owners[h]) {
      assert HasOwnerIn(g, n.home[k], s);
    }
  }

  /** What is to be released besides the work at hand is housed. */
  ghost predicate HousedBut(n: Nest, work: set<Handle>) {
    forall k :: k in n.owners && k in n.home ==> k in work || Owned(n.owners, n.home[k])
  }

  ghost predicate Part(part: map<Handle, Block>, whole: map<Handle, Block>) {
    forall k :: k in part ==> k in whole && part[k] == whole[k]
  }

  /** What is left holds itself, and nothing that was to be released is left. */
  lemma {:induction false} LeftHolds(n: Nest, work: set<Handle>)
    requires HousedBut(n, work)
    ensures var left := Fall(n, work);
            Part(left, n.owners) && left.Keys !! work && Holds(n, left.Keys)
    decreases |n.owners|
  {
    if AnyLeft(n, work) {
      var h := Pick(n, work);
      Fewer(n.owners, h);
      HousedStep(n, work, h);
      LeftHolds(Without(n, h), After(n, work, h));
      HoldsStep(n, h, Fall(n, work));
    } else {
      forall k | k in n.owners && k in n.home ensures HasOwnerIn(n, n.home[k], n.owners.Keys) {
        assert Owned(n.owners, n.home[k]);
      }
    }
  }

  lemma HousedStep(n: Nest, work: set<Handle>, h: Handle)
    requires HousedBut(n, work) && h in n.owners
    ensures HousedBut(Without(n, h), After(n, work, h))
  {
    var g := Without(n, h);
    forall k | k in g.owners && k in n.home && k !in After(n, work, h) ensures Owned(g.owners, n.home[k]) {
      if n.home[k] != n.owners[h] {
        var o :| o in n.owners && n.owners[o] == n.home[k];
        assert o in g.owners && g.owners[o] == n.home[k];
      }
    }
  }

  lemma HoldsStep(n: Nest, h: Handle, left: map<Handle, Block>)
    requires Part(left, Without(n, h).owners) && Holds(Without(n, h), left.Keys)
    ensures Part(left, n.owners) && h !in left && Holds(n, left.Keys)
  {
    forall k | k in left && k in n.home ensures HasOwnerIn(n, n.home[k], left.Keys) {
      var o :| o in left.Keys && o in Without(n, h).owners && Without(n, h).owners[o] == n.home[k];
      assert o in n.owners && n.owners[o] == n.home[k];
    }
  }

  /** After the release of `h` the handle `k` is still there: it lies in no object, or in one that still
      has an owner. Empty handles are no exception. */
  ghost predicate Stays(n: Nest, h: Handle, k: Handle) {
    k in n.home ==> Owned(Fall(n, {h}), n.home[k])
  }

  /** Copy assignment to `h` from `p` is safe: it does nothing, or after the release of the old
      reference both the source that is read and the target that is written are still there. */
  ghost predicate SafeToAssign(n: Nest, h: Handle, p: Handle) {
    p == h || (Stays(n, h, p) && Stays(n, h, h))
  }

  /** The handles `s` hold the place of `k` from outside. */
  ghost predicate HeldBy(n: Nest, k: Handle, s: set<Handle>) {
    k in n.home ==> HasOwnerIn(n, n.home[k], s)
  }

  /** Assigning from another handle is safe exactly when the places of both are held from outside
      without the help of the target: one can go from either to an owner of the object it lies in,
      from there to an owner of the object that one lies in, and so on, and never needs `h`. Either
      handle may be empty. */
  lemma SafeToAssignIff(n: Nest, h: Handle, p: Handle)
    requires Housed(n)
    ensures SafeToAssign(n, h, p) <==>
            p == h || exists s: set<Handle> :: h !in s && Holds(n, s) && HeldBy(n, p, s) && HeldBy(n, h, s)
  {
    var left := Fall(n, {h}).Keys;
    LeftHolds(n, {h});
    if SafeToAssign(n, h, p) && p != h {
      StaysHeld(n, h, p);
      StaysHeld(n, h, h);
      assert h !in left && Holds(n, left) && HeldBy(n, p, left) && HeldBy(n, h, left);
    }
    if s: set<Handle> :| h !in s && Holds(n, s) && HeldBy(n, p, s) && HeldBy(n, h, s) {
      HeldStays(n, h, p, s);
      HeldStays(n, h, h, s);
    }
  }

  lemma StaysHeld(n: Nest, h: Handle, k: Handle)
    requires Housed(n) && Stays(n, h, k)
    ensures HeldBy(n, k, Fall(n, {h}).Keys)
  {
    var left := Fall(n, {h});
    LeftHolds(n, {h});
    if k in n.home {
      var o :| o in left && left[o] == n.home[k];
      assert o in left.Keys && o in n.owners && n.owners[o] == n.home[k];
    }
  }

  lemma HeldStays(n: Nest, h: Handle, k: Handle, s: set<Handle>)
    requires Housed(n) && h !in s && Holds(n, s) && HeldBy(n, k, s)
    ensures Stays(n, h, k)
  {
    var left := Fall(n, {h});
    LeftHolds(n, {h});
    HeldSurvive(n, {h}, s);
    if k in n.home {
      var o :| o in s && o in n.owners && n.owners[o] == n.home[k];
      assert o in left && left[o] == n.home[k];
    }
  }

  /** A source that owns something stays exactly when it is not released along with the target, and
      so what it owns is there too when it is counted. */
  lemma OwningSourceCounts(n: Nest, h: Handle, p: Handle)
    requires Housed(n) && p in n.owners && p != h
    ensures Stays(n, h, p) <==> p in Fall(n, {h})
  {
    var left := Fall(n, {h});
    LeftHolds(n, {h});
    if Stays(n, h, p) {
      StaysHeld(n, h, p);
      var s := left.Keys + {p};
      forall k | k in s && k in n.home ensures HasOwnerIn(n, n.home[k], s) {
        var o :| o in left.Keys && o in n.owners && n.owners[o] == n.home[k];
        assert o in s;
      }
      HeldSurvive(n, {h}, s);
    }
    if p in left && p in n.home {
      var o :| o in left.Keys && o in n.owners && n.owners[o] == n.home[p];
      assert o in left && left[o] == n.home[p];
    }
  }

  /** Between handles that lie in no object, empty or not, assignment is always safe. */
  lemma VariablesAreSafe(n: Nest, h: Handle, p: Handle)
    requires Housed(n) && p !in n.home && h !in n.home
    ensures SafeToAssign(n, h, p)
  {
    assert Holds(n, {}) && HeldBy(n, p, {}) && HeldBy(n, h, {});
    SafeToAssignIff(n, h, p);
  }

  /** A handle that is empty releases nothing: assigning to it from any handle that is there is safe. */
  lemma EmptyTargetIsSafe(n: Nest, h: Handle, p: Handle)
    requires Housed(n) && h !in n.owners
    requires p in n.home ==> Owned(n.owners, n.home[p])
    requires h in n.home ==> Owned(n.owners, n.home[h])
    ensures SafeToAssign(n, h, p)
  {
    assert Fall(n, {h}) == n.owners;
  }

  /** Advancing along a list fails: the handle 0 is the only owner of the first node, in which the
      handle 1 to the second node lies. */
  lemma AdvancingFails()
    ensures var n := Nest(map[0 := 10, 1 := 20], map[1 := 10]);
            Housed(n) && !SafeToAssign(n, 0, 1)
  {
    var n := Nest(map[0 := 10, 1 := 20], map[1 := 10]);
    assert n.owners[0] == 10 && Owned(n.owners, 10);
    OnlyOwnerFails(n, 0, 1);
  }

  /** It fails at the end of the list as well, where the handle 1 in the last node is empty. */
  lemma AdvancingPastTheEndFails()
    ensures var n := Nest(map[0 := 10], map[1 := 10]);
            Housed(n) && !SafeToAssign(n, 0, 1)
  {
    OnlyOwnerFails(Nest(map[0 := 10], map[1 := 10]), 0, 1);
  }

  /** A member of an object whose only owner is the target is gone when it is read. */
  lemma OnlyOwnerFails(n: Nest, h: Handle, p: Handle)
    requires Housed(n) && p != h && p in n.home
    requires forall k :: k in n.owners && n.owners[k] == n.home[p] ==> k == h
    ensures !SafeToAssign(n, h, p)
  {
    SafeToAssignIff(n, h, p);
    assert forall s: set<Handle> :: HeldBy(n, p, s) ==> h in s;
  }
}
