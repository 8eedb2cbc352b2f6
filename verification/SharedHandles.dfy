/** Shared and weak handles as objects, used by one thread: any number of control blocks, and
    handles that are copied, assigned, moved, locked and released. */
module SharedHandles {
  import opened Basics
  import SharedOwnership

  const COUNTER_LIMIT: nat := SharedOwnership.COUNTER_LIMIT

  /** The counters of a block, and how often object and block have been destroyed. */
  datatype Counters = Counters(strong: nat, weakCount: nat, destroyed: nat, freed: nat)

  /** What releasing a shared handle does to the counters. */
  function Released(n: Counters): Counters
    requires n.strong > 0 && n.weakCount > 0
  {
    if n.strong > 1 then n.(strong := n.strong - 1)
    else Counters(0, n.weakCount - 1, n.destroyed + 1, if n.weakCount == 1 then n.freed + 1 else n.freed)
  }

  function WeakReleased(n: Counters): Counters
    requires n.weakCount > 0
  {
    n.(weakCount := n.weakCount - 1, freed := if n.weakCount == 1 then n.freed + 1 else n.freed)
  }

  /** No counter may be touched once the block has been freed. */
  class ControlBlock {
    var strong: nat
    var weakCount: nat
    ghost var destroyed: nat
    ghost var freed: nat

    ghost function Value(): Counters
      reads this
    {
      Counters(strong, weakCount, destroyed, freed)
    }

    constructor ()
      ensures strong == 1 && weakCount == 1 && destroyed == 0 && freed == 0
    {
      strong, weakCount, destroyed, freed := 1, 1, 0, 0;
    }

    method IncStrong()
      requires freed == 0 && strong + 1 < COUNTER_LIMIT
      modifies `strong
      ensures strong == old(strong) + 1
    {
      strong := strong + 1;
    }

    method DecStrong() returns (left: nat)
      requires freed == 0 && strong > 0
      modifies `strong
      ensures left == strong == old(strong) - 1
    {
      strong := strong - 1;
      left := strong;
    }

    method IncWeak()
      requires freed == 0 && weakCount + 1 < COUNTER_LIMIT
      modifies `weakCount
      ensures weakCount == old(weakCount) + 1
    {
      weakCount := weakCount + 1;
    }

    method DecWeak() returns (left: nat)
      requires freed == 0 && weakCount > 0
      modifies `weakCount
      ensures left == weakCount == old(weakCount) - 1
    {
      weakCount := weakCount - 1;
      left := weakCount;
    }

    method DestroyObject()
      requires freed == 0 && destroyed == 0
      modifies `destroyed
      ensures destroyed == 1
    {
      destroyed := destroyed + 1;
    }

    method DestroyControlBlock()
      requires freed == 0 && destroyed == 1
      modifies `freed
      ensures freed == 1
    {
      freed := freed + 1;
    }

    method TryIncStrong() returns (done: bool)
      requires freed == 0 && strong + 1 < COUNTER_LIMIT
      modifies `strong
      ensures done <==> old(strong) > 0
      ensures strong == if done then old(strong) + 1 else old(strong)
      ensures Value() == if done then old(Value()).(strong := strong) else old(Value())
    {
      done := strong != 0;
      if done {
        strong := strong + 1;
      }
    }

    /** What is left to do for an owner that goes: the last one destroys the object, and the block
        too if nobody watches it. */
    method Release()
      requires freed == 0 && strong > 0 && weakCount > 0 && destroyed == 0
      modifies this
      ensures Value() == Released(old(Value()))
    {
      var left := DecStrong();
      if left == 0 {
        DestroyObject();
        left := DecWeak();
        if left == 0 {
          DestroyControlBlock();
        }
      }
    }

    /** The same for a weak handle. */
    method ReleaseWeak()
      requires freed == 0 && weakCount > 0 && (weakCount == 1 ==> destroyed == 1)
      modifies this
      ensures Value() == WeakReleased(old(Value()))
    {
      var left := DecWeak();
      if left == 0 {
        DestroyControlBlock();
      }
    }
  }

  // ---------------------------------------------------------------- all blocks and handles

  /** What the blocks hold, and which handles count for which block. */
  datatype World = World(
    blocks: map<ControlBlock, Counters>,
    owners: map<SharedPtr, ControlBlock>,
    watchers: map<WeakPtr, ControlBlock>)

  ghost function Preimage<H>(handles: map<H, ControlBlock>, c: ControlBlock): set<H> {
    set h | h in handles && handles[h] == c
  }

  /** The counters are the numbers of handles, with one weak reference for all owners together; the
      object has been destroyed once if it has no owner, and the block freed once if it has neither
      owner nor watcher. */
  predicate Balanced(n: Counters, owners: nat, watchers: nat) {
    && n.strong == owners
    && n.weakCount == watchers + Bit(owners > 0)
    && n.destroyed == Bit(owners == 0)
    && n.freed == Bit(owners + watchers == 0)
  }

  ghost predicate BlockOk(w: World, c: ControlBlock)
    requires c in w.blocks
  {
    Balanced(w.blocks[c], |Preimage(w.owners, c)|, |Preimage(w.watchers, c)|)
  }

  ghost predicate WorldOk(w: World) {
    && (forall c :: c in w.blocks ==> BlockOk(w, c))
    && Within(w.owners, w.blocks.Keys) && Within(w.watchers, w.blocks.Keys)
  }

  ghost predicate Within<H>(handles: map<H, ControlBlock>, blocks: set<ControlBlock>) {
    forall h :: h in handles ==> handles[h] in blocks
  }

  /** Fewer than 2^32 handles exist at any time. */
  ghost predicate Room(w: World) {
    |w.owners| + |w.watchers| + 2 < COUNTER_LIMIT
  }

  lemma {:induction false} Fewer<T>(a: set<T>, b: set<T>)
    requires a <= b
    ensures |a| <= |b|
    decreases |a|
  {
    if x :| x in a {
      Fewer(a - {x}, b - {x});
    }
  }

  /** One handle more, and one less. */
  lemma OneMore<H>(handles: map<H, ControlBlock>, h: H, c: ControlBlock, d: ControlBlock)
    requires h !in handles
    ensures |Preimage(handles[h := c], d)| == |Preimage(handles, d)| + Bit(c == d)
  {
    if c == d {
      assert Preimage(handles[h := c], d) == Preimage(handles, d) + {h};
    } else {
      assert Preimage(handles[h := c], d) == Preimage(handles, d);
    }
  }

  lemma OneLess<H>(handles: map<H, ControlBlock>, h: H, d: ControlBlock)
    requires h in handles
    ensures |Preimage(handles, d)| == |Preimage(handles - {h}, d)| + Bit(handles[h] == d)
  {
    OneMore(handles - {h}, h, handles[h], d);
    assert handles == (handles - {h})[h := handles[h]];
  }

  /** A shared handle keeps the object and the block alive. */
  lemma OwnerAlive(w: World, h: SharedPtr)
    requires WorldOk(w) && h in w.owners
    ensures w.owners[h] in w.blocks
    ensures var n := w.blocks[w.owners[h]]; n.strong > 0 && n.weakCount > 0 && n.destroyed == 0 && n.freed == 0
  {
    assert BlockOk(w, w.owners[h]) && h in Preimage(w.owners, w.owners[h]);
  }

  /** A weak handle keeps the block alive. */
  lemma WatcherAlive(w: World, h: WeakPtr)
    requires WorldOk(w) && h in w.watchers
    ensures w.watchers[h] in w.blocks
    ensures var n := w.blocks[w.watchers[h]]; n.weakCount > 0 && n.freed == 0 && (n.weakCount == 1 ==> n.destroyed == 1)
  {
    assert BlockOk(w, w.watchers[h]) && h in Preimage(w.watchers, w.watchers[h]);
  }

  lemma CountersBelow(w: World, c: ControlBlock)
    requires WorldOk(w) && c in w.blocks
    ensures w.blocks[c].strong <= |w.owners| && w.blocks[c].weakCount <= |w.watchers| + 1
  {
    assert BlockOk(w, c);
    Fewer(Preimage(w.owners, c), w.owners.Keys);
    Fewer(Preimage(w.watchers, c), w.watchers.Keys);
  }

  /** When no handle is left, every object has been destroyed and every block freed, once each. */
  lemma NothingLeaks(w: World, c: ControlBlock)
    requires WorldOk(w) && c in w.blocks && w.owners == map[] && w.watchers == map[]
    ensures w.blocks[c].destroyed == 1 && w.blocks[c].freed == 1
  {
    assert BlockOk(w, c) && Preimage(w.owners, c) == {} && Preimage(w.watchers, c) == {};
  }

  // What the operations do to the world.

  function WithoutOwner(w: World, h: SharedPtr): World
    requires h in w.owners && w.owners[h] in w.blocks
    requires w.blocks[w.owners[h]].strong > 0 && w.blocks[w.owners[h]].weakCount > 0
  {
    var c := w.owners[h];
    w.(owners := w.owners - {h}, blocks := w.blocks[c := Released(w.blocks[c])])
  }

  function WithoutWatcher(w: World, h: WeakPtr): World
    requires h in w.watchers && w.watchers[h] in w.blocks && w.blocks[w.watchers[h]].weakCount > 0
  {
    var c := w.watchers[h];
    w.(watchers := w.watchers - {h}, blocks := w.blocks[c := WeakReleased(w.blocks[c])])
  }

  function WithOwner(w: World, h: SharedPtr, c: ControlBlock): World
    requires c in w.blocks
  {
    var n := w.blocks[c];
    w.(owners := w.owners[h := c], blocks := w.blocks[c := n.(strong := n.strong + 1)])
  }

  function WithWatcher(w: World, h: WeakPtr, c: ControlBlock): World
    requires c in w.blocks
  {
    var n := w.blocks[c];
    w.(watchers := w.watchers[h := c], blocks := w.blocks[c := n.(weakCount := n.weakCount + 1)])
  }

  function WithBlock(w: World, h: SharedPtr, c: ControlBlock): World {
    w.(owners := w.owners[h := c], blocks := w.blocks[c := Counters(1, 1, 0, 0)])
  }

  lemma BalanceChanges(n: Counters, owners: nat, watchers: nat)
    requires Balanced(n, owners, watchers)
    ensures owners > 0 ==> n.strong > 0 && n.weakCount > 0 && Balanced(Released(n), owners - 1, watchers)
    ensures watchers > 0 ==> n.weakCount > 0 && Balanced(WeakReleased(n), owners, watchers - 1)
    ensures owners > 0 ==> Balanced(n.(strong := n.strong + 1), owners + 1, watchers)
    ensures owners + watchers > 0 ==> Balanced(n.(weakCount := n.weakCount + 1), owners, watchers + 1)
  {}

  lemma DropOwner(w: World, h: SharedPtr)
    requires WorldOk(w) && h in w.owners
    ensures w.owners[h] in w.blocks && w.blocks[w.owners[h]].strong > 0 && w.blocks[w.owners[h]].weakCount > 0
    ensures WorldOk(WithoutOwner(w, h))
  {
    OwnerAlive(w, h);
    var g := WithoutOwner(w, h);
    forall d | d in g.blocks ensures BlockOk(g, d) {
      DropOwnerAt(w, h, d);
    }
  }

  lemma DropOwnerAt(w: World, h: SharedPtr, d: ControlBlock)
    requires WorldOk(w) && h in w.owners && d in w.blocks
    requires w.owners[h] in w.blocks && w.blocks[w.owners[h]].strong > 0 && w.blocks[w.owners[h]].weakCount > 0
    ensures BlockOk(WithoutOwner(w, h), d)
  {
    hide Balanced, Released, WeakReleased, Preimage;
    OneLess(w.owners, h, d);
    assert BlockOk(w, d);
    BalanceChanges(w.blocks[d], |Preimage(w.owners, d)|, |Preimage(w.watchers, d)|);
  }

  lemma DropWatcher(w: World, h: WeakPtr)
    requires WorldOk(w) && h in w.watchers
    ensures w.watchers[h] in w.blocks && w.blocks[w.watchers[h]].weakCount > 0
    ensures WorldOk(WithoutWatcher(w, h))
  {
    WatcherAlive(w, h);
    var g := WithoutWatcher(w, h);
    forall d | d in g.blocks ensures BlockOk(g, d) {
      DropWatcherAt(w, h, d);
    }
  }

  lemma DropWatcherAt(w: World, h: WeakPtr, d: ControlBlock)
    requires WorldOk(w) && h in w.watchers && d in w.blocks
    requires w.watchers[h] in w.blocks && w.blocks[w.watchers[h]].weakCount > 0
    ensures BlockOk(WithoutWatcher(w, h), d)
  {
    hide Balanced, Released, WeakReleased, Preimage;
    OneLess(w.watchers, h, d);
    assert BlockOk(w, d);
    BalanceChanges(w.blocks[d], |Preimage(w.owners, d)|, |Preimage(w.watchers, d)|);
  }

  /** Counting one more owner, of a block that has one. */
  lemma AddOwner(w: World, h: SharedPtr, c: ControlBlock)
    requires WorldOk(w) && h !in w.owners && c in w.blocks && w.blocks[c].strong > 0
    ensures WorldOk(WithOwner(w, h, c))
  {
    var g := WithOwner(w, h, c);
    forall d | d in g.blocks ensures BlockOk(g, d) {
      OneMore(w.owners, h, c, d);
      assert BlockOk(w, d);
      BalanceChanges(w.blocks[d], |Preimage(w.owners, d)|, |Preimage(w.watchers, d)|);
    }
  }

  /** Counting one more watcher, of a block that has not been freed. */
  lemma AddWatcher(w: World, h: WeakPtr, c: ControlBlock)
    requires WorldOk(w) && h !in w.watchers && c in w.blocks && w.blocks[c].freed == 0
    ensures WorldOk(WithWatcher(w, h, c))
  {
    var g := WithWatcher(w, h, c);
    forall d | d in g.blocks ensures BlockOk(g, d) {
      OneMore(w.watchers, h, c, d);
      assert BlockOk(w, d);
      BalanceChanges(w.blocks[d], |Preimage(w.owners, d)|, |Preimage(w.watchers, d)|);
    }
  }

  /** A new block with its first owner. */
  lemma AddBlock(w: World, h: SharedPtr, c: ControlBlock)
    requires WorldOk(w) && h !in w.owners && c !in w.blocks
    ensures WorldOk(WithBlock(w, h, c))
  {
    var g := WithBlock(w, h, c);
    assert Preimage(w.owners, c) == {} && Preimage(w.watchers, c) == {};
    forall d | d in g.blocks ensures BlockOk(g, d) {
      OneMore(w.owners, h, c, d);
      if d != c {
        assert BlockOk(w, d);
      }
    }
  }

  /** The handles with the parts of `a` and `b` exchanged; a handle without a block does not count. */
  ghost function Swapped<H>(handles: map<H, ControlBlock>, a: H, b: H): map<H, ControlBlock> {
    var without := handles - {a, b};
    var one := if b in handles then without[a := handles[b]] else without;
    if a in handles then one[b := handles[a]] else one
  }

  lemma SwappedSame<H>(handles: map<H, ControlBlock>, a: H, b: H, c: ControlBlock)
    requires a != b
    ensures |Preimage(Swapped(handles, a, b), c)| == |Preimage(handles, c)|
    ensures forall blocks :: Within(handles, blocks) ==> Within(Swapped(handles, a, b), blocks)
  {
    var without := handles - {a, b};
    var one := if b in handles then without[a := handles[b]] else without;
    var was := if b in handles then without[b := handles[b]] else without;
    if b in handles {
      OneMore(without, a, handles[b], c);
      OneMore(without, b, handles[b], c);
    }
    if a in handles {
      OneMore(one, b, handles[a], c);
      OneMore(was, a, handles[a], c);
      assert handles == was[a := handles[a]];
    } else {
      assert handles == was;
    }
  }

  // ---------------------------------------------------------------- the objects

  ghost predicate BlocksTied(blocks: map<ControlBlock, Counters>)
    reads blocks.Keys
  {
    forall c :: c in blocks ==> c.Value() == blocks[c]
  }

  ghost predicate OwnersTied(owners: map<SharedPtr, ControlBlock>)
    reads owners.Keys
  {
    forall h :: h in owners ==> h.control == owners[h]
  }

  ghost predicate WatchersTied(watchers: map<WeakPtr, ControlBlock>)
    reads watchers.Keys
  {
    forall w :: w in watchers ==> w.control == watchers[w]
  }

  lemma OwnersTiedOn(owners: map<SharedPtr, ControlBlock>, h: SharedPtr)
    requires OwnersTied(owners)
    ensures OwnersTied(owners - {h})
    ensures h.control != null ==> OwnersTied(owners[h := h.control])
    ensures h in owners ==> h.control == owners[h]
  {}

  lemma WatchersTiedOn(watchers: map<WeakPtr, ControlBlock>, w: WeakPtr)
    requires WatchersTied(watchers)
    ensures WatchersTied(watchers - {w})
    ensures w.control != null ==> WatchersTied(watchers[w := w.control])
    ensures w in watchers ==> w.control == watchers[w]
  {}

  lemma Untie(blocks: map<ControlBlock, Counters>, c: ControlBlock)
    requires BlocksTied(blocks)
    ensures BlocksTied(blocks - {c}) && c !in (blocks - {c}).Keys
    ensures c in blocks ==> c.Value() == blocks[c]
  {}

  lemma Tie(blocks: map<ControlBlock, Counters>, c: ControlBlock)
    requires BlocksTied(blocks - {c})
    ensures BlocksTied(blocks[c := c.Value()])
  {}

  /** The books after an operation that makes no block: the handles are those given, and what the
      counters then are follows from the rules. */
  ghost predicate Became(w: World, g: World, owners: map<SharedPtr, ControlBlock>,
                         watchers: map<WeakPtr, ControlBlock>) {
    g.owners == owners && g.watchers == watchers && g.blocks.Keys == w.blocks.Keys
  }

  /** Keeps the books; there is nothing of it at run time. */
  class Registry {
    ghost var world: World

    ghost predicate Valid()
      reads this, world.blocks.Keys, world.owners.Keys, world.watchers.Keys
    {
      WorldOk(world) && BlocksTied(world.blocks) && OwnersTied(world.owners) && WatchersTied(world.watchers)
    }

    /** A block has been changed in the way that `w` says; everything else is as it was. */
    ghost method Enter(w: World, c: ControlBlock)
      requires WorldOk(w) && BlocksTied(world.blocks - {c}) && c in w.blocks && w.blocks == world.blocks[c := c.Value()]
      requires OwnersTied(w.owners) && WatchersTied(w.watchers)
      modifies this
      ensures Valid() && world == w
    {
      Tie(world.blocks, c);
      world := w;
    }

    constructor ()
      ensures Valid() && world == World(map[], map[], map[])
    {
      world := World(map[], map[], map[]);
    }
  }

  class SharedPtr {
    var control: ControlBlock?

    constructor ()
      ensures control == null
    {
      control := null;
    }

    /** A handle is empty, or it counts. */
    ghost predicate Usable(r: Registry)
      reads this, r
    {
      control == null <==> this !in r.world.owners
    }

    /** Gives up the reference. The handle no longer counts; its field is for the caller to set. */
    method Cleanup(ghost r: Registry)
      requires r.Valid() && Usable(r)
      modifies r, if control == null then {} else {control}
      ensures r.Valid() && Became(old(r.world), r.world, old(r.world).owners - {this}, old(r.world).watchers)
    {
      hide Registry.Valid;
      if control != null {
        Drop(r);
      }
    }

    method Drop(ghost r: Registry)
      requires r.Valid() && this in r.world.owners && control != null
      modifies r, control
      ensures r.Valid() && Became(old(r.world), r.world, old(r.world).owners - {this}, old(r.world).watchers)
    {
      hide WorldOk, Released, BlocksTied, OwnersTied, WatchersTied;
      ghost var w := r.world;
      OwnersTiedOn(w.owners, this);
      DropOwner(w, this);
      OwnerAlive(w, this);
      Untie(w.blocks, control);
      control.Release();
      r.Enter(WithoutOwner(w, this), control);
    }

    /** Counts for the block to which this handle now points, and which has an owner. */
    method Join(ghost r: Registry)
      requires r.Valid() && Room(r.world) && this !in r.world.owners
      requires control != null && HasOwner(r.world, control)
      modifies r, control
      ensures r.Valid() && Became(old(r.world), r.world, old(r.world).owners[this := control], old(r.world).watchers)
    {
      hide WorldOk, BlocksTied, OwnersTied, WatchersTied;
      ghost var w := r.world;
      CountersBelow(w, control);
      Untie(w.blocks, control);
      control.IncStrong();
      AddOwner(w, this, control);
      OwnersTiedOn(w.owners, this);
      r.Enter(WithOwner(w, this, control), control);
    }

    /** A handle that counts points to a block with an owner. */
    lemma Counts(r: Registry)
      requires r.Valid() && this in r.world.owners
      ensures control != null && r.world.owners[this] == control && HasOwner(r.world, control)
    {
      OwnersTiedOn(r.world.owners, this);
      OwnerAlive(r.world, this);
    }

    /** Another handle to the same block. */
    method Copy(ghost r: Registry) returns (h: SharedPtr)
      requires r.Valid() && Room(r.world) && Usable(r)
      modifies r, if control == null then {} else {control}
      ensures r.Valid() && fresh(h) && h.control == control && h.Usable(r)
      ensures Became(old(r.world), r.world, AfterAssign(old(r.world).owners, h, control), old(r.world).watchers)
    {
      hide Registry.Valid;
      h := NewHandle(r);
      h.PointTo(control, r);
      if h.control != null {
        Counts(r);
        h.Join(r);
      } else {
        assert r.world.owners - {h} == r.world.owners;
      }
    }

    /** Copy assignment: the old reference is given up before the new one is counted. Assigning a
        handle to itself does nothing. */
    method Assign(p: SharedPtr, ghost r: Registry)
      requires r.Valid() && Room(r.world) && Usable(r) && p.Usable(r)
      modifies this, r, if control == null then {} else {control}, if p.control == null then {} else {p.control}
      ensures r.Valid() && control == p.control == old(p.control) && Usable(r) && p.Usable(r)
      ensures Became(old(r.world), r.world, AfterAssign(old(r.world).owners, this, p.control), old(r.world).watchers)
    {
      hide Registry.Valid;
      if p != this {
        ghost var w := r.world;
        Cleanup(r);
        FewerOwners(w, this);
        TakeOver(p, r);
        AssignedTwice(w.owners, this, control);
      } else {
        Unassigned(r);
      }
    }

    lemma Unassigned(r: Registry)
      requires r.Valid() && Usable(r)
      ensures AfterAssign(r.world.owners, this, control) == r.world.owners
    {
      if this in r.world.owners {
        Counts(r);
      }
    }

    /** A handle that does not count takes over the block of another one. */
    method TakeOver(p: SharedPtr, ghost r: Registry)
      requires p != this && r.Valid() && Room(r.world) && this !in r.world.owners && p.Usable(r)
      modifies this, r, if p.control == null then {} else {p.control}
      ensures r.Valid() && control == p.control && Usable(r) && p.Usable(r)
      ensures Became(old(r.world), r.world, AfterAssign(old(r.world).owners, this, p.control), old(r.world).watchers)
    {
      hide Registry.Valid, HasOwner, Room, WorldOk;
      PointTo(p.control, r);
      if control != null {
        p.Counts(r);
        Join(r);
      } else {
        assert r.world.owners - {this} == r.world.owners;
      }
    }

    /** Sets the field of a handle that does not count. */
    method PointTo(c: ControlBlock?, ghost r: Registry)
      requires r.Valid() && this !in r.world.owners
      modifies this
      ensures r.Valid() && control == c
    {
      control := c;
    }

    /** Move assignment exchanges the two handles. */
    method MoveAssign(p: SharedPtr, ghost r: Registry)
      requires r.Valid() && Usable(r) && p.Usable(r)
      modifies this, p, r
      ensures r.Valid() && control == old(p.control) && p.control == old(control) && Usable(r) && p.Usable(r)
      ensures var owners := old(r.world).owners;
              Became(old(r.world), r.world, if p == this then owners else Swapped(owners, this, p),
                     old(r.world).watchers)
    {
      if p != this {
        Exchange(p, r);
      }
    }

    method Exchange(p: SharedPtr, ghost r: Registry)
      requires p != this && r.Valid() && Usable(r) && p.Usable(r)
      modifies this, p, r
      ensures r.Valid() && control == old(p.control) && p.control == old(control) && Usable(r) && p.Usable(r)
      ensures Became(old(r.world), r.world, Swapped(old(r.world).owners, this, p), old(r.world).watchers)
    {
      hide WorldOk, BlocksTied, OwnersTied, WatchersTied;
      ghost var w := r.world;
      OwnersTiedOff(w.owners, this, p);
      SwappedOk(w, this, p);
      SwappedMembers(w.owners, this, p);
      hide Swapped;
      control, p.control := p.control, control;
      OwnersTiedSwapped(w.owners, this, p);
      r.world := w.(owners := Swapped(w.owners, this, p));
    }
  }

  ghost predicate HasOwner(w: World, c: ControlBlock) {
    c in w.blocks && w.blocks[c].strong > 0 && w.blocks[c].freed == 0 && w.blocks[c].destroyed == 0
  }

  method NewHandle(ghost r: Registry) returns (h: SharedPtr)
    requires r.Valid()
    ensures r.Valid() && fresh(h) && h.control == null && h !in r.world.owners
  {
    h := new SharedPtr();
  }

  lemma AssignedTwice(owners: map<SharedPtr, ControlBlock>, h: SharedPtr, c: ControlBlock?)
    ensures AfterAssign(owners - {h}, h, c) == AfterAssign(owners, h, c)
  {}

  lemma SwappedMembers(owners: map<SharedPtr, ControlBlock>, a: SharedPtr, b: SharedPtr)
    requires a != b
    ensures a in Swapped(owners, a, b) <==> b in owners
    ensures b in Swapped(owners, a, b) <==> a in owners
  {}

  lemma FewerOwners(w: World, h: SharedPtr)
    ensures |w.owners - {h}| <= |w.owners|
  {
    assert (w.owners - {h}).Keys == w.owners.Keys - {h};
    Fewer((w.owners - {h}).Keys, w.owners.Keys);
  }

  ghost function AfterAssign(owners: map<SharedPtr, ControlBlock>, h: SharedPtr, c: ControlBlock?)
    : map<SharedPtr, ControlBlock> {
    if c == null then owners - {h} else owners[h := c]
  }

  lemma OwnersTiedOff(owners: map<SharedPtr, ControlBlock>, a: SharedPtr, b: SharedPtr)
    requires OwnersTied(owners)
    ensures OwnersTied(owners - {a, b}) && a !in (owners - {a, b}).Keys && b !in (owners - {a, b}).Keys
    ensures (a in owners ==> a.control == owners[a]) && (b in owners ==> b.control == owners[b])
  {}

  /** With the two fields exchanged, the exchanged book is right. */
  lemma OwnersTiedSwapped(owners: map<SharedPtr, ControlBlock>, a: SharedPtr, b: SharedPtr)
    requires OwnersTied(owners - {a, b}) && a != b
    requires b in owners ==> a.control == owners[b]
    requires a in owners ==> b.control == owners[a]
    ensures OwnersTied(Swapped(owners, a, b))
  {}

  lemma SwappedOk(w: World, a: SharedPtr, b: SharedPtr)
    requires WorldOk(w) && a != b
    ensures WorldOk(w.(owners := Swapped(w.owners, a, b)))
  {
    var g := w.(owners := Swapped(w.owners, a, b));
    forall c | c in g.blocks ensures BlockOk(g, c) {
      SwappedSame(w.owners, a, b, c);
      assert BlockOk(w, c);
    }
    if b != a {
      SwappedWithin(w.owners, a, b, w.blocks.Keys);
    }
  }

  lemma SwappedWithin<H>(handles: map<H, ControlBlock>, a: H, b: H, blocks: set<ControlBlock>)
    requires Within(handles, blocks)
    ensures Within(Swapped(handles, a, b), blocks)
  {}

  /** The first owner of a new block. */
  method MakeShared(ghost r: Registry) returns (h: SharedPtr)
    requires r.Valid()
    modifies r
    ensures r.Valid() && fresh(h) && h.control != null && fresh(h.control) && h.Usable(r)
    ensures r.world == WithBlock(old(r.world), h, h.control)
  {
    hide WorldOk, BlocksTied, OwnersTied, WatchersTied;
    ghost var w := r.world;
    var c := new ControlBlock();
    h := new SharedPtr();
    h.control := c;
    AddBlock(w, h, c);
    Untie(w.blocks, c);
    OwnersTiedOn(w.owners, h);
    r.Enter(WithBlock(w, h, c), c);
  }

  // ---------------------------------------------------------------- weak handles

  class WeakPtr {
    var control: ControlBlock?

    constructor ()
      ensures control == null
    {
      control := null;
    }

    ghost predicate Usable(r: Registry)
      reads this, r
    {
      control == null <==> this !in r.world.watchers
    }

    /** Gives up the reference; the last one frees the block. */
    method Cleanup(ghost r: Registry)
      requires r.Valid() && Usable(r)
      modifies r, if control == null then {} else {control}
      ensures r.Valid() && Became(old(r.world), r.world, old(r.world).owners, old(r.world).watchers - {this})
    {
      hide Registry.Valid;
      if control != null {
        Drop(r);
      }
    }

    method Drop(ghost r: Registry)
      requires r.Valid() && this in r.world.watchers && control != null
      modifies r, control
      ensures r.Valid() && Became(old(r.world), r.world, old(r.world).owners, old(r.world).watchers - {this})
    {
      hide WorldOk, WeakReleased, BlocksTied, OwnersTied, WatchersTied;
      ghost var w := r.world;
      WatchersTiedOn(w.watchers, this);
      DropWatcher(w, this);
      WatcherAlive(w, this);
      Untie(w.blocks, control);
      control.ReleaseWeak();
      r.Enter(WithoutWatcher(w, this), control);
    }

    /** Counts for the block to which this handle now points, and which has not been freed. */
    method Join(ghost r: Registry)
      requires r.Valid() && Room(r.world) && this !in r.world.watchers
      requires control != null && IsThere(r.world, control)
      modifies r, control
      ensures r.Valid() && Became(old(r.world), r.world, old(r.world).owners, old(r.world).watchers[this := control])
    {
      hide WorldOk, BlocksTied, OwnersTied, WatchersTied;
      ghost var w := r.world;
      CountersBelow(w, control);
      AddWatcher(w, this, control);
      Untie(w.blocks, control);
      control.IncWeak();
      WatchersTiedOn(w.watchers, this);
      r.Enter(WithWatcher(w, this, control), control);
    }

    lemma Counts(r: Registry)
      requires r.Valid() && this in r.world.watchers
      ensures control != null && r.world.watchers[this] == control && IsThere(r.world, control)
    {
      WatchersTiedOn(r.world.watchers, this);
      WatcherAlive(r.world, this);
    }

    /** Copy assignment. */
    method Assign(p: WeakPtr, ghost r: Registry)
      requires r.Valid() && Room(r.world) && Usable(r) && p.Usable(r)
      modifies this, r, if control == null then {} else {control}, if p.control == null then {} else {p.control}
      ensures r.Valid() && control == p.control == old(p.control) && Usable(r) && p.Usable(r)
      ensures Became(old(r.world), r.world, old(r.world).owners,
                     AfterWeakAssign(old(r.world).watchers, this, p.control))
    {
      hide Registry.Valid;
      if p != this {
        ghost var w := r.world;
        Cleanup(r);
        FewerWatchers(w, this);
        TakeOver(p, r);
        WeakAssignedTwice(w.watchers, this, control);
      } else if this in r.world.watchers {
        Counts(r);
      }
    }

    method TakeOver(p: WeakPtr, ghost r: Registry)
      requires p != this && r.Valid() && Room(r.world) && this !in r.world.watchers && p.Usable(r)
      modifies this, r, if p.control == null then {} else {p.control}
      ensures r.Valid() && control == p.control && Usable(r) && p.Usable(r)
      ensures Became(old(r.world), r.world, old(r.world).owners,
                     AfterWeakAssign(old(r.world).watchers, this, p.control))
    {
      hide Registry.Valid, IsThere, Room, WorldOk;
      PointTo(p.control, r);
      if control != null {
        p.Counts(r);
        Join(r);
      } else {
        assert r.world.watchers - {this} == r.world.watchers;
      }
    }

    method PointTo(c: ControlBlock?, ghost r: Registry)
      requires r.Valid() && this !in r.world.watchers
      modifies this
      ensures r.Valid() && control == c
    {
      control := c;
    }

    /** A new owner, if there still is one; otherwise an empty handle. */
    method Lock(ghost r: Registry) returns (h: SharedPtr)
      requires r.Valid() && Room(r.world) && Usable(r)
      modifies r, if control == null then {} else {control}
      ensures r.Valid() && fresh(h) && h.Usable(r)
      ensures h.control == if control != null && old(control.strong) > 0 then control else null
      ensures Became(old(r.world), r.world, AfterAssign(old(r.world).owners, h, h.control), old(r.world).watchers)
    {
      hide Registry.Valid;
      h := NewHandle(r);
      if control != null {
        LockFor(h, r);
      } else {
        assert r.world.owners - {h} == r.world.owners;
      }
    }

    method LockFor(h: SharedPtr, ghost r: Registry)
      requires r.Valid() && Room(r.world) && this in r.world.watchers && control != null
      requires h.control == null && h !in r.world.owners
      modifies r, control, h
      ensures r.Valid() && h.Usable(r) && h.control == if old(control.strong) > 0 then control else null
      ensures Became(old(r.world), r.world, AfterAssign(old(r.world).owners, h, h.control), old(r.world).watchers)
    {
      LockReady(r);
      hide WorldOk, BlocksTied, OwnersTied, WatchersTied, Became, HasOwner, ControlBlock.Value, AfterAssign;
      var done := control.TryIncStrong();
      if done {
        Admit(h, r);
      } else {
        Unchanged(h, r);
      }
    }

    lemma LockReady(r: Registry)
      requires r.Valid() && Room(r.world) && this in r.world.watchers && control != null
      ensures control in r.world.blocks && control.Value() == r.world.blocks[control]
      ensures control.Value().strong == control.strong && control.freed == 0 && control.strong + 1 < COUNTER_LIMIT
      ensures control.strong > 0 ==> HasOwner(r.world, control)
      ensures BlocksTied(r.world.blocks - {control})
    {
      Counts(r);
      CountersBelow(r.world, control);
      BlockSound(r.world, control);
      Untie(r.world.blocks, control);
    }

    ghost method Unchanged(h: SharedPtr, r: Registry)
      requires control != null && WorldOk(r.world) && h !in r.world.owners && control in r.world.blocks
      requires BlocksTied(r.world.blocks - {control}) && OwnersTied(r.world.owners) && WatchersTied(r.world.watchers)
      requires control.Value() == r.world.blocks[control]
      modifies r
      ensures r.Valid() && r.world == old(r.world)
      ensures Became(old(r.world), r.world, AfterAssign(old(r.world).owners, h, null), old(r.world).watchers)
    {
      hide WorldOk, BlocksTied, OwnersTied, WatchersTied;
      assert r.world.owners - {h} == r.world.owners;
      r.Enter(r.world, control);
    }

    /** The strong count has been raised for `h`. */
    method Admit(h: SharedPtr, ghost r: Registry)
      requires control != null && WorldOk(r.world) && HasOwner(r.world, control) && h !in r.world.owners
      requires BlocksTied(r.world.blocks - {control}) && OwnersTied(r.world.owners) && WatchersTied(r.world.watchers)
      requires control.Value() == r.world.blocks[control].(strong := r.world.blocks[control].strong + 1)
      modifies r, h
      ensures r.Valid() && h.Usable(r) && h.control == control
      ensures Became(old(r.world), r.world, AfterAssign(old(r.world).owners, h, control), old(r.world).watchers)
    {
      hide WorldOk, BlocksTied, OwnersTied, WatchersTied;
      ghost var w := r.world;
      h.control := control;
      AddOwner(w, h, control);
      OwnersTiedOn(w.owners, h);
      r.Enter(WithOwner(w, h, control), control);
    }
  }

  /** A block with an owner has its object. */
  lemma BlockSound(w: World, c: ControlBlock)
    requires WorldOk(w) && c in w.blocks
    ensures w.blocks[c].strong > 0 ==> HasOwner(w, c)
  {
    assert BlockOk(w, c);
  }

  ghost predicate IsThere(w: World, c: ControlBlock) {
    c in w.blocks && w.blocks[c].freed == 0
  }

  ghost function AfterWeakAssign(watchers: map<WeakPtr, ControlBlock>, h: WeakPtr, c: ControlBlock?)
    : map<WeakPtr, ControlBlock> {
    if c == null then watchers - {h} else watchers[h := c]
  }

  lemma WeakAssignedTwice(watchers: map<WeakPtr, ControlBlock>, h: WeakPtr, c: ControlBlock?)
    ensures AfterWeakAssign(watchers - {h}, h, c) == AfterWeakAssign(watchers, h, c)
  {}

  lemma FewerWatchers(w: World, h: WeakPtr)
    ensures |w.watchers - {h}| <= |w.watchers|
  {
    assert (w.watchers - {h}).Keys == w.watchers.Keys - {h};
    Fewer((w.watchers - {h}).Keys, w.watchers.Keys);
  }

  /** A weak handle to the block of a shared one. */
  method Watch(p: SharedPtr, ghost r: Registry) returns (h: WeakPtr)
    requires r.Valid() && Room(r.world) && p.Usable(r)
    modifies r, if p.control == null then {} else {p.control}
    ensures r.Valid() && fresh(h) && h.control == p.control && h.Usable(r)
    ensures Became(old(r.world), r.world, old(r.world).owners,
                   if p.control == null then old(r.world).watchers else old(r.world).watchers[h := p.control])
  {
    hide WorldOk, BlocksTied, OwnersTied, WatchersTied;
    h := new WeakPtr();
    h.control := p.control;
    if h.control != null {
      p.Counts(r);
      h.Join(r);
    }
  }
}
