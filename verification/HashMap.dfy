/** The hash map: finding, inserting, removing and relinking entries in place. */
module HashMap {
  import opened Basics
  import opened HashTable

  class HashMap<K(==), V> {
    const hash: K -> nat
    const loadFactor: real
    var buckets: array<Entry?<K, V>>
    var size: nat
    ghost var chains: seq<Chain<K, V>>
    /** The entry of each key. */
    ghost var index: Index<K, V>
    /** The entries allocated and not yet freed. */
    ghost var live: set<Entry<K, V>>

    /** The table is in order, except perhaps for the count of its entries. */
    ghost predicate Wired()
      reads this, buckets, live
    {
      && live == EntriesOf(chains)
      && Hangs(buckets, chains)
      && Placed(chains, index, hash)
    }

    ghost predicate Valid()
      reads this, buckets, live
    {
      Wired() && size == |index|
    }

    /** The map that the table stands for. */
    ghost function Contents(): (m: map<K, V>)
      reads this, Own(index)
      ensures m.Keys == index.Keys
    {
      ValuesOf(index)
    }

    constructor (hash: K -> nat, capacity: nat, loadFactor: real)
      ensures Valid() && fresh(buckets) && live == {} && Contents() == map[]
      ensures this.hash == hash && this.loadFactor == loadFactor && buckets.Length == capacity
    {
      this.hash, this.loadFactor := hash, loadFactor;
      buckets := new Entry?<K, V>[capacity](_ => null);
      size, chains, index, live := 0, seq(capacity, _ => []), map[], {};
    }

    // -------------------------------------------------------------- primitives

    method AppendEntry(b: nat, e: Entry<K, V>)
      requires Hangs(buckets, chains) && b < buckets.Length && e !in EntriesOf(chains)
      modifies buckets, e`next, `chains
      ensures chains == old(chains[b := [e] + chains[b]]) && Hangs(buckets, chains)
      ensures EntriesOf(chains) == old(EntriesOf(chains)) + {e}
    {
      hide Linked, EntryAt;
      ghost var was := chains;
      assert forall i :: 0 <= i < |chains| ==> e !in chains[i];
      Extended(chains, b, e);
      hide EntriesOf;
      e.next := buckets[b];
      buckets[b] := e;
      chains := chains[b := [e] + chains[b]];
      assert forall i :: 0 <= i < |was| && i != b ==> Linked(buckets[i], was[i]);
      LinkFront(e, was[b]);
    }

    method BucketIndex(k: K) returns (b: nat)
      requires buckets.Length > 0
      ensures b < buckets.Length && b == hash(k) % buckets.Length
    {
      b := hash(k) % buckets.Length;
    }

    method FindEntry(k: K) returns (e: Entry?<K, V>)
      requires Wired()
      ensures e == if k in index then index[k] else null
    {
      if buckets.Length == 0 {
        assert forall k :: k in index ==> Chained(chains, k, index[k]);
        return null;
      }
      There(chains, index, hash, k);
      hide Placed, EntriesOf, Linked;
      var b := BucketIndex(k);
      e := FindInChain(buckets[b], chains[b], k);
    }

    /** The entry with the key in one chain, if there is one. */
    method FindInChain(head: Entry?<K, V>, ghost c: Chain<K, V>, k: K) returns (e: Entry?<K, V>)
      requires Linked(head, c)
      ensures e == null ==> forall j :: 0 <= j < |c| ==> c[j].key != k
      ensures e != null ==> exists j :: 0 <= j < |c| && c[j] == e && e.key == k
    {
      ghost var j := 0;
      e := head;
      while e != null
        invariant 0 <= j <= |c| && e == EntryAt(c, j)
        invariant forall x :: 0 <= x < j ==> c[x].key != k
        decreases |c| - j
      {
        if e.key == k {
          return;
        }
        e, j := e.next, j + 1;
      }
    }

    /** Moves all entries into an array of another length, by relinking them. Nothing is looked up
        differently afterwards. */
    method Rehash(newcap: nat, room: bool) returns (threw: bool)
      requires Wired() && newcap != 0
      modifies this`buckets, this`chains, live`next
      ensures threw <==> !room && newcap != old(buckets.Length)
      ensures threw ==> buckets == old(buckets) && chains == old(chains)
      ensures buckets == old(buckets) || fresh(buckets)
      ensures Wired() && Contents() == old(Contents())
      ensures !threw ==> buckets.Length == newcap
    {
      if buckets.Length == newcap {
        return false;
      }
      if !room {
        return true;
      }
      var from := buckets;
      ghost var was := chains;
      hide Placed, EntriesOf, Hangs, Awaits, Moved, ValuesOf, Own;
      AllAwait(from, was);
      Start(newcap);
      RelinkAll(was, from);
      SameEntries(was, chains, index, hash);
      SameValues(index);
      threw := false;
    }

    method Start(newcap: nat)
      requires Placed(chains, index, hash) && newcap != 0
      modifies `buckets, `chains
      ensures fresh(buckets) && buckets.Length == newcap && EntriesOf(chains) == {}
      ensures Moved(old(chains), 0, First(old(chains), 0))
    {
      PassNone(chains, index, hash);
      buckets := new Entry?<K, V>[newcap](_ => null);
      chains := seq(newcap, _ => []);
      Vacant<K, V>(newcap, hash);
    }

    method RelinkAll(ghost was: seq<Chain<K, V>>, from: array<Entry?<K, V>>)
      requires Placed(was, index, hash) && EntriesOf(chains) == {}
      requires Moved(was, 0, First(was, 0)) && Awaits(from, was, 0) && from != buckets
      modifies buckets, `chains, EntriesOf(was)`next
      ensures Placed(chains, index, hash) && Hangs(buckets, chains)
    {
      hide Passed, Placed, Linked, First, Rest, Hangs, EntriesOf;
      var i := 0;
      while i < from.Length
        invariant i <= from.Length && from.Length == |was|
        invariant Moved(was, i, First(was, i)) && Awaits(from, was, i) && EntriesOf(chains) <= EntriesOf(was)
      {
        RelinkChain(was, from, i);
        i := i + 1;
      }
      PassAll(was, index, hash);
    }

    method RelinkChain(ghost was: seq<Chain<K, V>>, from: array<Entry?<K, V>>, i: nat)
      requires Placed(was, index, hash) && EntriesOf(chains) <= EntriesOf(was) && i < |was|
      requires Moved(was, i, First(was, i)) && Awaits(from, was, i) && from != buckets
      modifies buckets, `chains, EntriesOf(was)`next
      ensures Moved(was, i + 1, First(was, i + 1)) && Awaits(from, was, i + 1) && EntriesOf(chains) <= EntriesOf(was)
    {
      hide *;
      NextChain(from, was, i);
      var e := from[i];
      ghost var rest := First(was, i);
      FirstIsRest(was, i);
      while e != null
        invariant Moved(was, i, rest) && Awaits(from, was, i + 1) && EntriesOf(chains) <= EntriesOf(was)
        invariant Rest(was, i, rest) && Linked(e, rest)
        decreases |rest|
      {
        RestIn(was, i, rest, e);
        e := Relink(e, was, from, i, rest);
        rest := rest[1..];
      }
      LinkedEnd(rest);
      ChainMoved(was, i);
    }

    lemma ChainMoved(was: seq<Chain<K, V>>, i: nat)
      requires Moved(was, i, []) && Placed(was, index, hash) && i < |was|
      ensures Moved(was, i + 1, First(was, i + 1))
    {
      PassChain(was, index, hash, i);
    }

    /** The entries before `rest` of chain `i` have been moved to the new table. */
    ghost predicate Moved(was: seq<Chain<K, V>>, i: nat, rest: Chain<K, V>)
      reads this, buckets, EntriesOf(chains)
    {
      buckets.Length > 0 && Hangs(buckets, chains) && Placed(chains, Passed(index, |was|, i, rest), hash)
    }

    /** Moves one entry to the front of its new chain and gives the next one to move. */
    method Relink(e: Entry<K, V>, ghost was: seq<Chain<K, V>>, ghost from: array<Entry?<K, V>>, ghost i: nat,
                  ghost rest: Chain<K, V>)
      returns (next: Entry?<K, V>)
      requires Moved(was, i, rest) && Placed(was, index, hash) && from != buckets
      requires Rest(was, i, rest) && Linked(e, rest) && Awaits(from, was, i + 1)
      modifies buckets, e`next, `chains
      ensures Moved(was, i, rest[1..]) && Rest(was, i, rest[1..])
      ensures EntriesOf(chains) == old(EntriesOf(chains)) + {e}
      ensures Linked(next, rest[1..]) && Awaits(from, was, i + 1)
    {
      RelinkReady(e, was, i, rest);
      hide Linked, Passed, Rest, First, EntriesOf, Placed;
      assert |chains| == buckets.Length;
      hide Hangs;
      next := e.next;
      AppendEntry(e.hash % buckets.Length, e);
    }

    /** Why the entry can be moved: it is not in the new table yet, nor needed further on. */
    lemma RelinkReady(e: Entry<K, V>, was: seq<Chain<K, V>>, i: nat, rest: Chain<K, V>)
      requires Moved(was, i, rest) && Placed(was, index, hash)
      requires Rest(was, i, rest) && Linked(e, rest)
      ensures Rest(was, i, rest[1..]) && Linked(e.next, rest[1..]) && e !in rest[1..]
      ensures e !in EntriesOf(chains) && forall p :: i < p < |was| ==> e !in was[p]
      ensures var b := e.hash % buckets.Length;
              Placed(chains[b := [e] + chains[b]], Passed(index, |was|, i, rest[1..]), hash)
    {
      Advance(e, rest);
      PassOne(was, index, hash, i, rest);
      Stranger(chains, Passed(index, |was|, i, rest), hash, e);
      Push(chains, Passed(index, |was|, i, rest), hash, e, e.hash % buckets.Length);
      NotAhead(was, index, hash, i, rest);
    }

    // -------------------------------------------------------------- entries come and go

    method AllocEntry(k: K, v: V, room: bool) returns (e: Entry?<K, V>)
      modifies this`live
      ensures e == null <==> !room
      ensures e == null ==> live == old(live)
      ensures e != null ==> fresh(e) && e.key == k && e.value == v && e.hash == hash(k) && live == old(live) + {e}
    {
      if !room {
        return null;
      }
      e := new Entry(k, v, hash(k));
      live := live + {e};
    }

    /** Nothing is freed twice: only what is live can be freed. */
    method FreeEntry(e: Entry<K, V>)
      requires e in live
      modifies this`live
      ensures live == old(live) - {e}
    {
      live := live - {e};
    }

    /** Adds an entry unless the key has one; the count is the caller's business. */
    method InsertEntry(k: K, v: V, room: bool) returns (threw: bool, e: Entry?<K, V>)
      requires Wired() && buckets.Length > 0
      modifies `chains, `index, `live, buckets
      ensures Wired() && fresh(live - old(live))
      ensures threw <==> k !in old(index) && !room
      ensures e == null <==> k in old(index) || threw
      ensures e == null ==> index == old(index) && Contents() == old(Contents())
      ensures e != null ==> index == old(index)[k := e] && Contents() == old(Contents())[k := v]
    {
      hide Placed, Hangs, EntriesOf, ValuesOf, Own;
      var found := FindEntry(k);
      SameValues(index);
      threw, e := false, null;
      if found == null {
        threw, e := InsertNew(k, v, room);
      }
    }

    /** Adds an entry for a key that has none. */
    method InsertNew(k: K, v: V, room: bool) returns (threw: bool, e: Entry?<K, V>)
      requires Wired() && buckets.Length > 0 && k !in index
      modifies `chains, `index, `live, buckets
      ensures Wired() && fresh(live - old(live))
      ensures threw <==> !room
      ensures threw <==> e == null
      ensures e == null ==> index == old(index) && Contents() == old(Contents())
      ensures e != null ==> index == old(index)[k := e] && Contents() == old(Contents())[k := v]
    {
      hide Placed, Hangs, EntriesOf, ValuesOf, Own;
      e := AllocEntry(k, v, room);
      SameValues(index);
      threw := e == null;
      if e != null {
        var b := BucketIndex(k);
        SameValues(index);
        Link(b, e);
      }
    }

    /** Puts a new entry into its bucket. */
    method Link(b: nat, e: Entry<K, V>)
      requires Hangs(buckets, chains) && Placed(chains, index, hash) && live == EntriesOf(chains) + {e}
      requires e.key !in index && e.hash == hash(e.key) && buckets.Length > 0 && b == e.hash % buckets.Length
      modifies `chains, `index, buckets, e`next
      ensures Wired() && index == old(index)[e.key := e] && Contents() == old(Contents())[e.key := e.value]
    {
      hide Placed, ValuesOf, Own, EntriesOf, Linked;
      assert |chains| == buckets.Length;
      hide Hangs;
      Stranger(chains, index, hash, e);
      Push(chains, index, hash, e, b);
      AppendEntry(b, e);
      ghost var was := index;
      index := index[e.key := e];
      SameValues(was);
      AddValue(was, e);
    }

    /** Frees every entry, each once, and empties all buckets. */
    method Clear()
      requires Valid()
      modifies this, buckets
      ensures Valid() && live == {} && Contents() == map[] && buckets == old(buckets)
    {
      hide Placed, EntriesOf, ValuesOf, Own;
      FreeAll();
      var i := 0;
      while i < buckets.Length
        invariant i <= buckets.Length && buckets == old(buckets) && live == {}
        invariant forall j :: 0 <= j < i ==> buckets[j] == null
        modifies buckets
      {
        buckets[i] := null;
        i := i + 1;
      }
      chains, index, size := seq(buckets.Length, _ => []), map[], 0;
      Vacant<K, V>(buckets.Length, hash);
      NoValues<K, V>();
    }

    method FreeAll()
      requires Wired()
      modifies `live
      ensures live == {}
    {
      hide Placed, EntriesOf, Left, Rest, First, Linked;
      LeftStart(chains, index, hash);
      var i := 0;
      while i < buckets.Length
        invariant i <= buckets.Length && live == Left(chains, i, First(chains, i))
      {
        var e := buckets[i];
        ghost var rest := First(chains, i);
        FirstIsRest(chains, i);
        while e != null
          invariant live == Left(chains, i, rest) && Rest(chains, i, rest) && Linked(e, rest)
          decreases |rest|
        {
          RestIn(chains, i, rest, e);
          LeftStep(chains, index, hash, i, rest);
          Advance(e, rest);
          var current := e;
          e := e.next;
          FreeEntry(current);
          rest := rest[1..];
        }
        LinkedEnd(rest);
        LeftChain(chains, index, hash, i);
        i := i + 1;
      }
      LeftEnd(chains, index, hash);
    }

    // -------------------------------------------------------------- the public operations

    /** Makes sure that there are buckets, and more of them once the load is too high. */
    method EnsureCapacity(room: bool) returns (threw: bool)
      requires Valid()
      modifies this`buckets, this`chains, live`next
      ensures Valid() && Contents() == old(Contents())
      ensures buckets == old(buckets) || fresh(buckets)
      ensures !threw ==> GrowsTo(old(buckets.Length), size, loadFactor, buckets.Length)
      ensures threw ==> buckets == old(buckets)
      ensures threw <==> !room && MustGrow(old(buckets.Length), size, loadFactor)
    {
      hide Wired, ValuesOf, Own, GrowsTo, MustGrow;
      CapacityIs(buckets.Length, size, loadFactor);
      threw := false;
      if buckets.Length == 0 {
        if !room {
          return true;
        }
        FirstBuckets();
      } else if size as real / buckets.Length as real > loadFactor {
        threw := Grow(room);
      }
    }

    /** Half as many buckets again, and at least sixteen. */
    method Grow(room: bool) returns (threw: bool)
      requires Valid()
      modifies this`buckets, this`chains, live`next
      ensures Valid() && Contents() == old(Contents())
      ensures buckets == old(buckets) || fresh(buckets)
      ensures threw ==> buckets == old(buckets)
      ensures threw <==> !room
      ensures !threw ==> buckets.Length == Grown(old(buckets.Length))
    {
      hide Wired, ValuesOf, Own;
      var grown := buckets.Length + buckets.Length / 2;
      threw := Rehash(if grown >= 16 then grown else 16, room);
    }

    method FirstBuckets()
      requires Valid() && buckets.Length == 0
      modifies this`buckets, this`chains
      ensures Valid() && Contents() == old(Contents()) && fresh(buckets) && buckets.Length == 16
    {
      assert forall k :: k in index ==> Chained(chains, k, index[k]);
      assert EntriesOf(chains) == {} && index == map[];
      buckets := new Entry?<K, V>[16](_ => null);
      chains := seq(16, _ => []);
      Vacant<K, V>(16, hash);
      NoValues<K, V>();
    }

    /** Maps the key to the value. When memory runs out, nothing changes. */
    method Put(k: K, v: V, roomForBuckets: bool, roomForEntry: bool) returns (threw: bool, done: bool)
      requires Valid()
      modifies this, buckets, live
      ensures Valid() && (buckets == old(buckets) || fresh(buckets)) && fresh(live - old(live))
      ensures Contents() == if threw then old(Contents()) else old(Contents())[k := v]
      ensures done <==> !threw
      ensures threw <==>
                && k !in old(Contents())
                && (!roomForEntry || (!roomForBuckets && MustGrow(old(buckets.Length), old(size), loadFactor)))
      ensures if k in old(Contents()) then buckets == old(buckets)
              else GrowsOnce(old(buckets.Length), old(size), loadFactor, roomForBuckets, buckets.Length)
    {
      hide Wired, ValuesOf, Own;
      var found := FindEntry(k);
      SameValues(index);
      if found != null {
        InTable(k);
        SetValue(k, found, v);
        StaysWired();
        return false, true;
      }
      threw := PutNew(k, v, roomForBuckets, roomForEntry);
      done := !threw;
    }

    method PutNew(k: K, v: V, roomForBuckets: bool, roomForEntry: bool) returns (threw: bool)
      requires Valid() && k !in index
      modifies this, buckets, live`next
      ensures Valid() && (buckets == old(buckets) || fresh(buckets)) && fresh(live - old(live))
      ensures Contents() == if threw then old(Contents()) else old(Contents())[k := v]
      ensures threw <==> !roomForEntry || (!roomForBuckets && MustGrow(old(buckets.Length), old(size), loadFactor))
      ensures GrowsOnce(old(buckets.Length), old(size), loadFactor, roomForBuckets, buckets.Length)
    {
      hide Hangs, Placed, EntriesOf, ValuesOf, Own;
      threw := EnsureCapacity(roomForBuckets);
      if threw {
        return;
      }
      var e;
      threw, e := InsertNew(k, v, roomForEntry);
      if !threw {
        label counted:
        size := size + 1;
        SameValues@counted(index);
      }
    }

    /** Maps the key to the value unless it is mapped already. When memory runs out, nothing changes. */
    method Insert(k: K, v: V, roomForBuckets: bool, roomForEntry: bool) returns (threw: bool, added: bool)
      requires Valid()
      modifies this, buckets, live
      ensures Valid() && (buckets == old(buckets) || fresh(buckets)) && fresh(live - old(live))
      ensures Contents() == if added then old(Contents())[k := v] else old(Contents())
      ensures !threw ==> (added <==> k !in old(Contents()))
      ensures threw ==> !added
      ensures threw <==> (k !in old(Contents()) && !roomForEntry) ||
                         (!roomForBuckets && MustGrow(old(buckets.Length), old(size), loadFactor))
      ensures GrowsOnce(old(buckets.Length), old(size), loadFactor, roomForBuckets, buckets.Length)
    {
      hide Hangs, Placed, EntriesOf, ValuesOf, Own;
      added := false;
      threw := EnsureCapacity(roomForBuckets);
      if !threw {
        threw, added := InsertHere(k, v, roomForEntry);
      }
    }

    /** Once there are buckets. */
    method InsertHere(k: K, v: V, room: bool) returns (threw: bool, added: bool)
      requires Valid() && buckets.Length > 0
      modifies `chains, `index, `live, `size, buckets
      ensures Valid() && fresh(live - old(live))
      ensures Contents() == if added then old(Contents())[k := v] else old(Contents())
      ensures threw <==> k !in old(index) && !room
      ensures added <==> k !in old(index) && room
    {
      hide Hangs, Placed, EntriesOf, ValuesOf, Own;
      var e;
      threw, e := InsertEntry(k, v, room);
      added := e != null;
      if added {
        label counted:
        size := size + 1;
        SameValues@counted(index);
      }
    }

    lemma InTable(k: K)
      requires Wired() && k in index
      ensures index[k] in live && index[k].key == k
    {
      EntriesAre(chains, index, hash);
    }

    method SetValue(k: K, e: Entry<K, V>, v: V)
      requires Wired() && k in index && e == index[k] && e in live
      modifies e`value
      ensures Contents() == old(Contents())[k := v]
    {
      OneKey(chains, index, hash, k);
      ghost var m := Contents();
      ValuesAt(index);
      hide Wired, ValuesOf, Own;
      e.value := v;
      ValuesAre(index, m[k := v]);
    }

    twostate lemma StaysWired()
      requires old(Wired()) && unchanged(this) && unchanged(buckets) && forall e :: e in live ==> e.next == old(e.next)
      ensures Wired()
    {
      forall i | 0 <= i < |chains| ensures Linked(buckets[i], chains[i]) {
        assert old(Linked(buckets[i], chains[i]));
      }
    }

    /** Changes the value of a key that has one. It always answers no. */
    method Replace(k: K, v: V) returns (replaced: bool)
      requires Valid()
      modifies live`value
      ensures Valid()
      ensures Contents() == if k in old(Contents()) then old(Contents())[k := v] else old(Contents())
      ensures !replaced
      ensures (replaced <==> k in old(Contents())) <==> k !in old(Contents())
    {
      hide Wired, ValuesOf, Own;
      var found := FindEntry(k);
      SameValues(index);
      if found != null {
        InTable(k);
        SetValue(k, found, v);
        StaysWired();
      }
      replaced := false;
    }

    /** The value of a key; an exception when it has none. */
    method Get(k: K) returns (threw: bool, v: Option<V>)
      requires Valid()
      ensures threw <==> k !in Contents()
      ensures !threw ==> v == Some(Contents()[k])
    {
      var found := FindEntry(k);
      if found == null {
        return true, None;
      }
      return false, Some(found.value);
    }

    method ContainsKey(k: K) returns (found: bool)
      requires Valid()
      ensures found <==> k in Contents()
    {
      var e := FindEntry(k);
      found := e != null;
    }

    method Size() returns (n: nat)
      requires Valid()
      ensures n == |Contents()|
    {
      n := size;
      assert Contents().Keys == index.Keys;
      KeysSize(index, Contents());
    }

    /** Takes the key out; its entry is freed. */
    method Remove(k: K) returns (removed: bool)
      requires Valid()
      modifies this, buckets, live`next
      ensures Valid() && buckets == old(buckets)
      ensures removed <==> k in old(Contents())
      ensures Contents() == old(Contents()) - {k}
      ensures live == old(live) - if removed then {old(index)[k]} else {}
    {
      removed := false;
      if size == 0 {
        assert index == map[];
      } else {
        removed := RemoveFrom(k);
      }
    }

    method RemoveFrom(k: K) returns (removed: bool)
      requires Valid() && index != map[]
      modifies this, buckets, live`next
      ensures Valid() && buckets == old(buckets)
      ensures removed <==> k in old(index)
      ensures Contents() == old(Contents()) - {k}
      ensures live == old(live) - if removed then {old(index)[k]} else {}
    {
      hide Placed, EntriesOf, ValuesOf, Own, Hangs;
      var b, prev, e;
      ghost var j, was := 0, index;
      b, prev, e, j := Locate(k);
      removed := e != null;
      if e != null {
        Unlink(b, j, prev, e);
        FreeEntry(e);
        size := size - 1;
      }
      SameValues(was);
      DropValue(was, k);
    }

    /** The bucket, the entry and the one before it. */
    method Locate(k: K) returns (b: nat, prev: Entry?<K, V>, e: Entry?<K, V>, ghost j: nat)
      requires Wired() && index != map[]
      ensures e == null <==> k !in index
      ensures b < buckets.Length == |chains|
      ensures e != null ==> j < |chains[b]| && e == chains[b][j] && e.key == k
      ensures e != null ==> prev == if j == 0 then null else chains[b][j - 1]
    {
      NotEmpty(chains, index, hash);
      There(chains, index, hash, k);
      hide Placed, EntriesOf, Linked;
      b := BucketIndex(k);
      prev, e, j := FindBefore(buckets[b], chains[b], k);
    }

    /** The entry with the key in one chain and the entry before it. */
    method FindBefore(head: Entry?<K, V>, ghost c: Chain<K, V>, k: K)
      returns (prev: Entry?<K, V>, e: Entry?<K, V>, ghost j: nat)
      requires Linked(head, c)
      ensures e == null ==> forall x :: 0 <= x < |c| ==> c[x].key != k
      ensures e != null ==> j < |c| && e == c[j] && e.key == k && prev == if j == 0 then null else c[j - 1]
    {
      e, prev, j := head, null, 0;
      while e != null
        invariant 0 <= j <= |c| && e == EntryAt(c, j)
        invariant prev == if j == 0 then null else c[j - 1]
        invariant forall x :: 0 <= x < j ==> c[x].key != k
        decreases |c| - j
      {
        if e.key == k {
          return;
        }
        prev, e, j := e, e.next, j + 1;
      }
    }

    /** Takes the entry at position `j` of a bucket out of the table. */
    method Unlink(b: nat, ghost j: nat, prev: Entry?<K, V>, e: Entry<K, V>)
      requires Hangs(buckets, chains) && Placed(chains, index, hash)
      requires b < buckets.Length == |chains| && j < |chains[b]| && e == chains[b][j]
      requires prev == if j == 0 then null else chains[b][j - 1]
      modifies `chains, `index, buckets, EntriesOf(chains)`next
      ensures Hangs(buckets, chains) && Placed(chains, index, hash)
      ensures EntriesOf(chains) == old(EntriesOf(chains)) - {e} && e in old(EntriesOf(chains))
      ensures e.key in old(index) && old(index)[e.key] == e && index == old(index) - {e.key}
    {
      hide *;
      Known(chains, b, j);
      if j > 0 {
        Alone(chains, index, hash, b, j);
      }
      Drop(chains, index, hash, b, j);
      AfterDrop(chains, index, hash, b, j);
      ghost var after := Without(chains, b, j);
      Bypass(b, j, prev, e);
      chains, index := after, index - {e.key};
    }

    /** Lets the predecessor, or the bucket, point past the entry. */
    method Bypass(b: nat, ghost j: nat, prev: Entry?<K, V>, e: Entry<K, V>)
      requires Hangs(buckets, chains)
      requires b < buckets.Length && j < |chains[b]| && e == chains[b][j]
      requires prev == if j == 0 then null else chains[b][j - 1]
      requires prev != null ==> OccursOnceAt(prev, chains, b, j - 1)
      modifies buckets, (if prev == null then {} else {prev})`next
      ensures Hangs(buckets, Without(chains, b, j))
    {
      hide Linked, EntriesOf;
      ghost var c := chains[b];
      assert Linked(buckets[b], c);
      Nexts(buckets[b], c);
      if prev != null {
        prev.next := e.next;
      } else {
        buckets[b] := e.next;
      }
      assert forall i :: 0 <= i < |chains| && i != b ==> Linked(buckets[i], chains[i]);
      Skipped(buckets[b], c, j);
    }
  }

  /** How many buckets there are to be: sixteen at first, and half as many again once the number of
      entries per bucket is above the load factor. */
  function Capacity(length: nat, size: nat, loadFactor: real): (r: nat)
    ensures r >= length && r > 0
  {
    if length == 0 then 16
    else if size as real / length as real > loadFactor then Grown(length)
    else length
  }

  function Grown(length: nat): (r: nat)
    ensures r >= length && r >= 16
  {
    if length + length / 2 >= 16 then length + length / 2 else 16
  }

  /** There are no buckets yet, or the entries per bucket are above the load factor. */
  predicate MustGrow(length: nat, size: nat, loadFactor: real) {
    length == 0 || size as real > loadFactor * length as real
  }

  /** How many buckets there are afterwards, without the divisions. */
  predicate GrowsTo(length: nat, size: nat, loadFactor: real, length': nat) {
    if !MustGrow(length, size, loadFactor) then length' == length
    else if 3 * length < 32 then length' == 16
    else 3 * length - 1 <= 2 * length' <= 3 * length
  }

  /** The same when there may be no memory for new ones. */
  predicate GrowsOnce(length: nat, size: nat, loadFactor: real, room: bool, length': nat) {
    if room then GrowsTo(length, size, loadFactor, length') else length' == length
  }

  lemma CapacityIs(length: nat, size: nat, loadFactor: real)
    ensures GrowsTo(length, size, loadFactor, Capacity(length, size, loadFactor))
    ensures MustGrow(length, size, loadFactor) <==>
            length == 0 || size as real / length as real > loadFactor
    ensures !MustGrow(length, size, loadFactor) ==> Capacity(length, size, loadFactor) == length > 0
  {
    if length > 0 {
      Quotients(size as real, length as real, loadFactor);
    }
  }

  lemma Quotients(a: real, b: real, q: real)
    requires b > 0.0
    ensures a / b > q <==> a > q * b
  {
    var r := a / b;
    assert r * b == a;
    assert (r - q) * b == r * b - q * b;
  }

  ghost function Own<K, V>(index: Index<K, V>): set<Entry<K, V>> {
    set k | k in index :: index[k]
  }

  ghost function ValuesOf<K, V>(index: Index<K, V>): map<K, V>
    reads Own(index)
  {
    map k | k in index :: index[k].value
  }

  twostate lemma SameValues<K, V>(index: Index<K, V>)
    requires forall k :: k in index ==> allocated(index[k]) && index[k].value == old(index[k].value)
    ensures ValuesOf(index) == old(ValuesOf(index))
  {}

  lemma AddValue<K, V>(index: Index<K, V>, e: Entry<K, V>)
    requires e.key !in index
    ensures ValuesOf(index[e.key := e]) == ValuesOf(index)[e.key := e.value]
  {}

  lemma ValuesAt<K, V>(index: Index<K, V>)
    ensures ValuesOf(index).Keys == index.Keys
    ensures forall k :: k in index ==> ValuesOf(index)[k] == index[k].value
  {}

  lemma ValuesAre<K, V>(index: Index<K, V>, m: map<K, V>)
    requires m.Keys == index.Keys && forall k :: k in index ==> m[k] == index[k].value
    ensures ValuesOf(index) == m
  {}

  lemma DropValue<K, V>(index: Index<K, V>, k: K)
    ensures ValuesOf(index - {k}) == ValuesOf(index) - {k}
  {}

  lemma KeysSize<K, V>(index: Index<K, V>, contents: map<K, V>)
    requires index.Keys == contents.Keys
    ensures |index| == |contents|
  {
    assert |index| == |index.Keys| == |contents.Keys| == |contents|;
  }

  lemma NoValues<K, V>()
    ensures ValuesOf<K, V>(map[]) == map[]
  {}

  /** The chains from `i` on still hang together as before. */
  ghost predicate Awaits<K, V>(from: array<Entry?<K, V>>, chains: seq<Chain<K, V>>, i: nat)
    reads from, EntriesOf(chains)
  {
    from.Length == |chains| && forall p :: i <= p < |chains| ==> Linked(from[p], chains[p])
  }

  lemma AllAwait<K, V>(from: array<Entry?<K, V>>, chains: seq<Chain<K, V>>)
    requires Hangs(from, chains)
    ensures Awaits(from, chains, 0)
  {}

  lemma NextChain<K, V>(from: array<Entry?<K, V>>, chains: seq<Chain<K, V>>, i: nat)
    requires Awaits(from, chains, i) && i < |chains|
    ensures i < from.Length && Linked(from[i], First(chains, i)) && Awaits(from, chains, i + 1)
  {}

  lemma FirstIsRest<K, V>(chains: seq<Chain<K, V>>, i: nat)
    requires i < |chains|
    ensures Rest(chains, i, First(chains, i)) && First(chains, i) == chains[i]
  {}

  lemma RestIn<K, V>(chains: seq<Chain<K, V>>, i: nat, rest: Chain<K, V>, e: Entry<K, V>)
    requires i < |chains| && Rest(chains, i, rest) && Linked(e, rest)
    ensures e in EntriesOf(chains) && rest != []
  {
    assert e == chains[i][|chains[i]| - |rest|];
  }

  lemma LinkedEnd<K, V>(c: Chain<K, V>)
    requires Linked(null, c)
    ensures c == []
  {}

  lemma SameEntries<K, V>(a: seq<Chain<K, V>>, b: seq<Chain<K, V>>, index: Index<K, V>, hash: K -> nat)
    requires Placed(a, index, hash) && Placed(b, index, hash)
    ensures EntriesOf(a) == EntriesOf(b)
  {
    EntriesAre(a, index, hash);
    EntriesAre(b, index, hash);
    hide Placed, EntriesOf;
    assert forall e :: e in EntriesOf(a) <==> e in EntriesOf(b);
  }

  lemma LinkFront<K, V>(e: Entry<K, V>, c: Chain<K, V>)
    requires Linked(e.next, c)
    ensures Linked(e, [e] + c)
  {
    var c' := [e] + c;
    forall i | 0 <= i < |c'| ensures c'[i].next == EntryAt(c', i + 1) {
      assert i > 0 ==> c'[i] == c[i - 1] && EntryAt(c', i + 1) == EntryAt(c, i);
    }
  }

  lemma NotEmpty<K, V>(chains: seq<Chain<K, V>>, index: Index<K, V>, hash: K -> nat)
    requires Placed(chains, index, hash) && index != map[]
    ensures |chains| > 0
  {
    var k :| k in index;
    assert Chained(chains, k, index[k]);
  }

  lemma Known<K, V>(chains: seq<Chain<K, V>>, b: nat, j: nat)
    requires b < |chains| && j < |chains[b]|
    ensures chains[b][j] in EntriesOf(chains)
    ensures j > 0 ==> chains[b][j - 1] in EntriesOf(chains)
  {}

  ghost predicate OccursOnceAt<K, V>(e: Entry<K, V>, chains: seq<Chain<K, V>>, b: nat, j: nat) {
    && b < |chains| && j < |chains[b]|
    && (forall i :: 0 <= i < |chains| && i != b ==> e !in chains[i])
    && (forall x :: 0 <= x < |chains[b]| && x != j ==> chains[b][x] != e)
  }

  /** The predecessor of an entry occurs nowhere else. */
  lemma Alone<K, V>(chains: seq<Chain<K, V>>, index: Index<K, V>, hash: K -> nat, b: nat, j: nat)
    requires Placed(chains, index, hash) && b < |chains| && 0 < j < |chains[b]|
    ensures OccursOnceAt(chains[b][j - 1], chains, b, j - 1)
  {
    assert ChainOk(chains[b], b, |chains|, index, hash);
    Somewhere(chains, index, hash, chains[b][j - 1]);
    forall i | 0 <= i < |chains| && i != b ensures chains[b][j - 1] !in chains[i] {
      assert chains[b][j - 1] in chains[b];
    }
  }

  lemma Nexts<K, V>(head: Entry?<K, V>, c: Chain<K, V>)
    requires Linked(head, c)
    ensures head == EntryAt(c, 0) && forall x :: 0 <= x < |c| ==> c[x].next == EntryAt(c, x + 1)
  {}

  lemma Extended<K, V>(chains: seq<Chain<K, V>>, b: nat, e: Entry<K, V>)
    requires b < |chains|
    ensures EntriesOf(chains[b := [e] + chains[b]]) == EntriesOf(chains) + {e}
  {
    var chains' := chains[b := [e] + chains[b]];
    assert chains'[b][0] == e;
    forall i, j | 0 <= i < |chains| && 0 <= j < |chains[i]| ensures chains[i][j] in EntriesOf(chains') {
      assert chains[i][j] == chains'[i][if i == b then j + 1 else j];
    }
    forall i, j | 0 <= i < |chains'| && 0 <= j < |chains'[i]| ensures chains'[i][j] in EntriesOf(chains) + {e} {
      if i == b && j > 0 {
        assert chains'[i][j] == chains[i][j - 1];
      }
    }
  }

  lemma NotAhead<K, V>(chains: seq<Chain<K, V>>, index: Index<K, V>, hash: K -> nat, i: nat, rest: Chain<K, V>)
    requires Placed(chains, index, hash) && Rest(chains, i, rest) && rest != []
    ensures forall p :: i < p < |chains| ==> rest[0] !in chains[p]
  {
    assert rest[0] == chains[i][|chains[i]| - |rest|];
    assert ChainOk(chains[i], i, |chains|, index, hash);
    forall p | i < p < |chains| ensures rest[0] !in chains[p] {
      assert ChainOk(chains[p], p, |chains|, index, hash);
    }
  }
}
