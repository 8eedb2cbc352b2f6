/** The shape of a chained hash table: which entry belongs in which chain, as a value, and how the
    chains hang together on the heap. */
module HashTable {

  class Entry<K, V> {
    const key: K
    const hash: nat
    var value: V
    var next: Entry?<K, V>

    constructor (key: K, value: V, hash: nat)
      ensures this.key == key && this.value == value && this.hash == hash && next == null
    {
      this.key, this.value, this.hash, this.next := key, value, hash, null;
    }
  }

  type Chain<K, V> = seq<Entry<K, V>>
  type Index<K, V> = map<K, Entry<K, V>>

  // ---------------------------------------------------------------- which entry is where

  ghost predicate Distinct<K, V>(c: Chain<K, V>) {
    forall i, j :: 0 <= i < j < |c| ==> c[i] != c[j]
  }

  /** The entry is the one for its key and sits in the right one of `n` chains. */
  ghost predicate Belongs<K, V>(e: Entry<K, V>, i: nat, n: nat, index: Index<K, V>, hash: K -> nat) {
    e.key in index && index[e.key] == e && e.hash == hash(e.key) && n > 0 && e.hash % n == i
  }

  ghost predicate ChainOk<K, V>(c: Chain<K, V>, i: nat, n: nat, index: Index<K, V>, hash: K -> nat) {
    Distinct(c) && forall j :: 0 <= j < |c| ==> Belongs(c[j], i, n, index, hash)
  }

  /** The entry for a key is in a chain. */
  ghost predicate Chained<K, V>(chains: seq<Chain<K, V>>, k: K, e: Entry<K, V>) {
    e.key == k && |chains| > 0 && e in chains[e.hash % |chains|]
  }

  /** Every entry is in the chain that its hash selects, exactly once, and no other entry is in any
      chain; a key has one entry. */
  ghost predicate Placed<K, V>(chains: seq<Chain<K, V>>, index: Index<K, V>, hash: K -> nat) {
    && (forall i :: 0 <= i < |chains| ==> ChainOk(chains[i], i, |chains|, index, hash))
    && (forall k :: k in index ==> Chained(chains, k, index[k]))
  }

  /** Prepending a new entry to its chain. */
  lemma Push<K, V>(chains: seq<Chain<K, V>>, index: Index<K, V>, hash: K -> nat, e: Entry<K, V>, b: nat)
    requires Placed(chains, index, hash) && e.key !in index && e.hash == hash(e.key)
    requires |chains| > 0 && b == e.hash % |chains|
    ensures Placed(chains[b := [e] + chains[b]], index[e.key := e], hash)
  {
    var n, chains', index' := |chains|, chains[b := [e] + chains[b]], index[e.key := e];
    forall i | 0 <= i < n ensures ChainOk(chains'[i], i, n, index', hash) {
      assert ChainOk(chains[i], i, n, index, hash);
      var c := chains[i];
      forall j | 0 <= j < |c| ensures Belongs(c[j], i, n, index', hash) && c[j] != e {
        assert Belongs(c[j], i, n, index, hash);
      }
    }
    forall k | k in index' ensures Chained(chains', k, index'[k]) {
      if k != e.key {
        assert Chained(chains, k, index[k]);
        var i := index[k].hash % n;
        assert index[k] in chains[i] && (i == b ==> index[k] in [e] + chains[b]);
      }
    }
  }

  ghost function Without<K, V>(chains: seq<Chain<K, V>>, b: nat, j: nat): seq<Chain<K, V>>
    requires b < |chains| && j < |chains[b]|
  {
    chains[b := chains[b][..j] + chains[b][j + 1..]]
  }

  /** Taking the entry at position `j` out of its chain. */
  lemma Drop<K, V>(chains: seq<Chain<K, V>>, index: Index<K, V>, hash: K -> nat, b: nat, j: nat)
    requires Placed(chains, index, hash) && b < |chains| && j < |chains[b]|
    ensures chains[b][j].key in index && index[chains[b][j].key] == chains[b][j]
    ensures Placed(Without(chains, b, j), index - {chains[b][j].key}, hash)
  {
    var n, c, e := |chains|, chains[b], chains[b][j];
    assert ChainOk(c, b, n, index, hash) && Belongs(e, b, n, index, hash);
    var c' := c[..j] + c[j + 1..];
    var chains', index' := chains[b := c'], index - {e.key};
    forall i | 0 <= i < n ensures ChainOk(chains'[i], i, n, index', hash) {
      assert ChainOk(chains[i], i, n, index, hash);
      forall x | 0 <= x < |chains'[i]| ensures Belongs(chains'[i][x], i, n, index', hash) {
        var y := if i == b && x >= j then x + 1 else x;
        assert chains'[i][x] == chains[i][y] && Belongs(chains[i][y], i, n, index, hash);
      }
    }
    forall k | k in index' ensures Chained(chains', k, index'[k]) {
      assert Chained(chains, k, index[k]);
      if index[k].hash % n == b {
        var x :| 0 <= x < |c| && c[x] == index[k];
        assert c'[if x < j then x else x - 1] == index[k];
      }
    }
  }

  /** The entry for a key is in the chain that the hash of the key selects, and no other entry
      with that key is. */
  lemma There<K, V>(chains: seq<Chain<K, V>>, index: Index<K, V>, hash: K -> nat, k: K)
    requires Placed(chains, index, hash) && |chains| > 0
    ensures var c := chains[hash(k) % |chains|];
            && (k in index ==> index[k] in c && index[k].key == k)
            && forall j :: 0 <= j < |c| && c[j].key == k ==> k in index && index[k] == c[j]
  {
    var n := |chains|;
    var b := hash(k) % n;
    assert ChainOk(chains[b], b, n, index, hash);
    if k in index {
      assert Chained(chains, k, index[k]);
      var i := index[k].hash % n;
      var j :| 0 <= j < |chains[i]| && chains[i][j] == index[k];
      assert ChainOk(chains[i], i, n, index, hash) && Belongs(chains[i][j], i, n, index, hash);
    }
    forall j | 0 <= j < |chains[b]| && chains[b][j].key == k ensures k in index && index[k] == chains[b][j] {
      assert Belongs(chains[b][j], b, n, index, hash);
    }
  }

  /** No entry for any key: as many empty chains as wanted. */
  lemma Vacant<K, V>(n: nat, hash: K -> nat)
    ensures Placed<K, V>(seq(n, _ => []), map[], hash) && EntriesOf<K, V>(seq(n, _ => [])) == {}
  {}

  /** How many entries the chains hold. */
  ghost function Total<K, V>(chains: seq<Chain<K, V>>): nat {
    if chains == [] then 0 else Total(chains[..|chains| - 1]) + |chains[|chains| - 1]|
  }

  /** The entries of the first `n` chains. */
  ghost function Members<K, V>(chains: seq<Chain<K, V>>): set<Entry<K, V>> {
    if chains == [] then {} else Members(chains[..|chains| - 1]) + Elements(chains[|chains| - 1])
  }

  ghost function Elements<K, V>(c: Chain<K, V>): set<Entry<K, V>> {
    set e | e in c
  }

  lemma {:induction false} DistinctSize<K, V>(c: Chain<K, V>)
    requires Distinct(c)
    ensures |Elements(c)| == |c|
  {
    if c == [] {
      assert Elements(c) == {};
    } else {
      var last := |c| - 1;
      DistinctSize(c[..last]);
      assert Elements(c) == Elements(c[..last]) + {c[last]};
    }
  }

  /** The entries that the table should have in one of the first `n` chains. */
  ghost predicate Early<K, V>(e: Entry<K, V>, n: nat, length: nat, index: Index<K, V>) {
    e.key in index && index[e.key] == e && length > 0 && e.hash % length < n
  }

  lemma {:induction false} TotalMembers<K, V>(chains: seq<Chain<K, V>>, n: nat, all: seq<Chain<K, V>>,
                                              index: Index<K, V>, hash: K -> nat)
    requires Placed(all, index, hash) && n <= |all| && chains == all[..n]
    ensures |Members(chains)| == Total(chains)
    ensures forall e: Entry<K, V> :: e in Members(chains) <==> Early(e, n, |all|, index)
    decreases n
  {
    if n > 0 {
      var i := n - 1;
      assert chains[..i] == all[..i];
      TotalMembers(chains[..i], i, all, index, hash);
      var c := all[i];
      assert ChainOk(c, i, |all|, index, hash);
      DistinctSize(c);
      forall e: Entry<K, V> ensures e in Elements(c) <==> e.key in index && index[e.key] == e && e.hash % |all| == i {
        if e in c {
          var j :| 0 <= j < |c| && c[j] == e;
          assert Belongs(c[j], i, |all|, index, hash);
        }
        if e.key in index && index[e.key] == e {
          assert Chained(all, e.key, e);
        }
      }
    }
  }

  /** The chains together hold exactly one entry for each key. */
  lemma OneEntryPerKey<K, V>(chains: seq<Chain<K, V>>, index: Index<K, V>, hash: K -> nat)
    requires Placed(chains, index, hash)
    ensures Total(chains) == |index|
  {
    assert chains == chains[..|chains|];
    TotalMembers(chains, |chains|, chains, index, hash);
    forall k | k in index ensures index[k].key == k && Early(index[k], |chains|, |chains|, index) {
      assert Chained(chains, k, index[k]);
    }
    forall e: Entry<K, V> | e in Members(chains) ensures e.key in index && index[e.key] == e {
      assert Early(e, |chains|, |chains|, index);
    }
    hide Placed, Members, Total, Early;
    SameSize(Members(chains), index);
  }

  /** Entries and keys go together one to one. */
  lemma {:induction false} SameSize<K, V>(entries: set<Entry<K, V>>, index: Index<K, V>)
    requires forall k :: k in index ==> index[k] in entries && index[k].key == k
    requires forall e :: e in entries ==> e.key in index && index[e.key] == e
    ensures |entries| == |index|
    decreases |entries|
  {
    if entries == {} {
      assert forall k :: k !in index;
      assert index == map[];
    } else {
      var e :| e in entries;
      var entries', index' := entries - {e}, index - {e.key};
      SameSize(entries', index');
      assert index == index'[e.key := e];
    }
  }

  // ---------------------------------------------------------------- on the heap

  /** From `head` the entries of `c` follow in order, and then nothing. */
  ghost predicate Linked<K, V>(head: Entry?<K, V>, c: Chain<K, V>)
    reads set e | e in c
  {
    head == EntryAt(c, 0) && forall i :: 0 <= i < |c| ==> c[i].next == EntryAt(c, i + 1)
  }

  ghost function EntryAt<K, V>(c: Chain<K, V>, i: nat): Entry?<K, V> {
    if i < |c| then c[i] else null
  }

  lemma Advance<K, V>(e: Entry<K, V>, c: Chain<K, V>)
    requires Linked(e, c)
    ensures c != [] && e == c[0] && Linked(e.next, c[1..])
  {
    assert c[0].next == EntryAt(c, 1);
    forall i | 0 <= i < |c[1..]| ensures c[1..][i].next == EntryAt(c[1..], i + 1) {
      assert c[i + 1].next == EntryAt(c, i + 2);
    }
  }

  ghost function EntriesOf<K, V>(chains: seq<Chain<K, V>>): set<Entry<K, V>> {
    set i, j | 0 <= i < |chains| && 0 <= j < |chains[i]| :: chains[i][j]
  }

  ghost predicate Hangs<K, V>(buckets: array<Entry?<K, V>>, chains: seq<Chain<K, V>>)
    reads buckets, EntriesOf(chains)
  {
    buckets.Length == |chains| && forall i :: 0 <= i < |chains| ==> Linked(buckets[i], chains[i])
  }

  /** The entries on the chains are exactly those that the table should have. */
  lemma EntriesAre<K, V>(chains: seq<Chain<K, V>>, index: Index<K, V>, hash: K -> nat)
    requires Placed(chains, index, hash)
    ensures forall e :: e in EntriesOf(chains) ==> e.key in index && index[e.key] == e && e.hash == hash(e.key)
    ensures forall k :: k in index ==> index[k] in EntriesOf(chains) && index[k].key == k
  {
    forall i, j | 0 <= i < |chains| && 0 <= j < |chains[i]|
      ensures Belongs(chains[i][j], i, |chains|, index, hash)
    {
      assert ChainOk(chains[i], i, |chains|, index, hash);
    }
    forall k | k in index ensures index[k] in EntriesOf(chains) {
      assert Chained(chains, k, index[k]);
    }
  }

  lemma Stranger<K, V>(chains: seq<Chain<K, V>>, index: Index<K, V>, hash: K -> nat, e: Entry<K, V>)
    requires Placed(chains, index, hash) && e.key !in index
    ensures e !in EntriesOf(chains)
  {
    EntriesAre(chains, index, hash);
  }

  /** Being the entry of its own key. */
  ghost predicate Owned<K, V>(e: Entry<K, V>, index: Index<K, V>) {
    e.key in index && index[e.key] == e
  }

  lemma EntriesOwned<K, V>(chains: seq<Chain<K, V>>, index: Index<K, V>, hash: K -> nat)
    requires Placed(chains, index, hash)
    ensures forall e: Entry<K, V> :: e in EntriesOf(chains) <==> Owned(e, index)
  {
    EntriesAre(chains, index, hash);
  }

  /** Dropping an entry takes just that one away. */
  lemma AfterDrop<K, V>(chains: seq<Chain<K, V>>, index: Index<K, V>, hash: K -> nat, b: nat, j: nat)
    requires Placed(chains, index, hash) && b < |chains| && j < |chains[b]|
    ensures EntriesOf(Without(chains, b, j)) == EntriesOf(chains) - {chains[b][j]}
  {
    var e, chains' := chains[b][j], Without(chains, b, j);
    Drop(chains, index, hash, b, j);
    EntriesOwned(chains, index, hash);
    EntriesOwned(chains', index - {e.key}, hash);
    hide Placed, EntriesOf, Without;
    assert EntriesOf(chains') == EntriesOf(chains) - {e} by {
      assert forall x: Entry<K, V> :: x in EntriesOf(chains') <==> x in EntriesOf(chains) && x != e;
    }
  }

  /** A chain in which the predecessor of position `j` points past it. */
  lemma Skipped<K, V>(head: Entry?<K, V>, c: Chain<K, V>, j: nat)
    requires j < |c| && head == (if j == 0 then EntryAt(c, 1) else c[0])
    requires forall x :: 0 <= x < |c| && x != j - 1 ==> c[x].next == EntryAt(c, x + 1)
    requires j > 0 ==> c[j - 1].next == EntryAt(c, j + 1)
    ensures Linked(head, c[..j] + c[j + 1..])
  {
    var c' := c[..j] + c[j + 1..];
    forall i | 0 <= i < |c'| ensures c'[i].next == EntryAt(c', i + 1) {
      if i >= j {
        assert c'[i] == c[i + 1] && c[i + 1].next == EntryAt(c, i + 2);
      } else {
        assert c'[i] == c[i];
      }
    }
  }

  /** Two keys have two entries. */
  lemma OneKey<K, V>(chains: seq<Chain<K, V>>, index: Index<K, V>, hash: K -> nat, k: K)
    requires Placed(chains, index, hash) && k in index
    ensures forall x :: x in index && x != k ==> index[x] != index[k]
  {
    EntriesAre(chains, index, hash);
  }

  // ---------------------------------------------------------------- going through a table

  /** The keys whose entries are still to come: those in later chains, and `rest` of chain `i`. */
  ghost predicate Pending<K, V>(e: Entry<K, V>, n: nat, i: nat, rest: Chain<K, V>) {
    n > 0 && (e.hash % n > i || (e.hash % n == i && e in rest))
  }

  ghost function Passed<K, V>(index: Index<K, V>, n: nat, i: nat, rest: Chain<K, V>): Index<K, V> {
    map k | k in index && !Pending(index[k], n, i, rest) :: index[k]
  }

  /** What is left of chain `i`: some end of it. */
  ghost predicate Rest<K, V>(chains: seq<Chain<K, V>>, i: nat, rest: Chain<K, V>) {
    if i < |chains| then |rest| <= |chains[i]| && rest == chains[i][|chains[i]| - |rest|..] else rest == []
  }

  ghost function First<K, V>(chains: seq<Chain<K, V>>, i: nat): Chain<K, V> {
    if i < |chains| then chains[i] else []
  }

  /** Where an entry of a table in order can be found. */
  lemma Somewhere<K, V>(chains: seq<Chain<K, V>>, index: Index<K, V>, hash: K -> nat, e: Entry<K, V>)
    requires Placed(chains, index, hash) && e in EntriesOf(chains)
    ensures |chains| > 0 && e in chains[e.hash % |chains|]
    ensures forall i :: 0 <= i < |chains| && e in chains[i] ==> i == e.hash % |chains|
  {
    EntriesAre(chains, index, hash);
    assert Chained(chains, e.key, e);
    forall i | 0 <= i < |chains| && e in chains[i] ensures i == e.hash % |chains| {
      assert ChainOk(chains[i], i, |chains|, index, hash);
    }
  }

  /** The entries still to be visited. */
  ghost function Left<K, V>(chains: seq<Chain<K, V>>, i: nat, rest: Chain<K, V>): set<Entry<K, V>> {
    set e | e in EntriesOf(chains) && Pending(e, |chains|, i, rest)
  }

  lemma LeftStart<K, V>(chains: seq<Chain<K, V>>, index: Index<K, V>, hash: K -> nat)
    requires Placed(chains, index, hash)
    ensures Left(chains, 0, First(chains, 0)) == EntriesOf(chains)
  {
    forall e | e in EntriesOf(chains) ensures Pending(e, |chains|, 0, First(chains, 0)) {
      Somewhere(chains, index, hash, e);
    }
  }

  lemma LeftStep<K, V>(chains: seq<Chain<K, V>>, index: Index<K, V>, hash: K -> nat, i: nat, rest: Chain<K, V>)
    requires Placed(chains, index, hash) && i < |chains| && Rest(chains, i, rest) && rest != []
    ensures rest[0] in Left(chains, i, rest) && Rest(chains, i, rest[1..])
    ensures Left(chains, i, rest[1..]) == Left(chains, i, rest) - {rest[0]}
  {
    var e := rest[0];
    PassOne(chains, index, hash, i, rest);
    assert e == chains[i][|chains[i]| - |rest|];
    Somewhere(chains, index, hash, e);
    assert forall x :: x in rest <==> x == e || x in rest[1..];
  }

  lemma LeftChain<K, V>(chains: seq<Chain<K, V>>, index: Index<K, V>, hash: K -> nat, i: nat)
    requires Placed(chains, index, hash) && i < |chains|
    ensures Left(chains, i, []) == Left(chains, i + 1, First(chains, i + 1))
  {
    forall e | e in EntriesOf(chains)
      ensures Pending(e, |chains|, i, []) <==> Pending(e, |chains|, i + 1, First(chains, i + 1))
    {
      Somewhere(chains, index, hash, e);
    }
  }

  lemma LeftEnd<K, V>(chains: seq<Chain<K, V>>, index: Index<K, V>, hash: K -> nat)
    requires Placed(chains, index, hash)
    ensures Left(chains, |chains|, First(chains, |chains|)) == {}
  {
    forall e | e in EntriesOf(chains) ensures !Pending(e, |chains|, |chains|, []) {
      Somewhere(chains, index, hash, e);
    }
  }

  lemma PassNone<K, V>(chains: seq<Chain<K, V>>, index: Index<K, V>, hash: K -> nat)
    requires Placed(chains, index, hash)
    ensures Passed(index, |chains|, 0, First(chains, 0)) == map[]
  {
    forall k | k in index ensures Pending(index[k], |chains|, 0, First(chains, 0)) {
      assert Chained(chains, k, index[k]);
    }
  }

  lemma PassOne<K, V>(chains: seq<Chain<K, V>>, index: Index<K, V>, hash: K -> nat, i: nat, rest: Chain<K, V>)
    requires Placed(chains, index, hash) && Rest(chains, i, rest) && rest != []
    ensures var e := rest[0];
            && i < |chains| && Rest(chains, i, rest[1..])
            && e.key in index && index[e.key] == e && e.hash == hash(e.key)
            && e !in rest[1..] && e.key !in Passed(index, |chains|, i, rest)
            && Passed(index, |chains|, i, rest[1..]) == Passed(index, |chains|, i, rest)[e.key := e]
  {
    var c := chains[i];
    var j := |c| - |rest|;
    assert ChainOk(c, i, |chains|, index, hash) && Belongs(c[j], i, |chains|, index, hash);
    var e := rest[0];
    assert e == c[j] && rest[1..] == c[j + 1..];
    assert forall k :: k in index && index[k] == e ==> Chained(chains, k, index[k]);
    assert Passed(index, |chains|, i, rest[1..]) == Passed(index, |chains|, i, rest)[e.key := e] by {
      forall k | k in index
        ensures Pending(index[k], |chains|, i, rest) <==> k == e.key || Pending(index[k], |chains|, i, rest[1..])
      {
        assert Chained(chains, k, index[k]);
        assert index[k] in rest <==> index[k] == e || index[k] in rest[1..];
      }
    }
  }

  lemma PassChain<K, V>(chains: seq<Chain<K, V>>, index: Index<K, V>, hash: K -> nat, i: nat)
    requires Placed(chains, index, hash) && i < |chains|
    ensures Passed(index, |chains|, i, []) == Passed(index, |chains|, i + 1, First(chains, i + 1))
  {
    forall k | k in index
      ensures Pending(index[k], |chains|, i, []) <==> Pending(index[k], |chains|, i + 1, First(chains, i + 1))
    {
      assert Chained(chains, k, index[k]);
    }
  }

  lemma PassAll<K, V>(chains: seq<Chain<K, V>>, index: Index<K, V>, hash: K -> nat)
    requires Placed(chains, index, hash)
    ensures Passed(index, |chains|, |chains|, First(chains, |chains|)) == index
  {
    forall k | k in index ensures !Pending(index[k], |chains|, |chains|, []) {
      assert Chained(chains, k, index[k]);
    }
  }
}
