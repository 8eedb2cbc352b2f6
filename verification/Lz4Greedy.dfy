/** Which matches the compressor writes, in terms of positions and bytes alone: at each position it
    looks at, the last such position before it with the same slot decides. */
module Lz4Greedy {
  import opened Basics
  import opened Alignment
  import opened Lz4Format
  import opened Lz4Matcher

  // ---------------------------------------------------------------- positions and slots

  /** The number that bytes stand for, low ones first. */
  function Number(s: seq<Byte>): nat {
    if s == [] then 0 else s[0] + 0x100 * Number(s[1..])
  }

  /** The slot of the four bytes at `p`: a 32-bit product and a mask. */
  function Slot(x: seq<Byte>, p: nat): nat
    requires p + 4 <= |x|
  {
    And(Number(x[p..p + 4]) * 0x85EBCA77 % 0x1_0000_0000, 0xFFFF / 4 - 1)
  }

  /** The positions from `lo` on that are below `hi` and not among the last nine of `n`. */
  function Positions(lo: nat, hi: nat, n: nat): (r: set<nat>)
    ensures forall p :: p in r <==> lo <= p < hi && p + 9 < n
  {
    if hi <= lo then {}
    else if hi + 8 < n then Positions(lo, hi - 1, n) + {hi - 1}
    else Positions(lo, hi - 1, n)
  }

  /** The positions that are looked at when x[start..] is cut as `b` says: every literal and the start
      of every match, but for the last nine of the input. */
  function Looked(b: Block, start: nat, n: nat): set<nat> {
    match b
    case Last(literals, _) => Positions(start, start + |literals|, n)
    case More(literals, _, matchLength, rest) =>
      Positions(start, start + |literals| + 1, n) + Looked(rest, start + |literals| + matchLength, n)
  }

  /** The block has a match at `p`, of that offset and length. */
  predicate MatchAt(b: Block, start: nat, p: nat, offset: nat, length: nat) {
    b.More? &&
    var at := start + |b.literals|;
    (p == at && offset == b.offset && length == b.matchLength) ||
    MatchAt(b.rest, at + b.matchLength, p, offset, length)
  }

  predicate HasSlot(x: seq<Byte>, p: nat, i: nat) {
    p + 4 <= |x| && Slot(x, p) == i
  }

  /** `q` is the last position before `p` of those looked at that has the same slot. */
  ghost predicate Previous(x: seq<Byte>, looked: set<nat>, p: nat, q: nat)
    requires p + 4 <= |x|
  {
    && q in looked && q < p && HasSlot(x, q, Slot(x, p))
    && forall r: nat :: r in looked && q < r < p ==> !HasSlot(x, r, Slot(x, p))
  }

  /** The last position with the same slot is not stored as an empty one, its distance d, as far as 16
      bits go, is not zero, and the four bytes at `p` are those d before. */
  ghost predicate FoundFrom(x: seq<Byte>, looked: set<nat>, p: nat, q: nat, d: nat)
    requires p + 4 <= |x|
  {
    && Previous(x, looked, p, q) && q % 0x1_0000 != 0xFFFF
    && d == (p - q) % 0x1_0000 && 0 < d <= p && x[p - d..p - d + 4] == x[p..p + 4]
  }

  ghost predicate Found(x: seq<Byte>, looked: set<nat>, p: nat, d: nat)
    requires p + 4 <= |x|
  {
    exists q: nat :: FoundFrom(x, looked, p, q, d)
  }

  /** The longest run from `p` of bytes equal to those d before, up to the last five of the input. */
  predicate LongestRun(x: seq<Byte>, p: nat, d: nat, length: nat) {
    var limit := |x| - 5;
    && d <= p && p + length <= limit
    && (forall i :: p <= i < p + length ==> x[i] == x[i - d])
    && (p + length < limit ==> x[p + length] != x[p + length - d])
  }

  /** At `p` the block has just the match that is found there, or none. */
  ghost predicate Decided(x: seq<Byte>, looked: set<nat>, b: Block, start: nat, p: nat)
    requires p + 4 <= |x|
  {
    forall d: nat, length: nat ::
      MatchAt(b, start, p, d, length) <==> Found(x, looked, p, d) && LongestRun(x, p, d, length)
  }

  // ---------------------------------------------------------------- the slot

  lemma NumberOfFour(s: seq<Byte>)
    requires |s| == 4
    ensures Number(s) == s[0] as int + 0x100 * (s[1] as int) + 0x1_0000 * (s[2] as int) + 0x100_0000 * (s[3] as int)
  {
    assert s[3..] == [s[3]] && s[3..][1..] == [];
    assert s[2..][1..] == s[3..] && s[1..][1..] == s[2..];
    assert Number(s[3..]) == s[3];
    assert Number(s[2..]) == s[2] + 0x100 * Number(s[3..]);
    assert Number(s[1..]) == s[1] + 0x100 * Number(s[2..]);
  }

  lemma ReadIsNumber(x: seq<Byte>, p: nat)
    requires p + 4 <= |x|
    ensures ReadU32(x, p) == Number(x[p..p + 4])
  {
    NumberOfFour(x[p..p + 4]);
  }

  /** A mask of ones keeps the low bits. */
  lemma {:induction false} AndOnes(n: nat, width: nat)
    ensures And(n, Values(width) - 1) == n % Values(width)
    decreases width
  {
    if width > 0 {
      var half := Values(width - 1);
      AndOnes(n / 2, width - 1);
      HalfRemainder(n, half);
      AndDoubled(n, half - 1);
    } else {
      assert n % 1 == 0;
    }
  }

  lemma AndDoubled(n: nat, ones: nat)
    ensures And(n, 2 * ones + 1) == 2 * And(n / 2, ones) + n % 2
  {
    assert (2 * ones + 1) / 2 == ones && (2 * ones + 1) % 2 == 1;
    if n == 0 {
      assert And(0, ones) == 0;
    }
  }

  lemma HalfRemainder(n: nat, half: nat)
    requires half > 0
    ensures n % (2 * half) == 2 * (n / 2 % half) + n % 2
  {
    var q, r := n / 2 / half, n / 2 % half;
    assert n / 2 == half * q + r;
    assert n == 2 * half * q + (2 * r + n % 2);
    Remainder(n, 2 * half, q, 2 * r + n % 2);
  }

  lemma Remainder(n: nat, m: nat, q: nat, r: nat)
    requires m > 0 && n == m * q + r && r < m
    ensures n % m == r
  {
    UniqueMod(n, m, q, r);
  }

  lemma AndEven(n: nat, m: nat)
    ensures And(n, 2 * m) == 2 * And(n / 2, m)
  {
    if n == 0 {
      assert And(0, m) == 0;
    } else if m == 0 {
      assert And(n / 2, 0) == 0;
    }
  }

  lemma ThirteenBits()
    ensures Values(13) == 0x2000
  {
    assert Values(4) == 16 && Values(8) == 256 && Values(12) == 4096;
  }

  lemma HashIsMask(value: nat)
    ensures HashIndex(value) == And(value * 0x85EBCA77 % 0x1_0000_0000, 0xFFFF / 4 - 1)
  {
    hide And, Values;
    var n := value * 0x85EBCA77 % 0x1_0000_0000;
    AndEven(n, 0x1FFF);
    ThirteenBits();
    AndOnes(n / 2, 13);
  }

  lemma SlotIsSlot(x: seq<Byte>, p: nat)
    requires p + 4 <= |x|
    ensures SlotOf(x, p) == Slot(x, p)
  {
    HashIsMask(ReadU32(x, p));
    ReadIsNumber(x, p);
  }

  // ---------------------------------------------------------------- what the table remembers

  ghost predicate Newest(x: seq<Byte>, seen: set<nat>, i: nat, q: nat) {
    && q in seen && HasSlot(x, q, i)
    && forall r: nat :: r in seen && HasSlot(x, r, i) ==> r <= q
  }

  /** The entry of the slot `i`: its newest position in 16 bits, or that it has none. */
  ghost predicate SlotSays(x: seq<Byte>, seen: set<nat>, i: nat, entry: nat) {
    (exists q: nat :: Newest(x, seen, i, q) && entry == q % 0x1_0000) ||
    (entry == NO_ENTRY && forall q: nat :: q in seen ==> !HasSlot(x, q, i))
  }

  ghost predicate Remembers(x: seq<Byte>, seen: set<nat>, rp: nat, table: seq<nat>) {
    && |table| == TABLE_SIZE && (forall q: nat :: q in seen ==> q < rp)
    && forall i :: 0 <= i < |table| ==> SlotSays(x, seen, i, table[i])
  }

  lemma EmptyRemembers(x: seq<Byte>)
    ensures Remembers(x, {}, 0, EmptyTable())
  {}

  lemma NoteRemembers(x: seq<Byte>, seen: set<nat>, rp: nat, table: seq<nat>, next: nat)
    requires rp + 4 <= |x| && TableOk(table, rp) && rp < next && Remembers(x, seen, rp, table)
    ensures Remembers(x, seen + {rp}, next, Note(x, rp, table, next))
  {
    hide Slot, SlotOf;
    SlotIsSlot(x, rp);
    var noted, more := Note(x, rp, table, next), seen + {rp};
    forall i | 0 <= i < TABLE_SIZE ensures SlotSays(x, more, i, noted[i]) {
      if i == Slot(x, rp) {
        assert Newest(x, more, i, rp);
      } else {
        assert !HasSlot(x, rp, i) && SlotSays(x, seen, i, table[i]);
        if q: nat :| Newest(x, seen, i, q) && table[i] == q % 0x1_0000 {
          assert Newest(x, more, i, q);
        }
      }
    }
  }

  lemma SameModulo(a: int, b: int)
    ensures (a % 0x1_0000 - b % 0x1_0000) % 0x1_0000 == (a - b) % 0x1_0000
  {}

  lemma SameFour(x: seq<Byte>, p: nat, d: nat)
    requires d <= p && p + 4 <= |x|
    ensures ReadU32(x, p - d) == ReadU32(x, p) <==> x[p - d..p - d + 4] == x[p..p + 4]
  {
    ReadIsNumber(x, p);
    ReadIsNumber(x, p - d);
    if ReadU32(x, p - d) == ReadU32(x, p) {
      ReadU32Injective(x, p, d);
      assert Repeated(x, p, d) && Repeated(x, p + 1, d) && Repeated(x, p + 2, d) && Repeated(x, p + 3, d);
    }
  }

  lemma OneLongestRun(x: seq<Byte>, p: nat, d: nat, a: nat, b: nat)
    requires d <= p && p + 9 < |x| && LongestRun(x, p, d, a) && LongestRun(x, p, d, b)
    ensures a == b
  {}

  lemma FoursAgree(x: seq<Byte>, p: nat, d: nat, length: nat)
    requires d <= p && p + length <= |x| && length >= 4 && Repeats(x, p, p + length, d)
    ensures x[p - d..p - d + 4] == x[p..p + 4]
  {
    assert Repeated(x, p, d) && Repeated(x, p + 1, d) && Repeated(x, p + 2, d) && Repeated(x, p + 3, d);
  }

  /** What the probe finds from an entry, in bytes. */
  ghost predicate Fits(x: seq<Byte>, p: nat, entry: nat, d: nat, length: nat)
    requires p + 9 < |x|
  {
    && entry != NO_ENTRY && d == Distance(p, entry) && 0 < d <= p
    && x[p - d..p - d + 4] == x[p..p + 4] && LongestRun(x, p, d, length)
  }

  lemma ProbeFits(x: seq<Byte>, p: nat, entry: nat)
    requires p + 9 < |x| && entry <= NO_ENTRY && (entry == NO_ENTRY || entry < p) && Probe(x, p, entry) > 0
    ensures Fits(x, p, entry, Distance(p, entry), Probe(x, p, entry))
  {
    var d, r := Distance(p, entry), Probe(x, p, entry);
    FoursAgree(x, p, d, r);
    forall k | p <= k < p + r ensures x[k] == x[k - d] {
      assert Repeated(x, k, d);
    }
  }

  lemma FitsProbed(x: seq<Byte>, p: nat, entry: nat, d: nat, length: nat)
    requires p + 9 < |x| && entry <= NO_ENTRY && (entry == NO_ENTRY || entry < p) && Fits(x, p, entry, d, length)
    ensures Probe(x, p, entry) == length > 0
  {
    SameFour(x, p, d);
    hide ReadU32;
    assert Probe(x, p, entry) > 0;
    ProbeFits(x, p, entry);
    OneLongestRun(x, p, d, length, Probe(x, p, entry));
  }

  /** Of the positions before `p`, those seen are those looked at. */
  ghost predicate SeenBefore(looked: set<nat>, seen: set<nat>, p: nat) {
    forall q: nat :: q in seen <==> q in looked && q < p
  }

  lemma NewestIsPrevious(x: seq<Byte>, looked: set<nat>, seen: set<nat>, p: nat, q: nat)
    requires p + 4 <= |x| && SeenBefore(looked, seen, p)
    ensures Newest(x, seen, Slot(x, p), q) <==> Previous(x, looked, p, q)
  {
    hide HasSlot;
  }

  /** The match that the table leads to at `rp`, if any. */
  ghost predicate Led(x: seq<Byte>, rp: nat, table: seq<nat>, d: nat, length: nat)
    requires rp + 9 < |x| && TableOk(table, rp)
  {
    var entry := Entry(x, rp, table);
    length > 0 && length == Probe(x, rp, entry) && d == Distance(rp, entry)
  }

  lemma EntrySays(x: seq<Byte>, seen: set<nat>, rp: nat, table: seq<nat>)
    requires rp + 4 <= |x| && TableOk(table, rp) && Remembers(x, seen, rp, table)
    ensures SlotSays(x, seen, Slot(x, rp), Entry(x, rp, table))
  {
    SlotIsSlot(x, rp);
  }

  lemma LedIsFound(x: seq<Byte>, looked: set<nat>, seen: set<nat>, rp: nat, table: seq<nat>, d: nat, length: nat)
    requires rp + 9 < |x| && TableOk(table, rp) && Remembers(x, seen, rp, table) && SeenBefore(looked, seen, rp)
    requires Led(x, rp, table, d, length)
    ensures Found(x, looked, rp, d) && LongestRun(x, rp, d, length)
  {
    hide Remembers, Entry, Probe, Newest, Previous, Slot, SeenBefore;
    var entry, i := Entry(x, rp, table), Slot(x, rp);
    EntrySays(x, seen, rp, table);
    ProbeFits(x, rp, entry);
    var q: nat :| Newest(x, seen, i, q) && entry == q % 0x1_0000;
    SameModulo(rp, q);
    NewestIsPrevious(x, looked, seen, rp, q);
    assert FoundFrom(x, looked, rp, q, d);
  }

  lemma FoundIsLed(x: seq<Byte>, looked: set<nat>, seen: set<nat>, rp: nat, table: seq<nat>, d: nat, length: nat)
    requires rp + 9 < |x| && TableOk(table, rp) && Remembers(x, seen, rp, table) && SeenBefore(looked, seen, rp)
    requires Found(x, looked, rp, d) && LongestRun(x, rp, d, length)
    ensures Led(x, rp, table, d, length)
  {
    hide Remembers, Entry, Probe, Slot, SeenBefore;
    var entry, i := Entry(x, rp, table), Slot(x, rp);
    EntrySays(x, seen, rp, table);
    var q: nat :| FoundFrom(x, looked, rp, q, d);
    NewestIsPrevious(x, looked, seen, rp, q);
    OneNewest(x, seen, i, entry, q);
    SameModulo(rp, q);
    FitsProbed(x, rp, entry, d, length);
  }

  lemma OneNewest(x: seq<Byte>, seen: set<nat>, i: nat, entry: nat, q: nat)
    requires SlotSays(x, seen, i, entry) && Newest(x, seen, i, q)
    ensures entry == q % 0x1_0000
  {
    hide HasSlot;
    if r: nat :| Newest(x, seen, i, r) && entry == r % 0x1_0000 {
      assert r <= q && q <= r;
    }
  }

  // ---------------------------------------------------------------- every position is decided

  /** The literals go at least as far as the scan has come. */
  lemma {:induction false} PlanReaches(x: seq<Byte>, start: nat, rp: nat, table: seq<nat>)
    requires start <= rp < |x| && TableOk(table, rp)
    ensures start + |Plan(x, start, rp, table).literals| >= rp
    decreases |x| - rp
  {
    hide Plan, TableOk, Probe, Note, Entry;
    PlanStep(x, start, rp, table);
    if rp + TAIL < |x| && Probe(x, rp, Entry(x, rp, table)) == 0 {
      PlanReaches(x, start, rp + 1, Note(x, rp, table, rp + 1));
    }
  }

  lemma {:induction false} LookedIn(b: Block, start: nat, n: nat, p: nat)
    requires p in Looked(b, start, n)
    ensures start <= p && p + 9 < n
    decreases b
  {
    if b.More? && p !in Positions(start, start + |b.literals| + 1, n) {
      LookedIn(b.rest, start + |b.literals| + b.matchLength, n, p);
    }
  }

  lemma {:induction false} MatchIsBehind(b: Block, start: nat, p: nat, d: nat, length: nat)
    requires MatchAt(b, start, p, d, length)
    ensures start + |b.literals| <= p
    decreases b
  {
    if p != start + |b.literals| {
      MatchIsBehind(b.rest, start + |b.literals| + b.matchLength, p, d, length);
    }
  }

  /** The positions looked at are those seen before and those of the block from `rp` on. */
  ghost predicate Covers(looked: set<nat>, seen: set<nat>, b: Block, start: nat, rp: nat, n: nat) {
    forall q: nat :: q in looked <==> q in seen || (rp <= q && q in Looked(b, start, n))
  }

  ghost predicate DecidedFrom(x: seq<Byte>, looked: set<nat>, b: Block, start: nat, rp: nat) {
    forall p: nat :: p in looked && rp <= p && p + 4 <= |x| ==> Decided(x, looked, b, start, p)
  }

  /** Where the table leads to no match, there is none and none is found. */
  lemma NoneDecided(x: seq<Byte>, looked: set<nat>, seen: set<nat>, b: Block, start: nat, rp: nat, table: seq<nat>)
    requires rp + 9 < |x| && TableOk(table, rp) && Remembers(x, seen, rp, table) && SeenBefore(looked, seen, rp)
    requires Probe(x, rp, Entry(x, rp, table)) == 0 && rp < start + |b.literals|
    ensures Decided(x, looked, b, start, rp)
  {
    hide Probe, Remembers, SeenBefore, Found, LongestRun, MatchAt, TableOk, Entry;
    forall d: nat, length: nat
      ensures MatchAt(b, start, rp, d, length) <==> Found(x, looked, rp, d) && LongestRun(x, rp, d, length)
    {
      if MatchAt(b, start, rp, d, length) {
        MatchIsBehind(b, start, rp, d, length);
      }
      if Found(x, looked, rp, d) && LongestRun(x, rp, d, length) {
        FoundIsLed(x, looked, seen, rp, table, d, length);
      }
    }
  }

  /** Where it leads to one, the block that opens with it has it and no other there. */
  lemma OneDecided(x: seq<Byte>, looked: set<nat>, seen: set<nat>, b: Block, start: nat, rp: nat, table: seq<nat>)
    requires rp + 9 < |x| && TableOk(table, rp) && Remembers(x, seen, rp, table) && SeenBefore(looked, seen, rp)
    requires b.More? && rp == start + |b.literals| && b.matchLength > 0
    requires Led(x, rp, table, b.offset, b.matchLength)
    ensures Decided(x, looked, b, start, rp)
  {
    hide Probe, Remembers, SeenBefore, Found, LongestRun, TableOk, Entry;
    forall d: nat, length: nat
      ensures MatchAt(b, start, rp, d, length) <==> Found(x, looked, rp, d) && LongestRun(x, rp, d, length)
    {
      var end := rp + b.matchLength;
      if MatchAt(b.rest, end, rp, d, length) {
        MatchIsBehind(b.rest, end, rp, d, length);
      }
      if d == b.offset && length == b.matchLength {
        LedIsFound(x, looked, seen, rp, table, d, length);
      }
      if Found(x, looked, rp, d) && LongestRun(x, rp, d, length) {
        FoundIsLed(x, looked, seen, rp, table, d, length);
      }
    }
  }

  /** Behind its first match a block has the matches of the rest. */
  lemma RestDecided(x: seq<Byte>, looked: set<nat>, b: Block, start: nat, rp: nat)
    requires b.More? && rp == start + |b.literals| && b.matchLength > 0
    requires DecidedFrom(x, looked, b.rest, rp + b.matchLength, rp + b.matchLength)
    requires rp + 4 <= |x| && Decided(x, looked, b, start, rp)
    requires forall p: nat :: p in looked && rp < p ==> rp + b.matchLength <= p
    ensures DecidedFrom(x, looked, b, start, rp)
  {
    hide Found, LongestRun;
    forall p: nat | p in looked && rp <= p && p + 4 <= |x| ensures Decided(x, looked, b, start, p) {
      if rp < p {
        assert Decided(x, looked, b.rest, rp + b.matchLength, p);
        forall d: nat, length: nat
          ensures MatchAt(b, start, p, d, length) <==> Found(x, looked, p, d) && LongestRun(x, p, d, length)
        {
          assert MatchAt(b, start, p, d, length) <==> MatchAt(b.rest, rp + b.matchLength, p, d, length);
        }
      }
    }
  }

  /** From any point of the scan on, whatever the table remembers, every position is decided. */
  lemma {:induction false} PlanDecides(x: seq<Byte>, start: nat, rp: nat, table: seq<nat>, seen: set<nat>,
                                       looked: set<nat>)
    requires start <= rp < |x| && TableOk(table, rp) && Remembers(x, seen, rp, table)
    requires Covers(looked, seen, Plan(x, start, rp, table), start, rp, |x|)
    ensures DecidedFrom(x, looked, Plan(x, start, rp, table), start, rp)
    decreases |x| - rp
  {
    hide Plan, TableOk, Probe, Note, Entry, Remembers, Decided, Looked, Distance;
    PlanStep(x, start, rp, table);
    var b := Plan(x, start, rp, table);
    if rp + 9 < |x| {
      var entry := Entry(x, rp, table);
      var length := Probe(x, rp, entry);
      assert SeenBefore(looked, seen, rp) by {
        SeenIsBelow(x, seen, rp, table);
      }
      if length == 0 {
        var noted := Note(x, rp, table, rp + 1);
        NoteRemembers(x, seen, rp, table, rp + 1);
        PlanReaches(x, start, rp + 1, noted);
        LiteralLooked(b, start, |x|, rp);
        NoneDecided(x, looked, seen, b, start, rp, table);
        PlanDecides(x, start, rp + 1, noted, seen + {rp}, looked);
      } else {
        var end := rp + length;
        var noted := Note(x, rp, table, end);
        NoteRemembers(x, seen, rp, table, end);
        MatchLooked(b, start, |x|, rp, end);
        OneDecided(x, looked, seen, b, start, rp, table);
        PlanDecides(x, end, end, noted, seen + {rp}, looked);
        RestDecided(x, looked, b, start, rp);
      }
    } else {
      forall p: nat | p in looked && rp <= p ensures p + 9 < |x| {
        SeenIsBelow(x, seen, rp, table);
        LookedIn(b, start, |x|, p);
      }
    }
  }

  lemma SeenIsBelow(x: seq<Byte>, seen: set<nat>, rp: nat, table: seq<nat>)
    requires Remembers(x, seen, rp, table)
    ensures forall q: nat :: q in seen ==> q < rp
  {}

  lemma LiteralLooked(b: Block, start: nat, n: nat, p: nat)
    requires start <= p < start + |b.literals| && p + 9 < n
    ensures p in Looked(b, start, n)
  {}

  /** From its first match on, a block looks at the start of that and at what the rest does. */
  lemma MatchLooked(b: Block, start: nat, n: nat, rp: nat, end: nat)
    requires b.More? && rp == start + |b.literals| && rp + 9 < n && rp < end == rp + b.matchLength
    ensures forall p: nat :: rp <= p ==> (p in Looked(b, start, n) <==> p == rp || p in Looked(b.rest, end, n))
    ensures forall p: nat :: p in Looked(b.rest, end, n) ==> end <= p
  {
    forall p: nat | p in Looked(b.rest, end, n) ensures end <= p {
      LookedIn(b.rest, end, n, p);
    }
  }

  lemma PlanIsLayout(x: seq<Byte>)
    requires |x| > 0
    ensures Lays(Compressed(x), Plan(x, 0, 0, EmptyTable()))
  {
    hide Plan, Encode;
    FaithfulIsWellFormed(Plan(x, 0, 0, EmptyTable()), x, 0);
  }

  /** The compressed form is the layout of a block in which every position looked at is decided. */
  lemma MatchesAreThoseFound(x: seq<Byte>, b: Block)
    requires Lays(Compressed(x), b)
    ensures forall p: nat :: p in Looked(b, 0, |x|) ==> p + 9 < |x| && Decided(x, Looked(b, 0, |x|), b, 0, p)
  {
    BlockIffNotEmpty(x);
    hide Plan, Looked, Decided, Encode, Compressed;
    PlanIsLayout(x);
    LayoutIsUnambiguous(b, Plan(x, 0, 0, EmptyTable()));
    EmptyRemembers(x);
    forall p: nat | p in Looked(b, 0, |x|) ensures p + 9 < |x| {
      LookedIn(b, 0, |x|, p);
    }
    PlanDecides(x, 0, 0, EmptyTable(), {}, Looked(b, 0, |x|));
  }

  // ---------------------------------------------------------------- that leaves one block only

  /** What was looked at before `start`, and what the block looks at from there on. */
  ghost predicate LooksAt(looked: set<nat>, b: Block, start: nat, n: nat) {
    forall q: nat :: q in looked && start <= q <==> q in Looked(b, start, n)
  }

  ghost predicate SameBelow(looked: set<nat>, looked': set<nat>, p: nat) {
    forall q: nat :: q < p ==> (q in looked <==> q in looked')
  }

  lemma FoundBelow(x: seq<Byte>, looked: set<nat>, looked': set<nat>, p: nat, d: nat)
    requires p + 4 <= |x| && SameBelow(looked, looked', p) && Found(x, looked, p, d)
    ensures Found(x, looked', p, d)
  {
    hide HasSlot, Slot;
    var q: nat :| FoundFrom(x, looked, p, q, d);
    assert FoundFrom(x, looked', p, q, d);
  }

  /** Two blocks look at the same positions up to the nearer of their first matches. */
  lemma LiteralsAgree(looked: set<nat>, looked': set<nat>, b: Block, c: Block, start: nat, n: nat, p: nat)
    requires LooksAt(looked, b, start, n) && LooksAt(looked', c, start, n) && SameBelow(looked, looked', start)
    requires p <= start + |b.literals| && p <= start + |c.literals| && p + 9 < n
    ensures SameBelow(looked, looked', p)
  {
    forall q: nat | q < p ensures q in looked <==> q in looked' {
      if start <= q {
        LiteralLooked(b, start, n, q);
        LiteralLooked(c, start, n, q);
      }
    }
  }

  /** A match of one block is one of the other, if that looks at its start and has decided there. */
  lemma MatchCarries(x: seq<Byte>, b: Block, c: Block, start: nat, looked: set<nat>, looked': set<nat>)
    requires b.More? && LooksAt(looked, b, start, |x|) && LooksAt(looked', c, start, |x|)
    requires start + |b.literals| + 9 < |x| && SameBelow(looked, looked', start + |b.literals|)
    requires DecidedFrom(x, looked, b, start, start) && DecidedFrom(x, looked', c, start, start)
    requires start + |b.literals| in Looked(c, start, |x|)
    ensures MatchAt(c, start, start + |b.literals|, b.offset, b.matchLength)
  {
    hide Found, LongestRun;
    var p := start + |b.literals|;
    assert p in Looked(b, start, |x|);
    assert p in looked && p in looked' && Decided(x, looked, b, start, p) && Decided(x, looked', c, start, p);
    assert MatchAt(b, start, p, b.offset, b.matchLength);
    FoundBelow(x, looked, looked', p, b.offset);
  }

  /** So neither has its first match before the other does. */
  lemma NotBefore(x: seq<Byte>, b: Block, c: Block, start: nat, looked: set<nat>, looked': set<nat>)
    requires b.More? && LooksAt(looked, b, start, |x|) && LooksAt(looked', c, start, |x|)
    requires start + |b.literals| + 9 < |x| && SameBelow(looked, looked', start)
    requires DecidedFrom(x, looked, b, start, start) && DecidedFrom(x, looked', c, start, start)
    ensures |c.literals| <= |b.literals|
  {
    var p := start + |b.literals|;
    if |b.literals| < |c.literals| {
      hide Looked, Decided, MatchAt;
      LiteralsAgree(looked, looked', b, c, start, |x|, p);
      LiteralLooked(c, start, |x|, p);
      MatchCarries(x, b, c, start, looked, looked');
      MatchIsBehind(c, start, p, b.offset, b.matchLength);
    }
  }

  /** From the end of its first match on, a block is decided as before. */
  lemma RestLooks(x: seq<Byte>, b: Block, start: nat, looked: set<nat>, end: nat)
    requires b.More? && b.matchLength > 0 && start + |b.literals| + 9 < |x|
    requires end == start + |b.literals| + b.matchLength
    requires LooksAt(looked, b, start, |x|) && DecidedFrom(x, looked, b, start, start)
    ensures LooksAt(looked, b.rest, end, |x|) && DecidedFrom(x, looked, b.rest, end, end)
    ensures forall q: nat :: start <= q < end ==> (q in looked <==> q <= start + |b.literals|)
  {
    hide Found, LongestRun;
    var at := start + |b.literals|;
    MatchLooked(b, start, |x|, at, end);
    forall q: nat | start <= q < end ensures q in looked <==> q <= at {
      if q < at {
        LiteralLooked(b, start, |x|, q);
      }
    }
    forall p: nat | p in looked && end <= p && p + 4 <= |x| ensures Decided(x, looked, b.rest, end, p) {
      assert Decided(x, looked, b, start, p);
      forall d: nat, length: nat
        ensures MatchAt(b.rest, end, p, d, length) <==> Found(x, looked, p, d) && LongestRun(x, p, d, length)
      {
        assert MatchAt(b, start, p, d, length) <==> MatchAt(b.rest, end, p, d, length);
      }
    }
  }

  lemma {:induction false} OneBlock(x: seq<Byte>, b: Block, c: Block, start: nat, looked: set<nat>, looked': set<nat>)
    requires start <= |x| && Faithful(b, x, start) && Faithful(c, x, start)
    requires LooksAt(looked, b, start, |x|) && LooksAt(looked', c, start, |x|) && SameBelow(looked, looked', start)
    requires DecidedFrom(x, looked, b, start, start) && DecidedFrom(x, looked', c, start, start)
    ensures b == c
    decreases b
  {
    hide Looked, DecidedFrom, LooksAt, Repeats;
    if b.More? {
      NotBefore(x, b, c, start, looked, looked');
    }
    if c.More? {
      NotBefore(x, c, b, start, looked', looked);
    }
    if b.More? && c.More? {
      var at := start + |b.literals|;
      var end := at + b.matchLength;
      LiteralsAgree(looked, looked', b, c, start, |x|, at);
      MatchLooked(c, start, |x|, at, at + c.matchLength);
      MatchCarries(x, b, c, start, looked, looked');
      FirstMatch(c, start, b.offset, b.matchLength);
      RestLooks(x, b, start, looked, end);
      RestLooks(x, c, start, looked', end);
      forall q: nat | q < end ensures q in looked <==> q in looked' {
        assert q < start || start <= q;
      }
      OneBlock(x, b.rest, c.rest, end, looked, looked');
    }
  }

  lemma FirstMatch(b: Block, start: nat, d: nat, length: nat)
    requires b.More? && b.matchLength > 0 && MatchAt(b, start, start + |b.literals|, d, length)
    ensures d == b.offset && length == b.matchLength
  {
    var end := start + |b.literals| + b.matchLength;
    if MatchAt(b.rest, end, start + |b.literals|, d, length) {
      MatchIsBehind(b.rest, end, start + |b.literals|, d, length);
    }
  }

  /** Every position that the block looks at is decided. */
  ghost predicate Greedy(x: seq<Byte>, b: Block) {
    forall p: nat :: p in Looked(b, 0, |x|) ==> p + 9 < |x| && Decided(x, Looked(b, 0, |x|), b, 0, p)
  }

  /** The compressed form is the layout of the one block that cuts the input faithfully and has, at each
      position it looks at, just the match that is found there, as long as it can be. */
  lemma CompressedIff(x: seq<Byte>, b: Block)
    ensures Lays(Compressed(x), b) <==> Faithful(b, x, 0) && Greedy(x, b)
  {
    hide Plan, Looked, Decided, Encode, Compressed;
    if Lays(Compressed(x), b) {
      MatchesAreThoseFound(x, b);
      BlockIffNotEmpty(x);
      PlanIsLayout(x);
      LayoutIsUnambiguous(b, Plan(x, 0, 0, EmptyTable()));
    }
    if Faithful(b, x, 0) && Greedy(x, b) {
      PlanIsLayout(x);
      var c := Plan(x, 0, 0, EmptyTable());
      MatchesAreThoseFound(x, c);
      assert Greedy(x, c);
      OneBlock(x, b, c, 0, Looked(b, 0, |x|), Looked(c, 0, |x|));
    }
  }

  // ---------------------------------------------------------------- an example

  /** "abcd" six times over. */
  function Abcd(): (x: seq<Byte>)
    ensures |x| == 24 && forall i :: 0 <= i < 24 ==> x[i] == 97 + i % 4
  {
    seq(24, i => 97 + i % 4)
  }

  function AbcdBlock(): Block {
    More([97, 98, 99, 100], 4, 15, Last([100, 97, 98, 99, 100], 0))
  }

  lemma AbcdFaithful()
    ensures Faithful(AbcdBlock(), Abcd(), 0)
  {
    var x := Abcd();
    assert x[0..4] == [97, 98, 99, 100] && x[19..] == [100, 97, 98, 99, 100];
    forall i | 4 <= i < 19 ensures Repeated(x, i, 4) {
      assert (i - 4) % 4 == i % 4;
    }
  }

  lemma AbcdWord(p: nat, word: nat)
    requires p <= 4
    requires word == var a: int := Abcd()[p]; var b: int := Abcd()[p + 1];
                     var c: int := Abcd()[p + 2]; var d: int := Abcd()[p + 3];
                     a + b * 0x100 + c * 0x1_0000 + d * 0x100_0000
    ensures Slot(Abcd(), p) == HashIndex(word)
  {
    SlotIsSlot(Abcd(), p);
  }

  lemma HashOf(value: nat, q: nat, n: nat, hash: nat)
    requires value * 0x85EBCA77 == 0x1_0000_0000 * q + n && n < 0x1_0000_0000 && n / 2 % 0x2000 * 2 == hash
    ensures HashIndex(value) == hash
  {
    Remainder(value * 0x85EBCA77, 0x1_0000_0000, q, n);
  }

  /** The slots of its four-byte words. */
  function AbcdSlot(p: nat): nat {
    if p % 4 == 0 then 1302 else if p % 4 == 1 then 1678 else if p % 4 == 2 then 2052 else 11644
  }

  lemma AbcdSlots(p: nat)
    requires p <= 4
    ensures Slot(Abcd(), p) == AbcdSlot(p)
  {
    HashOf(0x64636261, 0x348418BC, 0xC9DE4517, 1302);
    HashOf(0x61646362, 0x32F2DBCF, 0xA10B868E, 1678);
    HashOf(0x62616463, 0x3377365D, 0x2A5CC805, 2052);
    HashOf(0x63626164, 0x33FDA682, 0x2E602D7C, 11644);
    hide HashIndex, Slot;
    if p == 0 || p == 4 {
      AbcdWord(p, 0x6463_6261);
    } else if p == 1 {
      AbcdWord(p, 0x6164_6362);
    } else if p == 2 {
      AbcdWord(p, 0x6261_6463);
    } else {
      AbcdWord(p, 0x6362_6164);
    }
  }

  /** So the first four positions have no previous one, and the fifth has the first. */
  lemma AbcdPrevious(looked: set<nat>, p: nat, q: nat)
    requires p <= 4 && forall r: nat :: r in looked <==> r <= 4
    ensures Previous(Abcd(), looked, p, q) <==> p == 4 && q == 0
  {
    hide Slot, Abcd;
    forall r: nat | r <= 4 ensures Slot(Abcd(), r) == AbcdSlot(r) {
      AbcdSlots(r);
    }
  }

  lemma AbcdRun(length: nat)
    ensures LongestRun(Abcd(), 4, 4, length) <==> length == 15
  {
    var x := Abcd();
    forall i | 4 <= i < 19 ensures x[i] == x[i - 4] {
      assert (i - 4) % 4 == i % 4;
    }
    hide Abcd;
    assert LongestRun(x, 4, 4, 15);
    if LongestRun(x, 4, 4, length) {
      OneLongestRun(x, 4, 4, 15, length);
    }
  }

  lemma AbcdFound(looked: set<nat>, p: nat, d: nat)
    requires p <= 4 && forall q: nat :: q in looked <==> q <= 4
    ensures Found(Abcd(), looked, p, d) <==> p == 4 && d == 4
  {
    var x := Abcd();
    assert x[0..4] == x[4..8];
    hide Previous, Abcd;
    if Found(x, looked, p, d) {
      var q: nat :| FoundFrom(x, looked, p, q, d);
      AbcdPrevious(looked, p, q);
    }
    if p == 4 && d == 4 {
      AbcdPrevious(looked, 4, 0);
      assert FoundFrom(x, looked, 4, 0, 4);
    }
  }

  /** "abcd" six times over is compressed to four literals, a match of 15 bytes at offset 4, and the
      five last literals: 13 bytes in all. */
  lemma AbcdCompressed()
    ensures Compressed(Abcd()) == [0x4B, 97, 98, 99, 100, 4, 0, 0x50, 100, 97, 98, 99, 100]
  {
    var x, b := Abcd(), AbcdBlock();
    var looked := Looked(b, 0, 24);
    assert forall q: nat :: q in looked <==> q <= 4;
    AbcdFaithful();
    hide Found, LongestRun, Abcd, Faithful, Looked;
    forall p: nat | p in looked ensures Decided(x, looked, b, 0, p) {
      forall d: nat, length: nat
        ensures MatchAt(b, 0, p, d, length) <==> Found(x, looked, p, d) && LongestRun(x, p, d, length)
      {
        AbcdFound(looked, p, d);
        AbcdRun(length);
      }
    }
    CompressedIff(x, b);
    AbcdBytes();
  }

  lemma AbcdBytes()
    ensures Encodable(AbcdBlock())
    ensures Encode(AbcdBlock()) == [0x4B, 97, 98, 99, 100, 4, 0, 0x50, 100, 97, 98, 99, 100]
  {
    var last := Last([100, 97, 98, 99, 100], 0);
    assert Encode(last) == [0x50, 100, 97, 98, 99, 100];
    assert AfterLiterals(AbcdBlock()) == [4, 0] + ([] + Encode(last));
    assert TokenOf(AbcdBlock()) == 0x4B;
  }
}
