/** How the compressor cuts its input into sequences: a lossy table from four-byte values to
    16-bit positions, a distance taken modulo 2^16, and a greedy match. */
module Lz4Matcher {
  import opened Basics
  import opened Lz4Format

  const TABLE_SIZE: nat := 0xFFFF / 4
  const NO_ENTRY: nat := 0xFFFF
  const NO_COMPRESS_SIZE: nat := 5
  const TAIL: nat := NO_COMPRESS_SIZE + MATCH_LENGTH

  function ReadU32(x: seq<Byte>, at: nat): (r: nat)
    requires at + 4 <= |x|
    ensures r < 0x1_0000_0000
  {
    var (a: int, b: int, c: int, d: int) := (x[at], x[at + 1], x[at + 2], x[at + 3]);
    a + b * 0x100 + c * 0x1_0000 + d * 0x100_0000
  }

  /** A 32-bit product masked with TABLE_SIZE - 1 = 0x3FFE, that is, its bits 1 to 13. */
  function HashIndex(value: nat): (r: nat)
    ensures r < TABLE_SIZE
  {
    (value * 0x85EBCA77 % 0x1_0000_0000) / 2 % 0x2000 * 2
  }

  /** What every stored position obeys: it is 16 bits wide and, below 2^16, it lies before `rp`. */
  predicate TableOk(table: seq<nat>, rp: nat) {
    |table| == TABLE_SIZE &&
    forall i :: 0 <= i < |table| ==> table[i] <= NO_ENTRY && (table[i] == NO_ENTRY || table[i] < rp)
  }

  lemma TableOkLater(table: seq<nat>, rp: nat, later: nat)
    requires TableOk(table, rp) && rp <= later
    ensures TableOk(table, later)
  {}

  function EmptyTable(): (r: seq<nat>)
    ensures TableOk(r, 0)
  {
    seq(TABLE_SIZE, _ => NO_ENTRY)
  }

  /** The distance as the compressor computes it, in unsigned 16-bit arithmetic. */
  function Distance(rp: nat, entry: nat): (r: nat)
    ensures r <= MAX_OFFSET
  {
    (rp % 0x1_0000 - entry) % 0x1_0000
  }

  lemma {:induction false} DistanceReachesBack(rp: nat, entry: nat)
    requires entry < NO_ENTRY && entry < rp
    ensures Distance(rp, entry) <= rp
  {
    if rp < 0x1_0000 {
      assert Distance(rp, entry) == rp - entry;
    }
  }

  predicate Repeated(x: seq<Byte>, i: nat, distance: nat)
    requires distance <= i < |x|
  {
    x[i] == x[i - distance]
  }

  /** Each of x[from..to] equals the byte `distance` before it. */
  predicate Repeats(x: seq<Byte>, from: nat, to: nat, distance: nat)
    requires distance <= from <= to <= |x|
  {
    forall i :: from <= i < to ==> Repeated(x, i, distance)
  }

  /** Length of the common run of x[a..] and x[a - distance..], with `a` kept below `limit`. */
  function Extension(x: seq<Byte>, a: nat, distance: nat, limit: nat): (r: nat)
    requires distance <= a <= limit <= |x|
    ensures a + r <= limit
    ensures Repeats(x, a, a + r, distance)
    ensures a + r == limit || x[a + r] != x[a + r - distance]
    decreases limit - a
  {
    if a < limit && x[a] == x[a - distance] then 1 + Extension(x, a + 1, distance, limit) else 0
  }

  lemma FourDigits(a: int, b: int, c: int, d: int, a': int, b': int, c': int, d': int)
    requires 0 <= a < 256 && 0 <= b < 256 && 0 <= c < 256 && 0 <= d < 256
    requires 0 <= a' < 256 && 0 <= b' < 256 && 0 <= c' < 256 && 0 <= d' < 256
    requires a + b * 0x100 + c * 0x1_0000 + d * 0x100_0000 == a' + b' * 0x100 + c' * 0x1_0000 + d' * 0x100_0000
    ensures a == a' && b == b' && c == c' && d == d'
  {
    assert d == d';
    assert c == c';
  }

  /** The four-byte reading loses nothing. */
  lemma ReadU32Injective(x: seq<Byte>, a: nat, distance: nat)
    requires distance <= a && a + 4 <= |x| && ReadU32(x, a) == ReadU32(x, a - distance)
    ensures Repeats(x, a, a + 4, distance)
  {
    var b := a - distance;
    FourDigits(x[a], x[a + 1], x[a + 2], x[a + 3], x[b], x[b + 1], x[b + 2], x[b + 3]);
    forall i | a <= i < a + 4 ensures Repeated(x, i, distance) {
      assert i == a || i == a + 1 || i == a + 2 || i == a + 3;
    }
  }

  /** The length of the match at `rp` that the table entry suggests; zero when there is none. */
  function Probe(x: seq<Byte>, rp: nat, entry: nat): (r: nat)
    requires |x| > TAIL && rp < |x| - TAIL
    requires entry <= NO_ENTRY && (entry == NO_ENTRY || entry < rp)
    ensures r > 0 ==> MATCH_LENGTH <= r && rp + r <= |x| - NO_COMPRESS_SIZE
    ensures r > 0 ==> 1 <= Distance(rp, entry) <= rp && Repeats(x, rp, rp + r, Distance(rp, entry))
    ensures var end := rp + r; r > 0 && end < |x| - NO_COMPRESS_SIZE ==> x[end] != x[end - Distance(rp, entry)]
  {
    var d := Distance(rp, entry);
    if entry == NO_ENTRY || d == 0 then 0
    else
      DistanceReachesBack(rp, entry);
      if ReadU32(x, rp - d) != ReadU32(x, rp) then 0
      else
        ReadU32Injective(x, rp, d);
        MATCH_LENGTH + Extension(x, rp + MATCH_LENGTH, d, |x| - NO_COMPRESS_SIZE)
  }

  function SlotOf(x: seq<Byte>, rp: nat): (r: nat)
    requires rp + 4 <= |x|
    ensures r < TABLE_SIZE
  {
    HashIndex(ReadU32(x, rp))
  }

  /** The table after position `rp` has been entered, ready for any later position. */
  function Note(x: seq<Byte>, rp: nat, table: seq<nat>, next: nat): (r: seq<nat>)
    requires rp + 4 <= |x| && TableOk(table, rp) && rp < next
    ensures TableOk(r, next)
  {
    table[SlotOf(x, rp) := rp % 0x1_0000]
  }

  /** The table entry consulted at `rp`. */
  function Entry(x: seq<Byte>, rp: nat, table: seq<nat>): (r: nat)
    requires rp + 4 <= |x| && TableOk(table, rp)
    ensures r <= NO_ENTRY && (r == NO_ENTRY || r < rp)
  {
    table[SlotOf(x, rp)]
  }

  /** `b` cuts x[start..] into literals and true repetitions, in order and without gaps. Every
      match starts at least 10 bytes before the end of the input, reaches back inside it and leaves
      its last 5 bytes alone; only the last sequence is without a match, and it is not empty. */
  predicate Faithful(b: Block, x: seq<Byte>, start: nat)
    requires start <= |x|
  {
    match b
    case Last(literals, spare) => spare == 0 && literals == x[start..] && |literals| > 0
    case More(literals, offset, matchLength, rest) =>
      var at := start + |literals|;
      var end := at + matchLength;
      && at + 10 <= |x| && end + 5 <= |x|
      && literals == x[start..at]
      && MATCH_LENGTH <= matchLength && 1 <= offset <= MAX_OFFSET && offset <= at
      && Repeats(x, at, end, offset)
      && Faithful(rest, x, end)
  }

  /** Copying `length` bytes from `offset` back rebuilds the input, overlapping or not. */
  lemma {:induction false} CopyRebuilds(x: seq<Byte>, at: nat, offset: nat, length: nat)
    requires 1 <= offset <= at && at + length <= |x| && Repeats(x, at, at + length, offset)
    ensures Copy(x[..at], offset, length) == x[..at + length]
    decreases length
  {
    if length > 0 {
      assert Repeated(x, at, offset);
      assert x[..at] + [x[at - offset]] == x[..at + 1];
      CopyRebuilds(x, at + 1, offset, length - 1);
    }
  }

  /** Offsets and lengths fit the format, and no offset reaches before the start of the input. */
  lemma {:induction false} FaithfulIsWellFormed(b: Block, x: seq<Byte>, start: nat)
    requires start <= |x| && Faithful(b, x, start)
    ensures Encodable(b) && Expandable(b, start)
    decreases b
  {
    if b.More? {
      FaithfulIsWellFormed(b.rest, x, start + |b.literals| + b.matchLength);
    }
  }

  lemma JoinSlices(x: seq<Byte>, a: nat, b: nat)
    requires a <= b <= |x|
    ensures x[..a] + x[a..b] == x[..b] && x[a..|x|] == x[a..] && x[..|x|] == x
  {}

  /** An unbounded decoder turns the block back into the input. */
  lemma {:induction false} FaithfulExpands(b: Block, x: seq<Byte>, start: nat)
    requires start <= |x| && Faithful(b, x, start) && Expandable(b, start)
    ensures Expand(x[..start], b) == x
    decreases b
  {
    JoinSlices(x, start, start + |b.literals|);
    if b.More? {
      var at := start + |b.literals|;
      CopyRebuilds(x, at, b.offset, b.matchLength);
      FaithfulExpands(b.rest, x, at + b.matchLength);
    }
  }

  /** The sequences for x[start..], when the scan has reached `rp` and x[start..rp] are pending
      literals. The table is searched and updated at every scanned position, and at no position
      inside a match. */
  function Plan(x: seq<Byte>, start: nat, rp: nat, table: seq<nat>): (b: Block)
    requires start <= rp < |x| && TableOk(table, rp)
    ensures Faithful(b, x, start)
    decreases |x| - rp
  {
    if |x| > TAIL && rp < |x| - TAIL then
      var entry := Entry(x, rp, table);
      var length := Probe(x, rp, entry);
      if length == 0 then Plan(x, start, rp + 1, Note(x, rp, table, rp + 1))
      else
        var end := rp + length;
        More(x[start..rp], Distance(rp, entry), length, Plan(x, end, end, Note(x, rp, table, end)))
    else Last(x[start..], 0)
  }

  /** One step of the scan. */
  lemma PlanStep(x: seq<Byte>, start: nat, rp: nat, table: seq<nat>)
    requires start <= rp < |x| && TableOk(table, rp)
    ensures |x| <= TAIL || |x| - TAIL <= rp ==> Plan(x, start, rp, table) == Last(x[start..], 0)
    ensures |x| > TAIL && rp < |x| - TAIL ==>
              var entry := Entry(x, rp, table);
              var length := Probe(x, rp, entry);
              var end := rp + length;
              Plan(x, start, rp, table) ==
              if length == 0 then Plan(x, start, rp + 1, Note(x, rp, table, rp + 1))
              else More(x[start..rp], Distance(rp, entry), length, Plan(x, end, end, Note(x, rp, table, end)))
  {}

  /** The bytes for x[rp..] when a new sequence starts at `rp`; nothing at the end of the input. */
  function Stream(x: seq<Byte>, rp: nat, table: seq<nat>): (r: seq<Byte>)
    requires rp <= |x| && TableOk(table, rp)
    ensures r == [] <==> rp == |x|
  {
    if rp == |x| then []
    else
      FaithfulIsWellFormed(Plan(x, rp, rp, table), x, rp);
      Encode(Plan(x, rp, rp, table))
  }

  /** The whole compressed form of an input. */
  function Compressed(x: seq<Byte>): seq<Byte> {
    Stream(x, 0, EmptyTable())
  }

  /** A non-empty input compresses to the layout of a block that cuts it faithfully, that an
      unbounded decoder turns back into it, and whose size is bounded. */
  lemma CompressedIsSound(x: seq<Byte>) returns (b: Block)
    requires |x| > 0
    ensures Lays(Compressed(x), b) && Faithful(b, x, 0)
    ensures Expandable(b, 0) && Expand([], b) == x
    ensures |Compressed(x)| <= |x| + |x| / 255 + 2
  {
    b := Plan(x, 0, 0, EmptyTable());
    FaithfulIsWellFormed(b, x, 0);
    assert x[..0] == [];
    FaithfulExpands(b, x, 0);
    EncodedSize(b);
    ExpandLength([], b);
  }

  /** The compressed form is a block exactly when there is something to compress: the empty input
      gives the empty stream, which is the layout of no block. */
  lemma BlockIffNotEmpty(x: seq<Byte>)
    ensures (exists b :: Lays(Compressed(x), b)) <==> |x| > 0
  {
    if |x| > 0 {
      var b := CompressedIsSound(x);
    }
  }

  /** No two inputs have the same compressed form. */
  lemma CompressedIsInjective(x: seq<Byte>, y: seq<Byte>)
    requires Compressed(x) == Compressed(y)
    ensures x == y
  {
    if |x| > 0 && |y| > 0 {
      var b := CompressedIsSound(x);
      var c := CompressedIsSound(y);
      LayoutIsUnambiguous(b, c);
    }
  }
}
