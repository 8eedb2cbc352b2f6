/** The LZ4 block format: what a block is, how it is laid out in bytes and what it expands to.
    Nothing here depends on how the compressor finds matches or on how the decompressor
    remembers its output; both are later proved against these definitions. */
module Lz4Format {
  import opened Basics

  const MATCH_LENGTH: nat := 4
  const MAX_OFFSET: nat := 0xFFFF

  /** A block is a run of sequences; the last one has literals only. `spare` is the low nibble of
      the last token, which encoders leave at zero and decoders ignore. */
  datatype Block =
    | Last(literals: seq<Byte>, spare: nat)
    | More(literals: seq<Byte>, offset: nat, matchLength: nat, rest: Block)

  // ---------------------------------------------------------------- layout in bytes

  function Nibble(n: nat): (r: nat)
    ensures r <= 15
  {
    if n < 15 then n else 15
  }

  function Token(high: nat, low: nat): Byte
    requires high <= 15 && low <= 15
  {
    high * 16 + low
  }

  function High(token: Byte): (r: nat)
    ensures r <= 15
  {
    token / 16
  }

  function Low(token: Byte): (r: nat)
    ensures r <= 15
  {
    token % 16
  }

  lemma TokenParts(high: nat, low: nat)
    requires high <= 15 && low <= 15
    ensures var token: int := Token(high, low); token / 16 == high && token % 16 == low
    ensures High(Token(high, low)) == high && Low(Token(high, low)) == low
  {}

  /** Offsets are little-endian. */
  function OffsetBytes(offset: nat): (r: seq<Byte>)
    requires offset <= MAX_OFFSET
    ensures |r| == 2
  {
    [offset % 256, offset / 256]
  }

  function OffsetOf(low: Byte, high: Byte): (r: nat)
    ensures r <= MAX_OFFSET
  {
    var (l: int, h: int) := (low, high);
    l + h * 256
  }

  lemma OffsetParts(offset: nat)
    requires offset <= MAX_OFFSET
    ensures var (low: int, high: int) := (OffsetBytes(offset)[0], OffsetBytes(offset)[1]);
            low + 256 * high == offset
    ensures OffsetOf(OffsetBytes(offset)[0], OffsetBytes(offset)[1]) == offset
  {}

  /** A run of 255s closed by a smaller byte. */
  function Run(n: nat): seq<Byte> {
    if n < 255 then [n] else [255] + Run(n - 255)
  }

  /** All bytes of a run are 255 but the last, which is smaller, and they add up. */
  lemma {:induction false} RunBytes(n: nat)
    ensures var r := Run(n);
            |r| == n / 255 + 1 && r[|r| - 1] == n % 255 && forall i :: 0 <= i < |r| - 1 ==> r[i] == 255
  {
    if n >= 255 {
      RunBytes(n - 255);
      assert n / 255 == (n - 255) / 255 + 1 && n % 255 == (n - 255) % 255;
    }
  }

  /** The length bytes that follow a nibble: none below 15, otherwise the excess. */
  function Excess(n: nat): seq<Byte> {
    if n < 15 then [] else Run(n - 15)
  }

  lemma ExcessCases(n: nat, rest: seq<Byte>)
    ensures Excess(n) + rest == if n < 15 then rest else Run(n - 15) + rest
  {}

  /** Everything of a block after the literals of its first sequence. */
  function AfterLiterals(b: Block): seq<Byte>
    requires Encodable(b)
    decreases b, 0
  {
    match b
    case Last(_, _) => []
    case More(_, offset, matchLength, rest) =>
      OffsetBytes(offset) + (Excess(matchLength - MATCH_LENGTH) + Encode(rest))
  }

  function TokenOf(b: Block): Byte
    requires Encodable(b)
  {
    match b
    case Last(literals, spare) => Token(Nibble(|literals|), spare)
    case More(literals, _, matchLength, _) => Token(Nibble(|literals|), Nibble(matchLength - MATCH_LENGTH))
  }

  function Encode(b: Block): (r: seq<Byte>)
    requires Encodable(b)
    ensures |r| > 0
    decreases b, 1
  {
    [TokenOf(b)] + (Excess(|b.literals|) + (b.literals + AfterLiterals(b)))
  }

  /** The fields fit where the layout puts them. */
  predicate Encodable(b: Block) {
    match b
    case Last(_, spare) => spare <= 15
    case More(_, offset, matchLength, rest) =>
      offset <= MAX_OFFSET && MATCH_LENGTH <= matchLength && Encodable(rest)
  }

  // ---------------------------------------------------------------- meaning

  /** Repeats, one byte at a time, what lies `offset` bytes back. */
  function Copy(history: seq<Byte>, offset: nat, length: nat): (r: seq<Byte>)
    requires 1 <= offset <= |history|
    ensures |r| == |history| + length
    decreases length
  {
    if length == 0 then history
    else Copy(history + [history[|history| - offset]], offset, length - 1)
  }

  /** Every offset stays inside what has been output before it; `produced` bytes precede the block. */
  predicate Expandable(b: Block, produced: nat) {
    match b
    case Last(_, _) => true
    case More(literals, offset, matchLength, rest) =>
      1 <= offset <= MAX_OFFSET && offset <= produced + |literals| &&
      Expandable(rest, produced + |literals| + matchLength)
  }

  /** The output of a decoder that keeps its whole output as history. */
  function Expand(history: seq<Byte>, b: Block): seq<Byte>
    requires Expandable(b, |history|)
    decreases b
  {
    match b
    case Last(literals, _) => history + literals
    case More(literals, offset, matchLength, rest) =>
      Expand(Copy(history + literals, offset, matchLength), rest)
  }

  // ---------------------------------------------------------------- unambiguous layout

  /** `bytes` is the layout of `b`. */
  predicate Lays(bytes: seq<Byte>, b: Block) {
    Encodable(b) && Encode(b) == bytes
  }

  lemma {:induction false} RunIsPrefixFree(m: nat, x: seq<Byte>, n: nat, y: seq<Byte>)
    requires Run(m) + x == Run(n) + y
    ensures m == n && x == y
    decreases m
  {
    var whole := Run(m) + x;
    assert whole[0] == Run(m)[0] && whole[0] == Run(n)[0];
    assert whole[1..] == Run(m)[1..] + x && whole[1..] == Run(n)[1..] + y;
    if m >= 255 {
      RunIsPrefixFree(m - 255, x, n - 255, y);
    }
  }

  lemma ExcessIsPrefixFree(m: nat, x: seq<Byte>, n: nat, y: seq<Byte>)
    requires Nibble(m) == Nibble(n) && Excess(m) + x == Excess(n) + y
    ensures m == n && x == y
  {
    if m < 15 {
      assert Excess(m) + x == x && Excess(n) + y == y;
    } else {
      RunIsPrefixFree(m - 15, x, n - 15, y);
    }
  }

  lemma SplitSame(p: seq<Byte>, x: seq<Byte>, q: seq<Byte>, y: seq<Byte>)
    requires |p| == |q| && p + x == q + y
    ensures p == q && x == y
  {
    assert (p + x)[..|p|] == p && (q + y)[..|q|] == q;
    assert (p + x)[|p|..] == x && (q + y)[|q|..] == y;
  }

  /** A byte string is the layout of at most one block. */
  lemma {:induction false} LayoutIsUnambiguous(b: Block, c: Block)
    requires Encodable(b) && Encodable(c) && Encode(b) == Encode(c)
    ensures b == c
    decreases b, 1
  {
    var bBody, cBody := b.literals + AfterLiterals(b), c.literals + AfterLiterals(c);
    SplitSame([TokenOf(b)], Excess(|b.literals|) + bBody, [TokenOf(c)], Excess(|c.literals|) + cBody);
    assert [TokenOf(b)][0] == [TokenOf(c)][0];
    SameTokens(b, c);
    ExcessIsPrefixFree(|b.literals|, bBody, |c.literals|, cBody);
    SplitSame(b.literals, AfterLiterals(b), c.literals, AfterLiterals(c));
    if b.More? {
      AfterLiteralsIsUnambiguous(b, c);
    }
  }

  lemma SameTokens(b: Block, c: Block)
    requires Encodable(b) && Encodable(c) && TokenOf(b) == TokenOf(c)
    ensures Nibble(|b.literals|) == Nibble(|c.literals|)
    ensures b.Last? && c.Last? ==> b.spare == c.spare
    ensures b.More? && c.More? ==> Nibble(b.matchLength - MATCH_LENGTH) == Nibble(c.matchLength - MATCH_LENGTH)
  {}

  lemma {:induction false} AfterLiteralsIsUnambiguous(b: Block, c: Block)
    requires Encodable(b) && Encodable(c) && b.More? && c.More?
    requires Nibble(b.matchLength - MATCH_LENGTH) == Nibble(c.matchLength - MATCH_LENGTH)
    requires AfterLiterals(b) == AfterLiterals(c)
    ensures b.offset == c.offset && b.matchLength == c.matchLength && b.rest == c.rest
    decreases b, 0
  {
    var bMore := Excess(b.matchLength - MATCH_LENGTH) + Encode(b.rest);
    var cMore := Excess(c.matchLength - MATCH_LENGTH) + Encode(c.rest);
    SameOffsets(b.offset, bMore, c.offset, cMore);
    ExcessIsPrefixFree(b.matchLength - MATCH_LENGTH, Encode(b.rest), c.matchLength - MATCH_LENGTH, Encode(c.rest));
    LayoutIsUnambiguous(b.rest, c.rest);
  }

  lemma SameOffsets(m: nat, x: seq<Byte>, n: nat, y: seq<Byte>)
    requires m <= MAX_OFFSET && n <= MAX_OFFSET && OffsetBytes(m) + x == OffsetBytes(n) + y
    ensures m == n && x == y
  {
    SplitSame(OffsetBytes(m), x, OffsetBytes(n), y);
    OffsetParts(m);
    OffsetParts(n);
  }

  // ---------------------------------------------------------------- sizes

  function ExpandedLength(b: Block): nat {
    match b
    case Last(literals, _) => |literals|
    case More(literals, _, matchLength, rest) => |literals| + matchLength + ExpandedLength(rest)
  }

  lemma {:induction false} RunLength(n: nat)
    ensures |Run(n)| == n / 255 + 1
  {
    if n >= 255 {
      RunLength(n - 255);
    }
  }

  lemma ExcessLength(n: nat)
    ensures |Excess(n)| == if n < 15 then 0 else (n - 15) / 255 + 1
  {
    if n >= 15 {
      RunLength(n - 15);
    }
  }

  /** The cost of a block is bounded by the bytes it stands for. */
  lemma {:induction false} EncodedSize(b: Block)
    requires Encodable(b)
    ensures |Encode(b)| <= ExpandedLength(b) + ExpandedLength(b) / 255 + 2
    decreases b
  {
    match b
    case Last(literals, _) =>
      ExcessLength(|literals|);
    case More(literals, _, matchLength, rest) =>
      EncodedSize(rest);
      ExcessLength(|literals|);
      ExcessLength(matchLength - MATCH_LENGTH);
      var here, there := |literals| + matchLength, ExpandedLength(rest);
      assert |Excess(|literals|)| + |Excess(matchLength - MATCH_LENGTH)| + 3 <= matchLength + here / 255;
      assert here / 255 + there / 255 <= (here + there) / 255;
  }

  lemma {:induction false} ExpandLength(history: seq<Byte>, b: Block)
    requires Expandable(b, |history|)
    ensures |Expand(history, b)| == |history| + ExpandedLength(b)
    decreases b
  {
    match b
    case Last(_, _) =>
    case More(literals, offset, matchLength, rest) =>
      ExpandLength(Copy(history + literals, offset, matchLength), rest);
  }
}
