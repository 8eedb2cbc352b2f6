/** The resumable compressor: it can stop after any output byte. */
module Lz4Compressor {
  import opened Basics
  import opened Lz4Format
  import opened Lz4Matcher

  datatype State =
    | FindMatch
    | WriteToken
    | WriteLitLenExtra
    | WriteLiterals
    | WriteOffsetL
    | WriteOffsetH
    | WriteMatchLenExtra
    | Finished

  // ---------------------------------------------------------------- what a state stands for

  /** The fields of a compressor, as a value. */
  datatype Fields = Fields(
    input: seq<Byte>, table: seq<nat>, rp: nat, state: State, litStart: nat, litLen: nat,
    litWrited: nat, offset: nat, litRem: nat, matchRem: nat, matchLen: nat)

  predicate Ok(f: Fields) {
    && f.rp <= |f.input| && TableOk(f.table, f.rp)
    && f.litStart + f.litLen <= |f.input| && f.offset <= MAX_OFFSET
    && (if f.litWrited == 0 then true else f.state == WriteLiterals && f.litWrited < f.litLen)
    && (f.state == Finished ==> f.rp == |f.input|)
    && (f.state != FindMatch && f.state != Finished ==> SequenceOk(f))
  }

  /** What the fields say of the sequence that is being written. */
  predicate SequenceOk(f: Fields) {
    && (if f.matchLen == 0 then f.rp == |f.input| && f.litLen > 0 else MATCH_LENGTH <= f.matchLen && f.rp < |f.input|)
    && (f.state == WriteOffsetL || f.state == WriteOffsetH || f.state == WriteMatchLenExtra ==> f.matchLen > 0)
    && (f.state == WriteMatchLenExtra ==> f.matchLen >= MATCH_LENGTH + 15)
    && (f.state != WriteToken && f.state != WriteMatchLenExtra && f.matchLen >= MATCH_LENGTH + 15
        ==> f.matchRem == f.matchLen - MATCH_LENGTH - 15)
  }

  /** The bytes after the current sequence. */
  function Later(f: Fields): seq<Byte>
    requires Ok(f)
  {
    Stream(f.input, f.rp, f.table)
  }

  function MatchBytes(offset: nat, matchLen: nat, later: seq<Byte>): seq<Byte>
    requires offset <= MAX_OFFSET && (matchLen == 0 || MATCH_LENGTH <= matchLen)
  {
    if matchLen == 0 then [] else OffsetBytes(offset) + (Excess(matchLen - MATCH_LENGTH) + later)
  }

  function MatchPart(f: Fields): seq<Byte>
    requires Ok(f) && f.state != FindMatch && f.state != Finished
  {
    MatchBytes(f.offset, f.matchLen, Later(f))
  }

  function LiteralsAndMatch(f: Fields): seq<Byte>
    requires Ok(f) && f.state != FindMatch && f.state != Finished
  {
    f.input[f.litStart + f.litWrited..f.litStart + f.litLen] + MatchPart(f)
  }

  /** Everything the compressor has still to write. */
  function Pending(f: Fields): seq<Byte>
    requires Ok(f)
  {
    match f.state
    case FindMatch => Later(f)
    case WriteToken => [TokenByte(f)] + (Excess(f.litLen) + LiteralsAndMatch(f))
    case WriteLitLenExtra => Run(f.litRem) + LiteralsAndMatch(f)
    case WriteLiterals => LiteralsAndMatch(f)
    case WriteOffsetL => MatchPart(f)
    case WriteOffsetH => [OffsetBytes(f.offset)[1]] + (Excess(f.matchLen - MATCH_LENGTH) + Later(f))
    case WriteMatchLenExtra => Run(f.matchRem) + Later(f)
    case Finished => []
  }

  function TokenByte(f: Fields): Byte
    requires Ok(f) && f.state == WriteToken
  {
    Token(Nibble(f.litLen), if f.matchLen == 0 then 0 else Nibble(f.matchLen - MATCH_LENGTH))
  }

  /** With the sequence `b` opens stored in the fields, what is pending is the layout of `b`. */
  lemma PendingIsLayout(f: Fields, b: Block)
    requires Ok(f) && f.state == WriteToken && Faithful(b, f.input, f.litStart)
    requires b.literals == f.input[f.litStart..f.litStart + f.litLen]
    requires if f.matchLen == 0 then b.Last?
             else b == More(b.literals, f.offset, f.matchLen, Plan(f.input, f.rp, f.rp, f.table))
    ensures Encodable(b) && Pending(f) == Encode(b)
  {
    hide Plan, TableOk, Token, Nibble, Excess, OffsetBytes, Repeats, Expandable;
    FaithfulIsWellFormed(b, f.input, f.litStart);
    hide Faithful;
    RestIsLayout(f, b);
    assert TokenOf(b) == TokenByte(f);
    hide MatchPart, AfterLiterals, Ok, Plan, TokenOf;
    assert LiteralsAndMatch(f) == b.literals + AfterLiterals(b);
  }

  lemma RestIsLayout(f: Fields, b: Block)
    requires Ok(f) && f.state == WriteToken && Encodable(b)
    requires if f.matchLen == 0 then b.Last?
             else b == More(b.literals, f.offset, f.matchLen, Plan(f.input, f.rp, f.rp, f.table))
    ensures AfterLiterals(b) == MatchPart(f)
  {
    hide Plan, TableOk, Token, Nibble, Excess, OffsetBytes;
  }

  lemma PendingAtStart(f: Fields)
    requires Ok(f) && f.state == FindMatch && f.rp < |f.input|
    ensures var b := Plan(f.input, f.rp, f.rp, f.table); Encodable(b) && Pending(f) == Encode(b)
  {
    hide Plan;
    FaithfulIsWellFormed(Plan(f.input, f.rp, f.rp, f.table), f.input, f.rp);
  }

  lemma FinishStep(f: Fields, g: Fields)
    requires Ok(f) && f.state == FindMatch && f.rp >= |f.input| && g == f.(state := Finished)
    ensures Ok(g) && Pending(f) == [] + Pending(g)
  {
    hide Plan;
  }

  lemma NothingPending(f: Fields)
    requires Ok(f) && f.state == Finished
    ensures Pending(f) == []
  {}

  lemma TokenStep(f: Fields, g: Fields)
    requires Ok(f) && f.state == WriteToken
    requires g == f.(
      litRem := if f.litLen >= 15 then f.litLen - 15 else 0,
      matchRem := if f.matchLen >= MATCH_LENGTH + 15 then f.matchLen - MATCH_LENGTH - 15 else 0,
      state := if f.litLen >= 15 then WriteLitLenExtra else WriteLiterals)
    ensures Ok(g) && Pending(f) == [TokenByte(f)] + Pending(g)
  {
    hide Stream, TableOk, Token, Nibble, MatchBytes, Run, Excess, TokenByte;
    var rest := LiteralsAndMatch(f);
    ExcessCases(f.litLen, rest);
    assert LiteralsAndMatch(g) == rest;
    assert Pending(g) == if f.litLen < 15 then rest else Run(f.litLen - 15) + rest;
  }

  lemma LengthStep(f: Fields, g: Fields, some: seq<Byte>)
    requires Ok(f) && f.state == WriteLitLenExtra
    requires (some == Run(f.litRem) && g == f.(litRem := 0, state := WriteLiterals)) ||
             (g == f.(litRem := g.litRem) && Run(f.litRem) == some + Run(g.litRem))
    ensures Ok(g) && Pending(f) == some + Pending(g)
  {
    hide Stream, TableOk, MatchBytes, Token, Run;
  }

  lemma MatchLengthStep(f: Fields, g: Fields, some: seq<Byte>)
    requires Ok(f) && f.state == WriteMatchLenExtra
    requires (some == Run(f.matchRem) && g == f.(matchRem := 0, state := FindMatch)) ||
             (g == f.(matchRem := g.matchRem) && Run(f.matchRem) == some + Run(g.matchRem))
    ensures Ok(g) && Pending(f) == some + Pending(g)
  {
    hide Stream, Token, Run;
  }

  lemma LiteralStep(f: Fields, g: Fields, n: nat)
    requires Ok(f) && f.state == WriteLiterals && n <= f.litLen - f.litWrited
    requires if f.litWrited + n < f.litLen then g == f.(litWrited := f.litWrited + n)
             else g == f.(litWrited := 0, state := if f.matchLen > 0 then WriteOffsetL else FindMatch)
    ensures Ok(g)
    ensures Pending(f) == f.input[f.litStart + f.litWrited..f.litStart + f.litWrited + n] + Pending(g)
  {
    hide Stream, TableOk, Token, Nibble, OffsetBytes, Excess, Run;
    var a, b := f.litStart + f.litWrited, f.litStart + f.litLen;
    assert f.input[a..b] == f.input[a..a + n] + f.input[a + n..b];
    if a + n == b {
      assert Pending(g) == MatchPart(f);
    } else {
      assert Pending(g) == f.input[a + n..b] + MatchPart(f);
    }
  }

  lemma OffsetStep(f: Fields, g: Fields)
    requires Ok(f) && (f.state == WriteOffsetL || f.state == WriteOffsetH)
    requires g == f.(state :=
      if f.state == WriteOffsetL then WriteOffsetH
      else if f.matchLen - MATCH_LENGTH >= 15 then WriteMatchLenExtra else FindMatch)
    ensures Ok(g)
    ensures Pending(f) == [OffsetBytes(f.offset)[if f.state == WriteOffsetL then 0 else 1]] + Pending(g)
  {
    hide Stream, Token, Run;
    var bytes := OffsetBytes(f.offset);
    assert bytes == [bytes[0]] + [bytes[1]];
  }

  // ---------------------------------------------------------------- the object

  class Compressor {
    const input: seq<Byte>
    const hashTable: array<nat>
    var rp: nat
    var litStart: nat
    var state: State
    var litLen: nat
    var litWrited: nat
    var offset: nat
    var litRem: nat
    var matchRem: nat
    var matchLen: nat

    ghost function Value(): Fields
      reads this, hashTable
    {
      Fields(input, hashTable[..], rp, state, litStart, litLen, litWrited, offset, litRem, matchRem, matchLen)
    }

    ghost predicate Valid()
      reads this, hashTable
    {
      Ok(Value())
    }

    /** Everything that is still to be written. It is a function of the position in the input and of
        the table: the buffers used so far play no part in it. */
    ghost function ToWrite(): seq<Byte>
      requires Valid()
      reads this, hashTable
    {
      Pending(Value())
    }

    /** A fresh compressor whose input has been set. */
    constructor (x: seq<Byte>)
      ensures Valid() && fresh(hashTable) && input == x
      ensures ToWrite() == Compressed(x)
    {
      input := x;
      hashTable := new nat[TABLE_SIZE](_ => NO_ENTRY);
      rp, litStart, litLen, litWrited, offset, litRem, matchRem, matchLen := 0, 0, 0, 0, 0, 0, 0, 0;
      state := FindMatch;
      new;
      assert hashTable[..] == EmptyTable();
    }

    // -------------------------------------------------------------- the search

    /** The entry stored for the four bytes at `rp`, which `rp` then replaces. */
    method SwapEntry() returns (entry: nat)
      requires TableOk(hashTable[..], rp) && rp + 4 <= |input|
      modifies hashTable
      ensures entry == Entry(input, rp, old(hashTable[..]))
      ensures forall next :: rp < next ==> hashTable[..] == Note(input, rp, old(hashTable[..]), next)
    {
      var index := HashIndex(ReadU32(input, rp));
      entry := hashTable[index];
      hashTable[index] := rp % 0x1_0000;
    }

    /** The length of the match that `entry` leads to from `rp`, zero for none, and its distance. */
    method MatchFrom(entry: nat) returns (length: nat, distance: nat)
      requires |input| > TAIL && rp < |input| - TAIL
      requires entry <= NO_ENTRY && (entry == NO_ENTRY || entry < rp)
      ensures length == Probe(input, rp, entry)
      ensures length > 0 ==> distance == Distance(rp, entry)
    {
      length, distance := 0, 0;
      if entry == NO_ENTRY {
        return;
      }
      assert rp >= entry;
      distance := Distance(rp, entry);
      if distance == 0 {
        return;
      }
      DistanceReachesBack(rp, entry);
      if ReadU32(input, rp - distance) != ReadU32(input, rp) {
        return;
      }
      var matched := ExtendMatch(input, rp + MATCH_LENGTH, rp - distance + MATCH_LENGTH, |input| - NO_COMPRESS_SIZE);
      length := MATCH_LENGTH + matched;
    }

    /** Advances `rp` to the next match, or to the tail of the input when the length is zero. */
    method Scan() returns (length: nat, distance: nat)
      requires rp < |input| && TableOk(hashTable[..], rp)
      modifies `rp, hashTable
      ensures old(rp) <= rp && rp + length < |input| && TableOk(hashTable[..], rp + length)
      ensures Plan(input, old(rp), old(rp), old(hashTable[..])) ==
              if length == 0 then Last(input[old(rp)..], 0)
              else More(input[old(rp)..rp], distance, length, Plan(input, rp + length, rp + length, hashTable[..]))
      ensures length > 0 ==> MATCH_LENGTH <= length && distance <= MAX_OFFSET
    {
      hide Plan, Probe, Entry, Note, Distance, TableOk;
      length, distance := 0, 0;
      while |input| > TAIL && rp < |input| - TAIL
        invariant old(rp) <= rp < |input| && TableOk(hashTable[..], rp)
        invariant Plan(input, old(rp), old(rp), old(hashTable[..])) == Plan(input, old(rp), rp, hashTable[..])
        decreases |input| - rp
      {
        PlanStep(input, old(rp), rp, hashTable[..]);
        var entry := SwapEntry();
        length, distance := MatchFrom(entry);
        if length > 0 {
          return;
        }
        rp := rp + 1;
      }
      PlanStep(input, old(rp), rp, hashTable[..]);
      length := 0;
    }

    /** Finds the next sequence and stores it in the fields; what is to be written stays the same. */
    method FindNextMatch()
      requires Valid() && state == FindMatch && rp < |input|
      modifies this, hashTable
      ensures Valid() && state == WriteToken
      ensures ToWrite() == old(ToWrite())
    {
      hide Plan, Encode, Encodable, Faithful, TableOk, Pending;
      PendingAtStart(Value());
      ghost var plan := Plan(input, rp, rp, hashTable[..]);
      litStart := rp;
      var length, distance := Scan();
      if length > 0 {
        litLen := rp - litStart;
        matchLen := length;
        offset := distance;
        rp := rp + length;
      } else {
        litLen := |input| - litStart;
        matchLen := 0;
        offset := 0;
        TableOkLater(hashTable[..], rp, |input|);
        rp := |input|;
      }
      state := WriteToken;
      PendingIsLayout(Value(), plan);
    }

    // -------------------------------------------------------------- the writers

    ghost predicate Room(out: array<Byte>, at: nat)
      reads this
    {
      at < out.Length && (out as object) != hashTable
    }

    /** `count` bytes of what was to be written went to out[at..]; the rest is still to be written. */
    twostate predicate Wrote(out: array<Byte>, at: nat, count: nat)
      requires old(Valid())
      reads this, hashTable, out
    {
      && Valid() && at + count <= out.Length
      && out[..at] == old(out[..at])
      && old(ToWrite()) == out[at..at + count] + ToWrite()
    }

    method WriteTok(out: array<Byte>, at: nat) returns (writed: nat)
      requires Valid() && Room(out, at) && state == WriteToken
      modifies this, out
      ensures Wrote(out, at, writed) && writed == 1
    {
      hide Pending;
      ghost var before := Value();
      var litTok, matchTok;
      if litLen >= 15 {
        litTok := 15;
        litRem := litLen - 15;
      } else {
        litTok := litLen;
        litRem := 0;
      }
      var tokenMatch := if matchLen == 0 then 0 else matchLen - MATCH_LENGTH;
      if tokenMatch >= 15 {
        matchTok := 15;
        matchRem := tokenMatch - 15;
      } else {
        matchTok := tokenMatch;
        matchRem := 0;
      }
      state := if litLen >= 15 then WriteLitLenExtra else WriteLiterals;
      out[at] := Token(litTok, matchTok);
      writed := 1;
      TokenStep(before, Value());
    }

    method WriteLitLen(out: array<Byte>, at: nat) returns (writed: nat)
      requires Valid() && Room(out, at) && state == WriteLitLenExtra
      modifies this, out
      ensures Wrote(out, at, writed) && writed > 0
    {
      hide Pending;
      ghost var before := Value();
      writed, litRem := WriteRun(out, at, litRem);
      if at + writed < out.Length {
        out[at + writed] := litRem;
        writed := writed + 1;
        state := WriteLiterals;
        litRem := 0;
      }
      LengthStep(before, Value(), out[at..at + writed]);
    }

    method WriteMatchLen(out: array<Byte>, at: nat) returns (writed: nat)
      requires Valid() && Room(out, at) && state == WriteMatchLenExtra
      modifies this, out
      ensures Wrote(out, at, writed) && writed > 0
    {
      hide Pending;
      ghost var before := Value();
      writed, matchRem := WriteRun(out, at, matchRem);
      if at + writed < out.Length {
        out[at + writed] := matchRem;
        writed := writed + 1;
        state := FindMatch;
        matchRem := 0;
      }
      MatchLengthStep(before, Value(), out[at..at + writed]);
    }

    method WriteLit(out: array<Byte>, at: nat) returns (writed: nat)
      requires Valid() && Room(out, at) && state == WriteLiterals
      modifies this, out
      ensures Wrote(out, at, writed)
      ensures writed == 0 ==> state == WriteOffsetL
    {
      hide Pending, TableOk;
      ghost var before := Value();
      var writeRem := litLen - litWrited;
      writed := if out.Length - at < writeRem then out.Length - at else writeRem;
      CopyBytes(out, at, input[litStart + litWrited..litStart + litWrited + writed]);
      litWrited := litWrited + writed;
      if litWrited == litLen {
        litWrited := 0;
        state := if matchLen > 0 then WriteOffsetL else FindMatch;
      }
      LiteralStep(before, Value(), writed);
    }

    method WriteOffset(out: array<Byte>, at: nat) returns (writed: nat)
      requires Valid() && Room(out, at) && (state == WriteOffsetL || state == WriteOffsetH)
      modifies this, out
      ensures Wrote(out, at, writed) && writed == 1
    {
      hide Pending, TableOk;
      ghost var before := Value();
      if state == WriteOffsetL {
        out[at] := offset % 256;
        state := WriteOffsetH;
      } else {
        out[at] := offset / 256;
        state := if matchLen - MATCH_LENGTH >= 15 then WriteMatchLenExtra else FindMatch;
      }
      writed := 1;
      OffsetStep(before, Value());
    }

    /** One round of the machine. */
    method Step(out: array<Byte>, at: nat) returns (writed: nat)
      requires Valid() && Room(out, at) && state != Finished
      modifies this, out, hashTable
      ensures Wrote(out, at, writed)
      ensures writed > 0 || Rank() < old(Rank())
    {
      hide Ok, Pending;
      writed := 0;
      match state {
        case FindMatch =>
          ghost var before := Value();
          if rp >= |input| {
            state := Finished;
            FinishStep(before, Value());
          } else {
            FindNextMatch();
          }
        case WriteToken => writed := WriteTok(out, at);
        case WriteLitLenExtra => writed := WriteLitLen(out, at);
        case WriteLiterals => writed := WriteLit(out, at);
        case WriteOffsetL => writed := WriteOffset(out, at);
        case WriteOffsetH => writed := WriteOffset(out, at);
        case WriteMatchLenExtra => writed := WriteMatchLen(out, at);
      }
    }

    /** Fills `out` from the front until it is full or nothing is left to write. */
    method Compress(out: array<Byte>) returns (writed: nat)
      requires Valid() && (out as object) != hashTable
      modifies this, out, hashTable
      ensures Wrote(out, 0, writed)
      ensures writed < out.Length ==> ToWrite() == []
    {
      hide Ok, Pending;
      writed := 0;
      while writed < out.Length && state != Finished
        invariant writed <= out.Length && Wrote(out, 0, writed)
        decreases out.Length - writed, Rank()
      {
        ghost var written, left := out[..writed], ToWrite();
        var current := Step(out, writed);
        assert out[..writed + current] == written + out[writed..writed + current];
        writed := writed + current;
      }
      if state == Finished {
        NothingPending(Value());
      }
    }

    /** Falls at each step that writes nothing. */
    ghost function Rank(): nat
      reads this
    {
      if state == FindMatch || state == WriteLiterals then 2 else if state == Finished then 0 else 1
    }
  }

  /** Counts how far x[current..] agrees with x[prev..] below `limit`. */
  method ExtendMatch(x: seq<Byte>, current: nat, prev: nat, limit: nat) returns (matched: nat)
    requires prev <= current <= limit <= |x|
    ensures matched == Extension(x, current, current - prev, limit)
  {
    matched := 0;
    var apos, bpos := current, prev;
    while apos < limit
      invariant apos <= limit && apos - bpos == current - prev && apos == current + matched
      invariant Extension(x, current, current - prev, limit) == matched + Extension(x, apos, apos - bpos, limit)
    {
      if x[apos] != x[bpos] {
        break;
      }
      apos, bpos, matched := apos + 1, bpos + 1, matched + 1;
    }
  }

  method CopyBytes(out: array<Byte>, at: nat, bytes: seq<Byte>)
    requires at + |bytes| <= out.Length
    modifies out
    ensures out[..at] == old(out[..at]) && out[at..at + |bytes|] == bytes
  {
    forall i | 0 <= i < |bytes| {
      out[at + i] := bytes[i];
    }
  }

  /** Writes the 255s of a run at out[at..] while there is room; what is left is below 255, or the
      buffer is full. */
  method WriteRun(out: array<Byte>, at: nat, length: nat) returns (writed: nat, left: nat)
    requires at < out.Length
    modifies out
    ensures at + writed <= out.Length && out[..at] == old(out[..at])
    ensures Run(length) == out[at..at + writed] + Run(left)
    ensures if at + writed < out.Length then left < 255 else writed > 0
  {
    writed, left := 0, length;
    while at + writed < out.Length && left >= 255
      invariant at + writed <= out.Length && out[..at] == old(out[..at])
      invariant Run(length) == out[at..at + writed] + Run(left)
      decreases left
    {
      ghost var before := out[at..at + writed];
      out[at + writed] := 255;
      writed, left := writed + 1, left - 255;
      assert out[at..at + writed] == before + [255];
    }
  }
}
