/** The resumable decompressor: it remembers the last 65536 bytes of its output in a ring. */
module Lz4Decompressor {
  import opened Basics
  import opened Lz4Format

  const WINDOW_SIZE: nat := 0x1_0000

  datatype State =
    | ReadToken
    | ReadLitExtra
    | ReadLiterals
    | ReadOffsetL
    | ReadOffsetH
    | ReadMatchExtra
    | Decompress
    | Finished

  // ---------------------------------------------------------------- what a state stands for

  /** The fields of a decompressor, with two that only the proof has: `history` is the whole
      output so far, and `todo` is what remains of the block to be put out. */
  datatype Fields = Fields(
    input: seq<Byte>, rp: nat, state: State, litRem: nat, matchLen: nat, off: nat, matchOff: nat,
    history: seq<Byte>, todo: Block)

  /** The unread input is what the state expects, and every offset to come reaches known output. */
  predicate Ok(f: Fields) {
    && f.rp <= |f.input| && Expandable(f.todo, |f.history|)
    && match f.state
       case ReadToken => Lays(f.input[f.rp..], f.todo)
       case ReadLitExtra =>
         && Encodable(f.todo) && f.litRem == 15 && |f.todo.literals| >= 15 && ShortMatch(f)
         && f.input[f.rp..] == Run(|f.todo.literals| - 15) + (f.todo.literals + AfterLiterals(f.todo))
       case ReadLiterals =>
         && Encodable(f.todo) && f.litRem == |f.todo.literals| && ShortMatch(f)
         && f.input[f.rp..] == f.todo.literals + AfterLiterals(f.todo)
       case ReadOffsetL =>
         && Encodable(f.todo) && f.todo.More? && f.todo.literals == [] && ShortMatch(f) && f.off == 0
         && f.input[f.rp..] == OffsetBytes(f.todo.offset) + Tail(f.todo)
       case ReadOffsetH =>
         && Encodable(f.todo) && f.todo.More? && f.todo.literals == [] && ShortMatch(f)
         && f.off == OffsetBytes(f.todo.offset)[0]
         && f.input[f.rp..] == [OffsetBytes(f.todo.offset)[1]] + Tail(f.todo)
       case ReadMatchExtra =>
         && Encodable(f.todo) && f.todo.More? && f.todo.literals == [] && f.matchOff == 0
         && f.off == f.todo.offset && f.matchLen == MATCH_LENGTH + 15 <= f.todo.matchLength
         && f.input[f.rp..] == Run(f.todo.matchLength - MATCH_LENGTH - 15) + Encode(f.todo.rest)
       case Decompress =>
         && f.todo.More? && f.todo.literals == [] && f.off == f.todo.offset
         && f.matchLen == f.matchOff + f.todo.matchLength
         && Lays(f.input[f.rp..], f.todo.rest)
       case Finished => f.rp == |f.input| && f.todo.Last? && f.todo.literals == []
  }

  /** What follows the offset of a sequence. */
  function Tail(b: Block): seq<Byte>
    requires Encodable(b) && b.More?
  {
    Excess(b.matchLength - MATCH_LENGTH) + Encode(b.rest)
  }

  /** Before its length bytes are read, the match length is what the token says of it. */
  predicate ShortMatch(f: Fields)
    requires Encodable(f.todo)
  {
    f.matchOff == 0 &&
    (f.todo.More? ==> f.matchLen == MATCH_LENGTH + Nibble(f.todo.matchLength - MATCH_LENGTH))
  }

  /** The whole output there will ever be: what a decoder with unbounded history makes of it. */
  function Final(f: Fields): seq<Byte>
    requires Ok(f)
  {
    Expand(f.history, f.todo)
  }

  // ---------------------------------------------------------------- the ring

  /** The ring holds the last WINDOW_SIZE bytes of the history, each at its position modulo the size. */
  predicate Remembers(window: seq<Byte>, history: seq<Byte>) {
    |window| == WINDOW_SIZE &&
    forall k :: 0 <= k < |history| && |history| - WINDOW_SIZE <= k ==> window[k % WINDOW_SIZE] == history[k]
  }

  lemma RemembersOneMore(window: seq<Byte>, history: seq<Byte>, b: Byte)
    requires Remembers(window, history)
    ensures Remembers(window[|history| % WINDOW_SIZE := b], history + [b])
  {
    var longer := history + [b];
    forall k | 0 <= k < |longer| && |longer| - WINDOW_SIZE <= k
      ensures window[|history| % WINDOW_SIZE := b][k % WINDOW_SIZE] == longer[k]
    {
      if k < |history| {
        DistinctSlots(k, |history|);
        assert longer[k] == history[k];
      }
    }
  }

  lemma DistinctSlots(k: nat, n: nat)
    requires k < n < k + WINDOW_SIZE
    ensures k % WINDOW_SIZE != n % WINDOW_SIZE
  {}

  // ---------------------------------------------------------------- one step of each state

  lemma Advance(input: seq<Byte>, rp: nat, first: seq<Byte>, rest: seq<Byte>)
    requires rp <= |input| && input[rp..] == first + rest
    ensures rp + |first| <= |input| && input[rp..rp + |first|] == first && input[rp + |first|..] == rest
  {
    assert input[rp..][..|first|] == first && input[rp..][|first|..] == rest;
  }

  lemma AdvanceOne(input: seq<Byte>, rp: nat, b: Byte, rest: seq<Byte>)
    requires rp <= |input| && input[rp..] == [b] + rest
    ensures rp < |input| && input[rp] == b && input[rp + 1..] == rest
  {
    Advance(input, rp, [b], rest);
    assert input[rp..rp + 1][0] == b;
  }

  lemma TokenHere(f: Fields)
    requires Ok(f) && f.state == ReadToken
    ensures f.rp < |f.input|
  {}

  lemma TokenStep(f: Fields, g: Fields)
    requires Ok(f) && f.state == ReadToken && f.rp < |f.input|
    requires var token := f.input[f.rp];
             g == f.(rp := f.rp + 1, litRem := High(token), matchLen := Low(token) + MATCH_LENGTH, matchOff := 0,
                     state := if High(token) == 15 then ReadLitExtra else ReadLiterals)
    ensures Ok(g)
  {
    hide Run, Excess, Nibble, High, Low, OffsetBytes, Expandable;
    var b := f.todo;
    var body := b.literals + AfterLiterals(b);
    AdvanceOne(f.input, f.rp, TokenOf(b), Excess(|b.literals|) + body);
    TokenParts(Nibble(|b.literals|), if b.Last? then b.spare else Nibble(b.matchLength - MATCH_LENGTH));
    ExcessCases(|b.literals|, body);
    NibbleCases(|b.literals|);
  }

  lemma NibbleCases(n: nat)
    ensures Nibble(n) == 15 <==> n >= 15
    ensures n < 15 ==> Nibble(n) == n
  {}

  lemma LiteralStep(f: Fields, g: Fields)
    requires Ok(f) && f.state == ReadLiterals && f.litRem > 0
    ensures f.rp < |f.input| && |f.todo.literals| > 0
    ensures g == f.(rp := f.rp + 1, litRem := f.litRem - 1, history := f.history + [f.input[f.rp]],
                    todo := DropLiteral(f.todo))
            ==> Ok(g) && Final(g) == Final(f)
  {
    hide Nibble, OffsetBytes, Excess, Encode, Copy;
    var b := f.todo;
    var less := DropLiteral(b);
    assert b.literals == [b.literals[0]] + less.literals;
    assert b.literals + AfterLiterals(b) == [b.literals[0]] + (less.literals + AfterLiterals(b));
    AdvanceOne(f.input, f.rp, b.literals[0], less.literals + AfterLiterals(b));
    assert AfterLiterals(less) == AfterLiterals(b);
    assert f.history + b.literals == (f.history + [b.literals[0]]) + less.literals;
  }

  function DropLiteral(b: Block): (r: Block)
    requires |b.literals| > 0
    ensures r.literals == b.literals[1..] && (r.Last? <==> b.Last?)
  {
    match b
    case Last(literals, spare) => Last(literals[1..], spare)
    case More(literals, offset, matchLength, rest) => More(literals[1..], offset, matchLength, rest)
  }

  lemma LengthStep(f: Fields, g: Fields)
    requires Ok(f) && f.state == ReadLitExtra
    requires g.rp <= |g.input| && g.input[g.rp..] == f.todo.literals + AfterLiterals(f.todo)
    requires g == f.(rp := g.rp, litRem := |f.todo.literals|, state := ReadLiterals)
    ensures Ok(g)
  {}

  lemma LiteralsDone(f: Fields, g: Fields)
    requires Ok(f) && f.state == ReadLiterals && f.litRem == 0
    requires g == if f.rp < |f.input| then f.(off := 0, state := ReadOffsetL) else f.(state := Finished)
    ensures Ok(g)
  {
    var after := AfterLiterals(f.todo);
    assert f.todo.literals + after == after;
  }

  lemma OffsetStep(f: Fields, g: Fields)
    requires Ok(f) && (f.state == ReadOffsetL || f.state == ReadOffsetH)
    ensures f.rp < |f.input|
    ensures g == (if f.state == ReadOffsetL then f.(rp := f.rp + 1, off := f.input[f.rp], state := ReadOffsetH)
                  else f.(rp := f.rp + 1, off := OffsetOf(f.off, f.input[f.rp]),
                          state := if f.matchLen >= 15 + MATCH_LENGTH then ReadMatchExtra else Decompress))
            ==> Ok(g)
  {
    hide Run, Excess, Nibble, Encode, Expandable;
    var bytes := OffsetBytes(f.todo.offset);
    OffsetParts(f.todo.offset);
    if f.state == ReadOffsetL {
      assert bytes + Tail(f.todo) == [bytes[0]] + ([bytes[1]] + Tail(f.todo));
      AdvanceOne(f.input, f.rp, bytes[0], [bytes[1]] + Tail(f.todo));
    } else {
      AdvanceOne(f.input, f.rp, bytes[1], Tail(f.todo));
      ExcessCases(f.todo.matchLength - MATCH_LENGTH, Encode(f.todo.rest));
      NibbleCases(f.todo.matchLength - MATCH_LENGTH);
      RestIsEncodable(f.todo);
    }
  }

  lemma RestIsEncodable(b: Block)
    requires Encodable(b) && b.More?
    ensures Encodable(b.rest) && b.matchLength >= MATCH_LENGTH
  {}

  lemma MatchLengthStep(f: Fields, g: Fields)
    requires Ok(f) && f.state == ReadMatchExtra
    requires g.rp <= |g.input| && g.input[g.rp..] == Encode(f.todo.rest)
    requires g == f.(rp := g.rp, matchLen := f.todo.matchLength, state := Decompress)
    ensures Ok(g)
  {}

  /** One copied byte: it comes from `off` back in the whole history. */
  lemma CopyStep(f: Fields, g: Fields)
    requires Ok(f) && f.state == State.Decompress && f.matchOff < f.matchLen
    ensures 1 <= f.off <= MAX_OFFSET && f.off <= |f.history| && f.todo.More? && f.todo.matchLength > 0
    ensures g == f.(matchOff := f.matchOff + 1, history := f.history + [f.history[|f.history| - f.off]],
                    todo := f.todo.(matchLength := f.todo.matchLength - 1))
            ==> Ok(g) && Final(g) == Final(f)
  {
    hide Encode;
    assert f.history + f.todo.literals == f.history;
    var longer := f.history + [f.history[|f.history| - f.off]];
    assert longer + f.todo.literals == longer;
  }

  lemma CopyDone(f: Fields, g: Fields)
    requires Ok(f) && f.state == State.Decompress && f.matchOff >= f.matchLen
    ensures f.todo.More?
    ensures g == f.(state := ReadToken, todo := f.todo.rest) ==> Ok(g) && Final(g) == Final(f)
  {
    assert f.history + f.todo.literals == f.history;
  }

  lemma NothingLeft(f: Fields)
    requires Ok(f) && f.state == Finished
    ensures Final(f) == f.history
  {
    assert f.history + [] == f.history;
  }

  // ---------------------------------------------------------------- the object

  class Decompressor {
    const input: seq<Byte>
    const window: array<Byte>
    var windowPos: nat
    var rp: nat
    var state: State
    var litLen: nat
    var matchLen: nat
    var off: nat
    var litRem: nat
    var matchOff: nat
    ghost var history: seq<Byte>
    ghost var todo: Block

    ghost function Value(): Fields
      reads this
    {
      Fields(input, rp, state, litRem, matchLen, off, matchOff, history, todo)
    }

    ghost predicate Valid()
      reads this, window
    {
      Ok(Value()) && windowPos == |history| && Remembers(window[..], history)
    }

    /** A fresh decompressor whose input, the layout of `b`, has been set. */
    constructor (bytes: seq<Byte>, ghost b: Block)
      requires Lays(bytes, b) && Expandable(b, 0)
      ensures Valid() && fresh(window) && input == bytes
      ensures history == [] && Final(Value()) == Expand([], b)
    {
      input := bytes;
      window := new Byte[WINDOW_SIZE](_ => 0);
      windowPos, rp, litLen, matchLen, off, litRem, matchOff := 0, 0, 0, 0, 0, 0, 0;
      state := ReadToken;
      history, todo := [], b;
      new;
      assert bytes[0..] == bytes;
    }

    /** `count` more bytes of the final output went to out[at..]. */
    twostate predicate PutOut(out: array<Byte>, at: nat, count: nat)
      requires old(Valid())
      reads this, window, out
    {
      && Valid() && at + count <= out.Length
      && out[..at] == old(out[..at])
      && history == old(history) + out[at..at + count]
      && Final(Value()) == old(Final(Value()))
    }

    ghost predicate Room(out: array<Byte>, at: nat)
      reads this
    {
      at < out.Length && out != window
    }

    // -------------------------------------------------------------- the readers

    method ReadTok()
      requires Valid() && state == ReadToken
      modifies this
      ensures Valid() && history == old(history) && Final(Value()) == old(Final(Value()))
      ensures rp > old(rp)
    {
      hide Ok, Remembers;
      ghost var before := Value();
      TokenHere(before);
      var token := input[rp];
      rp := rp + 1;
      litLen := High(token);
      matchLen := Low(token) + MATCH_LENGTH;
      litRem := litLen;
      matchOff := 0;
      state := if High(token) == 15 then ReadLitExtra else ReadLiterals;
      TokenStep(before, Value());
    }

    /** Sums bytes up to and including the first that is not 255. */
    method ReadRun(ghost n: nat, ghost rest: seq<Byte>) returns (sum: nat)
      requires rp <= |input| && input[rp..] == Run(n) + rest
      modifies `rp
      ensures sum == n && old(rp) < rp <= |input| && input[rp..] == rest
    {
      sum := 0;
      ghost var left := n;
      var readed: int := 255;
      while readed == 255
        invariant old(rp) <= rp <= |input| && 0 <= readed <= 255
        invariant if readed == 255 then sum + left == n && input[rp..] == Run(left) + rest
                  else sum == n && old(rp) < rp && input[rp..] == rest
        decreases readed == 255, |input| - rp
      {
        if left < 255 {
          AdvanceOne(input, rp, left, rest);
        } else {
          assert Run(left) + rest == [255] + (Run(left - 255) + rest);
          AdvanceOne(input, rp, 255, Run(left - 255) + rest);
          left := left - 255;
        }
        readed := input[rp];
        rp := rp + 1;
        sum := sum + readed;
      }
    }

    method ReadLitLength()
      requires Valid() && state == ReadLitExtra
      modifies this
      ensures Valid() && history == old(history) && Final(Value()) == old(Final(Value()))
      ensures rp > old(rp)
    {
      hide Run, Remembers, Encode, Encodable, Expandable;
      ghost var before := Value();
      var sum := ReadRun(|todo.literals| - 15, todo.literals + AfterLiterals(todo));
      litLen := litLen + sum;
      litRem := litRem + sum;
      state := ReadLiterals;
      LengthStep(before, Value());
    }

    method ReadMatchLength()
      requires Valid() && state == ReadMatchExtra
      modifies this
      ensures Valid() && history == old(history) && Final(Value()) == old(Final(Value()))
      ensures rp > old(rp)
    {
      hide Run, Remembers, Encode, Expandable;
      ghost var before := Value();
      var sum := ReadRun(todo.matchLength - MATCH_LENGTH - 15, Encode(todo.rest));
      matchLen := matchLen + sum;
      state := State.Decompress;
      MatchLengthStep(before, Value());
    }

    method ReadOffset()
      requires Valid() && (state == ReadOffsetL || state == ReadOffsetH)
      modifies this
      ensures Valid() && history == old(history) && Final(Value()) == old(Final(Value()))
      ensures rp > old(rp)
    {
      hide Remembers;
      ghost var before := Value();
      OffsetStep(before, before);
      var b := input[rp];
      rp := rp + 1;
      if state == ReadOffsetL {
        off := b;
        state := ReadOffsetH;
      } else {
        off := OffsetOf(off, b);
        state := if matchLen >= 15 + MATCH_LENGTH then ReadMatchExtra else State.Decompress;
      }
      OffsetStep(before, Value());
    }

    /** Keeps `b`, which has just been put out, in the ring. */
    method Keep(b: Byte)
      requires windowPos == |history| && Remembers(window[..], history)
      modifies this`windowPos, this`history, window
      ensures history == old(history) + [b]
      ensures windowPos == |history| && Remembers(window[..], history)
    {
      RemembersOneMore(window[..], history, b);
      window[windowPos % WINDOW_SIZE] := b;
      windowPos := windowPos + 1;
      history := history + [b];
    }

    /** Passes one literal through to out[at] and the ring. */
    method PutLiteral(out: array<Byte>, at: nat)
      requires Valid() && Room(out, at) && state == ReadLiterals && litRem > 0
      modifies this, window, out
      ensures PutOut(out, at, 1) && state == old(state) && litRem == old(litRem) - 1 && rp == old(rp) + 1
    {
      hide Ok, Remembers;
      ghost var before := Value();
      LiteralStep(before, before);
      var b := input[rp];
      out[at] := b;
      Keep(b);
      todo := DropLiteral(todo);
      litRem := litRem - 1;
      rp := rp + 1;
      LiteralStep(before, Value());
    }

    method ReadLits(out: array<Byte>, at: nat) returns (readed: nat)
      requires Valid() && Room(out, at) && state == ReadLiterals
      modifies this, window, out
      ensures PutOut(out, at, readed) && rp >= old(rp)
      ensures readed > 0 || Rank() < old(Rank())
    {
      hide Ok, Remembers;
      readed := 0;
      if litRem > 0 {
        var count := if litRem < out.Length - at then litRem else out.Length - at;
        while readed < count
          invariant readed <= count <= out.Length - at && litRem == old(litRem) - readed && count <= old(litRem)
          invariant state == ReadLiterals && PutOut(out, at, readed) && rp >= old(rp)
        {
          ghost var written := out[..at + readed];
          PutLiteral(out, at + readed);
          readed := readed + 1;
          Joined(written, out[..at + readed], at);
        }
      } else {
        ghost var before := Value();
        if rp < |input| {
          off := 0;
          state := ReadOffsetL;
        } else {
          state := Finished;
        }
        LiteralsDone(before, Value());
      }
    }

    /** Repeats one byte of the output, read back from the ring. */
    method PutCopy(out: array<Byte>, at: nat)
      requires Valid() && Room(out, at) && state == State.Decompress && matchOff < matchLen
      modifies this, window, out
      ensures PutOut(out, at, 1) && state == old(state) && rp == old(rp)
      ensures matchOff == old(matchOff) + 1 && matchLen == old(matchLen)
    {
      hide Ok, Remembers;
      ghost var before := Value();
      CopyStep(before, before);
      Recall();
      var b := window[(windowPos - off) % WINDOW_SIZE];
      out[at] := b;
      Keep(b);
      todo := todo.(matchLength := todo.matchLength - 1);
      matchOff := matchOff + 1;
      CopyStep(before, Value());
    }

    method DecompressLiterals(out: array<Byte>, at: nat) returns (readed: nat)
      requires Valid() && Room(out, at) && state == State.Decompress
      modifies this, window, out
      ensures PutOut(out, at, readed) && rp == old(rp)
      ensures readed > 0 || Rank() < old(Rank())
    {
      hide Ok, Remembers;
      readed := 0;
      if matchOff < matchLen {
        var count := if matchLen - matchOff < out.Length - at then matchLen - matchOff else out.Length - at;
        while readed < count
          invariant readed <= count <= out.Length - at
          invariant matchOff == old(matchOff) + readed && matchLen == old(matchLen) && count <= matchLen - old(matchOff)
          invariant state == State.Decompress && PutOut(out, at, readed) && rp == old(rp)
        {
          ghost var written := out[..at + readed];
          PutCopy(out, at + readed);
          readed := readed + 1;
          Joined(written, out[..at + readed], at);
        }
      } else {
        ghost var before := Value();
        CopyDone(before, before);
        state := ReadToken;
        todo := todo.rest;
        CopyDone(before, Value());
      }
    }

    /** The ring still holds the byte that the unbounded history has `off` back. */
    lemma Recall()
      requires windowPos == |history| && Remembers(window[..], history)
      requires 1 <= off <= MAX_OFFSET && off <= |history|
      ensures window.Length == WINDOW_SIZE
      ensures window[(windowPos - off) % WINDOW_SIZE] == history[|history| - off]
    {
      assert window[..][(windowPos - off) % WINDOW_SIZE] == history[|history| - off];
    }

    /** One round of the machine. */
    method Step(out: array<Byte>, at: nat) returns (readed: nat)
      requires Valid() && Room(out, at) && state != Finished
      modifies this, window, out
      ensures PutOut(out, at, readed) && rp >= old(rp)
      ensures readed > 0 || rp > old(rp) || Rank() < old(Rank())
    {
      hide Ok, Remembers;
      readed := 0;
      assert out[at..at] == [];
      match state {
        case ReadToken => ReadTok();
        case ReadLitExtra => ReadLitLength();
        case ReadLiterals => readed := ReadLits(out, at);
        case ReadOffsetL => ReadOffset();
        case ReadOffsetH => ReadOffset();
        case ReadMatchExtra => ReadMatchLength();
        case Decompress => readed := DecompressLiterals(out, at);
      }
    }

    /** Fills `out` from the front until it is full or the whole output has been produced. */
    method Decompress(out: array<Byte>) returns (readed: nat)
      requires Valid() && out != window
      modifies this, window, out
      ensures PutOut(out, 0, readed)
      ensures readed < out.Length ==> history == Final(Value())
    {
      hide Ok, Remembers;
      readed := 0;
      while readed < out.Length && state != Finished
        invariant readed <= out.Length && PutOut(out, 0, readed)
        decreases out.Length - readed, |input| - rp, Rank()
      {
        ghost var written := out[..readed];
        var current := Step(out, readed);
        assert out[..readed + current] == written + out[readed..readed + current];
        readed := readed + current;
        assert rp <= |input| by { ReadInside(Value()); }
      }
      if state == Finished {
        NothingLeft(Value());
      }
    }

    /** Falls at each step that neither reads nor puts out. */
    ghost function Rank(): nat
      reads this
    {
      if state == State.Decompress || state == ReadLiterals then 1 else 0
    }
  }

  /** A buffer that has grown by one byte, seen from `at` on. */
  lemma Joined(less: seq<Byte>, more: seq<Byte>, at: nat)
    requires at <= |less| && |more| == |less| + 1 && more[..|less|] == less
    ensures more[..at] == less[..at] && more[at..] == less[at..] + [more[|less|]]
  {}

  lemma HistoryIsWithin(f: Fields)
    requires Ok(f)
    ensures |f.history| <= |Final(f)|
  {
    ExpandLength(f.history, f.todo);
  }

  lemma ReadInside(f: Fields)
    requires Ok(f)
    ensures f.rp <= |f.input|
  {}
}
