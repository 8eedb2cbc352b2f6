/** The parser of IP addresses: a lexer that looks one character ahead, and the two grammars. */
module IpParser {
  import opened IpLexer

  datatype Family = IPV4 | IPV6

  class IpParser {
    const str: string
    var cur: char
    var off: nat
    var end: bool

    /** The text is a C string: there is no zero character in it. */
    ghost predicate Valid()
      reads this
    {
      && off <= |str| && (forall i :: 0 <= i < |str| ==> str[i] != '\0')
      && (if end then cur == '\0' && off == |str|
          else if cur == '\0' then off == 0
          else off > 0 && cur == str[off - 1])
    }

    /** What has not been lexed yet: the character at hand and everything behind it. */
    ghost function Rest(): string
      requires Valid()
      reads this
    {
      if end then "" else if cur == '\0' then str else str[off - 1..]
    }

    constructor (str: string)
      requires forall i :: 0 <= i < |str| ==> str[i] != '\0'
      ensures Valid() && Rest() == str && this.str == str && !end
    {
      this.str, cur, off, end := str, '\0', 0, false;
    }

    /** A character has been fetched, or the end has been seen. */
    ghost predicate Ready()
      reads this
    {
      Valid() && (end || cur != '\0')
    }

    /** When ready, the character at hand is the first of the rest, and at the end it is none. */
    lemma AtHand()
      requires Ready()
      ensures end <==> Rest() == ""
      ensures !end ==> cur == Rest()[0] && cur != '\0'
      ensures end ==> cur == '\0'
    {}

    method NextChar()
      requires Valid()
      modifies this
      ensures Ready()
      ensures Rest() == if old(Ready()) && old(Rest()) != "" then old(Rest())[1..] else old(Rest())
    {
      if off >= |str| {
        end, cur := true, '\0';
        return;
      }
      cur, off := str[off], off + 1;
    }

    /** The next token. Every call makes progress: unless the end had been reached, the text left gets
        shorter, or the end is reached now. */
    method NextTok() returns (threw: bool, tok: Token)
      requires Valid()
      modifies this
      ensures Ready() && Took(old(end), old(Rest()), threw, tok, Rest())
      ensures !threw ==> |Rest()| < |old(Rest())| || end
    {
      hide Rest, Valid, First;
      threw := false;
      if end {
        AtHand();
        return false, END;
      }
      if cur == '\0' {
        NextChar();
      }
      assert Rest() == old(Rest());
      AtHand();
      FirstMark(Rest());
      if cur == '.' {
        NextChar();
        AtHand();
        return false, DOT;
      } else if cur == ':' {
        NextChar();
        AtHand();
        if cur == ':' {
          NextChar();
          AtHand();
          return false, COLON2;
        }
        return false, COLON;
      } else if IsXDigit(cur) {
        threw, tok := NextNumber();
        return;
      }
      NextChar();
      AtHand();
      tok := UNDEFINED;
    }

    method NextNumber() returns (threw: bool, tok: Token)
      requires Ready() && !end && IsXDigit(cur)
      modifies this
      ensures Ready()
      ensures match First(old(Rest()))
              case TooLong => threw
              case Step(t, rest) => !threw && tok == t && Rest() == rest
    {
      AtHand();
      hide Rest, Valid, RunLength, AllDigits, HasLetter, First, Strtol, Number;
      NoDigits();
      ghost var s := Rest();
      var isHex, digits := false, "";
      while IsXDigit(cur)
        invariant Ready() && (!end ==> Rest() != "" && cur == Rest()[0]) && (end ==> Rest() == "" && cur == '\0')
        invariant s == digits + Rest() && AllDigits(digits) && |digits| <= MAX_DIGITS
        invariant isHex <==> HasLetter(digits)
        invariant digits == "" ==> IsXDigit(cur)
        decreases |Rest()|
      {
        OneMore(digits, cur);
        MoveOver(digits, Rest());
        if |digits| + 1 >= 64 {
          FirstTooLong(digits + [cur], Rest()[1..]);
          return true, END;
        }
        if IsLetterDigit(cur) {
          isHex := true;
        }
        digits := digits + [cur];
        NextChar();
        AtHand();
      }
      FirstNumber(digits, Rest());
      var dec, hex := -1, -1;
      if !isHex {
        dec := Strtol(digits, 10);
      }
      hex := Strtol(digits, 16);
      return false, NUMBER(dec, hex, |digits|);
    }

    /** Four numbers between 0 and 255 with dots between them, and nothing else. */
    method ParseV4() returns (r: Parsed)
      requires Valid() && Rest() == str && !end
      modifies this
      ensures r == MeaningV4(Lex(str))
    {
      hide Lex, First, MeaningV4, Valid, Rest, Took, GoodAt, GoodV4, Follow, Values;
      NoValues();
      var parts := new int[4];
      var part := 0;
      ghost var seen := [];
      var i := 0;
      while i < 8
        invariant 0 <= i <= 7 && Valid() && part == (i + 1) / 2 && |seen| == i && GoodV4(seen)
        invariant Lex(str) == Follow(seen, Rest())
        invariant parts[..part] == Values(seen)
        invariant if i > 0 then Ready() else !end
      {
        ghost var s, ended := Rest(), end;
        if i > 0 {
          AtHand();
        }
        var threw, tok := NextTok();
        Reading(seen, ended, s, threw, tok, Rest());
        if i < 7 {
          Judge(Lex(str), seen, s, threw, tok, Rest());
        } else {
          JudgeEnd(Lex(str), seen, s, threw, tok, Rest());
        }
        Good(tok, seen);
        if threw {
          return Invalid;
        }
        if i == 7 {
          if tok != END {
            return Invalid;
          }
          break;
        }
        if i % 2 != 0 {
          if tok != DOT {
            return Invalid;
          }
        } else {
          if !tok.NUMBER? || tok.dec < 0 || tok.dec > 255 {
            return Invalid;
          }
          parts[part] := tok.dec;
          part := part + 1;
        }
        seen := seen + [tok];
        i := i + 1;
      }
      r := Groups(parts[..]);
    }

    /** Groups of 16 bits. Characters that belong to no token are passed over, and so are single
        colons. The source has room for eight groups and does not count them. */
    method ParseV6() returns (r: Parsed)
      requires Valid() && Rest() == str && !end
      modifies this
      ensures r == MeaningV6(Lex(str))
    {
      hide Lex, First, Valid, Rest, Took, Numbers, Doubles, Before, Expanded, Overruns, MeaningV6;
      var parts := new int[8](_ => 0);
      var doubleColon, pos := -1, 0;
      ghost var seen := [];
      NothingSeen();
      while !end
        invariant Valid() && 0 <= pos <= 8 && !Overruns(seen)
        invariant Lex(str) == Follow(seen, Rest()) && (Ready() || Rest() == str)
        invariant parts[..pos] == Numbers(seen) && (end ==> Ready())
        invariant if doubleColon == -1 then Doubles(seen) == 0 else Doubles(seen) == 1 && doubleColon == Before(seen)
        decreases |Rest()|, !end
      {
        ghost var s, ended := Rest(), end;
        var threw, tok := NextTok();
        Reading(seen, ended, s, threw, tok, Rest());
        AtHand();
        if threw {
          Threw(seen);
          return Invalid;
        }
        if s != "" {
          OneMoreToken(seen, tok);
          StopHere(seen + [tok], Lex(str));
        }
        if tok == COLON2 {
          if doubleColon != -1 {
            return Invalid;
          }
          BeforeAtMost(seen);
          doubleColon := pos;
        } else if tok.NUMBER? {
          if pos >= 8 {
            return Overrun;
          }
          parts[pos] := tok.hex % 0x1_0000;
          pos := pos + 1;
        }
        if s != "" {
          seen := seen + [tok];
        }
      }
      AtHand();
      Finished(seen);
      BeforeAtMost(seen);
      TheEnd(seen);
      if doubleColon != -1 {
        Expand(parts, doubleColon, pos);
      } else if pos != 8 {
        return Invalid;
      }
      r := Groups(parts[..]);
    }

    /** Which grammar applies is the caller's choice. */
    method Parse(family: Family) returns (r: Parsed)
      requires Valid() && Rest() == str && !end
      modifies this
      ensures r == match family case IPV4 => MeaningV4(Lex(str)) case IPV6 => MeaningV6(Lex(str))
    {
      match family
      case IPV4 => r := ParseV4();
      case IPV6 => r := ParseV6();
    }

    /** Moves the groups behind the double colon to the end and fills the gap with zeros, in place. */
    method Expand(parts: array<int>, at: nat, pos: nat)
      requires parts.Length == 8 && at <= pos <= 8
      modifies parts
      ensures parts[..] == Expanded(old(parts[..pos]), at)
    {
      hide Expanded;
      var shift := 8 - pos;
      ghost var values := parts[..pos];
      ghost var e := Expanded(values, at);
      ExpandedAt(values, at);
      var i := pos - 1;
      while i >= at
        invariant at - 1 <= i <= pos - 1
        invariant forall k :: 0 <= k <= i ==> parts[k] == values[k]
        invariant forall k :: 0 <= k < at ==> parts[k] == values[k]
        invariant forall k :: i + shift < k < 8 ==> parts[k] == e[k]
      {
        parts[i + shift] := parts[i];
        i := i - 1;
      }
      i := 0;
      while i < shift
        invariant 0 <= i <= shift
        invariant forall k :: 0 <= k < at + i ==> parts[k] == e[k]
        invariant forall k :: at + shift <= k < 8 ==> parts[k] == e[k]
      {
        parts[at + i] := 0;
        i := i + 1;
      }
    }
  }

  lemma NothingSeen()
    ensures Numbers([]) == [] && Doubles([]) == 0 && Before([]) == 0 && !Overruns([])
  {}

  lemma Threw(seen: seq<Token>)
    requires !Overruns(seen)
    ensures MeaningV6(Lexed(seen, true)) == Invalid
  {}

  /** What the meaning is once all tokens have been seen. */
  lemma TheEnd(seen: seq<Token>)
    requires !Overruns(seen) && Doubles(seen) <= 1 && |Numbers(seen)| <= 8 && Before(seen) <= |Numbers(seen)|
    ensures MeaningV6(Lexed(seen, false)) ==
            if Doubles(seen) == 1 then Groups(Expanded(Numbers(seen), Before(seen)))
            else if |Numbers(seen)| == 8 then Groups(Numbers(seen)) else Invalid
  {}

  /** A ninth number and a second double colon settle the meaning, whatever follows. */
  lemma StopHere(seen: seq<Token>, l: Lexed)
    requires exists more :: l.tokens == seen + more
    ensures Overruns(seen) ==> MeaningV6(l) == Overrun
    ensures !Overruns(seen) && Doubles(seen) > 1 ==> MeaningV6(l) == Invalid
  {
    var more :| l.tokens == seen + more;
    Prefix(seen, more);
  }

  lemma {:induction false} Prefix(a: seq<Token>, b: seq<Token>)
    ensures Doubles(a) <= Doubles(a + b)
    ensures Overruns(a) ==> Overruns(a + b)
    ensures !Overruns(a) && Doubles(a) > 1 ==> !Overruns(a + b)
    decreases |b|
  {
    if b == [] {
      assert a + b == a;
    } else {
      assert (a + b)[..|a + b| - 1] == a + b[..|b| - 1];
      Prefix(a, b[..|b| - 1]);
    }
  }

  lemma OneMoreToken(seen: seq<Token>, tok: Token)
    ensures Numbers(seen + [tok]) == Numbers(seen) + if tok.NUMBER? then [tok.hex % 0x1_0000] else []
    ensures Doubles(seen + [tok]) == Doubles(seen) + if tok == COLON2 then 1 else 0
    ensures Before(seen + [tok]) == Before(seen) + if Doubles(seen) == 0 && tok.NUMBER? then 1 else 0
    ensures Overruns(seen + [tok]) <==> Overruns(seen) || (tok.NUMBER? && |Numbers(seen)| == 8 && Doubles(seen) <= 1)
  {
    assert (seen + [tok])[..|seen|] == seen;
  }

  /** A beginning of what the four-number grammar asks for. */
  ghost predicate GoodV4(t: seq<Token>) {
    forall k :: 0 <= k < |t| ==> GoodAt(t[k], k)
  }

  /** The values of the decimal numbers among the tokens. */
  ghost function Values(t: seq<Token>): seq<int> {
    if t == [] then []
    else Values(t[..|t| - 1]) + if t[|t| - 1].NUMBER? then [t[|t| - 1].dec] else []
  }

  lemma NoValues()
    ensures Values([]) == [] && GoodV4([])
    ensures forall s :: Follow([], s) == Lex(s)
  {
    assert forall s :: [] + Lex(s).tokens == Lex(s).tokens;
  }

  lemma Good(tok: Token, seen: seq<Token>)
    ensures GoodAt(tok, |seen|) <==> if |seen| % 2 == 1 then tok == DOT else tok.NUMBER? && 0 <= tok.dec <= 255
    ensures Values(seen + [tok]) == Values(seen) + if tok.NUMBER? then [tok.dec] else []
  {
    assert (seen + [tok])[..|seen|] == seen;
  }

  lemma ValuesUpTo(t: seq<Token>, i: nat)
    requires i < |t|
    ensures Values(t[..i + 1]) == Values(t[..i]) + if t[i].NUMBER? then [t[i].dec] else []
  {
    assert t[..i + 1] == t[..i] + [t[i]];
    Good(t[i], t[..i]);
  }

  lemma ValuesOfGood(t: seq<Token>)
    requires GoodV4(t) && |t| == 7
    ensures Values(t) == [t[0].dec, t[2].dec, t[4].dec, t[6].dec]
  {
    assert GoodAt(t[0], 0) && GoodAt(t[1], 1) && GoodAt(t[2], 2) && GoodAt(t[3], 3);
    assert GoodAt(t[4], 4) && GoodAt(t[5], 5) && GoodAt(t[6], 6);
    NoValues();
    ValuesUpTo(t, 0);
    ValuesUpTo(t, 1);
    ValuesUpTo(t, 2);
    ValuesUpTo(t, 3);
    ValuesUpTo(t, 4);
    ValuesUpTo(t, 5);
    ValuesUpTo(t, 6);
    assert t[..0] == [] && t[..7] == t;
  }

  /** One more token while fewer than seven have been read: it fits, or the text is wrong. */
  lemma Judge(all: Lexed, seen: seq<Token>, s: string, threw: bool, tok: Token, rest: string)
    requires |seen| < 7 && GoodV4(seen) && all == Follow(seen, s)
    requires threw ==> all.threw
    requires !threw && s != "" ==> all == Follow(seen + [tok], rest)
    requires s == "" ==> (tok == END || tok == UNDEFINED) && all == Lexed(seen, false)
    ensures !threw && GoodAt(tok, |seen|) ==> s != "" && GoodV4(seen + [tok])
    ensures threw || !GoodAt(tok, |seen|) ==> MeaningV4(all) == Invalid
  {
    if !threw && s != "" && !GoodAt(tok, |seen|) {
      var t := all.tokens;
      assert t[|seen|] == tok && |t| > |seen|;
    }
  }

  /** After seven tokens only the end is right. */
  lemma JudgeEnd(all: Lexed, seen: seq<Token>, s: string, threw: bool, tok: Token, rest: string)
    requires |seen| == 7 && GoodV4(seen) && all == Follow(seen, s)
    requires threw ==> all.threw
    requires !threw && s != "" ==> all == Follow(seen + [tok], rest)
    requires s == "" ==> all == Lexed(seen, false)
    ensures threw || s != "" ==> MeaningV4(all) == Invalid
    ensures s == "" && !threw ==> MeaningV4(all) == Groups(Values(seen))
  {
    if !threw && s != "" {
      assert |all.tokens| > 7;
    }
    if s == "" {
      ValuesOfGood(seen);
    }
  }

  /** The first token when it is not a number. */
  lemma FirstMark(s: string)
    ensures s != "" && !IsXDigit(s[0]) ==>
              First(s) == if s[0] == '.' then Step(DOT, s[1..])
                          else if s[0] != ':' then Step(UNDEFINED, s[1..])
                          else if s[1..] != "" && s[1..][0] == ':' then Step(COLON2, s[1..][1..])
                          else Step(COLON, s[1..])
  {}

  lemma NoDigits()
    ensures AllDigits("") && !HasLetter("")
  {}

  lemma MoveOver(digits: string, rest: string)
    requires rest != ""
    ensures digits + rest == (digits + [rest[0]]) + rest[1..]
  {}

  lemma FirstTooLong(digits: string, rest: string)
    requires |digits| > MAX_DIGITS && AllDigits(digits)
    ensures First(digits + rest) == TooLong
  {
    var s := digits + rest;
    assert s[..|digits|] == digits && s[0] == digits[0];
    RunAtLeast(s, |digits|);
  }

  lemma FirstNumber(digits: string, rest: string)
    requires digits != "" && |digits| <= MAX_DIGITS && AllDigits(digits) && (rest == "" || !IsXDigit(rest[0]))
    ensures var dec := if HasLetter(digits) then -1 else Strtol(digits, 10);
            First(digits + rest) == Step(NUMBER(dec, Strtol(digits, 16), |digits|), rest)
  {
    NumberFirst(digits, rest);
  }

  lemma OneMore(digits: string, c: char)
    requires AllDigits(digits) && IsXDigit(c)
    ensures AllDigits(digits + [c])
    ensures HasLetter(digits + [c]) <==> HasLetter(digits) || IsLetterDigit(c)
  {
    var more := digits + [c];
    assert more[|digits|] == c;
    if HasLetter(digits) {
      var i :| 0 <= i < |digits| && IsLetterDigit(digits[i]);
      assert IsLetterDigit(more[i]);
    }
  }

  lemma {:induction false} RunAtLeast(s: string, n: nat)
    requires n <= |s| && AllDigits(s[..n])
    ensures RunLength(s) >= n
    decreases n
  {
    if n > 0 {
      assert s[..n][0] == s[0];
      assert s[1..][..n - 1] == s[..n][1..];
      RunAtLeast(s[1..], n - 1);
    }
  }
}
