/** The tokens of an IP address, as a function of the text. */
module IpLexer {

  const LONG_MAX: int := 0x7FFF_FFFF_FFFF_FFFF
  /** Room for the digits of one number, less the terminator. */
  const MAX_DIGITS: nat := 63

  /** `dec` is -1 when a digit of the number is a letter. How many digits there were the parser forgets;
      `length` is for the grammar only. */
  datatype Token = END | UNDEFINED | NUMBER(dec: int, hex: int, length: nat) | COLON | COLON2 | DOT

  // ---------------------------------------------------------------- numbers

  predicate IsLetterDigit(c: char) {
    'a' <= c <= 'f' || 'A' <= c <= 'F'
  }

  predicate IsXDigit(c: char) {
    '0' <= c <= '9' || IsLetterDigit(c)
  }

  function DigitValue(c: char): (v: nat)
    requires IsXDigit(c)
    ensures v < 16
    ensures !IsLetterDigit(c) ==> v < 10
  {
    if '0' <= c <= '9' then (c - '0') as nat
    else if 'a' <= c then (c - 'a') as nat + 10
    else (c - 'A') as nat + 10
  }

  predicate AllDigits(s: string) {
    forall i :: 0 <= i < |s| ==> IsXDigit(s[i])
  }

  predicate HasLetter(s: string) {
    exists i :: 0 <= i < |s| && IsLetterDigit(s[i])
  }

  function ValueOf(s: string, base: nat): nat
    requires AllDigits(s)
  {
    if s == "" then 0 else ValueOf(s[..|s| - 1], base) * base + DigitValue(s[|s| - 1])
  }

  /** The C library's conversion: it stops at the largest value there is. */
  function Strtol(s: string, base: nat): int
    requires AllDigits(s)
  {
    if ValueOf(s, base) > LONG_MAX then LONG_MAX else ValueOf(s, base)
  }

  function Number(s: string): Token
    requires AllDigits(s)
  {
    NUMBER(if HasLetter(s) then -1 else Strtol(s, 10), Strtol(s, 16), |s|)
  }

  // ---------------------------------------------------------------- one token

  /** How many digits the text starts with. */
  function RunLength(s: string): (n: nat)
    ensures n <= |s| && AllDigits(s[..n])
    ensures n < |s| ==> !IsXDigit(s[n])
  {
    if s == "" || !IsXDigit(s[0]) then 0
    else
      var n := RunLength(s[1..]);
      assert s[..n + 1] == [s[0]] + s[1..][..n];
      n + 1
  }

  /** The first token of a text and what follows it; or a number that is too long. */
  datatype Step = Step(token: Token, rest: string) | TooLong

  function First(s: string): (r: Step)
    requires s != ""
    ensures r.Step? ==> |r.rest| < |s| && r.token != END
  {
    if s[0] == '.' then Step(DOT, s[1..])
    else if s[0] == ':' then
      if |s| > 1 && s[1] == ':' then Step(COLON2, s[2..]) else Step(COLON, s[1..])
    else if IsXDigit(s[0]) then
      var n := RunLength(s);
      if n > MAX_DIGITS then TooLong else Step(Number(s[..n]), s[n..])
    else Step(UNDEFINED, s[1..])
  }

  // ---------------------------------------------------------------- all tokens

  /** The tokens of a text, up to a number that is too long. */
  datatype Lexed = Lexed(tokens: seq<Token>, threw: bool)

  function Lex(s: string): Lexed
    decreases |s|
  {
    if s == "" then Lexed([], false)
    else
      match First(s)
      case TooLong => Lexed([], true)
      case Step(token, rest) =>
        var more := Lex(rest);
        Lexed([token] + more.tokens, more.threw)
  }

  /** Some tokens, and then those of a text. */
  function Follow(seen: seq<Token>, s: string): Lexed {
    Lexed(seen + Lex(s).tokens, Lex(s).threw)
  }

  lemma Finished(seen: seq<Token>)
    ensures Follow(seen, "") == Lexed(seen, false)
  {
    assert seen + [] == seen;
  }

  lemma FollowOn(seen: seq<Token>, s: string)
    requires s != ""
    ensures First(s).TooLong? ==> Follow(seen, s) == Lexed(seen, true)
    ensures First(s).Step? ==> Follow(seen, s) == Follow(seen + [First(s).token], First(s).rest)
  {
    if First(s).Step? {
      var more := Lex(First(s).rest).tokens;
      assert seen + ([First(s).token] + more) == (seen + [First(s).token]) + more;
    } else {
      assert seen + [] == seen;
    }
  }

  /** What reading one token of the text `s` gives, with `rest` left; `ended` says that the end had
      been seen before. */
  predicate Took(ended: bool, s: string, threw: bool, tok: Token, rest: string) {
    if ended then !threw && tok == END && rest == ""
    else if s == "" then !threw && tok == UNDEFINED && rest == ""
    else
      match First(s)
      case TooLong => threw
      case Step(t, r) => !threw && tok == t && rest == r
  }

  lemma Reading(seen: seq<Token>, ended: bool, s: string, threw: bool, tok: Token, rest: string)
    requires Took(ended, s, threw, tok, rest) && (ended ==> s == "")
    ensures threw ==> Follow(seen, s) == Lexed(seen, true)
    ensures !threw && s != "" ==> tok != END && |rest| < |s| && Follow(seen, s) == Follow(seen + [tok], rest)
    ensures s == "" ==> tok == (if ended then END else UNDEFINED) && rest == "" && Follow(seen, s) == Lexed(seen, false)
  {
    if s == "" {
      assert Lex(s) == Lexed([], false) && seen + [] == seen;
    } else {
      FollowOn(seen, s);
    }
  }

  /** A number in front of something that does not continue it. */
  lemma {:induction false} RunEnds(digits: string, rest: string)
    requires AllDigits(digits) && (rest == "" || !IsXDigit(rest[0]))
    ensures RunLength(digits + rest) == |digits|
    decreases |digits|
  {
    if digits != "" {
      assert (digits + rest)[1..] == digits[1..] + rest;
      RunEnds(digits[1..], rest);
    }
  }

  lemma NumberFirst(digits: string, rest: string)
    requires digits != "" && AllDigits(digits) && |digits| <= MAX_DIGITS && (rest == "" || !IsXDigit(rest[0]))
    ensures First(digits + rest) == Step(Number(digits), rest)
  {
    RunEnds(digits, rest);
    assert IsXDigit(digits[0]) && (digits + rest)[0] == digits[0];
    assert (digits + rest)[..|digits|] == digits && (digits + rest)[|digits|..] == rest;
  }

  /** Lexing a number and what follows. */
  lemma LexNumber(digits: string, rest: string)
    requires digits != "" && AllDigits(digits) && |digits| <= MAX_DIGITS && (rest == "" || !IsXDigit(rest[0]))
    ensures Lex(digits + rest) == Lexed([Number(digits)] + Lex(rest).tokens, Lex(rest).threw)
  {
    NumberFirst(digits, rest);
  }

  // ---------------------------------------------------------------- what the tokens mean

  /** The numbers of an address; or the exception; or a ninth number, which the source stores past the
      end of its array. */
  datatype Parsed = Groups(values: seq<int>) | Invalid | Overrun

  /** What the four-number grammar asks for at position `k`. */
  predicate GoodAt(tok: Token, k: int) {
    if k % 2 == 1 then tok == DOT else tok.NUMBER? && 0 <= tok.dec <= 255
  }

  /** Four numbers of at most 255 with dots between them. */
  function MeaningV4(l: Lexed): Parsed {
    var t := l.tokens;
    if !l.threw && |t| == 7 && forall k :: 0 <= k < 7 ==> GoodAt(t[k], k)
    then Groups([t[0].dec, t[2].dec, t[4].dec, t[6].dec])
    else Invalid
  }

  /** The numbers among the tokens, cut to 16 bits. */
  function Numbers(t: seq<Token>): seq<int> {
    if t == [] then []
    else
      var last := t[|t| - 1];
      Numbers(t[..|t| - 1]) + if last.NUMBER? then [last.hex % 0x1_0000] else []
  }

  /** How many tokens are double colons. */
  function Doubles(t: seq<Token>): nat {
    if t == [] then 0 else Doubles(t[..|t| - 1]) + if t[|t| - 1] == COLON2 then 1 else 0
  }

  /** How many numbers come before the first double colon. */
  function Before(t: seq<Token>): nat {
    if t == [] then 0
    else
      var front, last := t[..|t| - 1], t[|t| - 1];
      Before(front) + if Doubles(front) == 0 && last.NUMBER? then 1 else 0
  }

  lemma {:induction false} BeforeAtMost(t: seq<Token>)
    ensures Before(t) <= |Numbers(t)|
    ensures Doubles(t) == 0 ==> Before(t) == |Numbers(t)|
  {
    if t != [] {
      BeforeAtMost(t[..|t| - 1]);
    }
  }

  /** `n` zeros. */
  function Zeros(n: nat): seq<int> {
    seq(n, _ => 0)
  }

  /** The zeros that a double colon stands for, put in its place. */
  function Expanded(values: seq<int>, at: nat): seq<int>
    requires at <= |values| <= 8
  {
    values[..at] + (Zeros(8 - |values|) + values[at..])
  }

  lemma ExpandedAt(values: seq<int>, at: nat)
    requires at <= |values| <= 8
    ensures var e, shift := Expanded(values, at), 8 - |values|;
            && |e| == 8
            && (forall k :: 0 <= k < at ==> e[k] == values[k])
            && (forall k :: at <= k < at + shift ==> e[k] == 0)
            && (forall k :: at + shift <= k < 8 ==> e[k] == values[k - shift])
  {}

  /** A ninth number comes before any second double colon. */
  predicate Overruns(t: seq<Token>) {
    t != [] &&
    var front, last := t[..|t| - 1], t[|t| - 1];
    Overruns(front) || (last.NUMBER? && |Numbers(front)| == 8 && Doubles(front) <= 1)
  }

  lemma {:induction false} OverrunsWhen(t: seq<Token>)
    ensures |Numbers(t)| <= 8 ==> !Overruns(t)
    ensures Doubles(t) <= 1 ==> (Overruns(t) <==> |Numbers(t)| > 8)
  {
    if t != [] {
      OverrunsWhen(t[..|t| - 1]);
    }
  }

  /** Eight groups; or fewer, and one double colon that stands for the missing ones. */
  function MeaningV6(l: Lexed): Parsed {
    BeforeAtMost(l.tokens);
    OverrunsWhen(l.tokens);
    var values := Numbers(l.tokens);
    if Overruns(l.tokens) then Overrun
    else if l.threw || Doubles(l.tokens) > 1 then Invalid
    else if Doubles(l.tokens) == 1 then Groups(Expanded(values, Before(l.tokens)))
    else if |values| == 8 then Groups(values)
    else Invalid
  }

  lemma MeaningOfEight(l: Lexed)
    requires !l.threw && |Numbers(l.tokens)| <= 8 && Doubles(l.tokens) <= 1
    ensures Before(l.tokens) <= |Numbers(l.tokens)|
    ensures MeaningV6(l) ==
            if Doubles(l.tokens) == 1 then Groups(Expanded(Numbers(l.tokens), Before(l.tokens)))
            else if |Numbers(l.tokens)| == 8 then Groups(Numbers(l.tokens)) else Invalid
  {
    BeforeAtMost(l.tokens);
    OverrunsWhen(l.tokens);
  }
}
