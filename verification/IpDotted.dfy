/** The whole grammar of section 2.2 of RFC 4291 over tokens, with the last 32 bits in decimals and
    dots if need be: which texts of it the parser of IPv6 addresses reads rightly, and which other
    texts it accepts. */
module IpDotted {
  import opened Basics
  import opened IpLexer
  import opened IpAddress
  import opened IpGrammar

  // ---------------------------------------------------------------- the dotted forms

  /** One to three digits worth at most 255. */
  predicate Octet(t: Token) {
    Word(t) && t.length <= 3 && 0 <= t.dec < 256
  }

  predicate Octets(d: seq<Token>) {
    |d| == 4 && forall i :: 0 <= i < 4 ==> Octet(d[i])
  }

  /** What follows the first of four octets. */
  function DotsBehind(d: seq<Token>): seq<Token>
    requires |d| == 4
  {
    [DOT, d[1], DOT, d[2], DOT, d[3]]
  }

  /** Six words and four octets; the first octet stands where a seventh word would. */
  ghost predicate DottedFull(t: seq<Token>, a: seq<Token>, d: seq<Token>) {
    Words(a) && Octets(d) && |a| == 6 && t == Spelled(a + [d[0]]) + DotsBehind(d)
  }

  /** Fewer words and four octets, and one double colon that stands for at least one group. */
  ghost predicate DottedShort(t: seq<Token>, a: seq<Token>, b: seq<Token>, d: seq<Token>) {
    && Words(a) && Words(b) && Octets(d) && |a| + |b| < 6
    && t == (Spelled(a) + ([COLON2] + Spelled(b + [d[0]]))) + DotsBehind(d)
  }

  ghost predicate DottedForm(t: seq<Token>) {
    (exists a, d :: DottedFull(t, a, d)) || (exists a, b, d :: DottedShort(t, a, b, d))
  }

  /** The grammar. */
  ghost predicate Strict(t: seq<Token>) {
    ColonForm(t) || DottedForm(t)
  }

  // ---------------------------------------------------------------- recognizing the dotted forms

  /** The last seven tokens are four octets with dots between them. */
  predicate EndsInOctets(t: seq<Token>) {
    |t| >= 7 &&
    var e := t[|t| - 7..];
    Octet(e[0]) && e[1] == DOT && Octet(e[2]) && e[3] == DOT && Octet(e[4]) && e[5] == DOT && Octet(e[6])
  }

  /** The tokens up to the first octet, which takes the place of a word. */
  function Front(t: seq<Token>): seq<Token>
    requires |t| >= 7
  {
    t[..|t| - 6]
  }

  /** Seven numbers with the first octet, or fewer and one double colon that stands for something. */
  predicate FrontCounted(t: seq<Token>) {
    (Doubles(t) == 0 && |Numbers(t)| == 7) || (Doubles(t) == 1 && |Numbers(t)| < 7)
  }

  predicate DottedOk(t: seq<Token>) {
    EndsInOctets(t) && Orderly(Front(t)) && FrontCounted(Front(t))
  }

  lemma SplitEnd(front: seq<Token>, d: seq<Token>)
    requires Octets(d) && front != [] && front[|front| - 1] == d[0]
    ensures var t := front + DotsBehind(d); EndsInOctets(t) && Front(t) == front
  {
    var t := front + DotsBehind(d);
    assert t[|t| - 7..] == [d[0]] + DotsBehind(d);
    assert Octet(d[0]) && Octet(d[1]) && Octet(d[2]) && Octet(d[3]);
  }

  lemma JoinEnd(t: seq<Token>) returns (d: seq<Token>)
    requires EndsInOctets(t)
    ensures Octets(d) && t == Front(t) + DotsBehind(d) && Front(t) != [] && Front(t)[|Front(t)| - 1] == d[0]
  {
    var e := t[|t| - 7..];
    d := [e[0], e[2], e[4], e[6]];
    assert DotsBehind(d) == e[1..];
  }

  /** A word at the end. */
  lemma {:induction false} SpelledLast(a: seq<Token>, n: Token)
    ensures Spelled(a + [n]) != [] && Spelled(a + [n])[|Spelled(a + [n])| - 1] == n
    decreases |a|
  {
    if a == [] {
      assert a + [n] == [n];
    } else {
      assert (a + [n])[1..] == a[1..] + [n];
      SpelledLast(a[1..], n);
    }
  }

  lemma {:induction false} LastOfSpelled(a: seq<Token>)
    requires a != []
    ensures Spelled(a) != [] && Spelled(a)[|Spelled(a)| - 1] == a[|a| - 1]
  {
    assert a == a[..|a| - 1] + [a[|a| - 1]];
    SpelledLast(a[..|a| - 1], a[|a| - 1]);
  }

  lemma WordsAnd(a: seq<Token>, n: Token)
    requires Words(a) && Word(n)
    ensures Words(a + [n]) && Hexes(a + [n]) == Hexes(a) + [n.hex]
  {
    forall i | 0 <= i < |a| + 1 ensures Word((a + [n])[i]) {
      assert i < |a| ==> (a + [n])[i] == a[i];
    }
  }

  lemma FullIsOrderly(w: seq<Token>)
    requires Words(w)
    ensures Orderly(Spelled(w))
  {
    SpelledIsOrderly(w, []);
    assert Spelled(w) + [] == Spelled(w);
  }

  lemma DottedFormIsOk(t: seq<Token>)
    requires DottedForm(t)
    ensures DottedOk(t)
  {
    if a, d :| DottedFull(t, a, d) {
      assert Octet(d[0]);
      WordsAnd(a, d[0]);
      SpelledLast(a, d[0]);
      SplitEnd(Spelled(a + [d[0]]), d);
      FullIsOrderly(a + [d[0]]);
      CountFull(a + [d[0]]);
    } else {
      var a, b, d :| DottedShort(t, a, b, d);
      assert Octet(d[0]);
      WordsAnd(b, d[0]);
      SpelledLast(b, d[0]);
      var front := Spelled(a) + ([COLON2] + Spelled(b + [d[0]]));
      SplitEnd(front, d);
      ShortIsOrderly(a, b + [d[0]]);
      CountShort(a, b + [d[0]]);
    }
  }

  lemma OkIsDottedForm(t: seq<Token>)
    requires DottedOk(t)
    ensures DottedForm(t)
  {
    var front := Front(t);
    var d := JoinEnd(t);
    hide EndsInOctets, Front, Orderly;
    assert Octet(d[0]);
    if Doubles(front) == 0 {
      var w := ReadFull(front);
      LastOfSpelled(w);
      var a := w[..|w| - 1];
      assert w == a + [d[0]];
      WordsOfPart(w, |w| - 1);
      assert DottedFull(t, a, d);
    } else {
      var a, w := ReadCounted(front);
      WordBehindDouble(a, w, d[0]);
      LastOfSpelled(w);
      var b := w[..|w| - 1];
      assert w == b + [d[0]];
      WordsOfPart(w, |w| - 1);
      assert DottedShort(t, a, b, d);
    }
  }

  lemma WordsOfPart(w: seq<Token>, n: nat)
    requires Words(w) && n <= |w|
    ensures Words(w[..n])
  {
    forall i | 0 <= i < n ensures Word(w[..n][i]) {
      assert w[..n][i] == w[i];
    }
  }

  /** What ends in a word has one behind its double colon. */
  lemma WordBehindDouble(a: seq<Token>, w: seq<Token>, n: Token)
    requires Word(n)
    requires var front := Spelled(a) + ([COLON2] + Spelled(w)); front[|front| - 1] == n
    ensures w != [] && Spelled(w)[|Spelled(w)| - 1] == n
  {
    if w != [] {
      LastOfSpelled(w);
    }
  }

  /** Exactly which token lists are of the grammar: for each list this can be seen from every token and
      its neighbours, the last seven tokens, and two counts. */
  lemma StrictIff(t: seq<Token>)
    ensures Strict(t) <==> (Orderly(t) && Counted(t)) || DottedOk(t)
  {
    ColonFormIff(t);
    if DottedForm(t) {
      DottedFormIsOk(t);
    }
    if DottedOk(t) {
      OkIsDottedForm(t);
    }
  }

  // ---------------------------------------------------------------- what is accepted

  /** What counts among the tokens behind the first octet. */
  lemma CountBehind(front: seq<Token>, d: seq<Token>)
    requires Octets(d)
    ensures var t := front + DotsBehind(d);
            && Numbers(t) == Numbers(front) + [d[1].hex, d[2].hex, d[3].hex] && Doubles(t) == Doubles(front)
            && (Doubles(front) > 0 ==> Before(t) == Before(front))
  {
    assert Octet(d[1]) && Octet(d[2]) && Octet(d[3]);
    hide Numbers, Doubles, Before, Octet;
    DotBehind(front, d[1]);
    var one := front + [DOT, d[1]];
    DotBehind(one, d[2]);
    var two := one + [DOT, d[2]];
    DotBehind(two, d[3]);
    assert front + DotsBehind(d) == two + [DOT, d[3]];
  }

  /** A dot and a number at the end. */
  lemma DotBehind(t: seq<Token>, n: Token)
    requires Word(n)
    ensures var u := t + [DOT, n];
            && Numbers(u) == Numbers(t) + [n.hex] && Doubles(u) == Doubles(t)
            && (Doubles(t) > 0 ==> Before(u) == Before(t))
  {
    hide Numbers, Doubles, Before;
    OneBehind(t, DOT);
    OneBehind(t + [DOT], n);
    assert t + [DOT, n] == t + [DOT] + [n];
  }

  lemma OneBehind(t: seq<Token>, tok: Token)
    ensures Numbers(t + [tok]) == Numbers(t) + if tok.NUMBER? then [tok.hex % 0x1_0000] else []
    ensures Doubles(t + [tok]) == Doubles(t) + if tok == COLON2 then 1 else 0
    ensures Before(t + [tok]) == Before(t) + if Doubles(t) == 0 && tok.NUMBER? then 1 else 0
  {
    assert (t + [tok])[..|t|] == t;
  }

  /** An accepted text is of the grammar exactly when every token is one of it and goes with its
      neighbours, where behind a double colon four octets may end the text, and a double colon stands for
      something. All other accepted texts have a foreign character, a number of too many digits, a colon
      or a dot out of place, octets without a double colon, or a double colon among eight groups. */
  lemma AcceptedIsStrictIff(l: Lexed)
    requires MeaningV6(l).Groups?
    ensures var t := l.tokens;
            Strict(t) <==>
            || (Orderly(t) && !(Doubles(t) == 1 && |Numbers(t)| == 8))
            || (EndsInOctets(t) && Orderly(Front(t)) && Doubles(t) == 1)
  {
    var t := l.tokens;
    StrictIff(t);
    AcceptedIff(l);
    if EndsInOctets(t) {
      var d := JoinEnd(t);
      CountBehind(Front(t), d);
      hide EndsInOctets, Front, Orderly;
    }
  }

  // ---------------------------------------------------------------- the meaning of dotted forms

  /** A decimal number read as a hexadecimal one. */
  function AsHex(dec: nat): nat {
    dec / 100 * 256 + dec / 10 % 10 * 16 + dec % 10
  }

  /** The octets come from a text: both readings are of the same digits. */
  predicate FromText(d: seq<Token>)
    requires Octets(d)
  {
    forall i :: 0 <= i < 4 ==> assert Octet(d[i]); d[i].hex == AsHex(d[i].dec)
  }

  /** The address that a short dotted form stands for. */
  function RightGroups(a: seq<Token>, b: seq<Token>, d: seq<Token>): (r: seq<int>)
    requires Words(a) && Words(b) && Octets(d) && |a| + |b| < 6
    ensures |r| == 8
  {
    assert Octet(d[0]) && Octet(d[1]) && Octet(d[2]) && Octet(d[3]);
    Hexes(a) + (Zeros(6 - |a| - |b|) + (Hexes(b) + [d[0].dec * 256 + d[1].dec, d[2].dec * 256 + d[3].dec]))
  }

  /** What the parser makes of it: the octets are read as four hexadecimal groups. */
  function ReadGroups(a: seq<Token>, b: seq<Token>, d: seq<Token>): (r: seq<int>)
    requires Words(a) && Words(b) && Octets(d) && |a| + |b| <= 4
    ensures |r| == 8
  {
    assert Octet(d[0]) && Octet(d[1]) && Octet(d[2]) && Octet(d[3]);
    Hexes(a) + (Zeros(4 - |a| - |b|) + (Hexes(b) + [d[0].hex, d[1].hex, d[2].hex, d[3].hex]))
  }

  /** Six words and four octets are ten numbers, which are stored past the end of the array. */
  lemma DottedFullOverruns(t: seq<Token>, a: seq<Token>, d: seq<Token>)
    requires DottedFull(t, a, d)
    ensures MeaningV6(Lexed(t, false)) == Overrun
  {
    assert Octet(d[0]);
    WordsAnd(a, d[0]);
    CountFull(a + [d[0]]);
    CountBehind(Spelled(a + [d[0]]), d);
    OverrunsWhen(t);
  }

  /** With five words and a double colon there are nine; with fewer the parser takes the octets for
      four groups. */
  lemma DottedShortRead(t: seq<Token>, a: seq<Token>, b: seq<Token>, d: seq<Token>)
    requires DottedShort(t, a, b, d)
    ensures MeaningV6(Lexed(t, false)) == if |a| + |b| == 5 then Overrun else Groups(ReadGroups(a, b, d))
  {
    assert Octet(d[0]);
    WordsAnd(b, d[0]);
    var front := Spelled(a) + ([COLON2] + Spelled(b + [d[0]]));
    CountShort(a, b + [d[0]]);
    CountBehind(front, d);
    hide Numbers, Doubles, Before, Spelled, Hexes, Words, Octet;
    if |a| + |b| == 5 {
      OverrunsWhen(t);
    } else {
      ShortRead(t, Hexes(a), Hexes(b), [d[0].hex, d[1].hex, d[2].hex, d[3].hex]);
    }
  }

  lemma ShortRead(t: seq<Token>, a: seq<int>, b: seq<int>, x: seq<int>)
    requires |x| == 4 && |a| + |b| <= 4
    requires Numbers(t) == ((a + (b + [x[0]])) + [x[1], x[2], x[3]]) && Doubles(t) == 1 && Before(t) == |a|
    ensures MeaningV6(Lexed(t, false)) == Groups(a + (Zeros(4 - |a| - |b|) + (b + x)))
  {
    var values := Numbers(t);
    assert values == a + (b + x);
    assert values[..|a|] == a && values[|a|..] == b + x;
    hide Numbers, Doubles, Before;
    MeaningOfEight(Lexed(t, false));
  }

  /** When the tokens of a dotted form are read rightly. */
  lemma TokensReadRightIff(t: seq<Token>, a: seq<Token>, b: seq<Token>, d: seq<Token>)
    requires DottedShort(t, a, b, d) && FromText(d)
    ensures MeaningV6(Lexed(t, false)) == Groups(RightGroups(a, b, d)) <==>
            && |a| + |b| <= 4 && Hexes(b) == Zeros(|b|)
            && d[0].dec == 0 && d[1].dec == 0 && d[2].dec == 0 && d[3].dec < 10
  {
    DottedShortRead(t, a, b, d);
    hide DottedShort, MeaningV6, Zeros;
    if |a| + |b| <= 4 {
      ReadRightIff(a, b, d);
    }
  }

  lemma ReadRightIff(a: seq<Token>, b: seq<Token>, d: seq<Token>)
    requires Words(a) && Words(b) && Octets(d) && |a| + |b| <= 4 && FromText(d)
    ensures ReadGroups(a, b, d) == RightGroups(a, b, d) <==>
            Hexes(b) == Zeros(|b|) && d[0].dec == 0 && d[1].dec == 0 && d[2].dec == 0 && d[3].dec < 10
  {
    assert Octet(d[0]) && Octet(d[1]) && Octet(d[2]) && Octet(d[3]);
    hide AsHex, Zeros, Hexes;
    SameGroups(Hexes(a), Hexes(b), d[0].dec, d[1].dec, d[2].dec, d[3].dec);
  }

  lemma SameGroups(a: seq<int>, b: seq<int>, v0: nat, v1: nat, v2: nat, v3: nat)
    requires |a| + |b| <= 4 && v0 < 256 && v1 < 256 && v2 < 256 && v3 < 256
    ensures a + (Zeros(4 - |a| - |b|) + (b + [AsHex(v0), AsHex(v1), AsHex(v2), AsHex(v3)]))
         == a + (Zeros(6 - |a| - |b|) + (b + [v0 * 256 + v1, v2 * 256 + v3]))
        <==> b == Zeros(|b|) && v0 == 0 && v1 == 0 && v2 == 0 && v3 < 10
  {
    hide AsHex;
    SmallReadings(v0, v1, v2, v3);
    var x, y := [AsHex(v0), AsHex(v1), AsHex(v2), AsHex(v3)], [v0 * 256 + v1, v2 * 256 + v3];
    var n := 4 - |a| - |b|;
    if a + (Zeros(n) + (b + x)) == a + (Zeros(n + 2) + (b + y)) {
      SameMeansZeros(a, b, x, y);
    }
    if b == Zeros(|b|) && v0 == 0 && v1 == 0 && v2 == 0 && v3 < 10 {
      assert x == [0, 0, 0, v3] && y == [0, v3];
      assert Zeros(n) + (b + x) == Zeros(n + 2) + (b + y);
    }
  }

  lemma SameMeansZeros(a: seq<int>, b: seq<int>, x: seq<int>, y: seq<int>)
    requires |a| + |b| <= 4 && |x| == 4 && |y| == 2
    requires a + (Zeros(4 - |a| - |b|) + (b + x)) == a + (Zeros(6 - |a| - |b|) + (b + y))
    ensures b == Zeros(|b|) && x[2] == y[0] && x[3] == y[1]
  {
    var at := 4 - |b|;
    var r := a + (Zeros(at - |a|) + (b + x));
    assert r == a + (Zeros(at + 2 - |a|) + (b + y));
    assert r[6] == x[2] && r[7] == x[3];
    assert r[6] == y[0] && r[7] == y[1];
    assert r[at] == 0 && r[at + 1] == 0;
    ShiftedZeros(b, r, at);
  }

  /** What both readings of the last four octets have in common. */
  lemma SmallReadings(v0: nat, v1: nat, v2: nat, v3: nat)
    requires v0 < 256 && v1 < 256 && v2 < 256 && v3 < 256
    ensures AsHex(v2) == v0 * 256 + v1 && AsHex(v3) == v2 * 256 + v3 <==>
            v0 == 0 && v1 == 0 && v2 == 0 && v3 < 10
    ensures v3 < 10 ==> AsHex(v3) == v3
    ensures AsHex(0) == 0
  {
    AsHexIs(v3, 0);
    AsHexIs(v3, v2);
    assert AsHex(0) == 0;
  }

  /** The two readings of an octet agree, but for a multiple of 256, only for a single digit. */
  lemma AsHexIs(v: nat, w: nat)
    requires v < 256
    ensures AsHex(v) == w * 256 + v <==> w == 0 && v < 10
  {
    var h, t, u := v / 100, v / 10 % 10, v % 10;
    assert v == 100 * h + 10 * t + u;
  }

  /** Zeros where `b` begins, and `b` again two places later. */
  lemma ShiftedZeros(b: seq<int>, r: seq<int>, at: nat)
    requires at + |b| == 4 && |r| == 8 && r[at] == 0 && r[at + 1] == 0
    requires forall i :: 0 <= i < |b| ==> b[i] == r[at + i]
    requires forall i :: 0 <= i < |b| ==> b[i] == r[at + 2 + i]
    ensures b == Zeros(|b|)
  {
    assert |b| > 0 ==> b[0] == r[at + 0];
    assert |b| > 1 ==> b[1] == r[at + 1];
    assert |b| > 2 ==> b[2] == r[at + 2] == r[at + 2 + 0] == b[0];
    assert |b| > 3 ==> b[3] == r[at + 3] == r[at + 2 + 1] == b[1];
  }

  /** The octets of any text are of one kind: their two readings go together. */
  lemma {:induction false} OctetsFromText(s: string, i: nat)
    requires i < |Lex(s).tokens| && Octet(Lex(s).tokens[i])
    ensures Lex(s).tokens[i].hex == AsHex(Lex(s).tokens[i].dec)
    decreases |s|
  {
    var tok := Lex(s).tokens[i];
    var step := First(s);
    if i == 0 {
      var n := RunLength(s);
      assert IsXDigit(s[0]) && tok == Number(s[..n]);
      ShortNumber(s[..n]);
    } else {
      assert tok == Lex(step.rest).tokens[i - 1];
      OctetsFromText(step.rest, i - 1);
    }
  }

  lemma ShortNumber(s: string)
    requires AllDigits(s) && 1 <= |s| <= 3 && !HasLetter(s)
    ensures Strtol(s, 16) == AsHex(Strtol(s, 10))
  {
    Values(s, 10);
    Values(s, 16);
    Digit(s, 0);
    if |s| == 1 {
      TwoReadings(0, 0, DigitValue(s[0]));
    } else if |s| == 2 {
      Digit(s, 1);
      TwoReadings(0, DigitValue(s[0]), DigitValue(s[1]));
    } else {
      Digit(s, 1);
      Digit(s, 2);
      TwoReadings(DigitValue(s[0]), DigitValue(s[1]), DigitValue(s[2]));
    }
  }

  lemma Digit(s: string, i: nat)
    requires AllDigits(s) && i < |s| && !HasLetter(s)
    ensures DigitValue(s[i]) < 10
  {
    assert !IsLetterDigit(s[i]);
  }

  lemma TwoReadings(h: nat, t: nat, u: nat)
    requires h < 10 && t < 10 && u < 10
    ensures AsHex((h * 10 + t) * 10 + u) == (h * 16 + t) * 16 + u
  {
    var v := (h * 10 + t) * 10 + u;
    assert v / 10 == h * 10 + t && v % 10 == u;
    assert v / 10 % 10 == t && v / 100 == h;
  }

  /** The value of up to three digits. */
  lemma Values(s: string, base: nat)
    requires AllDigits(s) && 1 <= |s| <= 3
    ensures ValueOf(s, base) ==
            if |s| == 1 then DigitValue(s[0])
            else if |s| == 2 then DigitValue(s[0]) * base + DigitValue(s[1])
            else (DigitValue(s[0]) * base + DigitValue(s[1])) * base + DigitValue(s[2])
  {
    hide ValueOf, DigitValue;
    FirstDigit(s, base);
    if |s| == 1 {
      assert s[..1] == s;
    } else {
      SecondDigit(s, base);
      if |s| == 2 {
        assert s[..2] == s;
      } else {
        LastDigit(s, base);
        assert s[..|s| - 1] == s[..2];
      }
    }
  }

  lemma FirstDigit(s: string, base: nat)
    requires AllDigits(s) && s != ""
    ensures ValueOf(s[..1], base) == DigitValue(s[0])
  {
    assert s[..1][..0] == "" && ValueOf("", base) == 0;
    hide ValueOf, DigitValue;
    LastDigit(s[..1], base);
  }

  lemma SecondDigit(s: string, base: nat)
    requires AllDigits(s) && |s| >= 2
    ensures ValueOf(s[..2], base) == DigitValue(s[0]) * base + DigitValue(s[1])
  {
    hide ValueOf, DigitValue;
    FirstDigit(s, base);
    LastDigit(s[..2], base);
    assert s[..2][..1] == s[..1];
  }

  lemma LastDigit(s: string, base: nat)
    requires AllDigits(s) && s != ""
    ensures ValueOf(s, base) == ValueOf(s[..|s| - 1], base) * base + DigitValue(s[|s| - 1])
  {}

  lemma OctetsOf(s: string, front: seq<Token>, d: seq<Token>)
    requires Octets(d) && front != [] && front[|front| - 1] == d[0] && Lex(s).tokens == front + DotsBehind(d)
    ensures FromText(d)
  {
    hide Lex, AsHex;
    var t, n := Lex(s).tokens, |front|;
    assert Octet(d[0]) && Octet(d[1]) && Octet(d[2]) && Octet(d[3]);
    hide Octet;
    assert t[n - 1] == d[0] && t[n + 1] == d[1] && t[n + 3] == d[2] && t[n + 5] == d[3];
    OctetsFromText(s, n - 1);
    OctetsFromText(s, n + 1);
    OctetsFromText(s, n + 3);
    OctetsFromText(s, n + 5);
    assert d == [d[0], d[1], d[2], d[3]];
  }

  /** A text of a dotted form is read rightly exactly when it has at most four words, those behind the
      double colon are zero, the first three octets are zero, and the last is below ten. */
  lemma DottedReadRightIff(s: string, a: seq<Token>, b: seq<Token>, d: seq<Token>)
    requires DottedShort(Lex(s).tokens, a, b, d) && !Lex(s).threw
    ensures MeaningV6(Lex(s)) == Groups(RightGroups(a, b, d)) <==>
            && |a| + |b| <= 4 && Hexes(b) == Zeros(|b|)
            && d[0].dec == 0 && d[1].dec == 0 && d[2].dec == 0 && d[3].dec < 10
  {
    SpelledLast(b, d[0]);
    hide Lex, MeaningV6, Spelled, Hexes, RightGroups;
    OctetsOf(s, Spelled(a) + ([COLON2] + Spelled(b + [d[0]])), d);
    TokensReadRightIff(Lex(s).tokens, a, b, d);
    assert Lex(s) == Lexed(Lex(s).tokens, false);
  }
}
