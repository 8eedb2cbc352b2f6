/** Texts at the edge of the grammar of IPv6 addresses: dotted ones that are misread, and others that are
    no addresses and are accepted. */
module IpTexts {
  import opened Basics
  import opened IpLexer
  import opened IpAddress
  import opened IpGrammar
  import opened IpDotted

  // ---------------------------------------------------------------- dotted texts

  /** Four bytes in decimals with dots between them. */
  function Dots(q: seq<Byte>): string
    requires |q| == 4
  {
    Print(q[0], 10) + ("." + (Print(q[1], 10) + ("." + (Print(q[2], 10) + ("." + (Print(q[3], 10) + ""))))))
  }

  /** Groups, and then four bytes in the place of the last two. */
  function Dotted(b: seq<Short>, q: seq<Byte>): string
    requires |q| == 4
  {
    if b == [] then Dots(q) else Join(b) + (":" + Dots(q))
  }

  predicate ByteToken(t: Token, n: Byte) {
    Octet(t) && t.dec == n && t.hex == AsHex(n)
  }

  lemma LexByte(n: Byte, rest: string)
    requires rest == "" || !IsXDigit(rest[0])
    ensures var l := Lex(Print(n, 10) + rest);
            && l.tokens != [] && ByteToken(l.tokens[0], n)
            && l.tokens == [l.tokens[0]] + Lex(rest).tokens && l.threw == Lex(rest).threw
  {
    var s := Print(n, 10);
    PrintIsNumber(n, 10);
    assert Power(10, 3) == 1000 by {
      assert Power(10, 1) == 10 && Power(10, 2) == 100;
    }
    PrintIsShort(n, 10, 3);
    LexNumber(s, rest);
    hide Lex, Print, ValueOf;
    ShortNumber(s);
  }

  lemma LexByteAndDot(n: Byte, rest: string)
    ensures ByteDotRest(Lex(Print(n, 10) + ("." + rest)), n, Lex(rest))
  {
    assert ("." + rest)[1..] == rest;
    assert Lex("." + rest) == Lexed([DOT] + Lex(rest).tokens, Lex(rest).threw);
    hide Lex, Print;
    LexByte(n, "." + rest);
  }

  predicate BytesRead(d: seq<Token>, q: seq<Byte>) {
    |d| == 4 && |q| == 4 && forall i :: 0 <= i < 4 ==> ByteToken(d[i], q[i])
  }

  lemma LexDots(q: seq<Byte>) returns (d: seq<Token>)
    requires |q| == 4
    ensures BytesRead(d, q) && Lex(Dots(q)) == Lexed([d[0]] + DotsBehind(d), false)
  {
    var s3 := Print(q[3], 10) + "";
    var s2 := Print(q[2], 10) + ("." + s3);
    var s1 := Print(q[1], 10) + ("." + s2);
    var s0 := Print(q[0], 10) + ("." + s1);
    assert Dots(q) == s0;
    assert Lex("") == Lexed([], false);
    hide Lex, Print, Dots, ByteToken;
    LexByte(q[3], "");
    LexByteAndDot(q[2], s3);
    LexByteAndDot(q[1], s2);
    LexByteAndDot(q[0], s1);
    d := TakeBytes(q, Lex(s0), Lex(s1), Lex(s2), Lex(s3));
  }

  ghost predicate ByteDotRest(l: Lexed, n: Byte, rest: Lexed) {
    && |l.tokens| >= 2 && ByteToken(l.tokens[0], n)
    && l.tokens == [l.tokens[0], DOT] + rest.tokens && l.threw == rest.threw
  }

  lemma TakeBytes(q: seq<Byte>, l0: Lexed, l1: Lexed, l2: Lexed, l3: Lexed) returns (d: seq<Token>)
    requires |q| == 4 && !l3.threw && |l3.tokens| == 1 && ByteToken(l3.tokens[0], q[3])
    requires ByteDotRest(l2, q[2], l3) && ByteDotRest(l1, q[1], l2) && ByteDotRest(l0, q[0], l1)
    ensures BytesRead(d, q) && l0 == Lexed([d[0]] + DotsBehind(d), false)
  {
    hide ByteToken;
    d := [l0.tokens[0], l1.tokens[0], l2.tokens[0], l3.tokens[0]];
    assert l3.tokens == [d[3]];
    assert l2.tokens == [d[2], DOT, d[3]];
    assert l1.tokens == [d[1], DOT, d[2], DOT, d[3]];
  }

  lemma {:induction false} SpelledAnd(a: seq<Token>, n: Token)
    requires a != []
    ensures Spelled(a + [n]) == Spelled(a) + [COLON, n]
    decreases |a|
  {
    if |a| == 1 {
      assert (a + [n])[1..] == [n];
    } else {
      assert (a + [n])[1..] == a[1..] + [n];
      SpelledAnd(a[1..], n);
    }
  }

  lemma SpelledBehind(a: seq<Token>, n: Token, rest: seq<Token>)
    requires a != []
    ensures Spelled(a) + ([COLON] + ([n] + rest)) == Spelled(a + [n]) + rest
  {
    SpelledAnd(a, n);
    hide Spelled;
    assert Spelled(a + [n]) == Spelled(a) + [COLON, n];
  }

  lemma DotsStart(q: seq<Byte>)
    requires |q| == 4
    ensures Dots(q) != "" && IsXDigit(Dots(q)[0])
  {
    PrintIsNumber(q[0], 10);
    assert IsXDigit(Print(q[0], 10)[0]);
  }

  lemma LexDotted(values: seq<Short>, q: seq<Byte>) returns (b: seq<Token>, d: seq<Token>)
    requires |q| == 4
    ensures Words(b) && Hexes(b) == values && BytesRead(d, q)
    ensures Lex(Dotted(values, q)) == Lexed(Spelled(b + [d[0]]) + DotsBehind(d), false)
  {
    d := LexDots(q);
    if values == [] {
      b := [];
      assert b + [d[0]] == [d[0]];
    } else {
      DotsStart(q);
      hide Lex, Dots, Join, Spelled, ByteToken;
      LexColonToken(Dots(q));
      b := LexSpelled(values, ":" + Dots(q));
      SpelledBehind(b, d[0], DotsBehind(d));
    }
  }

  lemma OctetsRead(d: seq<Token>, q: seq<Byte>)
    requires BytesRead(d, q)
    ensures Octets(d) && FromText(d)
    ensures forall i :: 0 <= i < 4 ==> d[i].NUMBER? && d[i].dec == q[i] && d[i].hex == AsHex(q[i])
  {
    forall i | 0 <= i < 4 ensures Octet(d[i]) && d[i].dec == q[i] && d[i].hex == AsHex(q[i]) {
      assert ByteToken(d[i], q[i]);
    }
  }

  /** Six groups and four bytes are an address of the grammar, and are stored past the end of the array. */
  lemma DottedTextOverruns(values: seq<Short>, q: seq<Byte>)
    requires |values| == 6 && |q| == 4
    ensures var l := Lex(Dotted(values, q)); Strict(l.tokens) && MeaningV6(l) == Overrun
  {
    var a, d := LexDotted(values, q);
    var t := Lex(Dotted(values, q)).tokens;
    OctetsRead(d, q);
    hide Lex, Dotted, MeaningV6;
    assert DottedFull(t, a, d);
    DottedFullOverruns(t, a, d);
  }

  /** What is read instead of fewer groups, a double colon and four bytes. */
  function Misread(a: seq<Short>, b: seq<Short>, q: seq<Byte>): seq<int>
    requires |q| == 4 && |a| + |b| <= 4
  {
    a + (Zeros(4 - |a| - |b|) + (b + [AsHex(q[0]), AsHex(q[1]), AsHex(q[2]), AsHex(q[3])]))
  }

  /** Fewer groups, a double colon and four bytes are an address of the grammar too. With five groups it
      is stored past the end of the array, with fewer the bytes are read as four groups. */
  lemma DottedTextMisread(a: seq<Short>, b: seq<Short>, q: seq<Byte>)
    requires |a| + |b| < 6 && |q| == 4
    ensures var l := Lex(Join(a) + ("::" + Dotted(b, q)));
            Strict(l.tokens) && MeaningV6(l) == if |a| + |b| == 5 then Overrun else Groups(Misread(a, b, q))
  {
    var l := Lex(Join(a) + ("::" + Dotted(b, q)));
    var x, y, d := LexShortDotted(a, b, q);
    OctetsRead(d, q);
    hide Lex, Join, Dotted, MeaningV6, ReadGroups, Misread, Hexes, ByteToken;
    assert DottedShort(l.tokens, x, y, d);
    hide DottedShort;
    DottedShortRead(l.tokens, x, y, d);
    if |a| + |b| <= 4 {
      SameReading(x, y, d, a, b, q);
    }
  }

  lemma SameReading(x: seq<Token>, y: seq<Token>, d: seq<Token>, a: seq<Short>, b: seq<Short>, q: seq<Byte>)
    requires Words(x) && Hexes(x) == a && Words(y) && Hexes(y) == b && BytesRead(d, q) && |a| + |b| <= 4
    requires Octets(d)
    ensures ReadGroups(x, y, d) == Misread(a, b, q)
  {
    hide Zeros, AsHex, Hexes;
    OctetsRead(d, q);
  }

  lemma LexDoubleToken(rest: string)
    ensures Lex("::" + rest) == Lexed([COLON2] + Lex(rest).tokens, Lex(rest).threw)
  {
    assert ("::" + rest)[2..] == rest;
  }

  lemma LexShortDotted(a: seq<Short>, b: seq<Short>, q: seq<Byte>)
    returns (x: seq<Token>, y: seq<Token>, d: seq<Token>)
    requires |q| == 4
    ensures Words(x) && Hexes(x) == a && Words(y) && Hexes(y) == b && BytesRead(d, q)
    ensures Lex(Join(a) + ("::" + Dotted(b, q))) ==
            Lexed((Spelled(x) + ([COLON2] + Spelled(y + [d[0]]))) + DotsBehind(d), false)
  {
    hide Lex, Dotted, Join, Spelled, Hexes, ByteToken;
    y, d := LexDotted(b, q);
    var rest := "::" + Dotted(b, q);
    LexDoubleToken(Dotted(b, q));
    x := LexSpelled(a, rest);
    var tail := Spelled(y + [d[0]]);
    assert Spelled(x) + ([COLON2] + (tail + DotsBehind(d))) == (Spelled(x) + ([COLON2] + tail)) + DotsBehind(d);
  }

  /** A concrete text: "::ffff:1.2.3.4" is an IPv4-mapped address, and is read as another one. */
  lemma MappedAddressMisread()
    ensures var l := Lex("::ffff:1.2.3.4");
            Strict(l.tokens) && MeaningV6(l) == Groups([0, 0, 0, 0xffff, 1, 2, 3, 4])
  {
    MappedText();
    hide Lex, Dotted, Strict, MeaningV6, Join;
    MappedGroups();
    hide Misread;
    DottedTextMisread([], [0xffff], [1, 2, 3, 4]);
  }

  lemma MappedGroups()
    ensures Misread([], [0xffff], [1, 2, 3, 4]) == [0, 0, 0, 0xffff, 1, 2, 3, 4]
  {
    hide AsHex;
    DigitAsHex(1);
    DigitAsHex(2);
    DigitAsHex(3);
    DigitAsHex(4);
    ThreeZeros([0xffff, 1, 2, 3, 4]);
    var behind: seq<int> := [AsHex(1), AsHex(2), AsHex(3), AsHex(4)];
    assert [0xffff] + behind == [0xffff, 1, 2, 3, 4];
  }

  lemma DigitAsHex(v: nat)
    requires v < 10
    ensures AsHex(v) == v
  {}

  lemma ThreeZeros(s: seq<int>)
    ensures [] + (Zeros(3) + s) == [0, 0, 0] + s
  {}

  lemma MappedText()
    ensures Join([]) + ("::" + Dotted([0xffff], [1, 2, 3, 4])) == "::ffff:1.2.3.4"
  {
    DotsOneToFour();
    PrintAllOnes();
    hide Print, Dots;
    assert Join([0xffff]) == "ffff";
  }

  lemma PrintAllOnes()
    ensures Print(0xffff, 16) == "ffff"
  {
    assert Print(0xff, 16) == "ff";
    assert Print(0xfff, 16) == "fff";
  }

  lemma DotsOneToFour()
    ensures Dots([1, 2, 3, 4]) == "1.2.3.4"
  {
    assert Print(1, 10) == "1" && Print(2, 10) == "2" && Print(3, 10) == "3" && Print(4, 10) == "4";
  }

  /** A concrete text: "1:2:3:4:5:6:1.2.3.4" is an address, and is stored past the end of the array. */
  lemma FullDottedOverruns()
    ensures var l := Lex("1:2:3:4:5:6:1.2.3.4");
            Strict(l.tokens) && MeaningV6(l) == Overrun
  {
    DotsOneToFour();
    JoinOneToSix();
    hide Lex, Dots, Join, Strict, MeaningV6;
    assert Dotted([1, 2, 3, 4, 5, 6], [1, 2, 3, 4]) == "1:2:3:4:5:6:1.2.3.4";
    DottedTextOverruns([1, 2, 3, 4, 5, 6], [1, 2, 3, 4]);
  }

  lemma JoinFourToSix()
    ensures Join([4, 5, 6]) == "4:5:6"
  {
    assert Print(6, 16) == "6" && Join([6]) == "6";
    JoinDigit(5, [6]);
    JoinDigit(4, [5, 6]);
    hide Join, Print;
    assert [5] + [6] == [5, 6] && [4] + [5, 6] == [4, 5, 6];
  }

  lemma JoinOneToSix()
    ensures Join([1, 2, 3, 4, 5, 6]) == "1:2:3:4:5:6"
  {
    hide Join, Print;
    JoinFourToSix();
    JoinDigit(3, [4, 5, 6]);
    JoinDigit(2, [3, 4, 5, 6]);
    JoinDigit(1, [2, 3, 4, 5, 6]);
    assert [3] + [4, 5, 6] == [3, 4, 5, 6];
    assert [2] + [3, 4, 5, 6] == [2, 3, 4, 5, 6] && [1] + [2, 3, 4, 5, 6] == [1, 2, 3, 4, 5, 6];
  }

  lemma JoinDigit(v: Short, more: seq<Short>)
    requires v < 10 && more != []
    ensures Join([v] + more) == ['0' + v as char, ':'] + Join(more)
  {
    assert Print(v, 16) == ['0' + v as char];
    assert ([v] + more)[1..] == more;
  }

  // ---------------------------------------------------------------- texts that are no addresses

  /** What ends in no octet and has a token out of place is not of the grammar. */
  lemma NotStrict(t: seq<Token>, i: nat)
    requires i < |t| && !Fits(t, i) && !(t[|t| - 1].NUMBER? && |t| >= 7)
    ensures !Strict(t)
  {
    StrictIff(t);
  }

  /** A colon behind any printed address makes it malformed, and is passed over. */
  lemma TrailingColonAccepted(values: seq<Short>)
    requires |values| == 8
    ensures var l := Lex(Join(values) + ":");
            MeaningV6(l) == Groups(values) && !Strict(l.tokens)
  {
    LexColonAlone();
    var a := LexSpelled(values, ":");
    var l := Lex(Join(values) + ":");
    hide Lex, Join;
    ColonBehind(l, a);
    assert Hexes(a) == values;
  }

  lemma ColonBehind(l: Lexed, a: seq<Token>)
    requires Words(a) && |a| == 8 && l == Lexed(Spelled(a) + [COLON], false)
    ensures MeaningV6(l) == Groups(Hexes(a)) && !Strict(l.tokens)
  {
    SpelledInFront(a, [COLON]);
    OneInFront(COLON, []);
    assert [COLON] + [] == [COLON] && Hexes(a) + [] == Hexes(a) && Numbers([]) == [] && Doubles([]) == 0;
    hide Spelled, Hexes, Numbers, Doubles, Before, Strict;
    assert l.tokens[|l.tokens| - 1] == COLON && !Fits(l.tokens, |l.tokens| - 1);
    MeaningOfEight(l);
    NotStrict(l.tokens, |l.tokens| - 1);
  }

  lemma LexColonAlone()
    ensures Lex(":") == Lexed([COLON], false)
  {
    assert ":"[1..] == "";
  }

  /** A concrete text: "::!" is no address, and is accepted as eight zeros. */
  lemma ForeignCharacterAccepted()
    ensures var l := Lex("::!");
            MeaningV6(l) == Groups(Zeros(8)) && !Strict(l.tokens)
  {
    LexDoubleToken("!");
    assert "!"[1..] == "" && "::" + "!" == "::!";
    assert Lex("!") == Lexed([UNDEFINED], false);
    hide Lex, Strict, MeaningV6;
    ForeignToken();
    assert Lex("::!") == Lexed([COLON2, UNDEFINED], false);
  }

  lemma ForeignToken()
    ensures MeaningV6(Lexed([COLON2, UNDEFINED], false)) == Groups(Zeros(8)) && !Strict([COLON2, UNDEFINED])
  {
    var t := [COLON2, UNDEFINED];
    assert t == [COLON2] + ([UNDEFINED] + []) && Numbers([]) == [] && Doubles([]) == 0;
    OneInFront(UNDEFINED, []);
    OneInFront(COLON2, [UNDEFINED] + []);
    hide Numbers, Doubles, Before;
    Expands(Lexed(t, false), [], []);
    assert [] + (Zeros(8) + []) == Zeros(8);
    hide Strict;
    assert !Fits(t, 1);
    NotStrict(t, 1);
  }

  /** A concrete text: "00001::" has too many digits in a group, and is accepted. */
  lemma FiveDigitsAccepted()
    ensures var l := Lex("00001::");
            MeaningV6(l) == Groups([1] + Zeros(7)) && !Strict(l.tokens)
  {
    var s := "00001";
    PaddedOne();
    LexDoubleToken("");
    assert Lex("") == Lexed([], false) && "::" + "" == "::" && s + "::" == "00001::";
    LexNumber(s, "::");
    hide Lex, Strict, MeaningV6;
    var n := Number(s);
    assert n.hex == 1 && n.length == 5;
    hide Number, AllDigits, Strtol;
    LongGroup(n);
    assert Lex("00001::").tokens == [n, COLON2];
  }

  lemma LongGroup(n: Token)
    requires n.NUMBER? && n.length > 4 && n.hex == 1
    ensures MeaningV6(Lexed([n, COLON2], false)) == Groups([1] + Zeros(7)) && !Strict([n, COLON2])
  {
    var t := [n, COLON2];
    assert t == [n] + ([COLON2] + []) && Numbers([]) == [] && Doubles([]) == 0;
    OneInFront(COLON2, []);
    OneInFront(n, [COLON2] + []);
    hide Numbers, Doubles, Before;
    Expands(Lexed(t, false), [1], []);
    assert [1] + (Zeros(7) + []) == [1] + Zeros(7);
    hide Strict;
    assert !Fits(t, 0);
    NotStrict(t, 0);
  }

  lemma PaddedOne()
    ensures AllDigits("00001") && Strtol("00001", 16) == 1
  {
    var s := "00001";
    assert ValueOf(s[..0], 16) == 0;
    NextDigit(s, 0);
    NextDigit(s, 1);
    NextDigit(s, 2);
    NextDigit(s, 3);
    NextDigit(s, 4);
    assert s[..5] == s;
  }

  lemma NextDigit(s: string, n: nat)
    requires AllDigits(s) && n < |s|
    ensures ValueOf(s[..n + 1], 16) == ValueOf(s[..n], 16) * 16 + DigitValue(s[n])
  {
    LastDigit(s[..n + 1], 16);
    assert s[..n + 1][..n] == s[..n];
  }

  // ---------------------------------------------------------------- groups that are too large

  /** A number of any size, as long as its digits can be held, stands for the low 16 bits of what a long
      can hold of it. */
  lemma LargeGroupIsCut(n: nat)
    requires |Print(n, 16)| <= MAX_DIGITS
    ensures var held := if n > LONG_MAX then LONG_MAX else n;
            MeaningV6(Lex(Print(n, 16) + "::")) == Groups([held % 0x1_0000] + Zeros(7))
  {
    var s := Print(n, 16);
    PrintIsNumber(n, 16);
    LexDoubleToken("");
    assert Lex("") == Lexed([], false) && "::" + "" == "::";
    LexNumber(s, "::");
    var tok := Number(s);
    assert tok.hex == if n > LONG_MAX then LONG_MAX else n;
    hide Lex, MeaningV6, Number, Strtol, AllDigits, Print;
    GroupAndDouble(tok);
    assert Lex(s + "::") == Lexed([tok, COLON2], false);
  }

  lemma GroupAndDouble(n: Token)
    requires n.NUMBER?
    ensures MeaningV6(Lexed([n, COLON2], false)) == Groups([n.hex % 0x1_0000] + Zeros(7))
  {
    var t, v := [n, COLON2], n.hex % 0x1_0000;
    assert t == [n] + ([COLON2] + []) && Numbers([]) == [] && Doubles([]) == 0;
    OneInFront(COLON2, []);
    OneInFront(n, [COLON2] + []);
    hide Numbers, Doubles, Before;
    Expands(Lexed(t, false), [v], []);
    assert [v] + (Zeros(7) + []) == [v] + Zeros(7);
  }

  /** More than 63 digits in a row are refused, wherever the text goes on. */
  lemma TooManyDigits(digits: string, rest: string)
    requires AllDigits(digits) && |digits| > MAX_DIGITS
    ensures MeaningV6(Lex(digits + rest)) == Invalid && MeaningV4(Lex(digits + rest)) == Invalid
  {
    var s := digits + rest;
    RunAtLeast(digits, rest);
    assert IsXDigit(digits[0]) && s[0] == digits[0];
    assert Lex(s) == Lexed([], true);
  }

  lemma {:induction false} RunAtLeast(digits: string, rest: string)
    requires AllDigits(digits)
    ensures RunLength(digits + rest) >= |digits|
    decreases |digits|
  {
    if digits != "" {
      assert (digits + rest)[1..] == digits[1..] + rest;
      RunAtLeast(digits[1..], rest);
    }
  }

  // ---------------------------------------------------------------- IPv4 texts

  /** One to 63 decimal digits. */
  predicate Decimal(d: string) {
    1 <= |d| <= MAX_DIGITS && forall i :: 0 <= i < |d| ==> '0' <= d[i] <= '9'
  }

  lemma DecimalDigits(d: string)
    requires Decimal(d)
    ensures AllDigits(d) && !HasLetter(d)
  {
    assert forall i :: 0 <= i < |d| ==> IsXDigit(d[i]) && !IsLetterDigit(d[i]);
  }

  lemma DigitsAreDecimal(d: string)
    requires AllDigits(d) && !HasLetter(d) && 1 <= |d| <= MAX_DIGITS
    ensures Decimal(d)
  {
    forall i | 0 <= i < |d| ensures '0' <= d[i] <= '9' {
      assert IsXDigit(d[i]) && !IsLetterDigit(d[i]);
    }
  }

  function DottedText(d: seq<string>): string
    requires |d| == 4
  {
    d[0] + ("." + (d[1] + ("." + (d[2] + ("." + (d[3] + ""))))))
  }

  /** The text consists of four decimal numbers of at most 255 with dots between them. */
  ghost predicate FourBytes(s: string, d: seq<string>, v: seq<int>) {
    && |d| == 4 && |v| == 4 && s == DottedText(d)
    && forall i :: 0 <= i < 4 ==> IsByte(d[i], v[i])
  }

  predicate IsByte(d: string, v: int) {
    Decimal(d) && (DecimalDigits(d); ValueOf(d, 10)) == v && v <= 255
  }

  /** A byte of a text and what follows it. */
  lemma LexIsByte(d: string, v: int, rest: string)
    requires IsByte(d, v) && (rest == "" || !IsXDigit(rest[0]))
    ensures var l := Lex(d + rest);
            && l.tokens != [] && l.tokens[0].NUMBER? && l.tokens[0].dec == v && 0 <= v <= 255
            && l.tokens == [l.tokens[0]] + Lex(rest).tokens && l.threw == Lex(rest).threw
  {
    DecimalDigits(d);
    LexNumber(d, rest);
  }

  lemma LexDot(rest: string)
    ensures Lex("." + rest) == Lexed([DOT] + Lex(rest).tokens, Lex(rest).threw)
  {
    assert ("." + rest)[1..] == rest;
  }

  lemma LexIsByteDot(d: string, v: int, rest: string)
    requires IsByte(d, v)
    ensures 0 <= v <= 255 && StartsWith(Lex(d + ("." + rest)), v, Lex(rest))
  {
    LexDot(rest);
    hide Lex, IsByte;
    LexIsByte(d, v, "." + rest);
  }

  lemma BytesInRange(d: seq<string>, v: seq<int>)
    requires |d| == 4 && |v| == 4 && forall i :: 0 <= i < 4 ==> IsByte(d[i], v[i])
    ensures forall i :: 0 <= i < 4 ==> 0 <= v[i] <= 255
  {
    assert IsByte(d[0], v[0]) && IsByte(d[1], v[1]) && IsByte(d[2], v[2]) && IsByte(d[3], v[3]);
  }

  lemma FourBytesAccepted(s: string, d: seq<string>, v: seq<int>)
    requires FourBytes(s, d, v)
    ensures MeaningV4(Lex(s)) == Groups(v)
  {
    BytesInRange(d, v);
    var bytes: seq<Byte> := [v[0], v[1], v[2], v[3]];
    assert v == bytes;
    hide Lex, IsByte, MeaningV4;
    FourRead(d, bytes);
  }

  lemma FourRead(d: seq<string>, v: seq<Byte>)
    requires |d| == 4 && |v| == 4 && forall i :: 0 <= i < 4 ==> IsByte(d[i], v[i])
    ensures MeaningV4(Lex(DottedText(d))) == Groups(v)
  {
    assert Lex("") == Lexed([], false);
    hide Lex, IsByte, StartsWith, MeaningV4;
    var s3 := d[3] + "";
    var s2 := d[2] + ("." + s3);
    var s1 := d[1] + ("." + s2);
    var s0 := d[0] + ("." + s1);
    LexIsByte(d[3], v[3], "");
    LexIsByteDot(d[2], v[2], s3);
    LexIsByteDot(d[1], v[1], s2);
    LexIsByteDot(d[0], v[0], s1);
    FourNumbers(v, Lex(s0), Lex(s1), Lex(s2), Lex(s3));
  }

  /** Where the first token is a byte, the text begins with one. */
  lemma ByteInFront(s: string) returns (d: string, rest: string)
    requires Lex(s).tokens != [] && Lex(s).tokens[0].NUMBER? && 0 <= Lex(s).tokens[0].dec <= 255
    ensures s == d + rest && IsByte(d, Lex(s).tokens[0].dec)
    ensures Lex(rest) == Lexed(Lex(s).tokens[1..], Lex(s).threw)
  {
    var n := RunLength(s);
    d, rest := s[..n], s[n..];
    assert First(s) == Step(Number(d), rest);
    assert Lex(s).tokens == [Number(d)] + Lex(rest).tokens;
    DigitsAreDecimal(d);
  }

  lemma DotInFront(s: string) returns (rest: string)
    requires Lex(s).tokens != [] && Lex(s).tokens[0] == DOT
    ensures s == "." + rest && Lex(rest) == Lexed(Lex(s).tokens[1..], Lex(s).threw)
  {
    rest := s[1..];
    assert First(s).token == DOT;
    assert s[0] == '.';
    assert Lex(s).tokens == [DOT] + Lex(rest).tokens;
  }

  lemma NothingBehind(s: string)
    requires Lex(s) == Lexed([], false)
    ensures s == ""
  {}

  lemma AcceptedIsFourBytes(s: string, v: seq<int>) returns (d: seq<string>)
    requires MeaningV4(Lex(s)) == Groups(v)
    ensures FourBytes(s, d, v)
  {
    hide Lex, IsByte;
    var t := Lex(s).tokens;
    assert GoodAt(t[0], 0) && GoodAt(t[1], 1) && GoodAt(t[2], 2) && GoodAt(t[3], 3);
    assert GoodAt(t[4], 4) && GoodAt(t[5], 5) && GoodAt(t[6], 6);
    var d0, r0 := ByteInFront(s);
    var s1 := DotInFront(r0);
    var d1, r1 := ByteInFront(s1);
    var s2 := DotInFront(r1);
    var d2, r2 := ByteInFront(s2);
    var s3 := DotInFront(r2);
    var d3, r3 := ByteInFront(s3);
    NothingBehind(r3);
    d := [d0, d1, d2, d3];
  }

  /** An IPv4 text is accepted exactly when it consists of four decimal numbers of at most 255 with dots
      between them, and it means those numbers. */
  lemma V4TextIff(s: string, v: seq<int>)
    ensures MeaningV4(Lex(s)) == Groups(v) <==> exists d :: FourBytes(s, d, v)
  {
    if MeaningV4(Lex(s)) == Groups(v) {
      var d := AcceptedIsFourBytes(s, v);
    }
    if d :| FourBytes(s, d, v) {
      FourBytesAccepted(s, d, v);
    }
  }
}
