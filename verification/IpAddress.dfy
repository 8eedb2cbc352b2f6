/** Addresses, their printed form, and what the parser makes of it. */
module IpAddress {
  import opened Basics
  import opened IpLexer
  import opened IpParser

  type Short = v: int | 0 <= v < 0x1_0000

  // ---------------------------------------------------------------- byte order

  /** Swaps the two bytes, on a machine that stores the low one first. */
  function Htons(v: Short): Short {
    v % 256 * 256 + v / 256
  }

  lemma HtonsTwice(v: Short)
    ensures Htons(Htons(v)) == v
  {
    var low, high := v % 256, v / 256;
    LowByte(high, low);
    LowByte(low, high);
  }

  /** How such a machine stores a group. */
  function Stored(v: Short): seq<int> {
    [v % 256, v / 256]
  }

  /** After swapping, the high byte is stored first. */
  lemma HighByteFirst(v: Short)
    ensures Stored(Htons(v)) == [v / 256, v % 256]
  {
    LowByte(v / 256, v % 256);
  }

  /** The four bytes read as one integer. */
  function IntView(b: seq<Byte>): int
    requires |b| == 4
  {
    (b[0] as int) + 256 * (b[1] as int) + 0x1_0000 * (b[2] as int) + 0x100_0000 * (b[3] as int)
  }

  lemma LowByte(low: Byte, high: nat)
    ensures var v := (low as int) + 256 * high; v % 256 == low && v / 256 == high
  {}

  lemma IntViewBytes(b: seq<Byte>)
    requires |b| == 4
    ensures var v := IntView(b);
            v % 256 == b[0] && v / 256 % 256 == b[1] && v / 0x1_0000 % 256 == b[2] && v / 0x100_0000 % 256 == b[3]
  {
    var b0, b1, b2, b3: int := b[0], b[1], b[2], b[3];
    LowByte(b3, 0);
    LowByte(b2, b3);
    LowByte(b1, b2 + 256 * b3);
    LowByte(b0, b1 + 256 * (b2 + 256 * b3));
    assert IntView(b) / 0x1_0000 == b2 + 256 * b3;
    assert IntView(b) / 0x100_0000 == b3;
  }

  function NetworkOrder(values: seq<Short>): (r: seq<Short>)
    ensures |r| == |values|
  {
    seq(|values|, i requires 0 <= i < |values| => Htons(values[i]))
  }

  method AsIp4(buf: seq<Byte>) returns (threw: bool, bytes: seq<Byte>)
    ensures threw <==> |buf| < 4
    ensures !threw ==> bytes == buf[..4]
  {
    if |buf| < 4 {
      return true, [];
    }
    threw, bytes := false, [];
    for i := 0 to 4
      invariant bytes == buf[..i]
    {
      bytes := bytes + [buf[i]];
    }
  }

  method AsIp6(buf: seq<Short>) returns (threw: bool, shorts: seq<Short>)
    ensures threw <==> |buf| < 8
    ensures !threw ==> shorts == NetworkOrder(buf[..8])
    ensures !threw ==> forall i :: 0 <= i < 8 ==> Stored(shorts[i]) == [buf[i] / 256, buf[i] % 256]
  {
    if |buf| < 8 {
      return true, [];
    }
    threw, shorts := false, [];
    for i := 0 to 8
      invariant shorts == NetworkOrder(buf[..i])
    {
      shorts := shorts + [Htons(buf[i])];
    }
    forall i | 0 <= i < 8 ensures Stored(shorts[i]) == [buf[i] / 256, buf[i] % 256] {
      assert shorts[i] == Htons(buf[i]);
      HighByteFirst(buf[i]);
    }
  }

  // ---------------------------------------------------------------- printing

  function DigitChar(v: nat): (c: char)
    requires v < 16
    ensures IsXDigit(c) && DigitValue(c) == v && (v < 10 ==> !IsLetterDigit(c))
  {
    if v < 10 then '0' + v as char else 'a' + (v - 10) as char
  }

  function Print(n: nat, base: nat): string
    requires 2 <= base <= 16
  {
    if n < base then [DigitChar(n)] else Print(n / base, base) + [DigitChar(n % base)]
  }

  function Power(base: nat, k: nat): nat {
    if k == 0 then 1 else base * Power(base, k - 1)
  }

  /** What is printed are digits, and their value is the number. */
  lemma {:induction false} PrintIsNumber(n: nat, base: nat)
    requires 2 <= base <= 16
    ensures var s := Print(n, base);
            s != "" && AllDigits(s) && ValueOf(s, base) == n && (base <= 10 ==> !HasLetter(s))
  {
    hide AllDigits, HasLetter, ValueOf, Print;
    Unfold(n, base);
    if n < base {
      SingleDigit(DigitChar(n), base);
    } else {
      var q, r := Remainder(n, base);
      PrintIsNumber(q, base);
      OneMoreDigit(Print(q, base), DigitChar(r), base);
    }
  }

  /** No printed number but zero begins with a zero. */
  lemma {:induction false} NoLeadingZero(n: nat, base: nat)
    requires 2 <= base <= 16 && n > 0
    ensures Print(n, base) != "" && Print(n, base)[0] != '0'
  {
    if n >= base {
      var q, _ := Remainder(n, base);
      NoLeadingZero(q, base);
    }
  }

  lemma Unfold(n: nat, base: nat)
    requires 2 <= base <= 16
    ensures Print(n, base) == if n < base then [DigitChar(n)] else Print(n / base, base) + [DigitChar(n % base)]
  {}

  lemma Remainder(n: nat, base: nat) returns (q: nat, r: nat)
    requires 2 <= base <= n
    ensures q == n / base && r == n % base && q * base + r == n && r < base && q < n
  {
    q, r := n / base, n % base;
  }

  lemma SingleDigit(c: char, base: nat)
    requires IsXDigit(c)
    ensures AllDigits([c]) && ValueOf([c], base) == DigitValue(c) && (HasLetter([c]) <==> IsLetterDigit(c))
  {
    NoDigits();
    assert ValueOf("", base) == 0;
    hide AllDigits, HasLetter, ValueOf;
    OneMoreDigit("", c, base);
    assert "" + [c] == [c];
  }

  lemma OneMoreDigit(s: string, c: char, base: nat)
    requires AllDigits(s) && IsXDigit(c)
    ensures AllDigits(s + [c]) && ValueOf(s + [c], base) == ValueOf(s, base) * base + DigitValue(c)
    ensures HasLetter(s + [c]) <==> HasLetter(s) || IsLetterDigit(c)
  {
    OneMore(s, c);
    assert (s + [c])[..|s|] == s;
  }

  lemma {:induction false} PrintIsShort(n: nat, base: nat, k: nat)
    requires 2 <= base <= 16 && k >= 1 && n < Power(base, k)
    ensures |Print(n, base)| <= k
    decreases k
  {
    if n >= base {
      var p := Power(base, k - 1);
      assert n < base * p;
      Divides(n, base, p);
      assert k > 1;
      PrintIsShort(n / base, base, k - 1);
    }
  }

  lemma Divides(n: nat, base: nat, p: nat)
    requires base >= 2 && base <= n < base * p
    ensures n / base < p && p > 1
  {
    assert n == base * (n / base) + n % base;
    Larger(base, n / base, p);
    Larger(base, 1, p);
    assert base * 1 == base;
  }

  /** A smaller product with the same factor has a smaller other factor. */
  lemma Larger(base: nat, a: nat, p: nat)
    requires base * a < base * p
    ensures a < p
  {
  }

  /** A printed number at the front of a text is lexed back to its value. */
  lemma LexPrinted(n: nat, base: nat, rest: string)
    requires base == 10 || base == 16
    requires n < 0x1_0000 && (rest == "" || !IsXDigit(rest[0]))
    ensures var l := Lex(Print(n, base) + rest);
            && l.tokens != [] && l.tokens[1..] == Lex(rest).tokens && l.threw == Lex(rest).threw
            && l.tokens[0].NUMBER? && (if base == 10 then l.tokens[0].dec else l.tokens[0].hex) == n
            && 1 <= l.tokens[0].length <= if base == 10 then 5 else 4
  {
    PrintIsNumber(n, base);
    assert Power(10, 4) == 10000 && Power(10, 5) == 100000 && Power(16, 4) == 65536 by {
      assert Power(10, 1) == 10 && Power(10, 2) == 100 && Power(10, 3) == 1000;
      assert Power(16, 1) == 16 && Power(16, 2) == 256 && Power(16, 3) == 4096;
    }
    PrintIsShort(n, base, if base == 10 then 5 else 4);
    LexNumber(Print(n, base), rest);
  }

  /** The address part of the printed form: the bytes of the integer view, low one first. */
  function PrintV4(b: seq<Byte>): string
    requires |b| == 4
  {
    var v := IntView(b);
    Print(v % 256, 10) + ("." + (Print(v / 256 % 256, 10) + ("." +
      (Print(v / 0x1_0000 % 256, 10) + ("." + (Print(v / 0x100_0000 % 256, 10) + ""))))))
  }

  /** Groups with colons between them. */
  function Join(values: seq<Short>): string {
    if values == [] then ""
    else if |values| == 1 then Print(values[0], 16)
    else Print(values[0], 16) + (":" + Join(values[1..]))
  }

  /** The address part of the printed form: the groups in host order. */
  function PrintV6(shorts: seq<Short>): string {
    Join(NetworkOrder(shorts))
  }

  // ---------------------------------------------------------------- round trips

  /** A printed byte, a dot and the rest. */
  lemma LexByteDot(n: Byte, rest: string)
    ensures StartsWith(Lex(Print(n, 10) + ("." + rest)), n, Lex(rest))
  {
    assert ("." + rest)[1..] == rest;
    assert Lex("." + rest) == Lexed([DOT] + Lex(rest).tokens, Lex(rest).threw);
    LexPrinted(n, 10, "." + rest);
  }

  /** Every IPv4 address is parsed back from its printed form. */
  lemma RoundTripV4(b: seq<Byte>)
    requires |b| == 4
    ensures MeaningV4(Lex(PrintV4(b))) == Groups(b)
  {
    IntViewBytes(b);
    var s3 := Print(b[3], 10) + "";
    var s2 := Print(b[2], 10) + ("." + s3);
    var s1 := Print(b[1], 10) + ("." + s2);
    var s0 := Print(b[0], 10) + ("." + s1);
    assert PrintV4(b) == s0;
    LexPrinted(b[3], 10, "");
    assert Lex("") == Lexed([], false);
    LexByteDot(b[2], s3);
    LexByteDot(b[1], s2);
    LexByteDot(b[0], s1);
    hide Lex, Print, IntView, PrintV4;
    FourNumbers(b, Lex(s0), Lex(s1), Lex(s2), Lex(s3));
  }

  lemma FourNumbers(b: seq<Byte>, l0: Lexed, l1: Lexed, l2: Lexed, l3: Lexed)
    requires |b| == 4 && !l3.threw && |l3.tokens| == 1 && l3.tokens[0].NUMBER? && l3.tokens[0].dec == b[3]
    requires StartsWith(l2, b[2], l3) && StartsWith(l1, b[1], l2) && StartsWith(l0, b[0], l1)
    ensures MeaningV4(l0) == Groups(b)
  {
    var t := l0.tokens;
    assert t == [t[0], DOT, t[2], DOT, t[4], DOT, t[6]] by {
      assert t[2..] == l1.tokens && t[4..] == l2.tokens && t[6..] == l3.tokens;
    }
    assert b == [b[0], b[1], b[2], b[3]];
  }

  ghost predicate StartsWith(l: Lexed, n: Byte, rest: Lexed) {
    && |l.tokens| >= 2 && l.tokens[2..] == rest.tokens && l.threw == rest.threw
    && l.tokens[0].NUMBER? && l.tokens[0].dec == n && l.tokens[1] == DOT
  }

  // ---------------------------------------------------------------- the meaning of more tokens

  lemma {:induction false} OneInFront(tok: Token, t: seq<Token>)
    ensures Numbers([tok] + t) == (if tok.NUMBER? then [tok.hex % 0x1_0000] else []) + Numbers(t)
    ensures Doubles([tok] + t) == (if tok == COLON2 then 1 else 0) + Doubles(t)
    ensures Before([tok] + t) == if tok == COLON2 then 0 else (if tok.NUMBER? then 1 else 0) + Before(t)
    decreases |t|
  {
    var all := [tok] + t;
    if t == [] {
      assert all[..0] == [];
    } else {
      assert all[..|all| - 1] == [tok] + t[..|t| - 1];
      OneInFront(tok, t[..|t| - 1]);
    }
  }

  /** What the version 6 grammar looks at. */
  datatype Shape = Shape(numbers: seq<int>, doubles: nat, before: nat, threw: bool)

  function ShapeOf(l: Lexed): Shape {
    Shape(Numbers(l.tokens), Doubles(l.tokens), Before(l.tokens), l.threw)
  }

  lemma LexColon(rest: string)
    requires rest != "" && rest[0] != ':'
    ensures ShapeOf(Lex(":" + rest)) == ShapeOf(Lex(rest))
  {
    assert (":" + rest)[1..] == rest;
    OneInFront(COLON, Lex(rest).tokens);
  }

  lemma LexDoubleColon(rest: string)
    ensures var r := ShapeOf(Lex(rest));
            ShapeOf(Lex("::" + rest)) == Shape(r.numbers, 1 + r.doubles, 0, r.threw)
  {
    assert ("::" + rest)[2..] == rest;
    OneInFront(COLON2, Lex(rest).tokens);
  }

  lemma {:induction false} JoinStarts(values: seq<Short>)
    requires values != []
    ensures Join(values) != "" && IsXDigit(Join(values)[0])
  {
    PrintIsNumber(values[0], 16);
    assert IsXDigit(Print(values[0], 16)[0]);
  }

  lemma JoinSplit(values: seq<Short>, rest: string)
    requires |values| > 1
    ensures Join(values) + rest == Print(values[0], 16) + (":" + (Join(values[1..]) + rest))
  {
    hide Print;
    Regroup(Print(values[0], 16), ":", Join(values[1..]), rest);
  }

  lemma Regroup(a: string, b: string, c: string, d: string)
    ensures (a + (b + c)) + d == a + (b + (c + d))
  {}

  lemma FirstGroup(values: seq<Short>, tail: seq<int>)
    requires values != []
    ensures values + tail == [values[0]] + (values[1..] + tail)
  {}

  /** Lexing groups gives their values, in order, before whatever follows. */
  lemma {:induction false} LexJoin(values: seq<Short>, rest: string)
    requires values != [] && (rest == "" || rest[0] == ':')
    ensures var r := ShapeOf(Lex(rest));
            ShapeOf(Lex(Join(values) + rest)) == Shape(values + r.numbers, r.doubles, |values| + r.before, r.threw)
    decreases |values|
  {
    if |values| == 1 {
      LexLast(values[0], rest);
      assert values == [values[0]];
    } else {
      hide Lex, Print, Join, ShapeOf;
      var after := Join(values[1..]) + rest;
      LexJoin(values[1..], rest);
      JoinStarts(values[1..]);
      JoinSplit(values, rest);
      LexGroup(values[0], after);
      FirstGroup(values, ShapeOf(Lex(rest)).numbers);
    }
  }

  lemma LexLast(v: Short, rest: string)
    requires rest == "" || rest[0] == ':'
    ensures var r := ShapeOf(Lex(rest));
            ShapeOf(Lex(Print(v, 16) + rest)) == Shape([v] + r.numbers, r.doubles, 1 + r.before, r.threw)
  {
    hide Lex, Print, ShapeOf;
    LexPrinted(v, 16, rest);
    OneNumber(Lex(Print(v, 16) + rest), Lex(rest), v);
  }

  lemma LexGroup(v: Short, rest: string)
    requires rest != "" && rest[0] != ':'
    ensures var r := ShapeOf(Lex(rest));
            ShapeOf(Lex(Print(v, 16) + (":" + rest))) == Shape([v] + r.numbers, r.doubles, 1 + r.before, r.threw)
  {
    hide Lex, Print, ShapeOf;
    LexColon(rest);
    LexLast(v, ":" + rest);
  }

  lemma OneNumber(all: Lexed, rest: Lexed, v: Short)
    requires all.tokens != [] && all.tokens[1..] == rest.tokens && all.threw == rest.threw
    requires all.tokens[0].NUMBER? && all.tokens[0].hex == v
    ensures var r := ShapeOf(rest);
            ShapeOf(all) == Shape([v] + r.numbers, r.doubles, 1 + r.before, r.threw)
  {
    assert all.tokens == [all.tokens[0]] + rest.tokens;
    OneInFront(all.tokens[0], rest.tokens);
  }

  lemma LexNothing()
    ensures ShapeOf(Lex("")) == Shape([], 0, 0, false)
  {}

  lemma LexGroups(values: seq<Short>)
    ensures ShapeOf(Lex(Join(values))) == Shape(values, 0, |values|, false)
  {
    LexNothing();
    if values != [] {
      LexJoin(values, "");
      assert Join(values) + "" == Join(values) && values + [] == values;
    }
  }

  lemma NetworkOrderTwice(values: seq<Short>)
    ensures NetworkOrder(NetworkOrder(values)) == values
  {
    forall i | 0 <= i < |values| ensures NetworkOrder(NetworkOrder(values))[i] == values[i] {
      HtonsTwice(values[i]);
    }
  }

  /** Every IPv6 address is parsed back from its printed form. */
  lemma RoundTripV6(shorts: seq<Short>)
    requires |shorts| == 8
    ensures var l := Lex(PrintV6(shorts));
            && MeaningV6(l) == Groups(NetworkOrder(shorts))
            && NetworkOrder(NetworkOrder(shorts)) == shorts
  {
    LexGroups(NetworkOrder(shorts));
    MeaningOfEight(Lex(PrintV6(shorts)));
    NetworkOrderTwice(shorts);
  }

  /** Two lists of groups and the zeros missing between them. */
  function Filled(a: seq<Short>, b: seq<Short>): (r: seq<Short>)
    requires |a| + |b| <= 8
    ensures |r| == 8
  {
    a + (seq(8 - |a| - |b|, _ => 0) + b)
  }

  /** A double colon stands for as many zero groups as are missing, wherever it is. */
  lemma DoubleColonExpands(a: seq<Short>, b: seq<Short>)
    requires |a| + |b| <= 8
    ensures var l := Lex(Join(a) + ("::" + Join(b)));
            && MeaningV6(l) == Groups(Filled(a, b))
  {
    LexWithDouble(a, Join(b));
    LexGroups(b);
    hide Lex, Join, ShapeOf;
    Expansion(Lex(Join(a) + ("::" + Join(b))), a, b);
  }

  /** Groups, a double colon, and the rest. */
  lemma LexWithDouble(a: seq<Short>, rest: string)
    ensures var r := ShapeOf(Lex(rest));
            ShapeOf(Lex(Join(a) + ("::" + rest))) == Shape(a + r.numbers, 1 + r.doubles, |a|, r.threw)
  {
    var all := "::" + rest;
    assert a == [] ==> Join(a) + all == all;
    hide Lex, Join, ShapeOf;
    LexDoubleColon(rest);
    if a == [] {
      assert a + ShapeOf(Lex(rest)).numbers == ShapeOf(Lex(rest)).numbers;
    } else {
      LexJoin(a, all);
    }
  }

  lemma Expansion(l: Lexed, a: seq<Short>, b: seq<Short>)
    requires |a| + |b| <= 8 && ShapeOf(l) == Shape(a + b, 1, |a|, false)
    ensures MeaningV6(l) == Groups(Filled(a, b))
  {
    assert (a + b)[..|a|] == a && (a + b)[|a|..] == b;
    assert Expanded(a + b, |a|) == Filled(a, b);
    MeaningOfEight(l);
  }

  /** A second double colon is refused. */
  lemma SecondDoubleColonIsInvalid(a: seq<Short>, b: seq<Short>, c: seq<Short>)
    requires |a| + |b| + |c| <= 8 && b != []
    ensures var l := Lex(Join(a) + ("::" + (Join(b) + ("::" + Join(c)))));
            MeaningV6(l) == Invalid
  {
    OverrunsWhen(Lex(Join(a) + ("::" + (Join(b) + ("::" + Join(c))))).tokens);
    LexGroups(c);
    LexWithDouble(b, Join(c));
    LexWithDouble(a, Join(b) + ("::" + Join(c)));
  }

  // ---------------------------------------------------------------- the parser on printed addresses

  lemma {:induction false} PrintedHasNoZero(n: nat, base: nat)
    requires 2 <= base <= 16
    ensures '\0' !in Print(n, base)
  {
    PrintIsNumber(n, base);
    var s := Print(n, base);
    forall i | 0 <= i < |s| ensures s[i] != '\0' {
      assert IsXDigit(s[i]);
    }
  }

  lemma {:induction false} JoinHasNoZero(values: seq<Short>)
    ensures '\0' !in Join(values)
    decreases |values|
  {
    if values != [] {
      PrintedHasNoZero(values[0], 16);
      JoinHasNoZero(values[1..]);
    }
  }

  method ReparseV4(b: seq<Byte>) returns (threw: bool, back: seq<Byte>)
    requires |b| == 4
    ensures !threw && back == b
  {
    hide Lex, MeaningV4, IntView;
    var text := PrintV4(b);
    RoundTripV4(b);
    var v := IntView(b);
    IntViewBytes(b);
    PrintedHasNoZero(v % 256, 10);
    PrintedHasNoZero(v / 256 % 256, 10);
    PrintedHasNoZero(v / 0x1_0000 % 256, 10);
    PrintedHasNoZero(v / 0x100_0000 % 256, 10);
    assert '\0' !in text;
    var p := new IpParser(text);
    var r := p.Parse(IPV4);
    threw, back := AsIp4(r.values);
  }

  /** What the parser makes of a text that means eight groups. */
  method ParseGroups(text: string, ghost values: seq<Short>) returns (threw: bool, shorts: seq<Short>)
    requires '\0' !in text && |values| == 8
    requires MeaningV6(Lex(text)) == Groups(values)
    ensures !threw && shorts == NetworkOrder(values)
  {
    hide Lex, MeaningV6, Numbers, NetworkOrder;
    var p := new IpParser(text);
    var r := p.Parse(IPV6);
    assert r.values == values && values[..8] == values;
    threw, shorts := AsIp6(r.values);
  }

  method ReparseV6(shorts: seq<Short>) returns (threw: bool, back: seq<Short>)
    requires |shorts| == 8
    ensures !threw && back == shorts
  {
    hide Lex, MeaningV6, Numbers, Join;
    var text := PrintV6(shorts);
    RoundTripV6(shorts);
    JoinHasNoZero(NetworkOrder(shorts));
    threw, back := ParseGroups(text, NetworkOrder(shorts));
  }

  method ParseShortened(a: seq<Short>, b: seq<Short>) returns (threw: bool, shorts: seq<Short>)
    requires |a| + |b| <= 8
    ensures !threw && shorts == NetworkOrder(Filled(a, b))
  {
    hide Lex, MeaningV6, Numbers, Filled, NetworkOrder, Join;
    var text := Join(a) + ("::" + Join(b));
    DoubleColonExpands(a, b);
    JoinHasNoZero(a);
    JoinHasNoZero(b);
    threw, shorts := ParseGroups(text, Filled(a, b));
  }
}
