/** Letters may be capitals: the parser makes no difference, and reads every address printed in
    capitals back to itself. */
module IpCase {
  import opened Basics
  import opened IpLexer
  import opened IpParser
  import opened IpAddress

  function Upper(c: char): char {
    if 'a' <= c <= 'f' then 'A' + (c - 'a') else c
  }

  /** The text with its letters a to f turned into A to F. */
  function Capitals(s: string): string {
    seq(|s|, i requires 0 <= i < |s| => Upper(s[i]))
  }

  lemma UpperDigit(c: char)
    ensures IsXDigit(Upper(c)) <==> IsXDigit(c)
    ensures IsLetterDigit(Upper(c)) <==> IsLetterDigit(c)
    ensures IsXDigit(c) ==> DigitValue(Upper(c)) == DigitValue(c)
    ensures Upper(c) == '.' <==> c == '.'
    ensures Upper(c) == ':' <==> c == ':'
    ensures Upper(c) == '\0' <==> c == '\0'
  {}

  lemma CapitalsSlices(s: string, n: nat)
    requires n <= |s|
    ensures Capitals(s[..n]) == Capitals(s)[..n] && Capitals(s[n..]) == Capitals(s)[n..]
  {}

  lemma {:induction false} SameRun(s: string)
    ensures RunLength(Capitals(s)) == RunLength(s)
    decreases |s|
  {
    if s != "" {
      UpperDigit(s[0]);
      CapitalsSlices(s, 1);
      SameRun(s[1..]);
    }
  }

  lemma SameDigits(s: string)
    ensures AllDigits(Capitals(s)) <==> AllDigits(s)
    ensures HasLetter(Capitals(s)) <==> HasLetter(s)
  {
    var t := Capitals(s);
    forall i | 0 <= i < |s|
      ensures (IsXDigit(t[i]) <==> IsXDigit(s[i])) && (IsLetterDigit(t[i]) <==> IsLetterDigit(s[i]))
    {
      UpperDigit(s[i]);
    }
    hide IsXDigit, IsLetterDigit, Upper;
    if i :| 0 <= i < |s| && !IsXDigit(s[i]) {
      assert !IsXDigit(t[i]);
    }
    if i :| 0 <= i < |s| && IsLetterDigit(s[i]) {
      assert IsLetterDigit(t[i]);
    }
  }

  lemma {:induction false} SameValue(s: string, base: nat)
    requires AllDigits(s)
    ensures AllDigits(Capitals(s)) && ValueOf(Capitals(s), base) == ValueOf(s, base)
    decreases |s|
  {
    SameDigits(s);
    if s != "" {
      var n := |s| - 1;
      UpperDigit(s[n]);
      CapitalsSlices(s, n);
      SameValue(s[..n], base);
    }
  }

  lemma SameNumber(s: string)
    requires AllDigits(s)
    ensures AllDigits(Capitals(s)) && Number(Capitals(s)) == Number(s)
  {
    SameDigits(s);
    SameValue(s, 10);
    SameValue(s, 16);
  }

  lemma SameFirst(s: string)
    requires s != ""
    ensures First(Capitals(s)) == match First(s)
                                  case TooLong => TooLong
                                  case Step(token, rest) => Step(token, Capitals(rest))
  {
    var t, n := Capitals(s), RunLength(s);
    UpperDigit(s[0]);
    if |s| > 1 {
      UpperDigit(s[1]);
      CapitalsSlices(s, 2);
    }
    CapitalsSlices(s, 1);
    CapitalsSlices(s, n);
    SameRun(s);
    SameNumber(s[..n]);
    hide Upper, IsXDigit, Number, RunLength, AllDigits;
    assert t[..n] == Capitals(s[..n]);
  }

  /** The case of the digits makes no difference to the tokens. */
  lemma {:induction false} SameLexed(s: string)
    ensures Lex(Capitals(s)) == Lex(s)
    decreases |s|
  {
    if s != "" {
      SameFirst(s);
      if First(s).Step? {
        SameLexed(First(s).rest);
      }
    }
  }

  /** Two texts that differ in the case of digits only mean the same. */
  lemma CaseMakesNoDifference(s: string, t: string)
    requires Capitals(s) == Capitals(t)
    ensures Lex(s) == Lex(t) && MeaningV6(Lex(s)) == MeaningV6(Lex(t))
  {
    SameLexed(s);
    SameLexed(t);
  }

  lemma SameZero(s: string)
    requires '\0' !in s
    ensures '\0' !in Capitals(s)
  {
    forall i | 0 <= i < |s| ensures Capitals(s)[i] != '\0' {
      UpperDigit(s[i]);
    }
  }

  /** Every IPv6 address printed in capitals is parsed back to itself. */
  method ReparseCapitals(shorts: seq<Short>) returns (threw: bool, back: seq<Short>)
    requires |shorts| == 8
    ensures !threw && back == shorts
  {
    hide Lex, MeaningV6, Numbers, Join, Capitals;
    var text := PrintV6(shorts);
    RoundTripV6(shorts);
    JoinHasNoZero(NetworkOrder(shorts));
    SameZero(text);
    SameLexed(text);
    threw, back := ParseGroups(Capitals(text), NetworkOrder(shorts));
  }

  /** And every shortened one is expanded. */
  method ParseShortenedCapitals(a: seq<Short>, b: seq<Short>) returns (threw: bool, shorts: seq<Short>)
    requires |a| + |b| <= 8
    ensures !threw && shorts == NetworkOrder(Filled(a, b))
  {
    hide Lex, MeaningV6, Numbers, Filled, NetworkOrder, Join, Capitals;
    var text := Join(a) + ("::" + Join(b));
    DoubleColonExpands(a, b);
    JoinHasNoZero(a);
    JoinHasNoZero(b);
    SameZero(text);
    SameLexed(text);
    threw, shorts := ParseGroups(Capitals(text), Filled(a, b));
  }

  /** A concrete text: "2001:DB8:0:0:0:0:0:1" has 0x0DB8 as its second group. */
  lemma CapitalText()
    ensures Number("DB8").hex == 0x0DB8
  {
    var s := "DB8";
    assert IsXDigit('D') && IsXDigit('B') && IsXDigit('8');
    assert s[..2] == "DB" && s[..2][..1] == "D" && s[..1][..0] == "";
    assert ValueOf("", 16) == 0;
    assert ValueOf("D", 16) == 13;
    assert ValueOf("DB", 16) == 13 * 16 + 11;
  }
}
