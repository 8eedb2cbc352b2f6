/** The colon forms of section 2.2 of RFC 4291 over tokens: groups between colons, with or without a
    double colon. The parser reads them rightly. */
module IpGrammar {
  import opened Basics
  import opened IpLexer
  import opened IpAddress

  // ---------------------------------------------------------------- the grammar

  /** One to four digits; what they are worth then fits 16 bits. */
  predicate Word(t: Token) {
    t.NUMBER? && 1 <= t.length <= 4 && 0 <= t.hex < 0x1_0000
  }

  predicate Words(a: seq<Token>) {
    forall i :: 0 <= i < |a| ==> Word(a[i])
  }

  /** Words with single colons between neighbours. */
  function Spelled(a: seq<Token>): seq<Token> {
    if |a| <= 1 then a else [a[0], COLON] + Spelled(a[1..])
  }

  function Hexes(a: seq<Token>): (r: seq<int>)
    requires Words(a)
    ensures |r| == |a|
  {
    seq(|a|, i requires 0 <= i < |a| => assert Word(a[i]); a[i].hex)
  }

  /** Eight words. */
  ghost predicate ColonFull(t: seq<Token>, a: seq<Token>) {
    Words(a) && |a| == 8 && t == Spelled(a)
  }

  /** Fewer words, and one double colon that stands for at least one group. */
  ghost predicate ColonShort(t: seq<Token>, a: seq<Token>, b: seq<Token>) {
    Words(a) && Words(b) && |a| + |b| < 8 && t == Spelled(a) + ([COLON2] + Spelled(b))
  }

  ghost predicate ColonForm(t: seq<Token>) {
    (exists a :: ColonFull(t, a)) || (exists a, b :: ColonShort(t, a, b))
  }

  // ---------------------------------------------------------------- these forms are accepted

  lemma WordInFront(n: Token, more: seq<Token>)
    requires Word(n)
    ensures var t := [n] + ([COLON] + more);
            Numbers(t) == [n.hex] + Numbers(more) && Doubles(t) == Doubles(more) && Before(t) == 1 + Before(more)
  {
    hide Numbers, Doubles, Before;
    OneInFront(COLON, more);
    OneInFront(n, [COLON] + more);
  }

  /** What words in front add to the tokens that count. */
  lemma {:induction false} SpelledInFront(a: seq<Token>, rest: seq<Token>)
    requires Words(a)
    ensures var t := Spelled(a) + rest;
            Numbers(t) == Hexes(a) + Numbers(rest) && Doubles(t) == Doubles(rest) && Before(t) == |a| + Before(rest)
    decreases |a|
  {
    if a == [] {
      assert Spelled(a) + rest == rest && Hexes(a) + Numbers(rest) == Numbers(rest);
    } else {
      assert Word(a[0]);
      if |a| == 1 {
        OneInFront(a[0], rest);
        assert a == [a[0]] && Hexes(a) == [a[0].hex];
      } else {
        SpelledInFront(a[1..], rest);
        var more := Spelled(a[1..]) + rest;
        assert Spelled(a) + rest == [a[0]] + ([COLON] + more);
        assert Hexes(a) == [a[0].hex] + Hexes(a[1..]);
        hide Spelled, Hexes, Numbers, Doubles, Before;
        WordInFront(a[0], more);
      }
    }
  }

  /** Eight words are the address. */
  lemma ColonFullAccepted(a: seq<Token>)
    requires Words(a) && |a| == 8
    ensures var l := Lexed(Spelled(a), false);
            MeaningV6(l) == Groups(Hexes(a))
  {
    CountFull(a);
    MeaningOfEight(Lexed(Spelled(a), false));
  }

  /** A double colon among fewer words stands for the zeros that are missing. */
  lemma ColonShortAccepted(a: seq<Token>, b: seq<Token>)
    requires Words(a) && Words(b) && |a| + |b| < 8
    ensures var l := Lexed(Spelled(a) + ([COLON2] + Spelled(b)), false);
            MeaningV6(l) == Groups(Hexes(a) + (Zeros(8 - |a| - |b|) + Hexes(b)))
  {
    CountShort(a, b);
    hide Spelled, Numbers, Doubles, Before;
    Expands(Lexed(Spelled(a) + ([COLON2] + Spelled(b)), false), Hexes(a), Hexes(b));
  }

  /** What counts in words around a double colon. */
  lemma CountShort(a: seq<Token>, b: seq<Token>)
    requires Words(a) && Words(b)
    ensures var t := Spelled(a) + ([COLON2] + Spelled(b));
            Numbers(t) == Hexes(a) + Hexes(b) && Doubles(t) == 1 && Before(t) == |a|
  {
    CountFull(b);
    hide Spelled, Hexes, Numbers, Doubles, Before;
    OneInFront(COLON2, Spelled(b));
    assert [] + Numbers(Spelled(b)) == Numbers(Spelled(b));
    SpelledInFront(a, [COLON2] + Spelled(b));
  }

  lemma CountFull(a: seq<Token>)
    requires Words(a)
    ensures Numbers(Spelled(a)) == Hexes(a) && Doubles(Spelled(a)) == 0
  {
    SpelledInFront(a, []);
    assert Spelled(a) + [] == Spelled(a) && Hexes(a) + [] == Hexes(a);
  }

  lemma Expands(l: Lexed, a: seq<int>, b: seq<int>)
    requires !l.threw && Numbers(l.tokens) == a + b && |a| + |b| < 8
    requires Doubles(l.tokens) == 1 && Before(l.tokens) == |a|
    ensures MeaningV6(l) == Groups(a + (Zeros(8 - |a| - |b|) + b))
  {
    MeaningOfEight(l);
    assert (a + b)[..|a|] == a && (a + b)[|a|..] == b;
  }

  /** Printed groups are spelled words. */
  lemma {:induction false} LexSpelled(values: seq<Short>, rest: string) returns (a: seq<Token>)
    requires rest == "" || rest[0] == ':'
    ensures Words(a) && Hexes(a) == values
    ensures Lex(Join(values) + rest) == Lexed(Spelled(a) + Lex(rest).tokens, Lex(rest).threw)
    decreases |values|
  {
    if values == [] {
      a := [];
      assert Join(values) + rest == rest && Spelled(a) + Lex(rest).tokens == Lex(rest).tokens;
    } else if |values| == 1 {
      LexPrinted(values[0], 16, rest);
      var l := Lex(Join(values) + rest);
      a := [l.tokens[0]];
      assert Hexes(a) == values && l.tokens == a + l.tokens[1..];
    } else {
      var after := Join(values[1..]) + rest;
      var more := LexSpelled(values[1..], rest);
      hide Lex, Print, Join;
      a := LexOneSpelled(values, rest, more, after);
    }
  }

  lemma LexOneSpelled(values: seq<Short>, rest: string, more: seq<Token>, after: string) returns (a: seq<Token>)
    requires |values| > 1 && (rest == "" || rest[0] == ':') && after == Join(values[1..]) + rest
    requires Words(more) && Hexes(more) == values[1..]
    requires Lex(after) == Lexed(Spelled(more) + Lex(rest).tokens, Lex(rest).threw)
    ensures Words(a) && Hexes(a) == values
    ensures Lex(Join(values) + rest) == Lexed(Spelled(a) + Lex(rest).tokens, Lex(rest).threw)
  {
    hide Lex, Print, Join;
    JoinStarts(values[1..]);
    JoinSplit(values, rest);
    LexPrinted(values[0], 16, ":" + after);
    LexColonToken(after);
    var l := Lex(Join(values) + rest);
    a := [l.tokens[0]] + more;
    assert a[1..] == more;
    assert l.tokens == [l.tokens[0]] + l.tokens[1..];
    assert Spelled(a) + Lex(rest).tokens == [a[0]] + ([COLON] + (Spelled(more) + Lex(rest).tokens));
    assert values == [values[0]] + values[1..];
  }

  lemma LexColonToken(rest: string)
    requires rest != "" && rest[0] != ':'
    ensures Lex(":" + rest) == Lexed([COLON] + Lex(rest).tokens, Lex(rest).threw)
  {
    assert (":" + rest)[1..] == rest;
  }

  // ---------------------------------------------------------------- recognizing these forms

  /** The token at position `i` is one of the grammar and goes with its neighbours. */
  predicate Fits(t: seq<Token>, i: nat)
    requires i < |t|
  {
    match t[i]
    case NUMBER(_, _, _) => Word(t[i]) && (i + 1 < |t| ==> t[i + 1] == COLON || t[i + 1] == COLON2)
    case COLON => 0 < i && t[i - 1].NUMBER? && i + 1 < |t| && t[i + 1].NUMBER?
    case COLON2 => (i > 0 ==> t[i - 1].NUMBER?) && (i + 1 < |t| ==> t[i + 1].NUMBER?)
    case _ => false
  }

  predicate Orderly(t: seq<Token>) {
    forall i: nat :: i < |t| ==> Fits(t, i)
  }

  /** From a number or a double colon on, and behind a double colon, order is kept. */
  lemma OrderlyBehind(t: seq<Token>, k: nat)
    requires Orderly(t) && k <= |t| && (k == |t| || t[k].NUMBER? || t[k] == COLON2)
    ensures Orderly(t[k..])
  {
    var s := t[k..];
    forall i: nat | i < |s| ensures Fits(s, i) {
      assert Fits(t, k + i);
    }
  }

  lemma NumberColonInFront(n: Token, t: seq<Token>)
    requires Word(n) && Orderly(t) && t != [] && t[0].NUMBER?
    ensures Orderly([n, COLON] + t)
  {
    var s := [n, COLON] + t;
    forall i: nat | i < |s| ensures Fits(s, i) {
      assert i >= 2 ==> Fits(t, i - 2);
    }
  }

  lemma NumberInFront(n: Token, t: seq<Token>)
    requires Word(n) && Orderly(t) && (t == [] || t[0] == COLON2)
    ensures Orderly([n] + t)
  {
    var s := [n] + t;
    forall i: nat | i < |s| ensures Fits(s, i) {
      assert i >= 1 ==> Fits(t, i - 1);
    }
  }

  lemma DoubleInFront(t: seq<Token>)
    requires Orderly(t) && (t == [] || t[0].NUMBER?)
    ensures Orderly([COLON2] + t)
  {
    var s := [COLON2] + t;
    forall i: nat | i < |s| ensures Fits(s, i) {
      assert i >= 1 ==> Fits(t, i - 1);
    }
  }

  lemma {:induction false} SpelledIsOrderly(a: seq<Token>, rest: seq<Token>)
    requires Words(a) && Orderly(rest) && (rest == [] || rest[0] == COLON2)
    ensures Orderly(Spelled(a) + rest)
    ensures a != [] ==> (Spelled(a) + rest)[0] == a[0]
    decreases |a|
  {
    if a == [] {
      assert Spelled(a) + rest == rest;
    } else {
      assert Word(a[0]);
      if |a| == 1 {
        NumberInFront(a[0], rest);
        assert Spelled(a) + rest == [a[0]] + rest;
      } else {
        SpelledIsOrderly(a[1..], rest);
        assert Word(a[1]);
        NumberColonInFront(a[0], Spelled(a[1..]) + rest);
        assert Spelled(a) + rest == [a[0], COLON] + (Spelled(a[1..]) + rest);
      }
    }
  }

  /** Orderly tokens without a double colon are spelled words. */
  lemma {:induction false} ReadWords(t: seq<Token>) returns (a: seq<Token>)
    requires Orderly(t) && Doubles(t) == 0 && (t == [] || t[0].NUMBER?)
    ensures Words(a) && t == Spelled(a)
    decreases |t|
  {
    if |t| <= 1 {
      a := t;
      assert t != [] ==> Fits(t, 0);
    } else {
      assert Fits(t, 0);
      Unfold3(t);
      assert t[1] != COLON2;
      assert Fits(t, 1);
      OrderlyBehind(t, 2);
      var more := ReadWords(t[2..]);
      a := [t[0]] + more;
      assert a[1..] == more && more != [];
      assert t == [t[0], COLON] + t[2..];
    }
  }

  /** The first two tokens, as far as they count. */
  lemma Unfold3(t: seq<Token>)
    requires |t| >= 2
    ensures Doubles(t) == Bit(t[0] == COLON2) + Bit(t[1] == COLON2) + Doubles(t[2..])
  {
    assert t == [t[0]] + t[1..] && t[1..] == [t[1]] + t[2..];
    OneInFront(t[0], t[1..]);
    OneInFront(t[1], t[2..]);
  }

  /** Orderly tokens with one double colon are spelled words on either side of it. */
  lemma {:induction false} ReadShort(t: seq<Token>) returns (a: seq<Token>, b: seq<Token>)
    requires Orderly(t) && Doubles(t) == 1 && t != [] && (t[0].NUMBER? || t[0] == COLON2)
    ensures Words(a) && Words(b) && t == Spelled(a) + ([COLON2] + Spelled(b))
    ensures t[0].NUMBER? ==> a != []
    decreases |t|
  {
    assert Fits(t, 0);
    assert t == [t[0]] + t[1..];
    OneInFront(t[0], t[1..]);
    if t[0] == COLON2 {
      OrderlyBehind(t, 1);
      b := ReadWords(t[1..]);
      a := [];
      assert t == [] + ([COLON2] + Spelled(b));
    } else if t[1] == COLON2 {
      assert Fits(t, 1);
      Unfold3(t);
      OrderlyBehind(t, 2);
      b := ReadWords(t[2..]);
      a := [t[0]];
      assert Spelled(a) == [t[0]];
      assert t == [t[0]] + ([COLON2] + Spelled(b));
    } else {
      Unfold3(t);
      assert Fits(t, 1);
      OrderlyBehind(t, 2);
      a, b := ReadShort(t[2..]);
      OneWordMore(t, a, b);
      a := [t[0]] + a;
    }
  }

  lemma OneWordMore(t: seq<Token>, a: seq<Token>, b: seq<Token>)
    requires |t| >= 2 && Word(t[0]) && t[1] == COLON && Words(a) && a != []
    requires t[2..] == Spelled(a) + ([COLON2] + Spelled(b))
    ensures Words([t[0]] + a) && t == Spelled([t[0]] + a) + ([COLON2] + Spelled(b))
  {
    var longer := [t[0]] + a;
    assert longer[1..] == a;
    assert t == [t[0], COLON] + t[2..];
    assert Spelled(longer) == [t[0], COLON] + Spelled(a);
    forall i | 0 <= i < |longer| ensures Word(longer[i]) {
      assert i > 0 ==> longer[i] == a[i - 1];
    }
  }

  /** Eight numbers, or fewer and one double colon that stands for something. */
  predicate Counted(t: seq<Token>) {
    (Doubles(t) == 0 && |Numbers(t)| == 8) || (Doubles(t) == 1 && |Numbers(t)| < 8)
  }

  lemma ShortIsOrderly(a: seq<Token>, b: seq<Token>)
    requires Words(a) && Words(b)
    ensures Orderly(Spelled(a) + ([COLON2] + Spelled(b)))
  {
    SpelledIsOrderly(b, []);
    assert Spelled(b) + [] == Spelled(b);
    DoubleInFront(Spelled(b)) by {
      assert b != [] ==> Word(b[0]);
    }
    SpelledIsOrderly(a, [COLON2] + Spelled(b));
  }

  lemma ColonFormIsOrderly(t: seq<Token>)
    requires ColonForm(t)
    ensures Orderly(t) && Counted(t)
  {
    if a :| ColonFull(t, a) {
      SpelledIsOrderly(a, []);
      CountFull(a);
      assert Spelled(a) + [] == Spelled(a);
    } else {
      var a, b :| ColonShort(t, a, b);
      ShortIsOrderly(a, b);
      CountShort(a, b);
    }
  }

  /** Tokens are of a colon form exactly when each is one of the grammar and goes with its neighbours,
      and their numbers count up. */
  lemma ColonFormIff(t: seq<Token>)
    ensures ColonForm(t) <==> Orderly(t) && Counted(t)
  {
    if ColonForm(t) {
      ColonFormIsOrderly(t);
    }
    if Orderly(t) && Counted(t) {
      if Doubles(t) == 0 {
        var a := ReadFull(t);
        assert ColonFull(t, a);
      } else {
        var a, b := ReadCounted(t);
        assert ColonShort(t, a, b);
      }
    }
  }

  lemma StartsRight(t: seq<Token>)
    requires Orderly(t)
    ensures t == [] || t[0].NUMBER? || t[0] == COLON2
    ensures t != [] && t[0] == COLON2 ==> Doubles(t) > 0
  {
    if t != [] {
      assert Fits(t, 0) && t == [t[0]] + t[1..];
      OneInFront(t[0], t[1..]);
    }
  }

  lemma ReadFull(t: seq<Token>) returns (a: seq<Token>)
    requires Orderly(t) && Doubles(t) == 0
    ensures Words(a) && t == Spelled(a) && |a| == |Numbers(t)|
  {
    StartsRight(t);
    a := ReadWords(t);
    CountFull(a);
  }

  lemma ReadCounted(t: seq<Token>) returns (a: seq<Token>, b: seq<Token>)
    requires Orderly(t) && Doubles(t) == 1
    ensures Words(a) && Words(b) && t == Spelled(a) + ([COLON2] + Spelled(b)) && |a| + |b| == |Numbers(t)|
  {
    StartsRight(t);
    a, b := ReadShort(t);
    CountShort(a, b);
  }

  /** What the parser accepts at all: at most one double colon, eight numbers or with it fewer. */
  lemma AcceptedIff(l: Lexed)
    ensures MeaningV6(l).Groups? <==>
              && !l.threw && Doubles(l.tokens) <= 1
              && (|Numbers(l.tokens)| == 8 || (Doubles(l.tokens) == 1 && |Numbers(l.tokens)| < 8))
  {
    OverrunsWhen(l.tokens);
  }

  /** A text of nine words is stored past the end of the array. */
  lemma NineWordsOverrun(values: seq<Short>)
    requires |values| > 8
    ensures MeaningV6(Lex(Join(values))) == Overrun
  {
    LexGroups(values);
    OverrunsWhen(Lex(Join(values)).tokens);
  }
}
