/** The rule of the block format that the last match starts at least 12 bytes before the end: when
    the compressor keeps it, and for which lengths it may not. */
module Lz4EndRule {
  import opened Basics
  import opened Lz4Format
  import opened Lz4Matcher

  const END_RULE: nat := 12

  /** Every match of the block starts early enough in an input of `n` bytes. */
  predicate StartsEarly(b: Block, start: nat, n: nat) {
    match b
    case Last(_, _) => true
    case More(literals, _, matchLength, rest) =>
      start + |literals| + END_RULE <= n && StartsEarly(rest, start + |literals| + matchLength, n)
  }

  predicate KeepsEndRule(x: seq<Byte>) {
    |x| > 0 ==> StartsEarly(Plan(x, 0, 0, EmptyTable()), 0, |x|)
  }

  // ---------------------------------------------------------------- when the rule is kept

  predicate SameWords(x: seq<Byte>, a: nat, d: nat) {
    a + 4 <= |x| && d <= a && ReadU32(x, a - d) == ReadU32(x, a)
  }

  /** The four bytes at `a` have occurred before, as near as an offset reaches. */
  predicate Recurs(x: seq<Byte>, a: nat) {
    exists d: nat :: 1 <= d <= MAX_OFFSET && d <= a && SameWords(x, a, d)
  }

  /** The four bytes at neither of the two positions that are too late have occurred before. */
  predicate NoLateRecurrence(x: seq<Byte>) {
    forall a: nat :: |x| < a + END_RULE <= |x| + 2 ==> !Recurs(x, a)
  }

  /** Without a late recurrence the rule is kept. */
  lemma EndRuleKept(x: seq<Byte>)
    requires NoLateRecurrence(x)
    ensures KeepsEndRule(x)
  {
    if |x| > 0 {
      EarlyFrom(x, 0, 0, EmptyTable());
    }
  }

  lemma {:induction false} EarlyFrom(x: seq<Byte>, start: nat, rp: nat, table: seq<nat>)
    requires start <= rp < |x| && TableOk(table, rp) && NoLateRecurrence(x)
    ensures StartsEarly(Plan(x, start, rp, table), start, |x|)
    decreases |x| - rp
  {
    hide Plan, Recurs, TableOk, Probe, Note, Entry, NoLateRecurrence, Distance;
    PlanStep(x, start, rp, table);
    if |x| > TAIL && rp < |x| - TAIL {
      var length := Probe(x, rp, Entry(x, rp, table));
      if length == 0 {
        EarlyFrom(x, start, rp + 1, Note(x, rp, table, rp + 1));
      } else {
        MatchRecurs(x, rp, Entry(x, rp, table));
        EarlyFrom(x, rp + length, rp + length, Note(x, rp, table, rp + length));
      }
    }
  }

  /** A match is a recurrence, and so it is not late. */
  lemma MatchRecurs(x: seq<Byte>, rp: nat, entry: nat)
    requires |x| > TAIL && rp < |x| - TAIL && entry <= NO_ENTRY && (entry == NO_ENTRY || entry < rp)
    requires Probe(x, rp, entry) > 0
    ensures Recurs(x, rp) && (NoLateRecurrence(x) ==> rp + END_RULE <= |x|)
  {
    var d := Distance(rp, entry);
    SameWord(x, rp, d);
    assert 1 <= d <= MAX_OFFSET && SameWords(x, rp, d);
  }

  lemma SameWord(x: seq<Byte>, a: nat, d: nat)
    requires d <= a && a + 4 <= |x| && Repeats(x, a, a + 4, d)
    ensures ReadU32(x, a - d) == ReadU32(x, a)
  {
    assert Repeated(x, a, d) && Repeated(x, a + 1, d) && Repeated(x, a + 2, d) && Repeated(x, a + 3, d);
  }

  // ---------------------------------------------------------------- when it is not

  /** `m` zeros and then ones. */
  function Input(m: nat, k: nat): (x: seq<Byte>)
    ensures |x| == m + k && forall i :: 0 <= i < m + k ==> x[i] == if i < m then 0 else 1
  {
    seq(m + k, i => if i < m then 0 else 1)
  }

  /** No match starts where the first of the ones lies within four bytes. */
  lemma NoMatchAcross(m: nat, k: nat, rp: nat, entry: nat)
    requires k > TAIL + 1 && rp <= m && (rp == 0 || m < rp + 4)
    requires entry <= NO_ENTRY && (entry == NO_ENTRY || entry < rp)
    ensures Probe(Input(m, k), rp, entry) == 0
  {
    var x := Input(m, k);
    var d := Distance(rp, entry);
    assert Probe(x, rp, entry) > 0 ==> d <= rp && Repeated(x, m, d);
  }

  /** The scan goes on to the first of the ones. */
  lemma {:induction false} ScanToOnes(m: nat, k: nat, start: nat, rp: nat, table: seq<nat>) returns (later: seq<nat>)
    requires k > TAIL + 1 && start <= rp <= m < rp + 4 && TableOk(table, rp)
    ensures TableOk(later, m) && Plan(Input(m, k), start, rp, table) == Plan(Input(m, k), start, m, later)
    decreases m - rp
  {
    hide Plan, TableOk, Probe, Note, Entry;
    later := table;
    if rp < m {
      var x := Input(m, k);
      PlanStep(x, start, rp, table);
      NoMatchAcross(m, k, rp, Entry(x, rp, table));
      later := ScanToOnes(m, k, start, rp + 1, Note(x, rp, table, rp + 1));
    }
  }

  /** At the first of the ones there is no match; the next position has one with it, provided that
      the position stored for it is not taken for an empty slot. */
  lemma OnesMatchLate(m: nat, k: nat, start: nat, table: seq<nat>)
    requires TAIL + 1 < k <= END_RULE && start <= m && TableOk(table, m) && m % 0x1_0000 != NO_ENTRY
    ensures !StartsEarly(Plan(Input(m, k), start, m, table), start, m + k)
  {
    var x, noted := Input(m, k), Note(Input(m, k), m, table, m + 1);
    PlanStep(x, start, m, table);
    NoMatchAcross(m, k, m, Entry(x, m, table));
    PlanStep(x, start, m + 1, noted);
    OnesFound(m, k, table);
  }

  lemma OnesFound(m: nat, k: nat, table: seq<nat>)
    requires TAIL + 1 < k && TableOk(table, m) && m % 0x1_0000 != NO_ENTRY
    ensures var x := Input(m, k); Probe(x, m + 1, Entry(x, m + 1, Note(x, m, table, m + 1))) > 0
  {
    var x := Input(m, k);
    OnesRead(m, k, m);
    OnesRead(m, k, m + 1);
    hide ReadU32, HashIndex;
    assert Entry(x, m + 1, Note(x, m, table, m + 1)) == m % 0x1_0000;
    NextDistance(m);
  }

  lemma NextDistance(m: nat)
    ensures Distance(m + 1, m % 0x1_0000) == 1
  {}

  lemma OnesRead(m: nat, k: nat, at: nat)
    requires m <= at && at + 4 <= m + k
    ensures ReadU32(Input(m, k), at) == 0x101_0101
  {}

  lemma ZerosRead(m: nat, k: nat, at: nat)
    requires at + 4 <= m
    ensures ReadU32(Input(m, k), at) == 0
  {}

  /** In a long run of zeros the second one starts a match that takes in all the others. */
  lemma ZerosMatch(m: nat, k: nat)
    requires m >= 5 && k > TAIL + 1
    ensures var x := Input(m, k);
            var table := Note(x, 0, EmptyTable(), 1);
            Probe(x, 0, Entry(x, 0, EmptyTable())) == 0 &&
            Probe(x, 1, Entry(x, 1, table)) == m - 1 && Distance(1, Entry(x, 1, table)) == 1
  {
    var x := Input(m, k);
    ZerosRead(m, k, 0);
    ZerosRead(m, k, 1);
    RepeatIsFound(x);
    WholeRun(m, k, Entry(x, 1, Note(x, 0, EmptyTable(), 1)));
  }

  lemma WholeRun(m: nat, k: nat, entry: nat)
    requires m >= 5 && k > TAIL + 1 && entry == 0 && Probe(Input(m, k), 1, entry) > 0
    ensures Probe(Input(m, k), 1, entry) == m - 1
  {
    var x := Input(m, k);
    var r := Probe(x, 1, entry);
    assert Distance(1, entry) == 1;
    assert 1 + r <= m || Repeated(x, m, 1);
    assert 1 + r < |x| - NO_COMPRESS_SIZE ==> x[1 + r] != x[r];
  }

  lemma RepeatIsFound(x: seq<Byte>)
    requires |x| > TAIL + 1 && ReadU32(x, 0) == ReadU32(x, 1)
    ensures Probe(x, 0, Entry(x, 0, EmptyTable())) == 0
    ensures var entry := Entry(x, 1, Note(x, 0, EmptyTable(), 1));
            entry == 0 && Probe(x, 1, entry) > 0 && Distance(1, entry) == 1
  {
    hide ReadU32, HashIndex;
    assert Entry(x, 1, Note(x, 0, EmptyTable(), 1)) == 0;
    assert Distance(1, 0) == 1;
  }

  /** An input of zeros and eleven or twelve ones breaks the rule. */
  lemma InputBreaks(m: nat, k: nat)
    requires TAIL + 1 < k <= END_RULE && m % 0x1_0000 != NO_ENTRY
    ensures !KeepsEndRule(Input(m, k))
  {
    hide Plan, Probe, Note, Entry, TableOk, EmptyTable;
    var x, empty := Input(m, k), EmptyTable();
    var noted := Note(x, 0, empty, 1);
    if m == 0 {
      OnesMatchLate(m, k, 0, empty);
    } else {
      PlanStep(x, 0, 0, empty);
      PlanStep(x, 0, 1, noted);
      if m < 5 {
        NoMatchAcross(m, k, 0, Entry(x, 0, empty));
        var later := ScanToOnes(m, k, 0, 1, noted);
        OnesMatchLate(m, k, 0, later);
      } else {
        ZerosMatch(m, k);
        OnesMatchLate(m, k, m, Note(x, 1, noted, m));
      }
    }
  }

  /** An input that breaks the rule exists for exactly the lengths from eleven on. */
  lemma LengthsThatBreakEndRule(n: nat)
    ensures (exists x: seq<Byte> :: |x| == n && !KeepsEndRule(x)) <==> n >= 11
  {
    if n >= 11 {
      var k := if (n - 11) % 0x1_0000 == NO_ENTRY then 12 else 11;
      InputBreaks(n - k, k);
      assert |Input(n - k, k)| == n;
    }
    forall x: seq<Byte> | |x| == n && n < 11 ensures KeepsEndRule(x) {
      ShortKeeps(x);
    }
  }

  lemma ShortKeeps(x: seq<Byte>)
    requires |x| < 11
    ensures KeepsEndRule(x)
  {
    if |x| > 0 {
      OneBlock(Plan(x, 0, 0, EmptyTable()), x);
    }
  }

  /** A match needs something before it and ten bytes from its start on. */
  lemma OneBlock(b: Block, x: seq<Byte>)
    requires |x| < 11 && Faithful(b, x, 0)
    ensures b.Last?
  {}
}
