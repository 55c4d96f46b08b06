/**
 * Second canonicalisation pass, one block at a time (`applySimplifyRule`,
 * `shortenBlock`): the block is run-length encoded, a zero-count group of
 * `a` is appended, and a left-to-right scan cancels every `b` group of
 * count y whose neighbours have counts x and z with y <= x and y <= z,
 * leaving (0, 0, x + z - y) in their place.
 */
module Cancellation {
  import opened Moves
  import opened RunLength

  /** The scan's condition at position i. */
  predicate Cancels(gs: seq<Group>, i: nat, b: char)
    requires 1 <= i < |gs| - 1
  {
    gs[i].letter == b && gs[i].count <= gs[i - 1].count && gs[i + 1].count >= gs[i].count
  }

  /** One visit of the scan at position i. */
  function Visit(gs: seq<Group>, i: nat, b: char): (r: seq<Group>)
    requires 1 <= i < |gs| - 1
    ensures |r| == |gs|
  {
    if Cancels(gs, i, b) then
      var x, y, z := gs[i - 1].count, gs[i].count, gs[i + 1].count;
      gs[i + 1 := Group(gs[i + 1].letter, x + z - y)][i := Group(gs[i].letter, 0)][i - 1 := Group(gs[i - 1].letter, 0)]
    else gs
  }

  /** Where the scan stops: it visits 1 .. |gs| - 2. */
  function ScanEnd(gs: seq<Group>): nat
  {
    if |gs| >= 2 then |gs| - 1 else 1
  }

  /** The groups after the scan has visited positions 1 .. i - 1. */
  function Swept(gs: seq<Group>, b: char, i: nat): (r: seq<Group>)
    requires 1 <= i <= ScanEnd(gs)
    ensures |r| == |gs|
  {
    if i == 1 then gs else Visit(Swept(gs, b, i - 1), i - 1, b)
  }

  /** The encoded block with the zero-count sentinel group `a` appended. */
  function Framed(block: Word, a: char): seq<Group>
  {
    Encode(block) + [Group(a, 0)]
  }

  /** Specification of `applySimplifyRule(block, a, b)`. */
  function Simplify(block: Word, a: char, b: char): Word
  {
    var gs := Framed(block, a);
    Expand(Swept(gs, b, ScanEnd(gs)))
  }

  /** `applySimplifyRule` (lstar.ts): encode, append the sentinel, scan with a while index, spell out. */
  method ApplySimplifyRule(block: Word, a: char, b: char) returns (result: Word)
    ensures result == Simplify(block, a, b)
  {
    var groupedLetters := RunLengthEncode(block);
    groupedLetters := groupedLetters + [Group(a, 0)];
    ghost var framed := groupedLetters;
    var groupLen := |groupedLetters| - 1;
    var i := 1;
    while i < groupLen
      invariant 1 <= i <= ScanEnd(framed)
      invariant groupedLetters == Swept(framed, b, i)
    {
      if groupedLetters[i].letter == b {
        var x := groupedLetters[i - 1].count;
        var y := groupedLetters[i].count;
        var z := groupedLetters[i + 1].count;
        if y <= x && z >= y {
          groupedLetters := groupedLetters[i + 1 := Group(groupedLetters[i + 1].letter, x + z - y)];
          groupedLetters := groupedLetters[i := Group(groupedLetters[i].letter, 0)];
          groupedLetters := groupedLetters[i - 1 := Group(groupedLetters[i - 1].letter, 0)];
        }
      }
      i := i + 1;
    }
    result := [];
    for j := 0 to |groupedLetters|
      invariant result == Expand(groupedLetters[..j])
    {
      assert groupedLetters[..j + 1][..j] == groupedLetters[..j];
      result := result + Repeat(groupedLetters[j].letter, groupedLetters[j].count);
    }
    assert groupedLetters[..|groupedLetters|] == groupedLetters;
  }

  /** A block made of the letters `a` and `b` only. */
  predicate OverPair(block: Word, a: char, b: char)
  {
    forall i :: 0 <= i < |block| ==> block[i] == a || block[i] == b
  }

  /** The shape of the framed groups of a block over {a, b}. */
  ghost predicate WellFramed(gs: seq<Group>, a: char, b: char)
  {
    && a != b
    && |gs| >= 1
    && gs[|gs| - 1] == Group(a, 0)
    && (forall j :: 0 <= j < |gs| - 1 ==> gs[j].count >= 1 && (gs[j].letter == a || gs[j].letter == b))
    && (forall j :: 0 <= j < |gs| - 2 ==> gs[j].letter != gs[j + 1].letter)
  }

  lemma FramedShape(block: Word, a: char, b: char)
    requires a != b && OverPair(block, a, b)
    ensures WellFramed(Framed(block, a), a, b)
    ensures forall j :: 0 <= j < |Framed(block, a)| - 1 ==> Framed(block, a)[j].letter in block
  {
    var e := Encode(block);
    EncodeShape(block);
    EncodeLetters(block);
    var gs := Framed(block, a);
    assert forall j :: 0 <= j < |e| ==> gs[j] == e[j];
    forall j | 0 <= j < |gs| - 1 ensures gs[j].letter == a || gs[j].letter == b {
      var c := gs[j].letter;
      assert c in block;
      var k :| 0 <= k < |block| && block[k] == c;
    }
  }

  /** Signed balance of `a` over `b` in a group list. */
  function Net(gs: seq<Group>, a: char, b: char): int
  {
    LetterTotal(gs, a) - LetterTotal(gs, b)
  }

  /** What the scan has kept so far, having visited 1 .. i - 1 of the framed groups `gs`. */
  ghost predicate SweepInvariant(gs: seq<Group>, hs: seq<Group>, a: char, b: char, i: nat)
    requires WellFramed(gs, a, b) && |hs| == |gs| && i < |gs|
  {
    && (forall j :: 0 <= j < |gs| ==> hs[j].letter == gs[j].letter)
    && (forall j :: i < j < |gs| ==> hs[j] == gs[j])
    && (gs[i].letter == b ==> hs[i] == gs[i])
    && (|gs| >= 2 && gs[|gs| - 2].letter == b ==> hs[|gs| - 2] == gs[|gs| - 2])
    && (gs[0].letter == b ==> hs[0] == gs[0])
    && hs[|gs| - 1].count == 0
    && Net(hs, a, b) == Net(gs, a, b)
    && Total(hs) <= Total(gs)
    && (Total(gs) - Total(hs)) % 2 == 0
    && (Total(gs) >= 1 ==> Total(hs) >= 1)
  }

  /** A cancellation takes 2y letters away and leaves the balance of `a` over `b` alone. */
  lemma {:induction false} VisitMeasures(hs: seq<Group>, i: nat, a: char, b: char)
    requires 1 <= i < |hs| - 1 && a != b
    requires Cancels(hs, i, b) ==> hs[i - 1].letter == a && hs[i + 1].letter == a
    ensures Cancels(hs, i, b) ==> Total(Visit(hs, i, b)) + 2 * hs[i].count == Total(hs)
    ensures Cancels(hs, i, b) ==> Visit(hs, i, b)[i + 1].count >= hs[i].count
    ensures Net(Visit(hs, i, b), a, b) == Net(hs, a, b)
  {
    if Cancels(hs, i, b) {
      var x, y, z := hs[i - 1].count, hs[i].count, hs[i + 1].count;
      var h1 := hs[i + 1 := Group(hs[i + 1].letter, x + z - y)];
      var h2 := h1[i := Group(hs[i].letter, 0)];
      var h3 := h2[i - 1 := Group(hs[i - 1].letter, 0)];
      TotalsUpdate(hs, i + 1, Group(hs[i + 1].letter, x + z - y), a);
      TotalsUpdate(hs, i + 1, Group(hs[i + 1].letter, x + z - y), b);
      TotalsUpdate(h1, i, Group(hs[i].letter, 0), a);
      TotalsUpdate(h1, i, Group(hs[i].letter, 0), b);
      TotalsUpdate(h2, i - 1, Group(hs[i - 1].letter, 0), a);
      TotalsUpdate(h2, i - 1, Group(hs[i - 1].letter, 0), b);
      assert Visit(hs, i, b) == h3;
    }
  }

  lemma {:induction false} TotalAtLeast(gs: seq<Group>, k: nat)
    requires k < |gs|
    ensures Total(gs) >= gs[k].count
  {
    TotalsUpdate(gs, k, Group(gs[k].letter, 0), gs[k].letter);
  }

  /** One more visit keeps the invariant. */
  lemma {:induction false} VisitKeepsInvariant(gs: seq<Group>, hs: seq<Group>, a: char, b: char, i: nat)
    requires WellFramed(gs, a, b) && |hs| == |gs| && 1 <= i < |gs| - 1
    requires SweepInvariant(gs, hs, a, b, i)
    ensures SweepInvariant(gs, Visit(hs, i, b), a, b, i + 1)
  {
    var n := |gs|;
    var hs' := Visit(hs, i, b);
    if Cancels(hs, i, b) {
      assert gs[i].letter == b;
      assert gs[i - 1].letter == a;
      assert hs[i + 1].letter == a by {
        if i + 1 < n - 1 {
          assert gs[i].letter != gs[i + 1].letter;
        }
      }
      assert i + 1 != n - 1;
      assert i + 1 < n - 2 ==> gs[i + 1].letter != b;
      VisitMeasures(hs, i, a, b);
      TotalAtLeast(hs', i + 1);
      assert gs[0].letter == b ==> i - 1 != 0;
      assert forall j :: i + 1 < j < n ==> hs'[j] == hs[j];
      assert forall j :: 0 <= j < n ==> hs'[j].letter == hs[j].letter;
    } else {
      assert gs[i + 1].letter == b ==> hs[i + 1] == gs[i + 1];
      VisitMeasures(hs, i, a, b);
    }
  }

  lemma {:induction false} SweptKeepsInvariant(gs: seq<Group>, a: char, b: char, i: nat)
    requires WellFramed(gs, a, b) && |gs| >= 2 && 1 <= i <= |gs| - 1
    ensures SweepInvariant(gs, Swept(gs, b, i), a, b, i)
  {
    if i > 1 {
      SweptKeepsInvariant(gs, a, b, i - 1);
      VisitKeepsInvariant(gs, Swept(gs, b, i - 1), a, b, i - 1);
    }
  }

  /** What the scan leaves behind, for a block over {a, b}. */
  lemma {:induction false} SweptFinal(block: Word, a: char, b: char)
    requires a != b && OverPair(block, a, b)
    ensures var gs := Framed(block, a); var hs := Swept(gs, b, ScanEnd(gs));
      && |gs| >= 1
      && WellFramed(gs, a, b)
      && SweepInvariant(gs, hs, a, b, |gs| - 1)
  {
    var gs := Framed(block, a);
    FramedShape(block, a, b);
    if |gs| >= 2 {
      SweptKeepsInvariant(gs, a, b, |gs| - 1);
    } else {
      assert Swept(gs, b, ScanEnd(gs)) == gs;
    }
  }

  /**
   * `applySimplifyRule` on a block over {a, b}: the balance of `a` over `b`
   * is unchanged, the block only shrinks and by an even number of letters,
   * and a non-empty block stays non-empty.
   */
  lemma {:induction false} SimplifyPreserves(block: Word, a: char, b: char)
    requires a != b && OverPair(block, a, b)
    ensures var out := Simplify(block, a, b);
      && Count(out, a) - Count(out, b) == Count(block, a) - Count(block, b)
      && |out| <= |block|
      && (|block| - |out|) % 2 == 0
      && (block != [] ==> out != [])
  {
    var gs := Framed(block, a);
    var hs := Swept(gs, b, ScanEnd(gs));
    SweptFinal(block, a, b);
    EncodeSpellsBack(block);
    ExpandAppend(Encode(block), [Group(a, 0)]);
    assert [Group(a, 0)][..0] == [];
    assert Expand(gs) == block;
    ExpandMeasures(gs, a);
    ExpandMeasures(gs, b);
    ExpandMeasures(hs, a);
    ExpandMeasures(hs, b);
  }

  /**
   * No letter appears that the block did not have: the sentinel group of
   * `a` keeps count 0 when the block has no `a`.
   */
  lemma {:induction false} SimplifyKeepsLetters(block: Word, a: char, b: char)
    requires a != b && OverPair(block, a, b)
    ensures forall c :: c in Simplify(block, a, b) ==> c in block
  {
    var gs := Framed(block, a);
    var hs := Swept(gs, b, ScanEnd(gs));
    forall c | c !in block ensures c !in Simplify(block, a, b) {
      forall j | 0 <= j < |hs| && hs[j].letter == c ensures hs[j].count == 0 {
        SweptOutsideLetter(block, a, b, c, j);
      }
      LetterTotalZero(hs, c);
      ExpandMeasures(hs, c);
      CountPositive(Expand(hs), c);
    }
  }

  /** A group of the scan's output whose letter is not in the block is the empty sentinel. */
  lemma SweptOutsideLetter(block: Word, a: char, b: char, c: char, j: nat)
    requires a != b && OverPair(block, a, b) && c !in block
    requires var gs := Framed(block, a); j < |Swept(gs, b, ScanEnd(gs))|
    requires var gs := Framed(block, a); Swept(gs, b, ScanEnd(gs))[j].letter == c
    ensures var gs := Framed(block, a); Swept(gs, b, ScanEnd(gs))[j].count == 0
  {
    SweptFinal(block, a, b);
    FramedShape(block, a, b);
  }

  /** A leading `b` group is never cancelled: the block's first run of `b` reaches the output unchanged. */
  lemma {:induction false} SimplifyKeepsLeadingRun(block: Word, a: char, b: char)
    requires a != b && OverPair(block, a, b) && block != [] && block[0] == b
    ensures var out := Simplify(block, a, b); var e := Encode(block);
      && e != [] && e[0].count <= |block|
      && |out| >= e[0].count && out[..e[0].count] == block[..e[0].count]
  {
    var gs := Framed(block, a);
    var hs := Swept(gs, b, ScanEnd(gs));
    var e := Encode(block);
    SweptFinal(block, a, b);
    EncodeFirst(block);
    assert gs[0] == e[0] && hs[0] == gs[0];
    var r := Repeat(b, e[0].count);
    assert block == r + Expand(gs[1..]) by {
      FramedSpells(block, a);
      ExpandHead(gs);
    }
    assert Simplify(block, a, b) == r + Expand(hs[1..]) by {
      ExpandHead(hs);
    }
    assert (r + Expand(gs[1..]))[..|r|] == r;
    assert (r + Expand(hs[1..]))[..|r|] == r;
  }

  /** The framed groups spell the block: the sentinel has count 0. */
  lemma FramedSpells(block: Word, a: char)
    ensures Expand(Framed(block, a)) == block
  {
    EncodeSpellsBack(block);
    ExpandAppend(Encode(block), [Group(a, 0)]);
    assert [Group(a, 0)][..0] == [];
  }

  /** The first group of a list spells the start of its word. */
  lemma ExpandHead(gs: seq<Group>)
    requires gs != []
    ensures Expand(gs) == Repeat(gs[0].letter, gs[0].count) + Expand(gs[1..])
  {
    ExpandAppend([gs[0]], gs[1..]);
    assert [gs[0]] + gs[1..] == gs;
    assert [gs[0]][..0] == [];
  }

  /**
   * A trailing `b` group, whose right neighbour is the zero-count sentinel,
   * is never cancelled: the block's last run of `b` reaches the output unchanged.
   */
  lemma {:induction false} SimplifyKeepsTrailingRun(block: Word, a: char, b: char)
    requires a != b && OverPair(block, a, b) && block != [] && block[|block| - 1] == b
    ensures var out := Simplify(block, a, b); var e := Encode(block);
      && e != [] && e[|e| - 1].count <= |block|
      && |out| >= e[|e| - 1].count
      && out[|out| - e[|e| - 1].count..] == block[|block| - e[|e| - 1].count..]
  {
    var gs := Framed(block, a);
    var hs := Swept(gs, b, ScanEnd(gs));
    var e := Encode(block);
    SweptFinal(block, a, b);
    assert e != [] && e[|e| - 1].letter == b by {
      EncodeLast(block);
    }
    var t := |gs| - 2;
    var k := e[|e| - 1].count;
    assert gs[t] == e[|e| - 1] && hs[t] == gs[t];
    var r := Repeat(b, k);
    assert block == Expand(gs[..t]) + r by {
      FramedSpells(block, a);
      ExpandTail(gs);
      assert Repeat(a, 0) == [];
    }
    assert Simplify(block, a, b) == Expand(hs[..t]) + r by {
      ExpandTail(hs);
      assert Repeat(hs[t + 1].letter, 0) == [];
    }
    assert (Expand(gs[..t]) + r)[|Expand(gs[..t])|..] == r;
    assert (Expand(hs[..t]) + r)[|Expand(hs[..t])|..] == r;
  }

  /** The last two groups of a list spell the end of its word. */
  lemma ExpandTail(gs: seq<Group>)
    requires |gs| >= 2
    ensures Expand(gs) == Expand(gs[..|gs| - 2]) + Repeat(gs[|gs| - 2].letter, gs[|gs| - 2].count)
                          + Repeat(gs[|gs| - 1].letter, gs[|gs| - 1].count)
  {
    assert gs[..|gs| - 1][..|gs| - 2] == gs[..|gs| - 2];
  }

  /** The first group of an encoding carries the word's first letter. */
  lemma {:induction false} EncodeFirst(s: Word)
    requires s != []
    ensures Encode(s) != [] && Encode(s)[0].letter == s[0]
  {
    if |s| == 1 {
      assert Encode(s) == Extend([], s[0]);
    } else {
      var s' := s[..|s| - 1];
      assert Encode(s) == Extend(Encode(s'), s[|s| - 1]);
      EncodeFirst(s');
      ExtendKeepsFirst(Encode(s'), s[|s| - 1]);
    }
  }

  /** One more letter leaves the first group's letter alone. */
  lemma ExtendKeepsFirst(p: seq<Group>, x: char)
    requires p != []
    ensures Extend(p, x) != [] && Extend(p, x)[0].letter == p[0].letter
  {
  }

  /** Specification of `shortenBlock`: the two passes of the block's axis. */
  function Shorten(block: Word): Word
  {
    if block == [] then []
    else if block[0] == 'N' || block[0] == 'S' then Simplify(Simplify(block, 'N', 'S'), 'S', 'N')
    else Simplify(Simplify(block, 'W', 'E'), 'E', 'W')
  }

  /** `shortenBlock` (lstar.ts). */
  method ShortenBlock(block: Word) returns (simplified: Word)
    ensures simplified == Shorten(block)
  {
    if |block| == 0 {
      return [];
    }
    if block[0] == 'N' || block[0] == 'S' {
      simplified := ApplySimplifyRule(block, 'N', 'S');
      simplified := ApplySimplifyRule(simplified, 'S', 'N');
    } else {
      simplified := ApplySimplifyRule(block, 'W', 'E');
      simplified := ApplySimplifyRule(simplified, 'E', 'W');
    }
  }

  /** Two passes with the roles of the pair swapped keep what one pass keeps. */
  lemma {:induction false} TwoPasses(block: Word, a: char, b: char)
    requires a != b && OverPair(block, a, b)
    ensures var out := Simplify(Simplify(block, a, b), b, a);
      && OverPair(out, a, b)
      && Count(out, a) - Count(out, b) == Count(block, a) - Count(block, b)
      && |out| <= |block|
      && (|block| - |out|) % 2 == 0
      && (block != [] ==> out != [])
  {
    var mid := Simplify(block, a, b);
    SimplifyPreserves(block, a, b);
    SimplifyKeepsLetters(block, a, b);
    assert OverPair(mid, a, b) by {
      forall i | 0 <= i < |mid| ensures mid[i] == a || mid[i] == b {
        assert mid[i] in block;
        var k :| 0 <= k < |block| && block[k] == mid[i];
      }
    }
    assert OverPair(mid, b, a);
    SimplifyPreserves(mid, b, a);
    SimplifyKeepsLetters(mid, b, a);
    var out := Simplify(mid, b, a);
    forall i | 0 <= i < |out| ensures out[i] == a || out[i] == b {
      assert out[i] in mid;
      var k :| 0 <= k < |mid| && mid[k] == out[i];
    }
  }

  /**
   * `shortenBlock` on a block of one axis: the result stays on that axis,
   * is no longer, has the same parity of length, is non-empty, and keeps
   * the net displacement N - S and E - W.
   */
  lemma ShortenBlockPreserves(block: Word)
    requires block != []
    requires OverPair(block, 'N', 'S') || OverPair(block, 'W', 'E')
    ensures var out := Shorten(block);
      && (OverPair(block, 'N', 'S') ==> OverPair(out, 'N', 'S'))
      && (OverPair(block, 'W', 'E') ==> OverPair(out, 'W', 'E'))
      && NetNorth(out) == NetNorth(block)
      && NetEast(out) == NetEast(block)
      && |out| <= |block|
      && (|block| - |out|) % 2 == 0
      && out != []
  {
    if block[0] == 'N' || block[0] == 'S' {
      assert OverPair(block, 'N', 'S') && !OverPair(block, 'W', 'E');
      AxisPasses(block, 'N', 'S', 'E', 'W');
    } else {
      assert OverPair(block, 'W', 'E') && !OverPair(block, 'N', 'S');
      AxisPasses(block, 'W', 'E', 'N', 'S');
    }
  }

  /** The two passes on a block of the axis {a, b}, with c and d the other axis. */
  lemma AxisPasses(block: Word, a: char, b: char, c: char, d: char)
    requires a != b && OverPair(block, a, b) && block != []
    requires c != a && c != b && d != a && d != b
    ensures var out := Simplify(Simplify(block, a, b), b, a);
      && OverPair(out, a, b)
      && Count(out, a) - Count(out, b) == Count(block, a) - Count(block, b)
      && Count(out, c) == Count(block, c) == 0 && Count(out, d) == Count(block, d) == 0
      && |out| <= |block|
      && (|block| - |out|) % 2 == 0
      && out != []
  {
    TwoPasses(block, a, b);
    NoOtherPair(block, a, b, c, d);
    NoOtherPair(Simplify(Simplify(block, a, b), b, a), a, b, c, d);
  }

  /** A word over one pair has none of the other pair's letters. */
  lemma NoOtherPair(w: Word, a: char, b: char, c: char, d: char)
    requires OverPair(w, a, b) && c != a && c != b && d != a && d != b
    ensures Count(w, c) == 0 && Count(w, d) == 0
  {
    CountPositive(w, c);
    CountPositive(w, d);
  }
}
