/**
 * Run-length groups: `applySimplifyRule` turns a block into a list of
 * (letter, count) pairs, edits the counts and spells the pairs out again.
 */
module RunLength {
  import opened Moves

  /** One `[char, count]` pair of `groupedLetters`. */
  datatype Group = Group(letter: char, count: nat)

  /** The word a group list spells: each letter repeated `count` times, in order. */
  function Expand(gs: seq<Group>): Word
  {
    if gs == [] then [] else Expand(gs[..|gs| - 1]) + Repeat(gs[|gs| - 1].letter, gs[|gs| - 1].count)
  }

  /** Sum of all counts. */
  function Total(gs: seq<Group>): nat
  {
    if gs == [] then 0 else Total(gs[..|gs| - 1]) + gs[|gs| - 1].count
  }

  /** Sum of the counts of the groups tagged `c`. */
  function LetterTotal(gs: seq<Group>, c: char): nat
  {
    if gs == [] then 0
    else LetterTotal(gs[..|gs| - 1], c) + (if gs[|gs| - 1].letter == c then gs[|gs| - 1].count else 0)
  }

  /** Run-length encoding of a word, built letter by letter from the left. */
  function Encode(s: Word): seq<Group>
  {
    if s == [] then [] else Extend(Encode(s[..|s| - 1]), s[|s| - 1])
  }

  /** The groups after one more letter: the last group grows, or a new group of one opens. */
  function Extend(p: seq<Group>, x: char): seq<Group>
  {
    if p != [] && p[|p| - 1].letter == x then p[..|p| - 1] + [Group(x, p[|p| - 1].count + 1)]
    else p + [Group(x, 1)]
  }

  /** What the encoding of a word looks like: no empty group and no two neighbours with one letter. */
  ghost predicate IsEncoding(gs: seq<Group>)
  {
    && (forall j :: 0 <= j < |gs| ==> gs[j].count >= 1)
    && (forall j :: 0 <= j < |gs| - 1 ==> gs[j].letter != gs[j + 1].letter)
  }

  /** The run-length loop of `applySimplifyRule` (lstar.ts). */
  method RunLengthEncode(blockStr: Word) returns (groupedLetters: seq<Group>)
    ensures groupedLetters == Encode(blockStr)
  {
    groupedLetters := [];
    if |blockStr| > 0 {
      var currentChar := blockStr[0];
      var count: nat := 1;
      assert blockStr[..1][..0] == [];
      for i := 1 to |blockStr|
        invariant groupedLetters + [Group(currentChar, count)] == Encode(blockStr[..i])
      {
        assert blockStr[..i + 1][..i] == blockStr[..i];
        if blockStr[i] == currentChar {
          count := count + 1;
        } else {
          groupedLetters := groupedLetters + [Group(currentChar, count)];
          currentChar := blockStr[i];
          count := 1;
        }
      }
      groupedLetters := groupedLetters + [Group(currentChar, count)];
      assert blockStr[..|blockStr|] == blockStr;
    }
  }

  lemma {:induction false} ExpandAppend(gs: seq<Group>, hs: seq<Group>)
    ensures Expand(gs + hs) == Expand(gs) + Expand(hs)
  {
    if hs == [] {
      assert gs + hs == gs;
    } else {
      assert (gs + hs)[..|gs + hs| - 1] == gs + hs[..|hs| - 1];
      ExpandAppend(gs, hs[..|hs| - 1]);
    }
  }

  /** The spelled-out word is as long as the counts add up to, and has as many `c` as the `c` groups count. */
  lemma {:induction false} ExpandMeasures(gs: seq<Group>, c: char)
    ensures |Expand(gs)| == Total(gs)
    ensures Count(Expand(gs), c) == LetterTotal(gs, c)
  {
    if gs != [] {
      var g := gs[|gs| - 1];
      ExpandMeasures(gs[..|gs| - 1], c);
      CountAppend(Expand(gs[..|gs| - 1]), Repeat(g.letter, g.count), c);
      RepeatCount(g.letter, g.count, c);
    }
  }

  lemma {:induction false} RepeatCount(x: char, k: nat, c: char)
    ensures Count(Repeat(x, k), c) == if x == c then k else 0
  {
    if k > 0 {
      assert Repeat(x, k)[..k - 1] == Repeat(x, k - 1);
      RepeatCount(x, k - 1, c);
    }
  }

  /** Changing one group changes the totals by the difference of that group's counts. */
  lemma {:induction false} TotalsUpdate(gs: seq<Group>, k: nat, g: Group, c: char)
    requires k < |gs|
    ensures Total(gs[k := g]) == Total(gs) - gs[k].count + g.count
    ensures LetterTotal(gs[k := g], c) ==
      LetterTotal(gs, c) - (if gs[k].letter == c then gs[k].count else 0) + (if g.letter == c then g.count else 0)
  {
    var front := gs[..|gs| - 1];
    if k == |gs| - 1 {
      assert gs[k := g][..|gs| - 1] == front;
    } else {
      assert gs[k := g][..|gs| - 1] == front[k := g];
      TotalsUpdate(front, k, g, c);
    }
  }

  /** A letter with no counted group does not occur in the spelled-out word. */
  lemma {:induction false} LetterTotalZero(gs: seq<Group>, c: char)
    requires forall j :: 0 <= j < |gs| && gs[j].letter == c ==> gs[j].count == 0
    ensures LetterTotal(gs, c) == 0
  {
    if gs != [] {
      LetterTotalZero(gs[..|gs| - 1], c);
    }
  }

  /** The encoding of a non-empty word ends in a group of the word's last letter. */
  lemma {:induction false} EncodeLast(s: Word)
    ensures s == [] <==> Encode(s) == []
    ensures s != [] ==> Encode(s)[|Encode(s)| - 1].letter == s[|s| - 1]
  {
  }

  /** The encoding has the shape IsEncoding describes. */
  lemma {:induction false} EncodeShape(s: Word)
    ensures IsEncoding(Encode(s))
  {
    if s != [] {
      EncodeShape(s[..|s| - 1]);
      ExtendShape(Encode(s[..|s| - 1]), s[|s| - 1]);
    }
  }

  lemma ExtendShape(p: seq<Group>, x: char)
    requires IsEncoding(p)
    ensures IsEncoding(Extend(p, x))
  {
    var e := Extend(p, x);
    if p != [] && p[|p| - 1].letter == x {
      assert forall j :: 0 <= j < |p| - 1 ==> e[j] == p[j];
    } else {
      assert forall j :: 0 <= j < |p| ==> e[j] == p[j];
    }
  }

  /** Every group of the encoding is tagged with a letter of the word. */
  lemma {:induction false} EncodeLetters(s: Word)
    ensures forall j :: 0 <= j < |Encode(s)| ==> Encode(s)[j].letter in s
  {
    if s != [] {
      var s' := s[..|s| - 1];
      var x := s[|s| - 1];
      var p := Encode(s');
      EncodeLetters(s');
      ExtendLetters(p, x);
      assert s == s' + [x];
      forall j | 0 <= j < |Encode(s)| ensures Encode(s)[j].letter in s {
        if Encode(s)[j].letter != x {
          assert p[j].letter in s';
        }
      }
    }
  }

  /** A group after one more letter is tagged with that letter or is the group that was there. */
  lemma ExtendLetters(p: seq<Group>, x: char)
    ensures var e := Extend(p, x);
      forall j :: 0 <= j < |e| ==> e[j].letter == x || (j < |p| && e[j] == p[j])
  {
  }

  /** Encoding round trip: the groups spell the word back. */
  lemma {:induction false} EncodeSpellsBack(s: Word)
    ensures Expand(Encode(s)) == s
  {
    if s != [] {
      var s' := s[..|s| - 1];
      var x := s[|s| - 1];
      EncodeSpellsBack(s');
      assert Encode(s) == Extend(Encode(s'), x);
      ExpandExtend(Encode(s'), x);
      assert s == s' + [x];
    }
  }

  /** Spelling out the groups after one more letter gives one more letter. */
  lemma ExpandExtend(p: seq<Group>, x: char)
    ensures Expand(Extend(p, x)) == Expand(p) + [x]
  {
    if p != [] && p[|p| - 1].letter == x {
      var g := p[|p| - 1];
      var front := p[..|p| - 1];
      var g' := Group(x, g.count + 1);
      assert Extend(p, x) == front + [g'];
      assert (front + [g'])[..|front|] == front;
      assert p == front + [g];
      assert Expand(front + [g']) == Expand(front) + Repeat(x, g.count + 1);
      RepeatSnoc(x, g.count);
    } else {
      assert (p + [Group(x, 1)])[..|p|] == p;
      assert Repeat(x, 1) == [x];
    }
  }

  /** The other half of the round trip: an encoding is the encoding of the word it spells. */
  lemma {:induction false} ExpandEncodesBack(gs: seq<Group>)
    requires IsEncoding(gs)
    ensures Encode(Expand(gs)) == gs
  {
    if gs != [] {
      var front := gs[..|gs| - 1];
      var g := gs[|gs| - 1];
      assert Expand(gs) == Expand(front) + Repeat(g.letter, g.count);
      assert Encode(Expand(front) + Repeat(g.letter, g.count)) == front + [g] by {
        EncodingFront(gs);
        ExpandEncodesBack(front);
        EncodeRepeat(Expand(front), g.letter, g.count);
      }
      assert front + [g] == gs;
    }
  }

  /** Dropping the last group of an encoding leaves an encoding whose last letter differs from the dropped one. */
  lemma EncodingFront(gs: seq<Group>)
    requires IsEncoding(gs) && gs != []
    ensures var front := gs[..|gs| - 1];
      && IsEncoding(front) && gs[|gs| - 1].count >= 1
      && (front == [] || front[|front| - 1].letter != gs[|gs| - 1].letter)
  {
    var front := gs[..|gs| - 1];
    assert forall j :: 0 <= j < |front| ==> front[j] == gs[j];
  }

  /** A run of k copies of a letter that differs from the last group of `u` adds one group of count k. */
  lemma {:induction false} EncodeRepeat(u: Word, x: char, k: nat)
    requires k >= 1
    requires Encode(u) == [] || Encode(u)[|Encode(u)| - 1].letter != x
    ensures Encode(u + Repeat(x, k)) == Encode(u) + [Group(x, k)]
  {
    if k == 1 {
      EncodeRepeatOne(u, x);
    } else {
      EncodeRepeat(u, x, k - 1);
      EncodeRepeatStep(u, x, k - 1);
    }
  }

  lemma EncodeRepeatOne(u: Word, x: char)
    requires Encode(u) == [] || Encode(u)[|Encode(u)| - 1].letter != x
    ensures Encode(u + Repeat(x, 1)) == Encode(u) + [Group(x, 1)]
  {
    assert u + Repeat(x, 1) == u + [x] by {
      assert Repeat(x, 1) == [x];
    }
    EncodeSnoc(u, x);
  }

  /** One more copy of x grows the run's group by one. */
  lemma EncodeRepeatStep(u: Word, x: char, k: nat)
    requires Encode(u + Repeat(x, k)) == Encode(u) + [Group(x, k)]
    ensures Encode(u + Repeat(x, k + 1)) == Encode(u) + [Group(x, k + 1)]
  {
    EncodeRepeatSnoc(u, x, k);
    ExtendGrows(Encode(u), Group(x, k));
  }

  /** `u` followed by k + 1 copies of x is `u` followed by k copies, then one more. */
  lemma EncodeRepeatSnoc(u: Word, x: char, k: nat)
    ensures Encode(u + Repeat(x, k + 1)) == Extend(Encode(u + Repeat(x, k)), x)
  {
    RepeatSnoc(x, k);
    assert u + Repeat(x, k + 1) == (u + Repeat(x, k)) + [x];
    EncodeSnoc(u + Repeat(x, k), x);
  }

  /** A group that gets one more of its own letter. */
  lemma ExtendGrows(front: seq<Group>, g: Group)
    ensures Extend(front + [g], g.letter) == front + [Group(g.letter, g.count + 1)]
  {
    assert (front + [g])[..|front|] == front;
  }

  /** The encoding after one more letter is `Extend` of the encoding before. */
  lemma EncodeSnoc(w: Word, x: char)
    ensures Encode(w + [x]) == Extend(Encode(w), x)
  {
    assert (w + [x])[..|w|] == w;
  }
}
