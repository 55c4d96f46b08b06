/**
 * Second canonicalisation pass over a whole word (`opt2`): the word is cut
 * into maximal blocks of letters on one axis (N, S vertical; W, E
 * horizontal), each block is shortened on its own, and the results are
 * joined in order. `Canon` is the full pipeline `opt2(opt1(w))` that
 * `addPrefix` applies before a word becomes a table key.
 */
module AxisBlocks {
  import opened Moves
  import opened RunCapping
  import opened RunLength
  import opened Cancellation

  /** `typeByLetter`; a letter without an entry looks up `undefined`, which equals itself. */
  datatype Axis = Vertical | Horizontal | Undefined

  function AxisOf(c: char): Axis
  {
    if c == 'N' || c == 'S' then Vertical
    else if c == 'W' || c == 'E' then Horizontal
    else Undefined
  }

  /** The blocks after one more letter: it joins the last block if on the same axis, else opens a new one. */
  function AddLetter(bs: seq<Word>, x: char): seq<Word>
  {
    if bs != [] && bs[|bs| - 1] != [] && AxisOf(bs[|bs| - 1][0]) == AxisOf(x) then
      bs[..|bs| - 1] + [bs[|bs| - 1] + [x]]
    else bs + [[x]]
  }

  /** The blocks `opt2` cuts a word into. */
  function Blocks(w: Word): seq<Word>
  {
    if w == [] then [] else AddLetter(Blocks(w[..|w| - 1]), w[|w| - 1])
  }

  /** Concatenation of a list of words. */
  function Concat(bs: seq<Word>): Word
  {
    if bs == [] then [] else Concat(bs[..|bs| - 1]) + bs[|bs| - 1]
  }

  /** The shortened blocks, joined in order. */
  function ShortenAll(bs: seq<Word>): Word
  {
    if bs == [] then [] else ShortenAll(bs[..|bs| - 1]) + Shorten(bs[|bs| - 1])
  }

  /** Specification of `opt2`. */
  function CancelBlocks(w: Word): Word
  {
    ShortenAll(Blocks(w))
  }

  /** The canonical form of a word: `opt2(opt1(w))`. */
  function Canon(w: Word, n: nat, m: nat): Word
  {
    CancelBlocks(CapRuns(w, n, m))
  }

  /** A non-empty block all of whose letters share the axis of its first. */
  predicate SingleAxis(b: Word)
  {
    b != [] && forall i :: 0 <= i < |b| ==> AxisOf(b[i]) == AxisOf(b[0])
  }

  /** The axis of a block: that of its first letter. */
  function BlockAxis(b: Word): Axis
  {
    if b == [] then Undefined else AxisOf(b[0])
  }

  /** A list of single-axis blocks in which neighbours differ in axis. */
  predicate WellSplit(bs: seq<Word>)
  {
    && (forall j :: 0 <= j < |bs| ==> SingleAxis(bs[j]))
    && (forall j :: 0 <= j < |bs| - 1 ==> BlockAxis(bs[j]) != BlockAxis(bs[j + 1]))
  }

  /** `opt2` (lstar.ts): build the blocks by pushing, then shorten each and join. */
  method Opt2(prefix: Word) returns (r: Word)
    ensures r == CancelBlocks(prefix)
  {
    if |prefix| == 0 {
      return [];
    }
    var blocks: seq<Word> := [[prefix[0]]];
    assert prefix[..1][..0] == [];
    for i := 1 to |prefix|
      invariant blocks == Blocks(prefix[..i])
      invariant blocks != [] && blocks[|blocks| - 1] != []
    {
      var currentLetter := prefix[i];
      var lastBlock := blocks[|blocks| - 1];
      BlocksStep(prefix, i);
      if AxisOf(lastBlock[0]) == AxisOf(currentLetter) {
        blocks := blocks[..|blocks| - 1] + [lastBlock + [currentLetter]];
      } else {
        blocks := blocks + [[currentLetter]];
      }
    }
    assert prefix[..|prefix|] == prefix;
    r := [];
    for j := 0 to |blocks|
      invariant r == ShortenAll(blocks[..j])
    {
      ShortenAllStep(blocks, j);
      var simplified := ShortenBlock(blocks[j]);
      r := r + simplified;
    }
    assert blocks[..|blocks|] == blocks;
  }

  lemma BlocksStep(w: Word, i: nat)
    requires i < |w|
    ensures Blocks(w[..i + 1]) == AddLetter(Blocks(w[..i]), w[i])
  {
    assert w[..i + 1][..i] == w[..i];
  }

  lemma ShortenAllStep(bs: seq<Word>, j: nat)
    requires j < |bs|
    ensures ShortenAll(bs[..j + 1]) == ShortenAll(bs[..j]) + Shorten(bs[j])
  {
    assert bs[..j + 1][..j] == bs[..j];
  }

  lemma AddLetterShape(bs: seq<Word>, x: char)
    requires WellSplit(bs)
    ensures WellSplit(AddLetter(bs, x))
    ensures AddLetter(bs, x) != []
    ensures Concat(AddLetter(bs, x)) == Concat(bs) + [x]
  {
    AddLetterConcat(bs, x);
    AddLetterSplit(bs, x);
  }

  /** One more letter goes at the end of the joined blocks. */
  lemma AddLetterConcat(bs: seq<Word>, x: char)
    ensures AddLetter(bs, x) != []
    ensures Concat(AddLetter(bs, x)) == Concat(bs) + [x]
  {
    var r := AddLetter(bs, x);
    assert r[..|r| - 1] == if r == bs + [[x]] then bs else bs[..|bs| - 1];
    if r != bs + [[x]] {
      var front := bs[..|bs| - 1];
      assert bs == front + [bs[|bs| - 1]];
      assert bs[..|bs| - 1] == front;
    }
  }

  /** One more letter keeps the blocks single-axis and neighbours apart. */
  lemma AddLetterSplit(bs: seq<Word>, x: char)
    requires WellSplit(bs)
    ensures WellSplit(AddLetter(bs, x))
  {
    var r := AddLetter(bs, x);
    if bs != [] && AxisOf(bs[|bs| - 1][0]) == AxisOf(x) {
      var lastBlock := bs[|bs| - 1];
      var last := lastBlock + [x];
      assert r[|r| - 1] == last;
      assert forall j :: 0 <= j < |bs| - 1 ==> r[j] == bs[j];
      assert SingleAxis(last) by {
        forall i | 0 <= i < |last| ensures AxisOf(last[i]) == AxisOf(last[0]) {
          if i < |lastBlock| {
            assert last[i] == lastBlock[i];
          }
        }
      }
    } else {
      assert forall j :: 0 <= j < |bs| ==> r[j] == bs[j];
    }
  }

  /**
   * The blocks partition the word: joined they give it back, each is a
   * non-empty run of one axis, and neighbouring blocks differ in axis (so
   * the blocks are maximal).
   */
  lemma {:induction false} BlocksPartition(w: Word)
    ensures Concat(Blocks(w)) == w
    ensures WellSplit(Blocks(w))
  {
    if w != [] {
      var w' := w[..|w| - 1];
      BlocksPartition(w');
      AddLetterShape(Blocks(w'), w[|w| - 1]);
      assert w' + [w[|w| - 1]] == w;
    }
  }

  /** A word on one axis is a single block. */
  lemma {:induction false} BlocksOfSingleAxis(w: Word)
    requires SingleAxis(w)
    ensures Blocks(w) == [w]
  {
    var w' := w[..|w| - 1];
    if |w| == 1 {
      assert w' == [];
      assert Blocks(w') == [];
      assert w == [w[0]];
    } else {
      assert SingleAxis(w') by {
        assert forall i :: 0 <= i < |w'| ==> w'[i] == w[i];
      }
      BlocksOfSingleAxis(w');
      assert w' + [w[|w| - 1]] == w;
    }
  }

  /** A single-axis block of a move word is over N/S or over W/E. */
  lemma AxisBlockIsPair(b: Word)
    requires SingleAxis(b) && IsMoveWord(b)
    ensures OverPair(b, 'N', 'S') || OverPair(b, 'W', 'E')
  {
    if AxisOf(b[0]) == Vertical {
      assert forall i :: 0 <= i < |b| ==> AxisOf(b[i]) == Vertical;
    } else {
      assert forall i :: 0 <= i < |b| ==> AxisOf(b[i]) == Horizontal;
    }
  }

  lemma OverPairIsMoveWord(w: Word, a: char, b: char)
    requires IsMove(a) && IsMove(b) && OverPair(w, a, b)
    ensures IsMoveWord(w)
  {
  }

  /** Shortening one single-axis block of a move word. */
  lemma ShortenMoveBlock(b: Word)
    requires SingleAxis(b) && IsMoveWord(b)
    ensures var s := Shorten(b);
      && IsMoveWord(s)
      && NetNorth(s) == NetNorth(b)
      && NetEast(s) == NetEast(b)
      && |s| <= |b|
      && Even(|b| - |s|)
      && s != []
  {
    AxisBlockIsPair(b);
    ShortenBlockPreserves(b);
    EvenRemainder(|b| - |Shorten(b)|);
    if OverPair(b, 'N', 'S') {
      OverPairIsMoveWord(Shorten(b), 'N', 'S');
    } else {
      OverPairIsMoveWord(Shorten(b), 'W', 'E');
    }
  }

  /** Shortening a list of move blocks, block by block: the letters stay moves and none is lost entirely. */
  lemma {:induction false} ShortenAllMoveWord(bs: seq<Word>)
    requires forall j :: 0 <= j < |bs| ==> SingleAxis(bs[j]) && IsMoveWord(bs[j])
    ensures IsMoveWord(ShortenAll(bs))
    ensures bs != [] ==> ShortenAll(bs) != []
  {
    if bs != [] {
      var front := bs[..|bs| - 1];
      var b := bs[|bs| - 1];
      assert forall j :: 0 <= j < |front| ==> front[j] == bs[j];
      ShortenAllMoveWord(front);
      ShortenMoveBlock(b);
      MoveWordAppend(ShortenAll(front), Shorten(b));
    }
  }

  /** Shortening a list of move blocks keeps the displacement. */
  lemma {:induction false} ShortenAllNet(bs: seq<Word>)
    requires forall j :: 0 <= j < |bs| ==> SingleAxis(bs[j]) && IsMoveWord(bs[j])
    ensures NetNorth(ShortenAll(bs)) == NetNorth(Concat(bs))
    ensures NetEast(ShortenAll(bs)) == NetEast(Concat(bs))
  {
    if bs != [] {
      var front := bs[..|bs| - 1];
      var b := bs[|bs| - 1];
      assert forall j :: 0 <= j < |front| ==> front[j] == bs[j];
      ShortenAllNet(front);
      ShortenMoveBlock(b);
      NetAppend(ShortenAll(front), Shorten(b));
      NetAppend(Concat(front), b);
    }
  }

  /** Shortening one block removes `k` pairs of letters. */
  lemma ShortenBlockLength(b: Word) returns (k: nat)
    requires SingleAxis(b) && IsMoveWord(b)
    ensures |b| == |Shorten(b)| + 2 * k
  {
    ShortenMoveBlock(b);
    EvenRemainder(|b| - |Shorten(b)|);
    k := (|b| - |Shorten(b)|) / 2;
  }

  /** Shortening a list of move blocks removes letters, and in pairs. */
  lemma {:induction false} ShortenAllLength(bs: seq<Word>) returns (k: nat)
    requires forall j :: 0 <= j < |bs| ==> SingleAxis(bs[j]) && IsMoveWord(bs[j])
    ensures |Concat(bs)| == |ShortenAll(bs)| + 2 * k
  {
    k := 0;
    if bs != [] {
      var front := bs[..|bs| - 1];
      assert forall j :: 0 <= j < |front| ==> front[j] == bs[j];
      var k1 := ShortenAllLength(front);
      var k2 := ShortenBlockLength(bs[|bs| - 1]);
      k := k1 + k2;
    }
  }

  /**
   * `opt2` on a move word: the result is a move word, keeps the net
   * displacement N - S and E - W, is no longer and differs in length by an
   * even number, and is empty only for the empty word.
   */
  lemma CancelBlocksPreserves(w: Word)
    requires IsMoveWord(w)
    ensures var out := CancelBlocks(w);
      && IsMoveWord(out)
      && NetNorth(out) == NetNorth(w)
      && NetEast(out) == NetEast(w)
      && |out| <= |w|
      && Even(|w| - |out|)
      && (out == [] <==> w == [])
  {
    var bs := Blocks(w);
    MoveWordBlocks(w);
    ShortenAllMoveWord(bs);
    ShortenAllNet(bs);
    var k := ShortenAllLength(bs);
    EvenDouble(k);
    assert |w| - |CancelBlocks(w)| == 2 * k;
  }

  lemma MoveWordBlocks(w: Word)
    requires IsMoveWord(w)
    ensures Concat(Blocks(w)) == w
    ensures w != [] ==> Blocks(w) != []
    ensures forall j :: 0 <= j < |Blocks(w)| ==> SingleAxis(Blocks(w)[j]) && IsMoveWord(Blocks(w)[j])
  {
    var bs := Blocks(w);
    BlocksPartition(w);
    forall j | 0 <= j < |bs| ensures SingleAxis(bs[j]) && IsMoveWord(bs[j]) {
      BlockOfMoveWord(bs, j);
    }
  }

  /** Each block of a word is a piece of it, so a move word has move-word blocks. */
  lemma {:induction false} BlockOfMoveWord(bs: seq<Word>, j: nat)
    requires j < |bs| && IsMoveWord(Concat(bs))
    ensures IsMoveWord(bs[j])
  {
    var front := bs[..|bs| - 1];
    MoveWordAppend(Concat(front), bs[|bs| - 1]);
    if j < |bs| - 1 {
      BlockOfMoveWord(front, j);
    }
  }

  /**
   * The canonical form of a move word is a move word that is no longer,
   * and it is empty exactly when the word is.
   */
  lemma CanonOfMoveWord(w: Word, n: nat, m: nat)
    requires IsMoveWord(w)
    ensures var c := Canon(w, n, m);
      && IsMoveWord(c)
      && |c| <= |w|
      && (c == [] <==> w == [])
  {
    var r := CapRuns(w, n, m);
    CapRunsIsSubsequence(w, n, m);
    SubsequenceLetters(r, w);
    assert IsMoveWord(r) by {
      forall i | 0 <= i < |r| ensures IsMove(r[i]) {
        assert r[i] in w;
      }
    }
    if w != [] {
      assert NoLetter !in w;
      CapRunsTrailing(w, n, m);
    }
    CancelBlocksPreserves(r);
  }

  /** A one-letter block survives either pass of the cancellation rule. */
  lemma SimplifySingle(c: char, a: char, b: char)
    ensures Simplify([c], a, b) == [c]
  {
    var e := [Group(c, 1)];
    assert Encode([c]) == e by {
      assert [c][..0] == [];
    }
    var gs := e + [Group(a, 0)];
    assert Swept(gs, b, ScanEnd(gs)) == gs;
    assert Expand(e) == [c] by {
      assert e[..0] == [];
      assert Repeat(c, 1) == [c];
    }
    assert Expand(gs) == Expand(e) + Repeat(a, 0) by {
      assert gs[..1] == e;
    }
  }

  /** A single move is its own canonical form. */
  lemma CanonOfMove(c: char, n: nat, m: nat)
    requires IsMove(c)
    ensures Canon([c], n, m) == [c]
  {
    assert CapRuns([c], n, m) == [c] by {
      assert [c][..0] == [];
      assert KeepsLast([c], n, m);
    }
    assert Blocks([c]) == [[c]] by {
      assert [c][..0] == [];
    }
    assert ShortenAll([[c]]) == Shorten([c]) by {
      var noBlocks: seq<Word> := [];
      assert [[c]][..0] == noBlocks;
    }
    assert Shorten([c]) == [c] by {
      if c == 'N' || c == 'S' {
        SimplifySingle(c, 'N', 'S');
        SimplifySingle(c, 'S', 'N');
      } else {
        SimplifySingle(c, 'W', 'E');
        SimplifySingle(c, 'E', 'W');
      }
    }
  }

  /** "NNNSS" has no run that the first pass cuts. */
  lemma CapRunsNNNSS(n: nat, m: nat)
    ensures CapRuns("NNNSS", n, m) == "NNNSS"
  {
    var w := "NNNSS";
    assert w[..4] == "NNNS" && w[..3] == "NNN" && w[..2] == "NN" && w[..1] == "N" && w[..0] == [];
    assert "NNNS"[..3] == "NNN" && "NNN"[..2] == "NN" && "NN"[..1] == "N" && "N"[..0] == [];
    assert TrailingRun("N") == 1;
    assert TrailingRun("NN") == 2;
    assert TrailingRun("NNN") == 3;
    assert TrailingRun("NNNS") == 1;
    assert TrailingRun(w) == 2;
    assert CapRuns("N", n, m) == "N";
    assert CapRuns("NN", n, m) == "NN";
    assert CapRuns("NNN", n, m) == "NNN";
    assert CapRuns("NNNS", n, m) == "NNNS";
  }

  /** Neither pass of the cancellation rule changes "NNNSS". */
  lemma SimplifyNNNSS()
    ensures Simplify("NNNSS", 'N', 'S') == "NNNSS"
    ensures Simplify("NNNSS", 'S', 'N') == "NNNSS"
  {
    var w := "NNNSS";
    var e := [Group('N', 3), Group('S', 2)];
    assert Expand(e) == w by {
      assert e[..1] == [Group('N', 3)];
      assert [Group('N', 3)][..0] == [];
      assert Repeat('N', 3) == "NNN" && Repeat('S', 2) == "SS";
    }
    ExpandEncodesBack(e);
    var g1 := e + [Group('N', 0)];
    assert Framed(w, 'N') == g1;
    assert !Cancels(g1, 1, 'S');
    assert Swept(g1, 'S', ScanEnd(g1)) == g1;
    ExpandAppend(e, [Group('N', 0)]);
    assert [Group('N', 0)][..0] == [];
    var g2 := e + [Group('S', 0)];
    assert Framed(w, 'S') == g2;
    assert !Cancels(g2, 1, 'N');
    assert Swept(g2, 'N', ScanEnd(g2)) == g2;
    ExpandAppend(e, [Group('S', 0)]);
    assert [Group('S', 0)][..0] == [];
  }

  /**
   * "NNNSS" is its own canonical form, whatever the grid: the trailing S
   * group faces the zero-count sentinel (z = 0 < y = 2), and the (S, N)
   * pass finds no N group between two S groups.
   */
  lemma CanonKeepsNNNSS(n: nat, m: nat)
    ensures Canon("NNNSS", n, m) == "NNNSS"
  {
    var w := "NNNSS";
    CapRunsNNNSS(n, m);
    BlocksOfSingleAxis(w);
    var noBlocks: seq<Word> := [];
    assert [w][..0] == noBlocks;
    SimplifyNNNSS();
    assert ShortenAll([w]) == Shorten(w);
  }
}
