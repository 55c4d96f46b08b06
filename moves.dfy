/**
 * Move words: strings over the grid moves N, S, W, E, and the small
 * counting vocabulary (occurrences, trailing runs, run letters,
 * subsequences) in which the canonicalisation passes are specified.
 */
module Moves {

  /** A prefix, suffix or query word; the learner works on plain strings. */
  type Word = seq<char>

  predicate IsMove(c: char) {
    c == 'N' || c == 'S' || c == 'W' || c == 'E'
  }

  predicate IsMoveWord(w: Word) {
    forall i :: 0 <= i < |w| ==> IsMove(w[i])
  }

  /** Number of occurrences of `c` in `w`. */
  function Count(w: Word, c: char): nat
  {
    if w == [] then 0 else Count(w[..|w| - 1], c) + (if w[|w| - 1] == c then 1 else 0)
  }

  lemma {:induction false} CountAppend(u: Word, v: Word, c: char)
    ensures Count(u + v, c) == Count(u, c) + Count(v, c)
  {
    if v == [] {
      assert u + v == u;
    } else {
      assert (u + v)[..|u + v| - 1] == u + v[..|v| - 1];
      CountAppend(u, v[..|v| - 1], c);
    }
  }

  lemma {:induction false} CountPositive(w: Word, c: char)
    ensures Count(w, c) > 0 <==> c in w
  {
    if w != [] {
      CountPositive(w[..|w| - 1], c);
      assert w == w[..|w| - 1] + [w[|w| - 1]];
    }
  }

  /** Parity by counting down in twos; kept free of `%` so that it unfolds only on demand. */
  predicate Even(k: nat)
  {
    if k < 2 then k == 0 else Even(k - 2)
  }

  lemma {:induction false} EvenDouble(k: nat)
    ensures Even(2 * k)
  {
    if k > 0 {
      EvenDouble(k - 1);
    }
  }

  lemma {:induction false} EvenRemainder(k: nat)
    ensures Even(k) <==> k % 2 == 0
  {
    if k >= 2 {
      EvenRemainder(k - 2);
    }
  }

  /** Net displacement along the vertical axis: moves north minus moves south. */
  function NetNorth(w: Word): int { Count(w, 'N') - Count(w, 'S') }

  /** Net displacement along the horizontal axis: moves east minus moves west. */
  function NetEast(w: Word): int { Count(w, 'E') - Count(w, 'W') }

  lemma NetAppend(u: Word, v: Word)
    ensures NetNorth(u + v) == NetNorth(u) + NetNorth(v)
    ensures NetEast(u + v) == NetEast(u) + NetEast(v)
  {
    CountAppend(u, v, 'N');
    CountAppend(u, v, 'S');
    CountAppend(u, v, 'E');
    CountAppend(u, v, 'W');
  }

  lemma MoveWordAppend(u: Word, v: Word)
    ensures IsMoveWord(u + v) <==> IsMoveWord(u) && IsMoveWord(v)
  {
    assert forall i :: 0 <= i < |u| ==> (u + v)[i] == u[i];
    assert forall i :: 0 <= i < |v| ==> (u + v)[|u| + i] == v[i];
    if IsMoveWord(u) && IsMoveWord(v) {
      forall i | 0 <= i < |u + v| ensures IsMove((u + v)[i]) {
        if i >= |u| {
          assert (u + v)[i] == v[i - |u|];
        }
      }
    }
  }

  /** `c` repeated `k` times. */
  function Repeat(c: char, k: nat): (r: Word)
    ensures |r| == k
    ensures forall i :: 0 <= i < k ==> r[i] == c
  {
    if k == 0 then [] else Repeat(c, k - 1) + [c]
  }

  /** One more copy goes at the end. */
  lemma RepeatSnoc(c: char, k: nat)
    ensures Repeat(c, k + 1) == Repeat(c, k) + [c]
    ensures Repeat(c, k + 1)[..k] == Repeat(c, k)
  {
    assert (Repeat(c, k) + [c])[..k] == Repeat(c, k);
  }

  /** A run of k copies of one letter ends in a run of length k. */
  lemma {:induction false} RepeatTrailingRun(c: char, k: nat)
    requires k >= 1
    ensures TrailingRun(Repeat(c, k)) == k
  {
    if k > 1 {
      assert Repeat(c, k)[..k - 1] == Repeat(c, k - 1);
      RepeatTrailingRun(c, k - 1);
    }
  }

  /** A letter missing from a word is missing from its front and is not its first or last letter. */
  lemma FrontLacks(w: Word, c: char)
    requires w != [] && c !in w
    ensures c !in w[..|w| - 1] && w[0] != c && w[|w| - 1] != c
  {
    assert forall x :: x in w[..|w| - 1] ==> x in w;
    assert w[0] in w;
  }

  /** Length of the maximal run of equal letters that ends `w`. */
  function TrailingRun(w: Word): (r: nat)
    requires w != []
    ensures 1 <= r <= |w|
  {
    if |w| == 1 || w[|w| - 1] != w[|w| - 2] then 1 else TrailingRun(w[..|w| - 1]) + 1
  }

  /** The letters of the runs of `w`, in order: every maximal run collapsed to one letter. */
  function Collapse(w: Word): Word
  {
    if |w| <= 1 then w
    else Collapse(w[..|w| - 1]) + (if w[|w| - 1] == w[|w| - 2] then [] else [w[|w| - 1]])
  }

  /** Collapsing after one more letter adds that letter exactly when it opens a new run. */
  lemma CollapseSnoc(r: Word, x: char)
    requires r != []
    ensures Collapse(r + [x]) == Collapse(r) + (if r[|r| - 1] == x then [] else [x])
  {
    assert (r + [x])[..|r|] == r;
  }

  /** `idx` lists, strictly increasing, positions of `w` that spell `r`. */
  ghost predicate Embeds(idx: seq<nat>, r: Word, w: Word)
  {
    && |idx| == |r|
    && (forall j :: 0 <= j < |idx| ==> idx[j] < |w| && r[j] == w[idx[j]])
    && (forall j, k :: 0 <= j < k < |idx| ==> idx[j] < idx[k])
  }

  ghost predicate IsSubsequence(r: Word, w: Word)
  {
    exists idx :: Embeds(idx, r, w)
  }

  lemma {:induction false} SubsequenceLetters(r: Word, w: Word)
    requires IsSubsequence(r, w)
    ensures |r| <= |w|
    ensures forall c :: c in r ==> c in w
  {
    var idx :| Embeds(idx, r, w);
    forall c | c in r ensures c in w {
      var j :| 0 <= j < |r| && r[j] == c;
      assert w[idx[j]] == c;
    }
    IncreasingBound(idx, |w|);
  }

  /** A strictly increasing list of positions below `bound` has at most `bound` entries. */
  lemma {:induction false} IncreasingBound(idx: seq<nat>, bound: nat)
    requires forall j :: 0 <= j < |idx| ==> idx[j] < bound
    requires forall j, k :: 0 <= j < k < |idx| ==> idx[j] < idx[k]
    ensures |idx| <= bound
  {
    if idx != [] {
      var front := idx[..|idx| - 1];
      assert forall j :: 0 <= j < |front| ==> front[j] < idx[|idx| - 1];
      IncreasingBound(front, idx[|idx| - 1]);
    }
  }
}
