/**
 * First canonicalisation pass (`opt1`): scanning left to right, every letter
 * that starts a new run is kept; a repeated N or W is always kept, a repeated
 * S only while its run is at most 2n+2 long and a repeated E only while its
 * run is at most 2m+2 long (n, m: grid height and width); any other repeated
 * letter is dropped.
 */
module RunCapping {
  import opened Moves

  /** The letter the scan believes it has just seen before reading anything. */
  const NoLetter: char := '#'

  function Min(x: nat, y: nat): nat { if x <= y then x else y }

  /** Whether the `run`-th consecutive copy of `c` (run >= 2) is kept. */
  predicate KeepsRepeat(c: char, run: nat, n: nat, m: nat)
  {
    c == 'N' || (c == 'S' && run <= n * 2 + 2) || c == 'W' || (c == 'E' && run <= m * 2 + 2)
  }

  /**
   * Whether the scan keeps the last letter of `w`. A letter opens a new run
   * unless it equals the previous one; the very first letter is compared
   * with NoLetter instead, so a leading '#' continues a phantom run.
   */
  predicate KeepsLast(w: Word, n: nat, m: nat)
    requires w != []
  {
    if TrailingRun(w) == 1 then |w| > 1 || w[0] != NoLetter
    else KeepsRepeat(w[|w| - 1], TrailingRun(w), n, m)
  }

  /** Specification of `opt1`: the letters the scan keeps, in order. */
  function CapRuns(w: Word, n: nat, m: nat): Word
  {
    if w == [] then []
    else CapRuns(w[..|w| - 1], n, m) + (if KeepsLast(w, n, m) then [w[|w| - 1]] else [])
  }

  /** The positions of `w` that the scan keeps. */
  function KeptPositions(w: Word, n: nat, m: nat): seq<nat>
  {
    if w == [] then []
    else KeptPositions(w[..|w| - 1], n, m) + (if KeepsLast(w, n, m) then [|w| - 1] else [])
  }

  /** Longest run of `c` that survives out of a run of `run` copies. */
  function KeptRun(c: char, run: nat, n: nat, m: nat): nat
  {
    if c == 'N' || c == 'W' then run
    else if c == 'S' then Min(run, n * 2 + 2)
    else if c == 'E' then Min(run, m * 2 + 2)
    else Min(run, 1)
  }

  /** A run of length `run` ending in `c` is within the caps. */
  predicate WithinCap(c: char, run: nat, n: nat, m: nat)
  {
    run == 1 || KeepsRepeat(c, run, n, m)
  }

  /** Every run of `w`, at every point, is within the caps. */
  predicate RunsCapped(w: Word, n: nat, m: nat)
  {
    w == [] || (RunsCapped(w[..|w| - 1], n, m) && WithinCap(w[|w| - 1], TrailingRun(w), n, m))
  }

  /** `opt1` (lstar.ts): the scan with its run counter `serie` and last letter. */
  method Opt1(prefix: Word, n: nat, m: nat) returns (r: Word)
    ensures r == CapRuns(prefix, n, m)
  {
    var serie: nat := 0;
    var letter := NoLetter;
    r := [];
    for i := 0 to |prefix|
      invariant r == CapRuns(prefix[..i], n, m)
      invariant letter == if i == 0 then NoLetter else prefix[i - 1]
      invariant serie == if i == 0 then 0 else TrailingRun(prefix[..i])
    {
      var currentLetter := prefix[i];
      assert prefix[..i + 1][..i] == prefix[..i];
      if currentLetter != letter {
        serie := 1;
        letter := currentLetter;
        r := r + [currentLetter];
      } else {
        serie := serie + 1;
        if letter == 'N' || (letter == 'S' && serie <= n * 2 + 2) {
          r := r + [currentLetter];
        }
        if letter == 'W' || (letter == 'E' && serie <= m * 2 + 2) {
          r := r + [currentLetter];
        }
      }
    }
    assert prefix[..|prefix|] == prefix;
  }

  /** `opt1` keeps a subsequence of its input: the letters at KeptPositions, in order. */
  lemma {:induction false} CapRunsIsSubsequence(w: Word, n: nat, m: nat)
    ensures Embeds(KeptPositions(w, n, m), CapRuns(w, n, m), w)
    ensures IsSubsequence(CapRuns(w, n, m), w)
  {
    if w != [] {
      var w' := w[..|w| - 1];
      CapRunsIsSubsequence(w', n, m);
      var p', r' := KeptPositions(w', n, m), CapRuns(w', n, m);
      assert forall j :: 0 <= j < |p'| ==> p'[j] < |w'| && w[p'[j]] == w'[p'[j]];
    }
  }

  /** Every N and every W of the input survives. */
  lemma {:induction false} CapRunsKeepsNorthWest(w: Word, n: nat, m: nat)
    ensures Count(CapRuns(w, n, m), 'N') == Count(w, 'N')
    ensures Count(CapRuns(w, n, m), 'W') == Count(w, 'W')
  {
    if w != [] {
      var w' := w[..|w| - 1];
      CapRunsKeepsNorthWest(w', n, m);
      CountAppend(CapRuns(w', n, m), if KeepsLast(w, n, m) then [w[|w| - 1]] else [], 'N');
      CountAppend(CapRuns(w', n, m), if KeepsLast(w, n, m) then [w[|w| - 1]] else [], 'W');
    }
  }

  /** The output ends in the input's last letter, with that run cut to KeptRun. */
  lemma {:induction false} CapRunsTrailing(w: Word, n: nat, m: nat)
    requires w != [] && NoLetter !in w
    ensures CapRuns(w, n, m) != []
    ensures CapRuns(w, n, m)[|CapRuns(w, n, m)| - 1] == w[|w| - 1]
    ensures TrailingRun(CapRuns(w, n, m)) == KeptRun(w[|w| - 1], TrailingRun(w), n, m)
  {
    var w' := w[..|w| - 1];
    var x := w[|w| - 1];
    var r' := CapRuns(w', n, m);
    FrontLacks(w, NoLetter);
    KeptRunStep(x, TrailingRun(w), n, m);
    if w' == [] {
      assert CapRuns(w, n, m) == [x];
    } else {
      assert w == w' + [x];
      CapRunsTrailing(w', n, m);
      SnocTrailingRun(w', x);
      if KeepsLast(w, n, m) {
        assert CapRuns(w, n, m) == r' + [x];
        SnocTrailingRun(r', x);
        if w'[|w'| - 1] == x {
          assert KeepsRepeat(x, TrailingRun(w), n, m);
          assert TrailingRun(r' + [x]) == KeptRun(x, TrailingRun(w'), n, m) + 1;
        } else {
          assert TrailingRun(w) == 1 && TrailingRun(r' + [x]) == 1;
        }
      } else {
        assert CapRuns(w, n, m) == r';
      }
    }
  }

  /** The run at the end after one more letter. */
  lemma SnocTrailingRun(r: Word, x: char)
    requires r != []
    ensures (r + [x])[..|r|] == r && (r + [x])[|r|] == x
    ensures TrailingRun(r + [x]) == if r[|r| - 1] == x then TrailingRun(r) + 1 else 1
  {
    assert (r + [x])[..|r|] == r;
  }


  /** No run of the output exceeds its cap; in particular S-runs are at most 2n+2 and E-runs at most 2m+2. */
  lemma {:induction false} CapRunsCapped(w: Word, n: nat, m: nat)
    requires NoLetter !in w
    ensures RunsCapped(CapRuns(w, n, m), n, m)
  {
    if w != [] {
      var w' := w[..|w| - 1];
      FrontLacks(w, NoLetter);
      CapRunsCapped(w', n, m);
      if KeepsLast(w, n, m) {
        CapRunsTrailing(w, n, m);
        var r := CapRuns(w, n, m);
        assert r == CapRuns(w', n, m) + [w[|w| - 1]];
        assert r[..|r| - 1] == CapRuns(w', n, m);
        assert WithinCap(r[|r| - 1], TrailingRun(r), n, m);
      } else {
        assert CapRuns(w, n, m) == CapRuns(w', n, m);
      }
    }
  }

  /** RunsCapped read position by position. */
  lemma {:induction false} RunsCappedAt(r: Word, n: nat, m: nat)
    requires RunsCapped(r, n, m)
    ensures forall k :: 0 < k <= |r| ==> WithinCap(r[k - 1], TrailingRun(r[..k]), n, m)
  {
    if r != [] {
      var r' := r[..|r| - 1];
      RunsCappedAt(r', n, m);
      forall k | 0 < k <= |r| ensures WithinCap(r[k - 1], TrailingRun(r[..k]), n, m) {
        if k == |r| {
          assert r[..k] == r;
        } else {
          assert r[..k] == r'[..k];
        }
      }
    }
  }

  /** The run caps stated on the output of `opt1` letter by letter. */
  lemma CapRunsBounds(w: Word, n: nat, m: nat)
    requires NoLetter !in w
    ensures var r := CapRuns(w, n, m);
      forall k :: 0 < k <= |r| ==>
        (r[k - 1] == 'S' ==> TrailingRun(r[..k]) <= n * 2 + 2) &&
        (r[k - 1] == 'E' ==> TrailingRun(r[..k]) <= m * 2 + 2) &&
        (r[k - 1] !in "NSWE" ==> TrailingRun(r[..k]) == 1)
  {
    CapRunsCapped(w, n, m);
    RunsCappedAt(CapRuns(w, n, m), n, m);
  }

  /** A word whose runs are already within the caps is left unchanged. */
  lemma {:induction false} CappedIsFixed(r: Word, n: nat, m: nat)
    requires NoLetter !in r && RunsCapped(r, n, m)
    ensures CapRuns(r, n, m) == r
  {
    if r != [] {
      var r' := r[..|r| - 1];
      FrontLacks(r, NoLetter);
      CappedIsFixed(r', n, m);
      assert KeepsLast(r, n, m);
    }
  }

  /** `opt1` is idempotent. */
  lemma CapRunsIdempotent(w: Word, n: nat, m: nat)
    requires NoLetter !in w
    ensures CapRuns(CapRuns(w, n, m), n, m) == CapRuns(w, n, m)
  {
    CapRunsIsSubsequence(w, n, m);
    SubsequenceLetters(CapRuns(w, n, m), w);
    CapRunsCapped(w, n, m);
    CappedIsFixed(CapRuns(w, n, m), n, m);
  }

  /** Every run keeps at least its first letter and no two runs merge: the run letters are unchanged. */
  lemma {:induction false} CapRunsKeepsRuns(w: Word, n: nat, m: nat)
    requires NoLetter !in w
    ensures Collapse(CapRuns(w, n, m)) == Collapse(w)
  {
    if w != [] {
      var w' := w[..|w| - 1];
      var x := w[|w| - 1];
      var r' := CapRuns(w', n, m);
      FrontLacks(w, NoLetter);
      assert Collapse(r') == Collapse(w') by {
        CapRunsKeepsRuns(w', n, m);
      }
      if w' == [] {
        assert KeepsLast(w, n, m);
        assert CapRuns(w, n, m) == [x];
      } else {
        assert r' != [] && r'[|r'| - 1] == w'[|w'| - 1] by {
          CapRunsTrailing(w', n, m);
        }
        assert Collapse(w) == Collapse(w') + (if w'[|w'| - 1] == x then [] else [x]) by {
          assert w == w' + [x];
          CollapseSnoc(w', x);
        }
        if KeepsLast(w, n, m) {
          assert CapRuns(w, n, m) == r' + [x];
          CollapseSnoc(r', x);
        } else {
          assert CapRuns(w, n, m) == r';
          assert w[|w| - 2] == w'[|w'| - 1];
        }
      }
    }
  }

  /** A single run of k copies of c comes out as a run of KeptRun(c, k) copies. */
  lemma {:induction false} CapRunsOfRun(c: char, k: nat, n: nat, m: nat)
    requires c != NoLetter
    ensures CapRuns(Repeat(c, k), n, m) == Repeat(c, KeptRun(c, k, n, m))
  {
    if k > 0 {
      var w := Repeat(c, k);
      assert w[..k - 1] == Repeat(c, k - 1) && w[k - 1] == c by {
        RepeatSnoc(c, k - 1);
      }
      CapRunsOfRun(c, k - 1, n, m);
      RunKeepsLast(c, k, n, m);
      if KeepsLast(w, n, m) {
        RepeatSnoc(c, KeptRun(c, k - 1, n, m));
      }
    }
  }

  /** The scan keeps the k-th letter of a run of k copies of c exactly when the kept run grows. */
  lemma RunKeepsLast(c: char, k: nat, n: nat, m: nat)
    requires c != NoLetter && k >= 1
    ensures KeepsLast(Repeat(c, k), n, m) ==> KeptRun(c, k, n, m) == KeptRun(c, k - 1, n, m) + 1
    ensures !KeepsLast(Repeat(c, k), n, m) ==> KeptRun(c, k, n, m) == KeptRun(c, k - 1, n, m)
  {
    var w := Repeat(c, k);
    RepeatTrailingRun(c, k);
    assert w[0] == c && w[k - 1] == c;
    assert KeepsLast(w, n, m) <==> k == 1 || KeepsRepeat(c, k, n, m);
    KeptRunStep(c, k, n, m);
  }

  /** The kept run grows by one exactly when the next copy is kept. */
  lemma KeptRunStep(c: char, k: nat, n: nat, m: nat)
    requires k >= 1
    ensures KeptRun(c, k, n, m) == KeptRun(c, k - 1, n, m) + (if k == 1 || KeepsRepeat(c, k, n, m) then 1 else 0)
  {
  }



  /** Six S on a grid of height 1 keep 2*1+2 = 4 of them. */
  lemma CapRunsSixSouth(m: nat)
    ensures CapRuns("SSSSSS", 1, m) == "SSSS"
  {
    CapRunsOfRun('S', 6, 1, m);
    assert Repeat('S', 6) == "SSSSSS";
    assert Repeat('S', 4) == "SSSS";
  }
}
