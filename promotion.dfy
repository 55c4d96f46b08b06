/**
 * `buildMainPrefixes`: one pass over the complementary entries, in their
 * insertion order, moving to the main table every entry whose row differs
 * from all main rows — main as already extended by the earlier moves of
 * the same pass.
 */
module Promotion {
  import opened Moves
  import opened ObservationTable

  /** One entry of the pass: the key moves to main when its row is new there. */
  function Step(t: Table, k: Word): Table
  {
    if k in t.boundary.rows && t.boundary.rows[k] !in t.main.rows.Values then
      t.(main := Put(t.main, k, t.boundary.rows[k]), boundary := Delete(t.boundary, k))
    else t
  }

  /** The pass over the entries `ks`, first to last. */
  function PromoteFrom(t: Table, ks: seq<Word>): Table
    decreases |ks|
  {
    if ks == [] then t else PromoteFrom(Step(t, ks[0]), ks[1..])
  }

  /** The pass from entry e on is entry e's step, then the pass from e + 1 on. */
  lemma PromoteFromStep(t: Table, ks: seq<Word>, e: nat)
    requires e < |ks|
    ensures PromoteFrom(t, ks[e..]) == PromoteFrom(Step(t, ks[e]), ks[e + 1..])
  {
    assert ks[e..][1..] == ks[e + 1..];
  }

  /** Specification of `buildMainPrefixes`: the pass over the complementary keys as they stood at its start. */
  function Promote(t: Table): Table
  {
    PromoteFrom(t, t.boundary.keys)
  }

  /** What one entry of the pass changes and what it keeps. */
  lemma StepKeeps(t: Table, o: Oracle, k: Word)
    requires Inv(t) && Answers(t, o)
    ensures var t' := Step(t, k);
      && Inv(t') && Answers(t', o)
      && t'.suffixes == t.suffixes
      && t.main.keys <= t'.main.keys
      && (forall q :: q in t.main.rows ==> q in t'.main.rows && t'.main.rows[q] == t.main.rows[q])
      && (forall q :: q in t'.main.rows || q in t'.boundary.rows <==> q in t.main.rows || q in t.boundary.rows)
      && (forall v :: v in t.main.rows.Values ==> v in t'.main.rows.Values)
  {
    if k in t.boundary.rows && t.boundary.rows[k] !in t.main.rows.Values {
      var row := t.boundary.rows[k];
      var t' := Step(t, k);
      assert k !in t.main.rows;
      PutDeleteWF(t.main, t.boundary, k, row);
      ValuesGrow(t.main.rows, k, row);
      WithoutSpec(t.boundary.keys, k);
      assert t'.main.keys == t.main.keys + [k];
      assert t'.main.keys[0] == [];
      assert DistinctRows(t'.main) by {
        forall q, q' | q in t'.main.rows && q' in t'.main.rows && q != q'
          ensures t'.main.rows[q] != t'.main.rows[q']
        {
          if q == k {
            assert t.main.rows[q'] in t.main.rows.Values;
          } else if q' == k {
            assert t.main.rows[q] in t.main.rows.Values;
          }
        }
      }
    }
  }

  /** The whole pass keeps the same things. */
  lemma {:induction false} PromoteFromKeeps(t: Table, o: Oracle, ks: seq<Word>)
    requires Inv(t) && Answers(t, o)
    ensures var t' := PromoteFrom(t, ks);
      && Inv(t') && Answers(t', o)
      && t'.suffixes == t.suffixes
      && t.main.keys <= t'.main.keys
      && (forall q :: q in t.main.rows ==> q in t'.main.rows && t'.main.rows[q] == t.main.rows[q])
      && (forall q :: q in t'.main.rows || q in t'.boundary.rows <==> q in t.main.rows || q in t.boundary.rows)
      && (forall v :: v in t.main.rows.Values ==> v in t'.main.rows.Values)
    decreases |ks|
  {
    if ks != [] {
      StepKeeps(t, o, ks[0]);
      PromoteFromKeeps(Step(t, ks[0]), o, ks[1..]);
    }
  }

  /**
   * The pass closes the table: an entry it visits either moves or already
   * finds its row in main, and main rows are never taken away.
   */
  lemma {:induction false} PromoteFromCloses(t: Table, o: Oracle, ks: seq<Word>)
    requires Inv(t) && Answers(t, o)
    requires forall q :: q in t.boundary.rows && q !in ks ==> t.boundary.rows[q] in t.main.rows.Values
    ensures Closed(PromoteFrom(t, ks))
    decreases |ks|
  {
    if ks != [] {
      var t' := Step(t, ks[0]);
      StepKeeps(t, o, ks[0]);
      forall q | q in t'.boundary.rows && q !in ks[1..]
        ensures t'.boundary.rows[q] in t'.main.rows.Values
      {
        assert q in t.boundary.rows && t'.boundary.rows[q] == t.boundary.rows[q] by {
          WithoutSpec(t.boundary.keys, ks[0]);
        }
        assert q != ks[0] ==> q !in ks;
      }
      PromoteFromCloses(t', o, ks[1..]);
    }
  }

  /**
   * `buildMainPrefixes` keeps the invariant and the answers, only adds main
   * keys (at the end, never changing a main row), moves keys rather than
   * copying them, and leaves the table closed: every complementary row
   * equals some main row.
   */
  lemma PromoteSpec(t: Table, o: Oracle)
    requires Inv(t) && Answers(t, o)
    ensures var t' := Promote(t);
      && Inv(t') && Answers(t', o) && Closed(t')
      && t'.suffixes == t.suffixes
      && t.main.keys <= t'.main.keys
      && (forall q :: q in t.main.rows ==> q in t'.main.rows && t'.main.rows[q] == t.main.rows[q])
      && (forall q :: q in t'.main.rows || q in t'.boundary.rows <==> q in t.main.rows || q in t.boundary.rows)
  {
    PromoteFromKeeps(t, o, t.boundary.keys);
    PromoteFromCloses(t, o, t.boundary.keys);
  }

  /** An entry whose row main already holds stays, wherever it sits in the pass. */
  lemma {:induction false} PromoteFromKeepsCovered(t: Table, o: Oracle, ks: seq<Word>, k: Word)
    requires Inv(t) && Answers(t, o)
    requires k in t.boundary.rows && t.boundary.rows[k] in t.main.rows.Values
    ensures k in PromoteFrom(t, ks).boundary.rows
    decreases |ks|
  {
    if ks != [] {
      var t' := Step(t, ks[0]);
      StepKeeps(t, o, ks[0]);
      assert k in t'.boundary.rows && t'.boundary.rows[k] == t.boundary.rows[k];
      PromoteFromKeepsCovered(t', o, ks[1..], k);
    }
  }

  /**
   * Of two entries with the same row, the later one stays: by its turn the
   * earlier one has either moved, putting the row into main, or stayed
   * because main already held that row.
   */
  lemma {:induction false} PromoteFromLaterStays(t: Table, o: Oracle, ks: seq<Word>, i: nat, j: nat)
    requires Inv(t) && Answers(t, o) && Distinct(ks)
    requires i < j < |ks|
    requires ks[i] in t.boundary.rows && ks[j] in t.boundary.rows
    requires t.boundary.rows[ks[i]] == t.boundary.rows[ks[j]]
    ensures ks[j] in PromoteFrom(t, ks).boundary.rows
    decreases |ks|
  {
    var t' := Step(t, ks[0]);
    StepKeeps(t, o, ks[0]);
    if i == 0 {
      assert t.boundary.rows[ks[0]] in t'.main.rows.Values;
      assert ks[j] in t'.boundary.rows && t'.boundary.rows[ks[j]] == t.boundary.rows[ks[j]];
      PromoteFromKeepsCovered(t', o, ks[1..], ks[j]);
    } else {
      assert ks[1..][i - 1] == ks[i] && ks[1..][j - 1] == ks[j];
      PromoteFromLaterStays(t', o, ks[1..], i - 1, j - 1);
    }
  }

  /**
   * `buildMainPrefixes` compares each entry against main as already extended
   * by the earlier moves of the same pass: a complementary entry whose row
   * equals that of an earlier entry stays complementary.
   */
  lemma PromoteKeepsLaterEqualRow(t: Table, o: Oracle, i: nat, j: nat)
    requires Inv(t) && Answers(t, o)
    requires i < j < |t.boundary.keys|
    requires t.boundary.rows[t.boundary.keys[i]] == t.boundary.rows[t.boundary.keys[j]]
    ensures t.boundary.keys[j] in Promote(t).boundary.rows && t.boundary.keys[j] !in Promote(t).main.rows
  {
    PromoteFromLaterStays(t, o, t.boundary.keys, i, j);
    PromoteFromKeeps(t, o, t.boundary.keys);
  }

  /** An entry whose row main already holds is not promoted. */
  lemma PromoteKeepsCovered(t: Table, o: Oracle, k: Word)
    requires Inv(t) && Answers(t, o)
    requires k in t.boundary.rows && t.boundary.rows[k] in t.main.rows.Values
    ensures k in Promote(t).boundary.rows && k !in Promote(t).main.rows
  {
    PromoteFromKeepsCovered(t, o, t.boundary.keys, k);
    PromoteFromKeeps(t, o, t.boundary.keys);
  }

  /**
   * Two complementary entries with the same row that main lacks: the first
   * moves, and the second then finds it in main and stays.
   */
  lemma PromoteFirstOfEqualRows(t: Table, k1: Word, k2: Word)
    requires Inv(t) && k1 != k2
    requires k1 in t.boundary.rows && k2 in t.boundary.rows
    requires t.boundary.rows[k1] == t.boundary.rows[k2] && t.boundary.rows[k1] !in t.main.rows.Values
    ensures var t' := PromoteFrom(t, [k1, k2]);
      && k1 in t'.main.rows && k1 !in t'.boundary.rows
      && k2 in t'.boundary.rows && k2 !in t'.main.rows
  {
    var row := t.boundary.rows[k1];
    var t1 := Step(t, k1);
    assert t1.main.rows[k1] == row;
    assert row in t1.main.rows.Values;
    assert [k1, k2][1..] == [k2];
    assert [k2][1..] == [];
    assert Step(t1, k2) == t1;
    assert PromoteFrom(t1, [k2]) == PromoteFrom(t1, []);
    assert PromoteFrom(t, [k1, k2]) == t1;
    assert k2 in t1.boundary.rows;
  }
}
