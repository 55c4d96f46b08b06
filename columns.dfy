/**
 * `addSuffixesFromCounterExample`: every non-empty suffix of the
 * counterexample, shortest first, that is not yet a column becomes one,
 * and every row, main and complementary, gains the answer for it; then
 * one promotion pass.
 */
module Columns {
  import opened Moves
  import opened ObservationTable
  import opened Promotion

  /** Every row gains, as its last cell, the answer for its key followed by `s`. */
  function Extended(p: Part, o: Oracle, s: Word): Part
  {
    Part(p.keys, map k | k in p.rows :: p.rows[k] + [Answer(o, k + s)])
  }

  /** The rows of the keys `ks`, in order, each gaining the answer for its key followed by `s`. */
  function ExtendKeys(p: Part, o: Oracle, s: Word, ks: seq<Word>): Part
  {
    if ks == [] then p
    else
      var q := ExtendKeys(p, o, s, ks[..|ks| - 1]);
      var k := ks[|ks| - 1];
      if k in q.rows then Put(q, k, q.rows[k] + [Answer(o, k + s)]) else q
  }

  /** Extending distinct keys of the part touches exactly their rows, once each. */
  lemma {:induction false} ExtendKeysSpec(p: Part, o: Oracle, s: Word, ks: seq<Word>)
    requires Distinct(ks)
    ensures var q := ExtendKeys(p, o, s, ks);
      && q.keys == p.keys && q.rows.Keys == p.rows.Keys
      && (forall k :: k in q.rows ==> q.rows[k] == if k in ks then p.rows[k] + [Answer(o, k + s)] else p.rows[k])
  {
    if ks != [] {
      var front := ks[..|ks| - 1];
      var k := ks[|ks| - 1];
      assert Distinct(front);
      assert k !in front by {
        forall i | 0 <= i < |front| ensures front[i] != k {
          assert ks[i] == front[i];
        }
      }
      ExtendKeysSpec(p, o, s, front);
      assert ks == front + [k];
    }
  }

  lemma ExtendKeysStep(p: Part, o: Oracle, s: Word, ks: seq<Word>, j: nat)
    requires PartWF(p) && ks == p.keys && j < |ks|
    ensures ks[j] in ExtendKeys(p, o, s, ks[..j]).rows
    ensures var q := ExtendKeys(p, o, s, ks[..j]);
      ExtendKeys(p, o, s, ks[..j + 1]) == Put(q, ks[j], q.rows[ks[j]] + [Answer(o, ks[j] + s)])
  {
    assert ks[j] in ExtendKeys(p, o, s, ks[..j]).rows by {
      assert Distinct(ks[..j]) by {
        assert forall a :: 0 <= a < j ==> ks[..j][a] == ks[a];
      }
      ExtendKeysSpec(p, o, s, ks[..j]);
      assert ks[j] in p.rows;
    }
    assert ks[..j + 1][..j] == ks[..j];
  }

  /** Extending every key of a well-formed part gives the part with the new column. */
  lemma ExtendKeysAll(p: Part, o: Oracle, s: Word)
    requires PartWF(p)
    ensures ExtendKeys(p, o, s, p.keys) == Extended(p, o, s)
  {
    ExtendKeysSpec(p, o, s, p.keys);
    var q := ExtendKeys(p, o, s, p.keys);
    assert q.rows == Extended(p, o, s).rows;
  }

  /** A new column `s`. */
  function AddColumn(t: Table, o: Oracle, s: Word): Table
  {
    Table(Extended(t.main, o, s), Extended(t.boundary, o, s), t.suffixes + [s])
  }

  /** The suffix of `c` of length `j`: `c.slice(c.length - j)`. */
  function Tail(c: Word, j: nat): Word
    requires j <= |c|
  {
    c[|c| - j..]
  }

  /** The first `i` rounds of the loop: round j (from 1) looks at the suffix of length j. */
  function AddSuffixesUpTo(t: Table, o: Oracle, c: Word, i: nat): Table
    requires i <= |c|
  {
    if i == 0 then t
    else
      var t' := AddSuffixesUpTo(t, o, c, i - 1);
      var s := Tail(c, i);
      if s in t'.suffixes then t' else AddColumn(t', o, s)
  }

  lemma AddSuffixesStep(t: Table, o: Oracle, c: Word, i: nat)
    requires i < |c|
    ensures var t' := AddSuffixesUpTo(t, o, c, i); var s := Tail(c, i + 1);
      AddSuffixesUpTo(t, o, c, i + 1) == if s in t'.suffixes then t' else AddColumn(t', o, s)
  {
  }

  /** Specification of `addSuffixesFromCounterExample`. */
  function AddSuffixesSpec(t: Table, o: Oracle, c: Word): Table
  {
    Promote(AddSuffixesUpTo(t, o, c, |c|))
  }

  predicate IsSuffixOf(x: Word, c: Word)
  {
    |x| <= |c| && c[|c| - |x|..] == x
  }

  /** Two rows of one length that differ still differ after one more cell each. */
  lemma AppendKeepsApart(r1: seq<string>, r2: seq<string>, a: string, b: string)
    requires |r1| == |r2| && r1 != r2
    ensures r1 + [a] != r2 + [b]
  {
    assert (r1 + [a])[..|r1|] == r1;
    assert (r2 + [b])[..|r2|] == r2;
  }

  /** A new column keeps the invariant and the answers and appends one cell to every row. */
  lemma AddColumnKeeps(t: Table, o: Oracle, s: Word)
    requires Inv(t) && Answers(t, o) && s !in t.suffixes
    ensures var t' := AddColumn(t, o, s);
      && Inv(t') && Answers(t', o)
      && t'.main.keys == t.main.keys && t'.boundary.keys == t.boundary.keys
      && t'.main.rows.Keys == t.main.rows.Keys && t'.boundary.rows.Keys == t.boundary.rows.Keys
      && t'.suffixes == t.suffixes + [s]
      && (forall k :: k in t.main.rows ==> t'.main.rows[k] == t.main.rows[k] + [Answer(o, k + s)])
      && (forall k :: k in t.boundary.rows ==> t'.boundary.rows[k] == t.boundary.rows[k] + [Answer(o, k + s)])
  {
    var t' := AddColumn(t, o, s);
    var sfx := t.suffixes + [s];
    assert forall i :: 0 <= i < |t.suffixes| ==> sfx[i] == t.suffixes[i];
    forall k | k in t'.main.rows ensures t'.main.rows[k] == Observed(o, k, sfx) {
      ObservedAppend(o, k, t.suffixes, s);
    }
    forall k | k in t'.boundary.rows ensures t'.boundary.rows[k] == Observed(o, k, sfx) {
      ObservedAppend(o, k, t.suffixes, s);
    }
    forall k, k' | k in t'.main.rows && k' in t'.main.rows && k != k'
      ensures t'.main.rows[k] != t'.main.rows[k']
    {
      AppendKeepsApart(t.main.rows[k], t.main.rows[k'], Answer(o, k + s), Answer(o, k' + s));
    }
  }

  /** The rounds so far keep the invariant and the answers. */
  lemma {:induction false} AddSuffixesKeeps(t: Table, o: Oracle, c: Word, i: nat)
    requires Inv(t) && Answers(t, o) && i <= |c|
    ensures var t' := AddSuffixesUpTo(t, o, c, i);
      Inv(t') && Answers(t', o)
  {
    if i > 0 {
      AddSuffixesKeeps(t, o, c, i - 1);
      var t1 := AddSuffixesUpTo(t, o, c, i - 1);
      if Tail(c, i) !in t1.suffixes {
        AddColumnKeeps(t1, o, Tail(c, i));
      }
    }
  }

  /** A table keeps its keys and every row its cells, possibly with more after them. */
  ghost predicate Widens(t: Table, t': Table)
  {
    && t'.main.keys == t.main.keys && t'.boundary.keys == t.boundary.keys
    && t'.main.rows.Keys == t.main.rows.Keys && t'.boundary.rows.Keys == t.boundary.rows.Keys
    && (forall k :: k in t.main.rows ==> t.main.rows[k] <= t'.main.rows[k])
    && (forall k :: k in t.boundary.rows ==> t.boundary.rows[k] <= t'.boundary.rows[k])
  }

  lemma WidensTrans(t: Table, t1: Table, t2: Table)
    requires Widens(t, t1) && Widens(t1, t2)
    ensures Widens(t, t2)
  {
  }

  /** A new column widens the table. */
  lemma AddColumnWidens(t: Table, o: Oracle, s: Word)
    ensures Widens(t, AddColumn(t, o, s))
  {
  }

  /** The rounds so far keep every key, and every row keeps its earlier cells. */
  lemma {:induction false} AddSuffixesWidens(t: Table, o: Oracle, c: Word, i: nat)
    requires i <= |c|
    ensures Widens(t, AddSuffixesUpTo(t, o, c, i))
  {
    if i == 0 {
      assert AddSuffixesUpTo(t, o, c, i) == t;
    } else {
      AddSuffixesWidens(t, o, c, i - 1);
      var t1 := AddSuffixesUpTo(t, o, c, i - 1);
      var s := Tail(c, i);
      var t2 := if s in t1.suffixes then t1 else AddColumn(t1, o, s);
      assert AddSuffixesUpTo(t, o, c, i) == t2;
      assert Widens(t1, t2) by {
        if s !in t1.suffixes {
          AddColumnWidens(t1, o, s);
        }
      }
      WidensTrans(t, t1, t2);
    }
  }

  /**
   * The suffixes after the rounds so far.
   */
  lemma {:induction false} AddSuffixesColumns(t: Table, o: Oracle, c: Word, i: nat)
    requires i <= |c|
    ensures ColumnsSoFar(t.suffixes, AddSuffixesUpTo(t, o, c, i).suffixes, c, i)
  {
    if i == 0 {
      assert AddSuffixesUpTo(t, o, c, i) == t;
    } else {
      AddSuffixesColumns(t, o, c, i - 1);
      var sfx := AddSuffixesUpTo(t, o, c, i - 1).suffixes;
      var s := Tail(c, i);
      assert AddSuffixesUpTo(t, o, c, i).suffixes == if s in sfx then sfx else sfx + [s];
      ColumnsRound(t.suffixes, sfx, c, i);
    }
  }

  /**
   * The suffixes after i rounds, starting from `start`: the old ones first,
   * then non-empty suffixes of c no longer than i, shortest first; and
   * every suffix of c of length 1 to i is among them.
   */
  ghost predicate ColumnsSoFar(start: seq<Word>, sfx: seq<Word>, c: Word, i: nat)
    requires i <= |c|
  {
    && start <= sfx
    && (forall a :: |start| <= a < |sfx| ==> sfx[a] != [] && |sfx[a]| <= i && IsSuffixOf(sfx[a], c))
    && (forall a, b :: |start| <= a < b < |sfx| ==> |sfx[a]| < |sfx[b]|)
    && (forall j :: 1 <= j <= i ==> Tail(c, j) in sfx)
  }

  /** Round i appends the suffix of length i when it is new. */
  lemma ColumnsRound(start: seq<Word>, sfx: seq<Word>, c: Word, i: nat)
    requires 1 <= i <= |c| && ColumnsSoFar(start, sfx, c, i - 1)
    ensures var s := Tail(c, i);
      ColumnsSoFar(start, if s in sfx then sfx else sfx + [s], c, i)
  {
    var s := Tail(c, i);
    assert |s| == i && IsSuffixOf(s, c);
    if s !in sfx {
      var sfx' := sfx + [s];
      assert forall a :: 0 <= a < |sfx| ==> sfx'[a] == sfx[a];
    }
  }


  /**
   * `addSuffixesFromCounterExample` keeps the invariant and the answers,
   * leaves the table closed, keeps every key (a complementary key may move
   * to main) and every main row's earlier cells, only appends suffixes,
   * appends exactly non-empty suffixes of c and shortest first, makes every
   * non-empty suffix of c a column, and with an empty counterexample leaves
   * the suffixes as they were.
   */
  lemma AddSuffixesSpecKeeps(t: Table, o: Oracle, c: Word)
    requires Inv(t) && Answers(t, o)
    ensures var t' := AddSuffixesSpec(t, o, c);
      && Inv(t') && Answers(t', o) && Closed(t')
      && (forall q :: q in t'.main.rows || q in t'.boundary.rows <==> q in t.main.rows || q in t.boundary.rows)
      && (forall k :: k in t.main.rows ==> k in t'.main.rows && t.main.rows[k] <= t'.main.rows[k])
      && t.main.keys <= t'.main.keys
      && t.suffixes <= t'.suffixes
      && (forall a :: |t.suffixes| <= a < |t'.suffixes| ==> t'.suffixes[a] != [] && IsSuffixOf(t'.suffixes[a], c))
      && (forall a, b :: |t.suffixes| <= a < b < |t'.suffixes| ==> |t'.suffixes[a]| < |t'.suffixes[b]|)
      && (forall j :: 1 <= j <= |c| ==> Tail(c, j) in t'.suffixes)
      && (c == [] ==> t'.suffixes == t.suffixes)
  {
    AddSuffixesKeeps(t, o, c, |c|);
    AddSuffixesWidens(t, o, c, |c|);
    AddSuffixesColumns(t, o, c, |c|);
    var t1 := AddSuffixesUpTo(t, o, c, |c|);
    PromoteSpec(t1, o);
  }
}
