/**
 * The `LStar` learner: the observation table held in three fields that its
 * methods update in place, over the canonical forms of prefixes. Each
 * method is proved against the value-level specification of the same
 * operation (`AddPrefixSpec`, `Promote`, `ExtendSpec`, `AddSuffixesSpec`,
 * `TableJson`), whose properties are proved beside those definitions.
 *
 * The teacher's membership answers come from the `oracle` the learner is
 * built with; every answer is taken as soon as it is asked for, in the
 * order the queries are made.
 */
module Learner {
  import opened Moves
  import opened RunCapping
  import opened AxisBlocks
  import opened ObservationTable
  import opened Promotion
  import opened Columns
  import opened Extension
  import opened Serialization

  class LStar {
    var mainTable: Part
    var complementaryTable: Part
    var suffixes: seq<Word>
    const alphabet: seq<char>
    const epsilon: string
    const n: nat
    const m: nat
    const oracle: Oracle

    /** The three fields as one table value. */
    function Snapshot(): Table
      reads this
    {
      Table(mainTable, complementaryTable, suffixes)
    }

    /** The table invariant, and every row holds the teacher's answers. */
    ghost predicate Valid()
      reads this
    {
      Inv(Snapshot()) && Answers(Snapshot(), oracle)
    }

    constructor(alphabetStr: string, n: nat, m: nat, oracle: Oracle)
      ensures Valid() && Closed(Snapshot())
      ensures Snapshot() == Initial()
      ensures alphabet == alphabetStr && epsilon == "e"
      ensures this.n == n && this.m == m && this.oracle == oracle
    {
      mainTable := Part([[]], map[[] := ["0"]]);
      complementaryTable := Part([], map[]);
      suffixes := [[]];
      alphabet := alphabetStr;
      epsilon := "e";
      this.n := n;
      this.m := m;
      this.oracle := oracle;
      new;
      InitialValid(oracle);
    }

    /**
     * `addPrefix`: the canonical form of the prefix becomes a complementary
     * key with one answer per suffix, unless it is already a key.
     */
    method AddPrefix(prefix: Word)
      requires Valid()
      modifies this
      ensures Valid()
      ensures Snapshot() == AddPrefixSpec(old(Snapshot()), oracle, n, m, prefix)
    {
      var capped := Opt1(prefix, n, m);
      var p := Opt2(capped);
      if p in mainTable.rows || p in complementaryTable.rows {
        return;
      }
      ghost var t0 := Snapshot();
      // the new key's row, filled with one answer per suffix in suffix order
      var row := QueryRow(oracle, p, suffixes);
      complementaryTable := Put(complementaryTable, p, row);
      AddPrefixKeeps(t0, oracle, n, m, prefix);
    }

    /**
     * `buildMainPrefixes`: one pass over the complementary entries as they
     * stood at the start, moving each whose row no main row equals.
     */
    method BuildMainPrefixes()
      requires Valid()
      modifies this
      ensures Valid()
      ensures Snapshot() == Promote(old(Snapshot()))
    {
      ghost var t0 := Snapshot();
      var entries := complementaryTable.keys;
      var rowsAtStart := complementaryTable.rows;
      for e := 0 to |entries|
        invariant Valid()
        invariant Distinct(entries)
        invariant PromoteFrom(Snapshot(), entries[e..]) == Promote(t0)
        invariant forall q :: e <= q < |entries| ==>
          entries[q] in complementaryTable.rows && entries[q] in rowsAtStart &&
          complementaryTable.rows[entries[q]] == rowsAtStart[entries[q]]
      {
        ghost var before := Snapshot();
        var compPrefix := entries[e];
        PromoteEntry(compPrefix, rowsAtStart[compPrefix]);
        PromoteFromStep(before, entries, e);
        forall q | e + 1 <= q < |entries|
          ensures entries[q] in complementaryTable.rows
          ensures complementaryTable.rows[entries[q]] == rowsAtStart[entries[q]]
        {
          assert entries[q] != compPrefix;
        }
      }
    }

    /**
     * One entry of `buildMainPrefixes`: the entry moves to main when no
     * main row equals its row.
     */
    method PromoteEntry(compPrefix: Word, row: seq<string>)
      requires Valid()
      requires compPrefix in complementaryTable.rows && complementaryTable.rows[compPrefix] == row
      modifies this
      ensures Valid()
      ensures Snapshot() == Step(old(Snapshot()), compPrefix)
      ensures forall k :: k in old(complementaryTable.rows) && k != compPrefix ==>
        k in complementaryTable.rows && complementaryTable.rows[k] == old(complementaryTable.rows[k])
    {
      ghost var before := Snapshot();
      var found := RowPresent(mainTable, row);
      if !found {
        mainTable := Put(mainTable, compPrefix, row);
        complementaryTable := Delete(complementaryTable, compPrefix);
      }
      StepKeeps(before, oracle, compPrefix);
    }

    /**
     * `extendTable`: every main prefix followed by every letter goes
     * through `addPrefix`, then one promotion pass.
     */
    method ExtendTable()
      requires Valid()
      modifies this
      ensures Valid()
      ensures Snapshot() == ExtendSpec(old(Snapshot()), oracle, n, m, alphabet)
    {
      ghost var t0 := Snapshot();
      var mainPrefixes := mainTable.keys;
      for i := 0 to |mainPrefixes|
        invariant Valid()
        invariant Snapshot() == AddKeys(t0, oracle, n, m, mainPrefixes[..i], alphabet)
      {
        for j := 0 to |alphabet|
          invariant Valid()
          invariant Snapshot() == AddLetters(AddKeys(t0, oracle, n, m, mainPrefixes[..i], alphabet), oracle, n, m, mainPrefixes[i], alphabet[..j])
        {
          AddPrefix(mainPrefixes[i] + [alphabet[j]]);
          AddLettersStep(AddKeys(t0, oracle, n, m, mainPrefixes[..i], alphabet), oracle, n, m, mainPrefixes[i], alphabet, j);
        }
        assert alphabet[..|alphabet|] == alphabet;
        AddKeysStep(t0, oracle, n, m, mainPrefixes, alphabet, i);
      }
      assert mainPrefixes[..|mainPrefixes|] == mainPrefixes;
      BuildMainPrefixes();
    }

    /**
     * `addSuffixesFromCounterExample`: each suffix of the counterexample,
     * shortest first, that is not yet a column becomes one, every row
     * gaining the answer for it; then one promotion pass.
     */
    method AddSuffixesFromCounterExample(counterExample: Word)
      requires Valid()
      modifies this
      ensures Valid()
      ensures Snapshot() == AddSuffixesSpec(old(Snapshot()), oracle, counterExample)
    {
      ghost var t0 := Snapshot();
      for i := 0 to |counterExample|
        invariant Valid()
        invariant Snapshot() == AddSuffixesUpTo(t0, oracle, counterExample, i)
      {
        var suffix := counterExample[|counterExample| - 1 - i..];
        AddSuffixesStep(t0, oracle, counterExample, i);
        assert suffix == Tail(counterExample, i + 1);
        if suffix !in suffixes {
          AddColumnOf(suffix);
        }
      }
      BuildMainPrefixes();
    }

    /**
     * One round of `addSuffixesFromCounterExample` with a new suffix: it
     * becomes the last column, and every main row and then every
     * complementary row gains the answer for its key followed by it.
     */
    method AddColumnOf(suffix: Word)
      requires Valid() && suffix !in suffixes
      modifies this
      ensures Valid()
      ensures Snapshot() == AddColumn(old(Snapshot()), oracle, suffix)
    {
      ghost var before := Snapshot();
      suffixes := suffixes + [suffix];
      mainTable := AppendColumn(mainTable, oracle, suffix);
      complementaryTable := AppendColumn(complementaryTable, oracle, suffix);
      AddColumnKeeps(before, oracle, suffix);
    }

    /**
     * `getTableJson`: the main keys, the complementary keys and the
     * suffixes, space-joined with epsilon for the empty word, and the cells
     * row by row run together.
     */
    method GetTableJson() returns (r: seq<string>)
      requires Valid()
      ensures r == TableJson(Snapshot(), epsilon)
    {
      var mainPrefixes := mainTable.keys;
      var complementaryPrefixes := complementaryTable.keys;
      var sfx := suffixes;
      var table := PartText(mainTable, |sfx|);
      var boundaryText := PartText(complementaryTable, |sfx|);
      table := table + boundaryText;
      var mainPrefixesStr := JoinWith(ReplaceEmptyWithEpsilon(mainPrefixes, epsilon), " ");
      var compPrefixesStr := JoinWith(ReplaceEmptyWithEpsilon(complementaryPrefixes, epsilon), " ");
      var suffixesStr := JoinWith(ReplaceEmptyWithEpsilon(sfx, epsilon), " ");
      var tableStr := JoinWith(table, "");
      r := [mainPrefixesStr, compPrefixesStr, suffixesStr, tableStr];
    }
  }

  /**
   * The inner loop of `buildMainPrefixes`: does some row of the table, in
   * key order, equal `row`?
   */
  method RowPresent(p: Part, row: seq<string>) returns (found: bool)
    requires PartWF(p)
    ensures found <==> row in p.rows.Values
  {
    found := false;
    var j := 0;
    while j < |p.keys|
      invariant 0 <= j <= |p.keys|
      invariant !found && forall r :: 0 <= r < j ==> p.rows[p.keys[r]] != row
    {
      if p.rows[p.keys[j]] == row {
        found := true;
        break;
      }
      j := j + 1;
    }
    if !found {
      forall k | k in p.rows ensures p.rows[k] != row {
        var r :| 0 <= r < |p.keys| && p.keys[r] == k;
      }
    }
  }

  /** `checkMembership(query)` followed by `result ?? ""`. */
  method Ask(oracle: Oracle, query: Word) returns (cell: string)
    ensures cell == Answer(oracle, query)
  {
    var result := oracle(query);
    cell := if result.Some? then result.value else "";
  }

  /**
   * One inner loop of `addSuffixesFromCounterExample`: every row of the
   * table, in key order, gains the answer for its key followed by `suffix`.
   */
  method AppendColumn(start: Part, oracle: Oracle, suffix: Word) returns (part: Part)
    requires PartWF(start)
    ensures part == Extended(start, oracle, suffix)
  {
    var prefixes := start.keys;
    part := start;
    for j := 0 to |prefixes|
      invariant part == ExtendKeys(start, oracle, suffix, prefixes[..j])
    {
      var k := prefixes[j];
      ExtendKeysStep(start, oracle, suffix, prefixes, j);
      var cell := Ask(oracle, k + suffix);
      part := Put(part, k, part.rows[k] + [cell]);
    }
    assert prefixes[..|prefixes|] == prefixes;
    ExtendKeysAll(start, oracle, suffix);
  }

  /**
   * The loop of `addPrefix`: the row of `p`, one answer per suffix in
   * suffix order.
   */
  method QueryRow(oracle: Oracle, p: Word, sfx: seq<Word>) returns (row: seq<string>)
    ensures row == Row(oracle, p, sfx)
  {
    row := [];
    for j := 0 to |sfx|
      invariant row == Row(oracle, p, sfx[..j])
    {
      var cell := Ask(oracle, p + sfx[j]);
      row := row + [cell];
      assert sfx[..j + 1][..j] == sfx[..j];
    }
    assert sfx[..|sfx|] == sfx;
  }

  /**
   * One pair of cell loops of `getTableJson`: for each key in order, its
   * row's first `w` cells.
   */
  method PartText(p: Part, w: nat) returns (table: seq<string>)
    requires PartWF(p)
    ensures table == PartCells(p, p.keys, w)
  {
    table := [];
    for q := 0 to |p.keys|
      invariant table == PartCells(p, p.keys[..q], w)
    {
      var cells := RowCellsText(p.rows[p.keys[q]], w);
      table := table + cells;
      assert p.keys[..q + 1][..q] == p.keys[..q];
    }
    assert p.keys[..|p.keys|] == p.keys;
  }

  /** The inner cell loop of `getTableJson`: `String(row[i])` for i below w, a missing cell printing as "undefined". */
  method RowCellsText(row: seq<string>, w: nat) returns (cells: seq<string>)
    ensures cells == RowText(row, w)
  {
    cells := [];
    for i := 0 to w
      invariant cells == RowText(row, i)
    {
      cells := cells + [if i < |row| then row[i] else "undefined"];
    }
  }
}
