/**
 * The observation table of the learner as a value: the main table (the
 * rows of the main prefixes), the complementary table (the boundary rows,
 * one letter beyond), and the list of suffixes (the columns). A table is
 * an ordered list of keys beside a map from keys to rows, because
 * JavaScript objects iterate their (non-numeric) keys in insertion order
 * and both promotion and serialisation follow that order.
 */
module ObservationTable {
  import opened Moves
  import opened AxisBlocks

  datatype Option<T> = None | Some(value: T)

  /** `checkMembership`: the teacher's reply to a query word, or None where the request failed and null came back. */
  type Oracle = Word -> Option<string>

  /** A cell as the learner stores it: `result ?? ""`. */
  function Answer(o: Oracle, q: Word): string
  {
    match o(q)
    case Some(v) => v
    case None => ""
  }

  /** The row of prefix `p`: one answer per suffix, appended in suffix order. */
  function Row(o: Oracle, p: Word, sfx: seq<Word>): seq<string>
  {
    if sfx == [] then [] else Row(o, p, sfx[..|sfx| - 1]) + [Answer(o, p + sfx[|sfx| - 1])]
  }

  /** Cell `j` of a row is the answer to the query `p + sfx[j]`. */
  lemma {:induction false} RowCells(o: Oracle, p: Word, sfx: seq<Word>)
    ensures |Row(o, p, sfx)| == |sfx|
    ensures forall j :: 0 <= j < |sfx| ==> Row(o, p, sfx)[j] == Answer(o, p + sfx[j])
  {
    if sfx != [] {
      RowCells(o, p, sfx[..|sfx| - 1]);
    }
  }

  predicate Distinct<T(==)>(s: seq<T>)
  {
    forall i, j :: 0 <= i < j < |s| ==> s[i] != s[j]
  }

  /** One of the two tables: its keys in insertion order and its rows. */
  datatype Part = Part(keys: seq<Word>, rows: map<Word, seq<string>>)

  /** The key list holds each key of the map exactly once. */
  predicate PartWF(p: Part)
  {
    && Distinct(p.keys)
    && (forall k :: k in p.rows ==> k in p.keys)
    && (forall k :: k in p.keys ==> k in p.rows)
  }

  /** `table[k] = row`: an existing key keeps its place, a new key goes last. */
  function Put(p: Part, k: Word, row: seq<string>): Part
  {
    if k in p.rows then Part(p.keys, p.rows[k := row]) else Part(p.keys + [k], p.rows[k := row])
  }

  /** `delete table[k]`: the other keys keep their order. */
  function Delete(p: Part, k: Word): Part
  {
    Part(Without(p.keys, k), p.rows - {k})
  }

  function Without(s: seq<Word>, k: Word): seq<Word>
  {
    if s == [] then [] else Without(s[..|s| - 1], k) + (if s[|s| - 1] == k then [] else [s[|s| - 1]])
  }

  lemma {:induction false} WithoutSpec(s: seq<Word>, k: Word)
    requires Distinct(s)
    ensures Distinct(Without(s, k))
    ensures forall x :: x in Without(s, k) <==> x in s && x != k
  {
    if s != [] {
      var front, last := s[..|s| - 1], s[|s| - 1];
      assert Distinct(front);
      WithoutSpec(front, k);
      assert last !in front by {
        forall i | 0 <= i < |front| ensures front[i] != last {
          assert s[i] == front[i];
        }
      }
      assert s == front + [last];
      if last != k {
        var r := Without(front, k);
        assert Without(s, k) == r + [last];
        assert last !in r;
        forall i, j | 0 <= i < j < |r| + 1 ensures (r + [last])[i] != (r + [last])[j] {
          if j == |r| {
            assert (r + [last])[i] == r[i];
          } else {
            assert (r + [last])[i] == r[i] && (r + [last])[j] == r[j];
          }
        }
      }
    }
  }

  /** Deleting a key takes out just that key: the keys before it and after it keep their order. */
  lemma {:induction false} WithoutOrder(s: seq<Word>, k: Word)
    requires Distinct(s)
    ensures k !in s ==> Without(s, k) == s
    ensures forall i :: 0 <= i < |s| && s[i] == k ==> Without(s, k) == s[..i] + s[i + 1..]
  {
    if s != [] {
      var front, last := s[..|s| - 1], s[|s| - 1];
      assert s == front + [last];
      assert Distinct(front);
      WithoutOrder(front, k);
      if last == k {
        assert k !in front by {
          forall i | 0 <= i < |front| ensures front[i] != last {
            assert s[i] == front[i];
          }
        }
        forall i | 0 <= i < |s| && s[i] == k ensures Without(s, k) == s[..i] + s[i + 1..] {
          assert i == |s| - 1;
          assert s[..i] == front && s[i + 1..] == [];
        }
      } else {
        assert Without(s, k) == Without(front, k) + [last];
        forall i | 0 <= i < |s| && s[i] == k ensures Without(s, k) == s[..i] + s[i + 1..] {
          assert i < |front| && front[i] == k;
          assert s[..i] == front[..i];
          assert s[i + 1..] == front[i + 1..] + [last];
        }
      }
    }
  }

  lemma PutDeleteWF(p: Part, q: Part, k: Word, row: seq<string>)
    requires PartWF(p) && PartWF(q) && k in q.rows && k !in p.rows
    ensures PartWF(Put(p, k, row)) && PartWF(Delete(q, k))
  {
    WithoutSpec(q.keys, k);
    var keys := p.keys + [k];
    assert forall i :: 0 <= i < |p.keys| ==> keys[i] == p.keys[i];
  }

  /** The rows of a map after adding a fresh key: the old rows and the new one. */
  lemma ValuesGrow(rows: map<Word, seq<string>>, k: Word, row: seq<string>)
    requires k !in rows
    ensures forall v :: v in rows.Values ==> v in rows[k := row].Values
    ensures row in rows[k := row].Values
  {
    forall v | v in rows.Values ensures v in rows[k := row].Values {
      var k' :| k' in rows && rows[k'] == v;
      assert rows[k := row][k'] == v;
    }
    assert rows[k := row][k] == row;
  }

  datatype Table = Table(main: Part, boundary: Part, suffixes: seq<Word>)

  /** Main rows are pairwise distinct. */
  predicate DistinctRows(p: Part)
  {
    forall k, k' :: k in p.rows && k' in p.rows && k != k' ==> p.rows[k] != p.rows[k']
  }

  /** Every row has one cell per suffix. */
  predicate Aligned(p: Part, sfx: seq<Word>)
  {
    forall k :: k in p.rows ==> |p.rows[k]| == |sfx|
  }

  /**
   * The table invariant: both parts well formed and disjoint, the empty
   * word the first main key, suffixes distinct and starting with the empty
   * word, every row aligned with the suffixes, and main rows distinct.
   */
  predicate Inv(t: Table)
  {
    && PartWF(t.main) && PartWF(t.boundary)
    && (forall k :: k in t.main.rows ==> k !in t.boundary.rows)
    && t.main.keys != [] && t.main.keys[0] == []
    && Distinct(t.suffixes) && t.suffixes != [] && t.suffixes[0] == []
    && Aligned(t.main, t.suffixes) && Aligned(t.boundary, t.suffixes)
    && DistinctRows(t.main)
  }

  /**
   * The row the learner holds for key `k`: the oracle's answers in suffix
   * order, except that the empty word's first cell is the "0" it was seeded
   * with.
   */
  function Observed(o: Oracle, k: Word, sfx: seq<Word>): seq<string>
  {
    if k == [] && sfx != [] then ["0"] + Row(o, k, sfx[1..]) else Row(o, k, sfx)
  }

  /** Every row of the table is what the oracle answered. */
  predicate Answers(t: Table, o: Oracle)
  {
    && (forall k :: k in t.main.rows ==> t.main.rows[k] == Observed(o, k, t.suffixes))
    && (forall k :: k in t.boundary.rows ==> t.boundary.rows[k] == Observed(o, k, t.suffixes))
  }

  /** Closedness: every boundary row already occurs as a main row. */
  predicate Closed(t: Table)
  {
    forall k :: k in t.boundary.rows ==> t.boundary.rows[k] in t.main.rows.Values
  }

  /** The state the constructor sets up: `{"": ["0"]}`, `{}`, `[""]`. */
  function Initial(): Table
  {
    Table(Part([[]], map[[] := ["0"]]), Part([], map[]), [[]])
  }

  lemma InitialValid(o: Oracle)
    ensures Inv(Initial()) && Answers(Initial(), o) && Closed(Initial())
  {
    var sfx: seq<Word> := [[]];
    assert sfx[1..] == [];
    assert Observed(o, [], sfx) == ["0"];
  }

  /** Appending one suffix extends every observed row by the answer for it. */
  lemma ObservedAppend(o: Oracle, k: Word, sfx: seq<Word>, s: Word)
    requires sfx != []
    ensures Observed(o, k, sfx + [s]) == Observed(o, k, sfx) + [Answer(o, k + s)]
  {
    var sfx' := sfx + [s];
    assert sfx'[..|sfx'| - 1] == sfx;
    if k == [] {
      assert sfx'[1..] == sfx[1..] + [s];
      var tail := sfx[1..] + [s];
      assert tail[..|tail| - 1] == sfx[1..];
    }
  }

  // ---------------------------------------------------------------------
  // addPrefix

  /**
   * `addPrefix(w)`: the canonical form p of w becomes a new complementary
   * key, with the row of oracle answers for p + s over the suffixes, unless
   * p is already a key of either table.
   */
  function AddPrefixSpec(t: Table, o: Oracle, n: nat, m: nat, w: Word): Table
  {
    var p := Canon(w, n, m);
    if p in t.main.rows || p in t.boundary.rows then t
    else t.(boundary := Part(t.boundary.keys + [p], t.boundary.rows[p := Row(o, p, t.suffixes)]))
  }

  /**
   * `addPrefix` keeps the invariant and the answers, leaves the main table
   * and the suffixes alone, keeps every existing complementary row, and
   * afterwards the canonical form of w is a key.
   */
  lemma AddPrefixKeeps(t: Table, o: Oracle, n: nat, m: nat, w: Word)
    requires Inv(t) && Answers(t, o)
    ensures var t' := AddPrefixSpec(t, o, n, m, w);
      && Inv(t') && Answers(t', o)
      && t'.main == t.main && t'.suffixes == t.suffixes
      && t.boundary.keys <= t'.boundary.keys
      && (forall k :: k in t.boundary.rows ==> k in t'.boundary.rows && t'.boundary.rows[k] == t.boundary.rows[k])
      && (Canon(w, n, m) in t'.main.rows || Canon(w, n, m) in t'.boundary.rows)
  {
    var p := Canon(w, n, m);
    if p !in t.main.rows && p !in t.boundary.rows {
      NewBoundaryRow(t, o, p);
    }
  }

  /** A fresh complementary key with the oracle's row for it keeps the invariant and the answers. */
  lemma NewBoundaryRow(t: Table, o: Oracle, p: Word)
    requires Inv(t) && Answers(t, o) && p !in t.main.rows && p !in t.boundary.rows
    ensures var b := Part(t.boundary.keys + [p], t.boundary.rows[p := Row(o, p, t.suffixes)]);
      Inv(t.(boundary := b)) && Answers(t.(boundary := b), o)
  {
    var b := Part(t.boundary.keys + [p], t.boundary.rows[p := Row(o, p, t.suffixes)]);
    assert PartWF(b) by {
      assert forall i :: 0 <= i < |t.boundary.keys| ==> b.keys[i] == t.boundary.keys[i];
    }
    assert p != [] by {
      assert t.main.keys[0] in t.main.rows;
    }
    assert Observed(o, p, t.suffixes) == Row(o, p, t.suffixes);
    RowCells(o, p, t.suffixes);
  }

  /** `addPrefix` is idempotent per canonical form. */
  lemma AddPrefixIdempotent(t: Table, o: Oracle, n: nat, m: nat, w: Word, w': Word)
    requires Canon(w, n, m) == Canon(w', n, m)
    ensures AddPrefixSpec(AddPrefixSpec(t, o, n, m, w), o, n, m, w') == AddPrefixSpec(t, o, n, m, w)
  {
  }

  /** A word whose canonical form is already a key leaves the table unchanged. */
  lemma AddPrefixKnown(t: Table, o: Oracle, n: nat, m: nat, w: Word)
    requires Canon(w, n, m) in t.main.rows || Canon(w, n, m) in t.boundary.rows
    ensures AddPrefixSpec(t, o, n, m, w) == t
  {
  }
}
