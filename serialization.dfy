/**
 * `getTableJson` and `replaceEmptyWithEpsilon`: the table flattened into
 * four strings — the main keys, the complementary keys and the suffixes,
 * each space-joined with the empty word written as epsilon, and the cells
 * of the main rows then the complementary rows, row by row, run together.
 */
module Serialization {
  import opened Moves
  import opened ObservationTable

  /** `replaceEmptyWithEpsilon`: the empty word is written as epsilon, every other entry as itself. */
  function ReplaceEmptyWithEpsilon(lst: seq<string>, epsilon: string): (r: seq<string>)
    ensures |r| == |lst|
    ensures forall i :: 0 <= i < |lst| ==> r[i] == (if lst[i] == "" then epsilon else lst[i])
  {
    if lst == [] then []
    else
      var x := lst[|lst| - 1];
      ReplaceEmptyWithEpsilon(lst[..|lst| - 1], epsilon) + [if x == "" then epsilon else x]
  }

  /** The reading side: epsilon stands for the empty word. */
  function RestoreEmpty(lst: seq<string>, epsilon: string): seq<string>
  {
    if lst == [] then []
    else
      var x := lst[|lst| - 1];
      RestoreEmpty(lst[..|lst| - 1], epsilon) + [if x == epsilon then "" else x]
  }

  /**
   * Writing the empty word as epsilon loses nothing when epsilon is not
   * itself an entry: reading it back gives the list, and no entry of the
   * written list is empty.
   */
  lemma {:induction false} ReplaceRoundTrip(lst: seq<string>, epsilon: string)
    requires epsilon != "" && epsilon !in lst
    ensures RestoreEmpty(ReplaceEmptyWithEpsilon(lst, epsilon), epsilon) == lst
    ensures "" !in ReplaceEmptyWithEpsilon(lst, epsilon)
  {
    if lst != [] {
      var front := lst[..|lst| - 1];
      var x := lst[|lst| - 1];
      assert epsilon !in front && x != epsilon by {
        assert forall y :: y in front ==> y in lst;
        assert x in lst;
      }
      ReplaceRoundTrip(front, epsilon);
      var rf := ReplaceEmptyWithEpsilon(front, epsilon);
      var y := if x == "" then epsilon else x;
      assert ReplaceEmptyWithEpsilon(lst, epsilon) == rf + [y];
      assert RestoreEmpty(rf + [y], epsilon) == RestoreEmpty(rf, epsilon) + [x] by {
        assert (rf + [y])[..|rf|] == rf;
      }
      assert lst == front + [x];
    }
  }

  /** `Array.prototype.join(sep)`. */
  function JoinWith(xs: seq<string>, sep: string): string
  {
    if xs == [] then ""
    else if |xs| == 1 then xs[0]
    else JoinWith(xs[..|xs| - 1], sep) + sep + xs[|xs| - 1]
  }

  /** `String.prototype.split(" ")`: the fields between spaces, empty fields included. */
  function SplitSpaces(s: string): (r: seq<string>)
    ensures r != []
  {
    if s == [] then [""]
    else
      var fields := SplitSpaces(s[..|s| - 1]);
      var ch := s[|s| - 1];
      if ch == ' ' then fields + [""]
      else fields[..|fields| - 1] + [fields[|fields| - 1] + [ch]]
  }

  /** Text without spaces only lengthens the last field. */
  lemma {:induction false} SplitAppendWord(u: string, v: string)
    requires ' ' !in v
    ensures var f := SplitSpaces(u);
      SplitSpaces(u + v) == f[..|f| - 1] + [f[|f| - 1] + v]
  {
    var f := SplitSpaces(u);
    if v == [] {
      assert u + v == u;
      assert f[|f| - 1] + v == f[|f| - 1];
      assert f == f[..|f| - 1] + [f[|f| - 1]];
    } else {
      var v' := v[..|v| - 1];
      var ch := v[|v| - 1];
      assert ' ' !in v' && ch != ' ' by {
        assert forall x :: x in v' ==> x in v;
      }
      var A := f[..|f| - 1];
      var X := f[|f| - 1];
      var fields := SplitSpaces(u + v');
      assert fields == A + [X + v'] by {
        SplitAppendWord(u, v');
      }
      assert SplitSpaces(u + v) == fields[..|fields| - 1] + [fields[|fields| - 1] + [ch]] by {
        assert u + v == (u + v') + [ch];
        SplitSnoc(u + v', ch);
      }
      assert fields[..|fields| - 1] == A && fields[|fields| - 1] == X + v';
      assert X + v' + [ch] == X + v by {
        AppendSnoc(X, v);
      }
      assert SplitSpaces(u + v) == A + [X + v];
    }
  }

  /** Appending a word is appending its front, then its last letter. */
  lemma AppendSnoc(x: string, v: string)
    requires v != []
    ensures x + v[..|v| - 1] + [v[|v| - 1]] == x + v
  {
    assert v == v[..|v| - 1] + [v[|v| - 1]];
  }

  /** A letter other than a space lengthens the last field. */
  lemma SplitSnoc(s: string, ch: char)
    requires ch != ' '
    ensures var f := SplitSpaces(s);
      SplitSpaces(s + [ch]) == f[..|f| - 1] + [f[|f| - 1] + [ch]]
  {
    assert (s + [ch])[..|s|] == s;
  }

  /**
   * The joined list splits back into itself when no entry holds a space
   * (and the list is not empty: the empty list and the list of one empty
   * entry join alike).
   */
  lemma {:induction false} SplitJoin(xs: seq<string>)
    requires xs != []
    requires forall i :: 0 <= i < |xs| ==> ' ' !in xs[i]
    ensures SplitSpaces(JoinWith(xs, " ")) == xs
  {
    var last := xs[|xs| - 1];
    if |xs| == 1 {
      SplitAppendWord([], last);
      assert [] + last == last;
      assert xs == [last];
    } else {
      var front := xs[..|xs| - 1];
      var u := JoinWith(front, " ") + " ";
      var f := front + [""];
      assert SplitSpaces(u) == f by {
        assert forall i :: 0 <= i < |front| ==> front[i] == xs[i];
        SplitJoin(front);
        SplitSpace(JoinWith(front, " "));
      }
      assert ' ' !in last;
      assert SplitSpaces(u + last) == f[..|f| - 1] + [f[|f| - 1] + last] by {
        SplitAppendWord(u, last);
      }
      assert f[..|f| - 1] + [f[|f| - 1] + last] == xs by {
        assert f[..|f| - 1] == front && f[|f| - 1] + last == last;
        assert xs == front + [last];
      }
      assert JoinWith(xs, " ") == u + last;
    }
  }

  /** A space closes the last field and opens an empty one. */
  lemma SplitSpace(s: string)
    ensures SplitSpaces(s + " ") == SplitSpaces(s) + [""]
  {
    assert (s + " ")[..|s|] == s;
  }

  /** `String(row[i])`: a cell beyond the end of its row prints as "undefined". */
  function Cell(row: seq<string>, i: nat): string
  {
    if i < |row| then row[i] else "undefined"
  }

  /** The first `w` cells of a row. */
  function RowText(row: seq<string>, w: nat): seq<string>
  {
    if w == 0 then [] else RowText(row, w - 1) + [Cell(row, w - 1)]
  }

  function RowOf(p: Part, k: Word): seq<string>
  {
    if k in p.rows then p.rows[k] else []
  }

  /** The cells of the rows of `ks`, row by row, `w` cells per row. */
  function PartCells(p: Part, ks: seq<Word>, w: nat): seq<string>
  {
    if ks == [] then [] else PartCells(p, ks[..|ks| - 1], w) + RowText(RowOf(p, ks[|ks| - 1]), w)
  }

  /** Specification of `getTableJson`. */
  function TableJson(t: Table, epsilon: string): seq<string>
  {
    var w := |t.suffixes|;
    [ JoinWith(ReplaceEmptyWithEpsilon(t.main.keys, epsilon), " "),
      JoinWith(ReplaceEmptyWithEpsilon(t.boundary.keys, epsilon), " "),
      JoinWith(ReplaceEmptyWithEpsilon(t.suffixes, epsilon), " "),
      JoinWith(PartCells(t.main, t.main.keys, w) + PartCells(t.boundary, t.boundary.keys, w), "") ]
  }

  lemma {:induction false} RowTextCells(row: seq<string>, w: nat)
    ensures |RowText(row, w)| == w
    ensures forall i :: 0 <= i < w ==> RowText(row, w)[i] == Cell(row, i)
  {
    if w > 0 {
      RowTextCells(row, w - 1);
    }
  }

  /** Where row q starts among rows of w cells each: q * w, counted out by addition. */
  function RowStart(q: nat, w: nat): nat
  {
    if q == 0 then 0 else RowStart(q - 1, w) + w
  }

  lemma {:induction false} RowStartIsProduct(q: nat, w: nat)
    ensures RowStart(q, w) == q * w
  {
    if q > 0 {
      RowStartIsProduct(q - 1, w);
      assert (q - 1) * w + w == q * w;
    }
  }

  lemma {:induction false} RowStartAdd(p: nat, q: nat, w: nat)
    ensures RowStart(p + q, w) == RowStart(p, w) + RowStart(q, w)
  {
    if q > 0 {
      RowStartAdd(p, q - 1, w);
    }
  }

  /** A later row starts after an earlier one ends. */
  lemma {:induction false} RowStartGrows(q: nat, k: nat, w: nat)
    requires q < k
    ensures RowStart(q, w) + w <= RowStart(k, w)
  {
    if q + 1 < k {
      RowStartGrows(q, k - 1, w);
    }
  }

  lemma {:induction false} PartCellsLength(p: Part, ks: seq<Word>, w: nat)
    ensures |PartCells(p, ks, w)| == RowStart(|ks|, w)
  {
    if ks != [] {
      PartCellsLength(p, ks[..|ks| - 1], w);
      RowTextCells(RowOf(p, ks[|ks| - 1]), w);
    }
  }

  /** Cell i of the row of key q sits at position RowStart(q, w) + i of the flattened rows. */
  lemma {:induction false} PartCellsAt(p: Part, ks: seq<Word>, w: nat, q: nat, i: nat)
    requires q < |ks| && i < w
    ensures RowStart(q, w) + i < |PartCells(p, ks, w)|
    ensures PartCells(p, ks, w)[RowStart(q, w) + i] == Cell(RowOf(p, ks[q]), i)
  {
    var front := ks[..|ks| - 1];
    PartCellsLength(p, front, w);
    RowTextCells(RowOf(p, ks[|ks| - 1]), w);
    if q < |front| {
      RowStartGrows(q, |front|, w);
      PartCellsAt(p, front, w, q, i);
      assert ks[q] == front[q];
    }
  }


  /** Running single characters together spells them out in order. */
  lemma {:induction false} ConcatSingles(cells: seq<string>)
    requires forall i :: 0 <= i < |cells| ==> |cells[i]| == 1
    ensures |JoinWith(cells, "")| == |cells|
    ensures forall i :: 0 <= i < |cells| ==> JoinWith(cells, "")[i] == cells[i][0]
  {
    if |cells| > 1 {
      var front := cells[..|cells| - 1];
      ConcatSingles(front);
      assert JoinWith(cells, "") == JoinWith(front, "") + cells[|cells| - 1];
    }
  }

  /** The flattened rows of keys whose cells are single characters are single characters. */
  lemma {:induction false} PartCellsSingle(p: Part, ks: seq<Word>, w: nat)
    requires forall k :: k in ks ==> k in p.rows && w <= |p.rows[k]|
    requires forall k, i :: k in p.rows && 0 <= i < |p.rows[k]| ==> |p.rows[k][i]| == 1
    ensures forall x :: 0 <= x < |PartCells(p, ks, w)| ==> |PartCells(p, ks, w)[x]| == 1
  {
    if ks != [] {
      var front := ks[..|ks| - 1];
      PartCellsSingle(p, front, w);
      RowTextCells(RowOf(p, ks[|ks| - 1]), w);
    }
  }

  /** No entry holds a space or equals epsilon. */
  predicate Plain(lst: seq<string>, epsilon: string)
  {
    forall i :: 0 <= i < |lst| ==> ' ' !in lst[i] && lst[i] != epsilon
  }

  /** The reading side of a key list: "" is the empty list, any other string its fields with epsilon read as the empty word. */
  function ReadKeys(s: string, epsilon: string): seq<string>
  {
    if s == "" then [] else RestoreEmpty(SplitSpaces(s), epsilon)
  }

  /** A list whose first entry is not empty joins to a non-empty string. */
  lemma {:induction false} JoinNonEmpty(xs: seq<string>, sep: string)
    requires xs != [] && xs[0] != ""
    ensures JoinWith(xs, sep) != ""
  {
    if |xs| > 1 {
      var front := xs[..|xs| - 1];
      assert front[0] == xs[0];
      JoinNonEmpty(front, sep);
      assert |JoinWith(xs, sep)| >= |JoinWith(front, sep)|;
    }
  }

  /**
   * A key list written by `getTableJson` reads back as itself when epsilon
   * is a non-empty word without spaces and no entry holds a space or equals
   * epsilon. The empty list is written as "", and every other list as a
   * non-empty string, because its first entry is written non-empty.
   */
  lemma KeyListRoundTrip(lst: seq<string>, epsilon: string)
    requires epsilon != "" && ' ' !in epsilon && Plain(lst, epsilon)
    ensures ReadKeys(JoinWith(ReplaceEmptyWithEpsilon(lst, epsilon), " "), epsilon) == lst
  {
    var written := ReplaceEmptyWithEpsilon(lst, epsilon);
    if lst != [] {
      ReplaceRoundTrip(lst, epsilon);
      assert written[0] in written;
      JoinNonEmpty(written, " ");
      SplitJoin(written);
    }
  }

  /**
   * The first three strings of `getTableJson` give back the main keys, the
   * complementary keys and the suffixes, in order; an empty complementary
   * table comes back empty.
   */
  lemma TableJsonKeys(t: Table, epsilon: string)
    requires epsilon != "" && ' ' !in epsilon
    requires Plain(t.main.keys, epsilon) && Plain(t.boundary.keys, epsilon) && Plain(t.suffixes, epsilon)
    ensures var json := TableJson(t, epsilon);
      && |json| == 4
      && ReadKeys(json[0], epsilon) == t.main.keys
      && ReadKeys(json[1], epsilon) == t.boundary.keys
      && ReadKeys(json[2], epsilon) == t.suffixes
  {
    KeyListsRoundTrip(t.main.keys, t.boundary.keys, t.suffixes, epsilon);
  }

  /** The three key lists, each read back on its own. */
  lemma KeyListsRoundTrip(l0: seq<string>, l1: seq<string>, l2: seq<string>, epsilon: string)
    requires epsilon != "" && ' ' !in epsilon
    requires Plain(l0, epsilon) && Plain(l1, epsilon) && Plain(l2, epsilon)
    ensures ReadKeys(JoinWith(ReplaceEmptyWithEpsilon(l0, epsilon), " "), epsilon) == l0
    ensures ReadKeys(JoinWith(ReplaceEmptyWithEpsilon(l1, epsilon), " "), epsilon) == l1
    ensures ReadKeys(JoinWith(ReplaceEmptyWithEpsilon(l2, epsilon), " "), epsilon) == l2
  {
    KeyListRoundTrip(l0, epsilon);
    KeyListRoundTrip(l1, epsilon);
    KeyListRoundTrip(l2, epsilon);
  }

  lemma SingleJoinAt(cells: seq<string>, x: nat)
    requires forall i :: 0 <= i < |cells| ==> |cells[i]| == 1
    requires x < |cells|
    ensures x < |JoinWith(cells, "")| && JoinWith(cells, "")[x] == cells[x][0]
  {
    ConcatSingles(cells);
  }

  lemma SingleJoinLength(cells: seq<string>)
    requires forall i :: 0 <= i < |cells| ==> |cells[i]| == 1
    ensures |JoinWith(cells, "")| == |cells|
  {
    ConcatSingles(cells);
  }

  /** Every cell of an aligned, well-formed part is a single character. */
  predicate SingleCells(p: Part)
  {
    forall k, i :: k in p.rows && 0 <= i < |p.rows[k]| ==> |p.rows[k][i]| == 1
  }

  /** The flattened cells of both parts, main rows first. */
  function AllCells(t: Table): seq<string>
  {
    var w := |t.suffixes|;
    PartCells(t.main, t.main.keys, w) + PartCells(t.boundary, t.boundary.keys, w)
  }

  /** Under one-character answers every flattened cell is one character. */
  lemma AllCellsSingle(t: Table)
    requires PartWF(t.main) && PartWF(t.boundary)
    requires Aligned(t.main, t.suffixes) && Aligned(t.boundary, t.suffixes)
    requires SingleCells(t.main) && SingleCells(t.boundary)
    ensures forall x :: 0 <= x < |AllCells(t)| ==> |AllCells(t)[x]| == 1
  {
    var w := |t.suffixes|;
    var a := PartCells(t.main, t.main.keys, w);
    var b := PartCells(t.boundary, t.boundary.keys, w);
    PartCellsSingle(t.main, t.main.keys, w);
    PartCellsSingle(t.boundary, t.boundary.keys, w);
    forall x | 0 <= x < |a + b| ensures |(a + b)[x]| == 1 {
      if x >= |a| {
        assert (a + b)[x] == b[x - |a|];
      }
    }
  }

  /** Position x of the joined cells is the character of flattened cell x. */
  lemma JoinedCellAt(t: Table, x: nat)
    requires PartWF(t.main) && PartWF(t.boundary)
    requires Aligned(t.main, t.suffixes) && Aligned(t.boundary, t.suffixes)
    requires SingleCells(t.main) && SingleCells(t.boundary)
    requires x < |AllCells(t)|
    ensures |AllCells(t)[x]| == 1
    ensures x < |JoinWith(AllCells(t), "")| && JoinWith(AllCells(t), "")[x] == AllCells(t)[x][0]
  {
    AllCellsSingle(t);
    SingleJoinAt(AllCells(t), x);
  }

  /**
   * With one-character answers and aligned rows, the fourth string of
   * `getTableJson` has one character per cell: |suffixes| per main row,
   * then as many per complementary row.
   */
  lemma TableJsonLength(t: Table, epsilon: string)
    requires PartWF(t.main) && PartWF(t.boundary)
    requires Aligned(t.main, t.suffixes) && Aligned(t.boundary, t.suffixes)
    requires SingleCells(t.main) && SingleCells(t.boundary)
    ensures |TableJson(t, epsilon)[3]| == RowStart(|t.main.keys|, |t.suffixes|) + RowStart(|t.boundary.keys|, |t.suffixes|)
  {
    var w := |t.suffixes|;
    AllCellsSingle(t);
    SingleJoinLength(AllCells(t));
    PartCellsLength(t.main, t.main.keys, w);
    PartCellsLength(t.boundary, t.boundary.keys, w);
  }

  /** The fourth string of `getTableJson` is the flattened cells run together. */
  lemma TableJsonText(t: Table, epsilon: string)
    ensures TableJson(t, epsilon)[3] == JoinWith(AllCells(t), "")
  {
  }

  lemma JoinedMainCell(t: Table, q: nat, i: nat)
    requires PartWF(t.main) && PartWF(t.boundary)
    requires Aligned(t.main, t.suffixes) && Aligned(t.boundary, t.suffixes)
    requires SingleCells(t.main) && SingleCells(t.boundary)
    requires q < |t.main.keys| && i < |t.suffixes|
    ensures var cells := JoinWith(AllCells(t), "");
      RowStart(q, |t.suffixes|) + i < |cells| &&
      cells[RowStart(q, |t.suffixes|) + i] == t.main.rows[t.main.keys[q]][i][0]
  {
    AllCellsMainAt(t, q, i);
    JoinedCellAt(t, RowStart(q, |t.suffixes|) + i);
  }

  /** Cell i of main row q is flattened cell RowStart(q, w) + i. */
  lemma AllCellsMainAt(t: Table, q: nat, i: nat)
    requires PartWF(t.main) && Aligned(t.main, t.suffixes)
    requires q < |t.main.keys| && i < |t.suffixes|
    ensures var x := RowStart(q, |t.suffixes|) + i;
      x < |AllCells(t)| && AllCells(t)[x] == t.main.rows[t.main.keys[q]][i]
  {
    var w := |t.suffixes|;
    var x := RowStart(q, w) + i;
    var a := PartCells(t.main, t.main.keys, w);
    var b := PartCells(t.boundary, t.boundary.keys, w);
    PartCellsAt(t.main, t.main.keys, w, q, i);
    assert t.main.keys[q] in t.main.rows;
    assert AllCells(t) == a + b;
    assert (a + b)[x] == a[x];
  }


  /** The flattened complementary rows come after all the main rows. */
  lemma AllCellsBoundaryAt(t: Table, q: nat, i: nat)
    requires q < |t.boundary.keys| && i < |t.suffixes|
    ensures var x := RowStart(|t.main.keys| + q, |t.suffixes|) + i;
      x < |AllCells(t)| && AllCells(t)[x] == Cell(RowOf(t.boundary, t.boundary.keys[q]), i)
  {
    var w := |t.suffixes|;
    var a := PartCells(t.main, t.main.keys, w);
    var b := PartCells(t.boundary, t.boundary.keys, w);
    var y := RowStart(q, w) + i;
    var x := RowStart(|t.main.keys| + q, w) + i;
    assert x == |a| + y by {
      PartCellsLength(t.main, t.main.keys, w);
      RowStartAdd(|t.main.keys|, q, w);
    }
    assert y < |b| && b[y] == Cell(RowOf(t.boundary, t.boundary.keys[q]), i) by {
      PartCellsAt(t.boundary, t.boundary.keys, w, q, i);
    }
    assert x < |AllCells(t)| && AllCells(t)[x] == b[y] by {
      ConcatAt(a, b, y);
    }
  }

  /** Position y of the second list is position |a| + y of the concatenation. */
  lemma ConcatAt(a: seq<string>, b: seq<string>, y: nat)
    requires y < |b|
    ensures |a| + y < |a + b| && (a + b)[|a| + y] == b[y]
  {
  }

  lemma JoinedBoundaryCell(t: Table, q: nat, i: nat)
    requires PartWF(t.main) && PartWF(t.boundary)
    requires Aligned(t.main, t.suffixes) && Aligned(t.boundary, t.suffixes)
    requires SingleCells(t.main) && SingleCells(t.boundary)
    requires q < |t.boundary.keys| && i < |t.suffixes|
    ensures var cells := JoinWith(AllCells(t), "");
      var x := RowStart(|t.main.keys| + q, |t.suffixes|) + i;
      x < |cells| && cells[x] == t.boundary.rows[t.boundary.keys[q]][i][0]
  {
    var w := |t.suffixes|;
    var x := RowStart(|t.main.keys| + q, w) + i;
    var row := t.boundary.rows[t.boundary.keys[q]];
    AllCellsBoundaryAt(t, q, i);
    assert RowOf(t.boundary, t.boundary.keys[q]) == row;
    JoinedCellAt(t, x);
  }

  /**
   * The cell of suffix i in main row q is character q * |suffixes| + i of
   * the fourth string of `getTableJson`.
   */
  lemma TableJsonMainCell(t: Table, epsilon: string, q: nat, i: nat)
    requires PartWF(t.main) && PartWF(t.boundary)
    requires Aligned(t.main, t.suffixes) && Aligned(t.boundary, t.suffixes)
    requires SingleCells(t.main) && SingleCells(t.boundary)
    requires q < |t.main.keys| && i < |t.suffixes|
    ensures var cells := TableJson(t, epsilon)[3];
      RowStart(q, |t.suffixes|) + i < |cells| &&
      cells[RowStart(q, |t.suffixes|) + i] == t.main.rows[t.main.keys[q]][i][0]
  {
    TableJsonText(t, epsilon);
    JoinedMainCell(t, q, i);
  }

  /**
   * The cell of suffix i in complementary row q follows all the main rows:
   * it is character (|main keys| + q) * |suffixes| + i.
   */
  lemma TableJsonBoundaryCell(t: Table, epsilon: string, q: nat, i: nat)
    requires PartWF(t.main) && PartWF(t.boundary)
    requires Aligned(t.main, t.suffixes) && Aligned(t.boundary, t.suffixes)
    requires SingleCells(t.main) && SingleCells(t.boundary)
    requires q < |t.boundary.keys| && i < |t.suffixes|
    ensures var cells := TableJson(t, epsilon)[3];
      var x := RowStart(|t.main.keys| + q, |t.suffixes|) + i;
      x < |cells| && cells[x] == t.boundary.rows[t.boundary.keys[q]][i][0]
  {
    TableJsonText(t, epsilon);
    JoinedBoundaryCell(t, q, i);
  }
}
