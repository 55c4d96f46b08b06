/**
 * `extendTable`: every main prefix followed by every letter of the
 * alphabet goes through `addPrefix`, then one promotion pass.
 */
module Extension {
  import opened Moves
  import opened AxisBlocks
  import opened ObservationTable
  import opened Promotion

  /** `addPrefix(p + l)` for the letters `l` in order. */
  function AddLetters(t: Table, o: Oracle, n: nat, m: nat, p: Word, letters: seq<char>): Table
  {
    if letters == [] then t
    else AddPrefixSpec(AddLetters(t, o, n, m, p, letters[..|letters| - 1]), o, n, m, p + [letters[|letters| - 1]])
  }

  /** `AddLetters` for the keys `ks` in order. */
  function AddKeys(t: Table, o: Oracle, n: nat, m: nat, ks: seq<Word>, letters: seq<char>): Table
  {
    if ks == [] then t
    else AddLetters(AddKeys(t, o, n, m, ks[..|ks| - 1], letters), o, n, m, ks[|ks| - 1], letters)
  }

  /** One more letter. */
  lemma AddLettersStep(t: Table, o: Oracle, n: nat, m: nat, p: Word, letters: seq<char>, j: nat)
    requires j < |letters|
    ensures AddLetters(t, o, n, m, p, letters[..j + 1]) == AddPrefixSpec(AddLetters(t, o, n, m, p, letters[..j]), o, n, m, p + [letters[j]])
  {
    assert letters[..j + 1][..j] == letters[..j];
  }

  /** One more key. */
  lemma AddKeysStep(t: Table, o: Oracle, n: nat, m: nat, ks: seq<Word>, letters: seq<char>, i: nat)
    requires i < |ks|
    ensures AddKeys(t, o, n, m, ks[..i + 1], letters) == AddLetters(AddKeys(t, o, n, m, ks[..i], letters), o, n, m, ks[i], letters)
  {
    assert ks[..i + 1][..i] == ks[..i];
  }

  /** Specification of `extendTable`. */
  function ExtendSpec(t: Table, o: Oracle, n: nat, m: nat, alphabet: seq<char>): Table
  {
    Promote(AddKeys(t, o, n, m, t.main.keys, alphabet))
  }

  /** What `addPrefix` keeps, stated so that it composes over a sequence of calls. */
  predicate Grows(t: Table, t': Table)
  {
    && t'.main == t.main && t'.suffixes == t.suffixes
    && t.boundary.keys <= t'.boundary.keys
    && (forall k :: k in t.boundary.rows ==> k in t'.boundary.rows && t'.boundary.rows[k] == t.boundary.rows[k])
  }

  /** One `addPrefix` grows the table and makes the canonical form of its word a key, and no other. */
  lemma AddPrefixGrows(t: Table, o: Oracle, n: nat, m: nat, w: Word)
    ensures var t' := AddPrefixSpec(t, o, n, m, w);
      && Grows(t, t')
      && (Canon(w, n, m) in t'.main.rows || Canon(w, n, m) in t'.boundary.rows)
      && Keys(t') <= Keys(t) + {Canon(w, n, m)}
  {
  }

  lemma GrowsTrans(t: Table, t1: Table, t2: Table)
    requires Grows(t, t1) && Grows(t1, t2)
    ensures Grows(t, t2)
  {
  }

  /** A key of either table stays a key of one. */
  lemma GrowsKeepsKey(t: Table, t': Table, q: Word)
    requires Grows(t, t')
    requires q in t.main.rows || q in t.boundary.rows
    ensures q in t'.main.rows || q in t'.boundary.rows
  {
  }

  /** The letters of one key grow the table and make every extension of the key a key. */
  lemma {:induction false} AddLettersGrows(t: Table, o: Oracle, n: nat, m: nat, p: Word, letters: seq<char>)
    ensures var t' := AddLetters(t, o, n, m, p, letters);
      && Grows(t, t')
      && (forall l :: l in letters ==> Canon(p + [l], n, m) in t'.main.rows || Canon(p + [l], n, m) in t'.boundary.rows)
  {
    if letters != [] {
      var front := letters[..|letters| - 1];
      var l := letters[|letters| - 1];
      AddLettersGrows(t, o, n, m, p, front);
      var t1 := AddLetters(t, o, n, m, p, front);
      var t2 := AddPrefixSpec(t1, o, n, m, p + [l]);
      assert Grows(t1, t2) && (Canon(p + [l], n, m) in t2.main.rows || Canon(p + [l], n, m) in t2.boundary.rows) by {
        AddPrefixGrows(t1, o, n, m, p + [l]);
      }
      GrowsTrans(t, t1, t2);
      forall l' | l' in letters
        ensures Canon(p + [l'], n, m) in t2.main.rows || Canon(p + [l'], n, m) in t2.boundary.rows
      {
        if l' != l {
          assert l' in front by {
            assert letters == front + [l];
          }
          GrowsKeepsKey(t1, t2, Canon(p + [l'], n, m));
        }
      }
    }
  }

  /** Every extension of `k` by a letter has its canonical form as a key of `t`. */
  ghost predicate Extends(t: Table, n: nat, m: nat, k: Word, letters: seq<char>)
  {
    forall l :: l in letters ==> Canon(k + [l], n, m) in t.main.rows || Canon(k + [l], n, m) in t.boundary.rows
  }

  lemma GrowsKeepsExtends(t: Table, t': Table, n: nat, m: nat, k: Word, letters: seq<char>)
    requires Grows(t, t') && Extends(t, n, m, k, letters)
    ensures Extends(t', n, m, k, letters)
  {
    forall l | l in letters
      ensures Canon(k + [l], n, m) in t'.main.rows || Canon(k + [l], n, m) in t'.boundary.rows
    {
      GrowsKeepsKey(t, t', Canon(k + [l], n, m));
    }
  }

  /** All the keys grow the table and make every extension of every key a key. */
  lemma {:induction false} AddKeysGrows(t: Table, o: Oracle, n: nat, m: nat, ks: seq<Word>, letters: seq<char>)
    ensures var t' := AddKeys(t, o, n, m, ks, letters);
      && Grows(t, t')
      && (forall k :: k in ks ==> Extends(t', n, m, k, letters))
  {
    if ks != [] {
      var front := ks[..|ks| - 1];
      var k := ks[|ks| - 1];
      AddKeysGrows(t, o, n, m, front, letters);
      var t1 := AddKeys(t, o, n, m, front, letters);
      AddLettersGrows(t1, o, n, m, k, letters);
      var t2 := AddLetters(t1, o, n, m, k, letters);
      GrowsTrans(t, t1, t2);
      forall k' | k' in ks ensures Extends(t2, n, m, k', letters) {
        if k' != k {
          assert k' in front by {
            assert ks == front + [k];
          }
          GrowsKeepsExtends(t1, t2, n, m, k', letters);
        }
      }
    }
  }

  /** `q` is the canonical form of a key of `ks` followed by a letter of `letters`. */
  ghost predicate ExtensionOf(q: Word, n: nat, m: nat, ks: seq<Word>, letters: seq<char>)
  {
    exists k, l :: k in ks && l in letters && q == Canon(k + [l], n, m)
  }

  /** Every key of either table. */
  function Keys(t: Table): set<Word>
  {
    t.main.rows.Keys + t.boundary.rows.Keys
  }

  /** The canonical forms of `p + [l]` for the letters `l`. */
  function LetterExtensions(p: Word, letters: seq<char>, n: nat, m: nat): set<Word>
  {
    if letters == [] then {}
    else LetterExtensions(p, letters[..|letters| - 1], n, m) + {Canon(p + [letters[|letters| - 1]], n, m)}
  }

  /** The canonical forms of `k + [l]` for the keys `k` and the letters `l`. */
  function KeyExtensions(ks: seq<Word>, letters: seq<char>, n: nat, m: nat): set<Word>
  {
    if ks == [] then {}
    else KeyExtensions(ks[..|ks| - 1], letters, n, m) + LetterExtensions(ks[|ks| - 1], letters, n, m)
  }

  /** The letter a member of `LetterExtensions` comes from. */
  lemma {:induction false} LetterWitness(p: Word, letters: seq<char>, n: nat, m: nat, q: Word) returns (l: char)
    requires q in LetterExtensions(p, letters, n, m)
    ensures l in letters && q == Canon(p + [l], n, m)
  {
    var front := letters[..|letters| - 1];
    if q in LetterExtensions(p, front, n, m) {
      l := LetterWitness(p, front, n, m, q);
      assert l in front;
    } else {
      l := letters[|letters| - 1];
    }
  }

  /** The key and the letter a member of `KeyExtensions` comes from. */
  lemma {:induction false} KeyWitness(ks: seq<Word>, letters: seq<char>, n: nat, m: nat, q: Word) returns (k: Word, l: char)
    requires q in KeyExtensions(ks, letters, n, m)
    ensures k in ks && l in letters && q == Canon(k + [l], n, m)
  {
    var front := ks[..|ks| - 1];
    if q in KeyExtensions(front, letters, n, m) {
      k, l := KeyWitness(front, letters, n, m, q);
      assert k in front;
    } else {
      k := ks[|ks| - 1];
      l := LetterWitness(k, letters, n, m, q);
    }
  }

  /** The letters of one key add no key but the canonical extensions of that key. */
  lemma {:induction false} AddLettersOnly(t: Table, o: Oracle, n: nat, m: nat, p: Word, letters: seq<char>)
    ensures Keys(AddLetters(t, o, n, m, p, letters)) <= Keys(t) + LetterExtensions(p, letters, n, m)
  {
    if letters != [] {
      var front := letters[..|letters| - 1];
      var l := letters[|letters| - 1];
      AddLettersOnly(t, o, n, m, p, front);
      var t1 := AddLetters(t, o, n, m, p, front);
      assert Keys(AddPrefixSpec(t1, o, n, m, p + [l])) <= Keys(t1) + {Canon(p + [l], n, m)} by {
        AddPrefixGrows(t1, o, n, m, p + [l]);
      }
    }
  }

  /** All the keys add no key but the canonical extensions of the keys. */
  lemma {:induction false} AddKeysOnly(t: Table, o: Oracle, n: nat, m: nat, ks: seq<Word>, letters: seq<char>)
    ensures Keys(AddKeys(t, o, n, m, ks, letters)) <= Keys(t) + KeyExtensions(ks, letters, n, m)
  {
    if ks != [] {
      var front := ks[..|ks| - 1];
      var k := ks[|ks| - 1];
      AddKeysOnly(t, o, n, m, front, letters);
      AddLettersOnly(AddKeys(t, o, n, m, front, letters), o, n, m, k, letters);
    }
  }

  /** The letters of one key keep the invariant and the answers. */
  lemma {:induction false} AddLettersKeeps(t: Table, o: Oracle, n: nat, m: nat, p: Word, letters: seq<char>)
    requires Inv(t) && Answers(t, o)
    ensures var t' := AddLetters(t, o, n, m, p, letters);
      Inv(t') && Answers(t', o)
  {
    if letters != [] {
      AddLettersKeeps(t, o, n, m, p, letters[..|letters| - 1]);
      AddPrefixKeeps(AddLetters(t, o, n, m, p, letters[..|letters| - 1]), o, n, m, p + [letters[|letters| - 1]]);
    }
  }

  /** All the keys keep the invariant and the answers. */
  lemma {:induction false} AddKeysKeeps(t: Table, o: Oracle, n: nat, m: nat, ks: seq<Word>, letters: seq<char>)
    requires Inv(t) && Answers(t, o)
    ensures var t' := AddKeys(t, o, n, m, ks, letters);
      Inv(t') && Answers(t', o)
  {
    if ks != [] {
      AddKeysKeeps(t, o, n, m, ks[..|ks| - 1], letters);
      AddLettersKeeps(AddKeys(t, o, n, m, ks[..|ks| - 1], letters), o, n, m, ks[|ks| - 1], letters);
    }
  }

  /**
   * `extendTable` keeps the invariant and the answers, leaves the table
   * closed and the suffixes alone, keeps the main keys (and their rows) as
   * a prefix of the new ones, and afterwards the canonical form of every
   * main prefix followed by every letter is a key of one of the tables.
   * Every old complementary key is still a key, and the only new keys are
   * those canonical extensions.
   */
  lemma ExtendSpecKeeps(t: Table, o: Oracle, n: nat, m: nat, alphabet: seq<char>)
    requires Inv(t) && Answers(t, o)
    ensures var t' := ExtendSpec(t, o, n, m, alphabet);
      && Inv(t') && Answers(t', o) && Closed(t')
      && t'.suffixes == t.suffixes
      && t.main.keys <= t'.main.keys
      && (forall q :: q in t.main.rows ==> q in t'.main.rows && t'.main.rows[q] == t.main.rows[q])
      && (forall k, l :: k in t.main.keys && l in alphabet ==>
            Canon(k + [l], n, m) in t'.main.rows || Canon(k + [l], n, m) in t'.boundary.rows)
      && (forall q :: q in t.boundary.rows ==> q in t'.main.rows || q in t'.boundary.rows)
      && (forall q :: q in t'.main.rows || q in t'.boundary.rows ==>
            q in t.main.rows || q in t.boundary.rows || ExtensionOf(q, n, m, t.main.keys, alphabet))
  {
    AddKeysKeeps(t, o, n, m, t.main.keys, alphabet);
    AddKeysGrows(t, o, n, m, t.main.keys, alphabet);
    AddKeysOnly(t, o, n, m, t.main.keys, alphabet);
    var t1 := AddKeys(t, o, n, m, t.main.keys, alphabet);
    PromoteSpec(t1, o);
    var t' := Promote(t1);
    forall k, l | k in t.main.keys && l in alphabet
      ensures Canon(k + [l], n, m) in t'.main.rows || Canon(k + [l], n, m) in t'.boundary.rows
    {
      assert Extends(t1, n, m, k, alphabet);
    }
    forall q | q in t'.main.rows || q in t'.boundary.rows
      ensures q in t.main.rows || q in t.boundary.rows || ExtensionOf(q, n, m, t.main.keys, alphabet)
    {
      assert q in Keys(t1);
      if q !in Keys(t) {
        var k, l := KeyWitness(t.main.keys, alphabet, n, m, q);
      }
    }
  }
}
