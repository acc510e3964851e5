/** The Roman-numeral table and the one-pass greedy decoder of app/InputParser.php. */
module Numerals {

  /** One entry of the numeral table: its literal text and its value. */
  datatype Numeral = Numeral(text: string, value: nat)

  /** The seven base letters, in declaration order. */
  const Base: seq<Numeral> := [
    Numeral("M", 1000), Numeral("D", 500), Numeral("C", 100), Numeral("L", 50),
    Numeral("X", 10), Numeral("V", 5), Numeral("I", 1)
  ]

  /** The six subtractive pairs, in declaration order. */
  const Extra: seq<Numeral> := [
    Numeral("CM", 900), Numeral("CD", 400), Numeral("XC", 90),
    Numeral("XL", 40), Numeral("IX", 9), Numeral("IV", 4)
  ]

  /** Strictly decreasing values: the order a reverse sort by value leaves. */
  predicate StrictlyDescending(t: seq<Numeral>)
  {
    forall m, n :: 0 <= m < n < |t| ==> t[m].value > t[n].value
  }

  /**
   * The merge of the base letters and the subtractive pairs, sorted by
   * descending value: the table the decoder walks through once.
   */
  const Table: seq<Numeral> := [
    Numeral("M", 1000), Numeral("CM", 900), Numeral("D", 500), Numeral("CD", 400),
    Numeral("C", 100), Numeral("XC", 90), Numeral("L", 50), Numeral("XL", 40),
    Numeral("X", 10), Numeral("IX", 9), Numeral("V", 5), Numeral("IV", 4),
    Numeral("I", 1)
  ]

  /** The table holds exactly the base letters and the pairs, by descending value. */
  lemma TableIsSortedMerge()
    ensures |Table| == |Base| + |Extra|
    ensures forall e :: e in Table <==> e in Base || e in Extra
    ensures StrictlyDescending(Table)
  {
  }

  /**
   * Two strictly descending tables holding the same entries are equal: a
   * reverse sort by value has exactly one possible outcome.
   */
  lemma {:induction false} SortedTableIsUnique(t: seq<Numeral>, u: seq<Numeral>)
    requires StrictlyDescending(t) && StrictlyDescending(u)
    requires |t| == |u| && forall e :: e in t <==> e in u
    ensures t == u
    decreases |t|
  {
    if t != [] && u != [] {
      // The heads are the largest entries of each, so they coincide.
      assert t[0] in u && u[0] in t;
      var m :| 0 <= m < |u| && u[m] == t[0];
      var n :| 0 <= n < |t| && t[n] == u[0];
      assert t[0] == u[0];
      forall e ensures e in t[1..] <==> e in u[1..] {
        if e in t[1..] {
          var k :| 0 <= k < |t| - 1 && t[1..][k] == e;
          assert t[k + 1] == e && e != t[0] && e in u;
          var j :| 0 <= j < |u| && u[j] == e;
          assert j != 0 && u[1..][j - 1] == e;
        }
        if e in u[1..] {
          var k :| 0 <= k < |u| - 1 && u[1..][k] == e;
          assert u[k + 1] == e && e != u[0] && e in t;
          var j :| 0 <= j < |t| && t[j] == e;
          assert j != 0 && t[1..][j - 1] == e;
        }
      }
      SortedTableIsUnique(t[1..], u[1..]);
    }
  }

  /** What the decoder needs of a table: every text is non-empty, no value exceeds 1000. */
  predicate Decodable(t: seq<Numeral>)
  {
    forall k :: 0 <= k < |t| ==> t[k].text != [] && t[k].value <= 1000
  }

  /**
   * Reverse-sorting the merged table by value has exactly one outcome, and
   * it is Table.
   */
  lemma ReverseSortIsTable(u: seq<Numeral>)
    requires StrictlyDescending(u) && |u| == |Base| + |Extra|
    requires forall e :: e in u <==> e in Base || e in Extra
    ensures u == Table
  {
    TableIsSortedMerge();
    SortedTableIsUnique(u, Table);
  }

  /**
   * The decoder's state after walking entries i.. of table t over the
   * remaining string s: the value added and what is left of s. Entry i is
   * consumed as long as its text is a prefix of the rest; then the pass
   * moves on to entry i + 1 and never comes back.
   */
  function Pass(t: seq<Numeral>, s: string, i: nat): (r: (nat, string))
    requires Decodable(t) && i <= |t|
    decreases |t| - i, |s|
  {
    if i == |t| then (0, s)
    else if t[i].text <= s then
      var rest := Pass(t, s[|t[i].text|..], i);
      (t[i].value + rest.0, rest.1)
    else Pass(t, s, i + 1)
  }

  /**
   * The pass only ever removes a prefix: what it leaves is a suffix of its
   * input, and each consumed character adds at most 1000.
   */
  lemma {:induction false} PassConsumesPrefix(t: seq<Numeral>, s: string, i: nat)
    requires Decodable(t) && i <= |t|
    ensures var r := Pass(t, s, i);
      |r.1| <= |s| && r.1 == s[|s| - |r.1|..] && r.0 <= 1000 * (|s| - |r.1|)
    decreases |t| - i, |s|
  {
    if i < |t| {
      if t[i].text <= s {
        var n := |t[i].text|;
        PassConsumesPrefix(t, s[n..], i);
        var r := Pass(t, s[n..], i);
        assert s[n..][|s[n..]| - |r.1|..] == s[|s| - |r.1|..];
      } else {
        PassConsumesPrefix(t, s, i + 1);
      }
    }
  }

  lemma TableDecodable()
    ensures Decodable(Table)
  {
  }

  /** The decoded value of a numeral string: never negative, at most 1000 per character. */
  function Decode(s: string): (n: nat)
    ensures n <= 1000 * |s|
  {
    TableDecodable();
    PassConsumesPrefix(Table, s, 0);
    Pass(Table, s, 0).0
  }

  /** What the single pass leaves unconsumed (and the decoder ignores): a suffix of s. */
  function Leftover(s: string): (rest: string)
    ensures |rest| <= |s| && rest == s[|s| - |rest|..]
  {
    TableDecodable();
    PassConsumesPrefix(Table, s, 0);
    Pass(Table, s, 0).1
  }

  /** The empty string decodes to 0 and leaves nothing. */
  lemma {:induction false} PassEmpty(t: seq<Numeral>, i: nat)
    requires Decodable(t) && i <= |t|
    ensures Pass(t, "", i).0 == 0 && Pass(t, "", i).1 == ""
    decreases |t| - i
  {
    if i < |t| {
      PassEmpty(t, i + 1);
    }
  }

  lemma DecodeEmpty()
    ensures Decode("") == 0 && Leftover("") == ""
  {
    TableDecodable();
    PassEmpty(Table, 0);
  }

  // ---------------------------------------------------------------------
  // Concatenations of table entries in table order decode to their sum.

  /** Indices into t, from i on, in non-decreasing order (repeats allowed). */
  predicate Ordered(t: seq<Numeral>, ks: seq<nat>, i: nat)
  {
    && (forall m :: 0 <= m < |ks| ==> i <= ks[m] < |t|)
    && (forall m, n :: 0 <= m < n < |ks| ==> ks[m] <= ks[n])
  }

  /** The numeral string spelled by the entries ks of t. */
  function Spell(t: seq<Numeral>, ks: seq<nat>): string
    requires forall m :: 0 <= m < |ks| ==> ks[m] < |t|
  {
    if ks == [] then "" else t[ks[0]].text + Spell(t, ks[1..])
  }

  /** The sum of the values of the entries ks of t. */
  function Sum(t: seq<Numeral>, ks: seq<nat>): nat
    requires forall m :: 0 <= m < |ks| ==> ks[m] < |t|
  {
    if ks == [] then 0 else t[ks[0]].value + Sum(t, ks[1..])
  }

  /** The position of a base letter in the table. */
  function Rank(c: char): nat
  {
    match c
    case 'M' => 0
    case 'D' => 2
    case 'C' => 4
    case 'L' => 6
    case 'X' => 8
    case 'V' => 10
    case _ => 12
  }

  /**
   * The shape of the sorted table that makes greedy decoding exact: texts of
   * one or two letters; a one-letter entry sits at its letter's rank, a
   * two-letter entry just after the rank of its second letter, and no entry
   * starts with a letter ranked before it.
   */
  predicate Ranked(t: seq<Numeral>)
  {
    forall k :: 0 <= k < |t| ==>
      && 1 <= |t[k].text| <= 2
      && (|t[k].text| == 1 ==> Rank(t[k].text[0]) == k)
      && (|t[k].text| == 2 ==> Rank(t[k].text[1]) + 1 == k)
      && Rank(t[k].text[0]) >= k
  }

  lemma TableRanked()
    ensures Ranked(Table)
  {
    forall k | 0 <= k < |Table|
      ensures 1 <= |Table[k].text| <= 2
      ensures |Table[k].text| == 1 ==> Rank(Table[k].text[0]) == k
      ensures |Table[k].text| == 2 ==> Rank(Table[k].text[1]) + 1 == k
      ensures Rank(Table[k].text[0]) >= k
    {
      assert k == 0 || k == 1 || k == 2 || k == 3 || k == 4 || k == 5 || k == 6
          || k == 7 || k == 8 || k == 9 || k == 10 || k == 11 || k == 12;
    }
  }

  /** An entry is never a prefix of a spelling that starts with a later entry. */
  lemma NotPrefixOfLater(t: seq<Numeral>, ks: seq<nat>, i: nat)
    requires Ranked(t) && i < |t| && Ordered(t, ks, i) && ks != [] && ks[0] > i
    ensures !(t[i].text <= Spell(t, ks))
  {
    var j := ks[0];
    var s := Spell(t, ks);
    assert s == t[j].text + Spell(t, ks[1..]);
    assert s[0] == t[j].text[0];
    if |t[j].text| == 1 && |ks| > 1 {
      // The second letter of s is the first letter of the next entry.
      assert Spell(t, ks[1..]) == t[ks[1]].text + Spell(t, ks[2..]);
      assert s[1] == t[ks[1]].text[0];
    }
  }

  /** Entry i matches: its value is added and it is tried again on the rest. */
  lemma PassTake(t: seq<Numeral>, s: string, i: nat)
    requires Decodable(t) && i < |t| && t[i].text <= s
    ensures Pass(t, s, i).0 == t[i].value + Pass(t, s[|t[i].text|..], i).0
    ensures Pass(t, s, i).1 == Pass(t, s[|t[i].text|..], i).1
  {
  }

  lemma OrderedTail(t: seq<Numeral>, ks: seq<nat>, i: nat)
    requires Ordered(t, ks, i) && ks != []
    ensures Ordered(t, ks[1..], i)
  {
    var rest := ks[1..];
    forall m | 0 <= m < |rest| ensures i <= rest[m] < |t| {
      assert rest[m] == ks[m + 1];
    }
    forall m, n | 0 <= m < n < |rest| ensures rest[m] <= rest[n] {
      assert rest[m] == ks[m + 1] && rest[n] == ks[n + 1];
    }
  }

  lemma {:induction false} PassOrdered(t: seq<Numeral>, ks: seq<nat>, i: nat)
    requires Decodable(t) && Ranked(t) && i <= |t| && Ordered(t, ks, i)
    ensures Pass(t, Spell(t, ks), i).0 == Sum(t, ks) && Pass(t, Spell(t, ks), i).1 == ""
    decreases |t| - i, |ks|
  {
    if ks == [] {
      PassEmpty(t, i);
    } else if ks[0] == i {
      var rest := ks[1..];
      OrderedTail(t, ks, i);
      var s := t[i].text + Spell(t, rest);
      assert Spell(t, ks) == s;
      assert s[|t[i].text|..] == Spell(t, rest);
      PassTake(t, s, i);
      PassOrdered(t, rest, i);
    } else {
      NotPrefixOfLater(t, ks, i);
      PassOrdered(t, ks, i + 1);
    }
  }

  /**
   * Any concatenation of table entries taken in table order, repeats
   * allowed, decodes to the sum of their values with nothing left over.
   */
  lemma DecodeOrdered(ks: seq<nat>)
    requires Ordered(Table, ks, 0)
    ensures Decode(Spell(Table, ks)) == Sum(Table, ks) && Leftover(Spell(Table, ks)) == ""
  {
    TableDecodable();
    TableRanked();
    PassOrdered(Table, ks, 0);
  }

  /** A single base letter decodes to its own value. */
  lemma DecodeBase(k: nat)
    requires k < |Base|
    ensures Decode(Base[k].text) == Base[k].value
  {
    assert Table[2 * k] == Base[k];
    DecodeOrdered([2 * k]);
    assert Spell(Table, [2 * k]) == Table[2 * k].text;
  }

  /** "II" is 2 and "IV" is 4. */
  lemma SmallExamples()
    ensures Decode("II") == 2 && Decode("IV") == 4
  {
    DecodeOrdered([12, 12]);
    assert Spell(Table, [12, 12]) == "II";
    DecodeOrdered([11]);
    assert Spell(Table, [11]) == "IV";
  }

  /** The decoder is permissive: the non-canonical "IIII" is 4 as well. */
  lemma PermissiveExample()
    ensures Decode("IIII") == 4
  {
    var ks := [12, 12, 12, 12];
    DecodeOrdered(ks);
    assert Spell(Table, ks) == "IIII";
  }

  /** Entry i cannot match s: the pass moves on to entry i + 1. */
  lemma PassSkip(t: seq<Numeral>, s: string, i: nat)
    requires Decodable(t) && i < |t| && s != [] && t[i].text[0] != s[0]
    ensures Pass(t, s, i) == Pass(t, s, i + 1)
  {
  }

  /** A string starting with 'V' skips the first ten entries, M down to IX. */
  lemma SkipToV(s: string)
    requires s != [] && s[0] == 'V'
    ensures Pass(Table, s, 0) == Pass(Table, s, 10)
  {
    TableDecodable();
    PassSkip(Table, s, 0); PassSkip(Table, s, 1); PassSkip(Table, s, 2);
    PassSkip(Table, s, 3); PassSkip(Table, s, 4);
    SkipFromFive(s);
  }

  lemma SkipFromFive(s: string)
    requires s != [] && s[0] == 'V'
    ensures Pass(Table, s, 5) == Pass(Table, s, 10)
  {
    TableDecodable();
    PassSkip(Table, s, 5); PassSkip(Table, s, 6); PassSkip(Table, s, 7);
    PassSkip(Table, s, 8); PassSkip(Table, s, 9);
  }

  /** An 'X' met after the V entry is no longer matched by anything. */
  lemma XAfterV(x: string)
    requires x == "X"
    ensures Pass(Table, x, 10) == (0, x)
  {
    TableDecodable();
    PassSkip(Table, x, 10); PassSkip(Table, x, 11); PassSkip(Table, x, 12);
  }

  /** The pass never returns to an earlier entry: "VX" is 5 and the "X" is dropped. */
  lemma OnePassExample()
    ensures Decode("VX") == 5 && Leftover("VX") == "X"
  {
    TableDecodable();
    var s, x := "VX", "X";
    SkipToV(s);
    assert s[1..] == x;
    PassTake(Table, s, 10);
    XAfterV(x);
  }
}
