/**
 * The string primitives app/InputParser.php relies on: strpos, explode,
 * trim and strtolower, on strings of characters.
 */
module Text {
  import opened Wrappers

  /** pat occurs in s starting at position p. */
  predicate OccursAt(s: string, pat: string, p: int)
  {
    0 <= p && p + |pat| <= |s| && s[p..p + |pat|] == pat
  }

  /** The first occurrence of pat in s at or after from (strpos with an offset). */
  function FindFrom(s: string, pat: string, from: nat): (r: Option<nat>)
    requires |pat| > 0
    ensures r.Some? ==> from <= r.value && OccursAt(s, pat, r.value)
    ensures r.Some? ==> forall p :: from <= p < r.value ==> !OccursAt(s, pat, p)
    ensures r.None? ==> forall p :: from <= p ==> !OccursAt(s, pat, p)
    decreases |s| - from
  {
    if from + |pat| > |s| then None
    else if s[from..from + |pat|] == pat then Some(from)
    else FindFrom(s, pat, from + 1)
  }

  /** The first occurrence of pat in s (strpos). */
  function IndexOf(s: string, pat: string): Option<nat>
    requires |pat| > 0
  {
    FindFrom(s, pat, 0)
  }

  /** An occurrence with none before it is the one strpos finds. */
  lemma IndexOfAt(s: string, pat: string, p: nat)
    requires |pat| > 0 && OccursAt(s, pat, p)
    requires forall q :: 0 <= q < p ==> !OccursAt(s, pat, q)
    ensures IndexOf(s, pat) == Some(p)
  {
  }

  /** strpos(s, pat) !== false. */
  predicate Contains(s: string, pat: string)
    requires |pat| > 0
  {
    IndexOf(s, pat).Some?
  }

  /** Glue pieces back together with sep between them (implode). */
  function Join(pieces: seq<string>, sep: string): string
    requires |pieces| >= 1
  {
    if |pieces| == 1 then pieces[0] else pieces[0] + sep + Join(pieces[1..], sep)
  }

  /** A prefix of s that ends before the first occurrence of pat does not contain pat. */
  lemma PrefixBeforeFirst(s: string, pat: string, p: nat)
    requires |pat| > 0 && p <= |s|
    requires forall q :: 0 <= q < p ==> !OccursAt(s, pat, q)
    ensures !Contains(s[..p], pat)
  {
    var r := IndexOf(s[..p], pat);
    if r.Some? {
      var q := r.value;
      assert s[..p][q..q + |pat|] == s[q..q + |pat|];
      assert OccursAt(s, pat, q);
    }
  }

  /**
   * Split s on every occurrence of sep, left to right (explode without a
   * limit): there is always at least one piece, no piece contains sep, and
   * joining the pieces with sep gives s back.
   */
  function Explode(s: string, sep: string): (pieces: seq<string>)
    requires |sep| > 0
    ensures |pieces| >= 1
    ensures Join(pieces, sep) == s
    ensures forall k :: 0 <= k < |pieces| ==> !Contains(pieces[k], sep)
    decreases |s|
  {
    match IndexOf(s, sep)
    case None =>
      PrefixBeforeFirst(s, sep, |s|);
      assert s[..|s|] == s;
      [s]
    case Some(p) =>
      PrefixBeforeFirst(s, sep, p);
      var rest := Explode(s[p + |sep|..], sep);
      assert s == s[..p] + sep + s[p + |sep|..];
      [s[..p]] + rest
  }

  /**
   * The first piece runs up to the first sep (or is all of s); when sep
   * occurs, the remaining pieces are those of the text after it.
   */
  lemma ExplodeHead(s: string, sep: string)
    requires |sep| > 0
    ensures IndexOf(s, sep).None? ==> Explode(s, sep) == [s]
    ensures IndexOf(s, sep).Some? ==>
      var p := IndexOf(s, sep).value;
      Explode(s, sep) == [s[..p]] + Explode(s[p + |sep|..], sep)
  {
  }

  /**
   * The other half of the round trip: exploding words glued with a
   * one-character separator that none of them contains gives the words back.
   */
  lemma {:induction false} ExplodeJoin(words: seq<string>, c: char)
    requires |words| >= 1
    requires forall k :: 0 <= k < |words| ==> c !in words[k]
    ensures Explode(Join(words, [c]), [c]) == words
    decreases |words|
  {
    var s := Join(words, [c]);
    var w := words[0];
    forall q | 0 <= q < |w| ensures !OccursAt(s, [c], q) {
      assert s[q] == w[q];
    }
    if |words| == 1 {
      assert !OccursAt(s, [c], |w|);
      ExplodeHead(s, [c]);
    } else {
      assert s == w + [c] + Join(words[1..], [c]);
      assert OccursAt(s, [c], |w|) by {
        assert s[|w|..|w| + 1] == [c];
      }
      IndexOfAt(s, [c], |w|);
      ExplodeHead(s, [c]);
      assert s[..|w|] == w;
      assert s[|w| + 1..] == Join(words[1..], [c]);
      ExplodeJoin(words[1..], c);
    }
  }

  /** Drop every leading character that is in cs. */
  function TrimLeft(s: string, cs: set<char>): (r: string)
    ensures |r| <= |s| && r == s[|s| - |r|..]
    ensures r == [] || r[0] !in cs
    ensures forall k :: 0 <= k < |s| - |r| ==> s[k] in cs
  {
    if s != [] && s[0] in cs then TrimLeft(s[1..], cs) else s
  }

  /** Drop every trailing character that is in cs. */
  function TrimRight(s: string, cs: set<char>): (r: string)
    ensures |r| <= |s| && r == s[..|r|]
    ensures r == [] || r[|r| - 1] !in cs
    ensures forall k :: |r| <= k < |s| ==> s[k] in cs
  {
    if s != [] && s[|s| - 1] in cs then TrimRight(s[..|s| - 1], cs) else s
  }

  /** r is s[i..i + |r|] and everything of s around it is in cs. */
  predicate Stripped(s: string, cs: set<char>, i: int, r: string)
  {
    && 0 <= i <= |s| - |r| && r == s[i..i + |r|]
    && (forall k :: 0 <= k < i ==> s[k] in cs)
    && (forall k :: i + |r| <= k < |s| ==> s[k] in cs)
  }

  /**
   * trim(s, cs): the middle of s once the characters of cs are stripped from
   * both ends; neither end of the result is in cs.
   */
  function Trim(s: string, cs: set<char>): (r: string)
    ensures r == [] || (r[0] !in cs && r[|r| - 1] !in cs)
    ensures exists i :: Stripped(s, cs, i, r)
  {
    var l := TrimLeft(s, cs);
    var r := TrimRight(l, cs);
    var i := |s| - |l|;
    assert Stripped(s, cs, i, r) by {
      assert l == s[i..];
      assert r == l[..|r|] == s[i..i + |r|];
      forall k | i + |r| <= k < |s| ensures s[k] in cs {
        assert s[k] == l[k - i];
      }
    }
    r
  }

  /** A string that neither starts nor ends with a character of cs is left alone. */
  lemma TrimNoop(s: string, cs: set<char>)
    requires s == [] || (s[0] !in cs && s[|s| - 1] !in cs)
    ensures Trim(s, cs) == s
  {
  }

  /** A trailing character of cs after a string that does not start with one is stripped. */
  lemma TrimDropsLast(s: string, c: char, cs: set<char>)
    requires c in cs && s != [] && s[0] !in cs
    ensures Trim(s + [c], cs) == TrimRight(s, cs)
  {
    var t := s + [c];
    assert TrimLeft(t, cs) == t;
    assert t[..|t| - 1] == s;
    assert TrimRight(t, cs) == TrimRight(s, cs);
  }

  /** The characters PHP's trim strips when it is given no character list. */
  const Whitespace: set<char> := {' ', '\t', '\n', '\r', '\0', '\U{B}'}

  /** ASCII lower case (strtolower). */
  function LowerChar(c: char): char
  {
    if 'A' <= c <= 'Z' then (c as int + 32) as char else c
  }

  function Lower(s: string): (r: string)
    ensures |r| == |s| && forall k :: 0 <= k < |s| ==> r[k] == LowerChar(s[k])
  {
    if s == [] then [] else [LowerChar(s[0])] + Lower(s[1..])
  }

  predicate IsDigit(c: char)
  {
    '0' <= c <= '9'
  }

  /** The value of a string of decimal digits, read left to right. */
  function DigitsValue(d: string): nat
    requires forall k :: 0 <= k < |d| ==> IsDigit(d[k])
  {
    if d == [] then 0
    else
      var last := d[|d| - 1];
      assert IsDigit(last);
      10 * DigitsValue(d[..|d| - 1]) + (last as int - '0' as int)
  }
}
