/**
 * How app/InputParser.php reads one line: question or instruction, the
 * split on " is ", and the patterns each side is matched against.
 */
module Sentences {
  import opened Wrappers
  import opened Text
  import Numerals

  const Separator: string := " is "

  /** A line is a question when its last character is '?'. */
  predicate IsQuestion(line: string)
  {
    |line| > 0 && line[|line| - 1] == '?'
  }

  /** The line holds the separator " is " somewhere. */
  predicate IsValidStructure(line: string)
  {
    Contains(line, Separator)
  }

  /** Where the second piece of an explode on " is " ends within the text after the first separator. */
  function PieceEnd(after: string): (q: nat)
    ensures q <= |after| && !Contains(after[..q], Separator)
    ensures q < |after| ==> OccursAt(after, Separator, q)
  {
    match IndexOf(after, Separator)
    case Some(q) => PrefixBeforeFirst(after, Separator, q); q
    case None => PrefixBeforeFirst(after, Separator, |after|); |after|
  }

  /**
   * The two sides of a sentence. The left side is the text before the first
   * " is ", trimmed of whitespace; the right side is the text between the
   * first and the second " is " (or the end of the line), with spaces and
   * '?' stripped from both ends. Text after a second " is " is dropped.
   */
  function SplitSentence(line: string): (string, string)
    requires IsValidStructure(line)
  {
    var pieces := Explode(line, Separator);
    ExplodeHead(line, Separator);
    var p := IndexOf(line, Separator).value;
    ExplodeHead(line[p + |Separator|..], Separator);
    (Trim(pieces[0], Whitespace), Trim(pieces[1], {' ', '?'}))
  }

  /**
   * The left side is the text before the first " is "; the right side is the
   * text after it up to the next " is " or the end of the line.
   */
  lemma SplitSentenceSides(line: string)
    requires IsValidStructure(line)
    ensures var p := IndexOf(line, Separator).value;
      var after := line[p + |Separator|..];
      var sides := SplitSentence(line);
      && sides.0 == Trim(line[..p], Whitespace)
      && sides.1 == Trim(after[..PieceEnd(after)], {' ', '?'})
  {
    var pieces := Explode(line, Separator);
    ExplodeHead(line, Separator);
    var p := IndexOf(line, Separator).value;
    var after := line[p + |Separator|..];
    ExplodeHead(after, Separator);
    assert pieces[0] == line[..p];
    assert pieces[1] == Explode(after, Separator)[0] == after[..PieceEnd(after)];
  }

  /** No space in s is followed by an 'i', so no " is " can start inside s. */
  predicate NoSpaceBeforeI(s: string)
  {
    forall q :: 0 <= q < |s| - 1 ==> !(s[q] == ' ' && s[q + 1] == 'i')
  }

  /** Text with no space before an 'i' holds no separator. */
  lemma NoSeparatorIn(s: string)
    requires NoSpaceBeforeI(s)
    ensures IndexOf(s, Separator).None? && PieceEnd(s) == |s|
  {
    forall q | 0 <= q && q + 4 <= |s| ensures !OccursAt(s, Separator, q) {
      assert s[q..q + 4][0] == s[q] && s[q..q + 4][1] == s[q + 1];
    }
  }

  /** A line without the letter 's' cannot hold " is ". */
  lemma NoSNoSeparator(line: string)
    requires forall k :: 0 <= k < |line| ==> line[k] != 's'
    ensures !IsValidStructure(line)
  {
    forall q | 0 <= q && q + 4 <= |line| ensures !OccursAt(line, Separator, q) {
      assert line[q..q + 4][2] == line[q + 2];
    }
  }

  /** Text with no space before an 'i' holds no separator, even with a space after it. */
  lemma NoSpaceBeforeIFree(s: string)
    requires NoSpaceBeforeI(s)
    ensures !Contains(s + " ", Separator) && !Contains(s, Separator)
  {
    var t := s + " ";
    forall q | 0 <= q < |t| - 1 ensures !(t[q] == ' ' && t[q + 1] == 'i') {
      assert t[q] == s[q];
      assert q + 1 < |s| ==> t[q + 1] == s[q + 1];
    }
    NoSeparatorIn(t);
    NoSeparatorIn(s);
  }

  /** A prefix of text without " is " holds none either. */
  lemma NoSeparatorInPrefix(s: string, t: string)
    requires !Contains(s + t, Separator)
    ensures !Contains(s, Separator)
  {
    forall q | 0 <= q && q + 4 <= |s| ensures !OccursAt(s, Separator, q) {
      assert (s + t)[q..q + 4] == s[q..q + 4];
      assert !OccursAt(s + t, Separator, q);
    }
  }

  /** No " is " starts inside left + " is " + right before the one after left. */
  lemma NoEarlierSeparator(left: string, right: string)
    requires !Contains(left + " ", Separator)
    ensures forall q :: 0 <= q < |left| ==> !OccursAt(left + Separator + right, Separator, q)
  {
    var line, spaced := left + Separator + right, left + " ";
    forall q | 0 <= q < |left| ensures !OccursAt(line, Separator, q) {
      if q + 4 <= |spaced| {
        assert line[q..q + 4] == spaced[q..q + 4];
        assert !OccursAt(spaced, Separator, q);
      } else if q + 1 == |left| {
        assert line[q + 1] == ' ' && Separator[1] == 'i';
        assert line[q..q + 4][1] == line[q + 1];
      } else {
        assert line[q + 2] == ' ' && Separator[2] == 's';
        assert line[q..q + 4][2] == line[q + 2];
      }
    }
  }

  /**
   * A sentence written as left + " is " + right splits at that very " is "
   * when no earlier " is " starts in left (or runs from left into the
   * separator) and right holds none: the sides are left trimmed of
   * whitespace and right trimmed of ' ' and '?'.
   */
  lemma SplitAtFirst(left: string, right: string)
    requires !Contains(left + " ", Separator) && !Contains(right, Separator)
    ensures IsValidStructure(left + Separator + right)
    ensures IndexOf(left + Separator + right, Separator) == Some(|left|)
    ensures SplitSentence(left + Separator + right)
      == (Trim(left, Whitespace), Trim(right, {' ', '?'}))
  {
    var line := left + Separator + right;
    assert line[..|left|] == left;
    assert line[|left| + |Separator|..] == right;
    assert OccursAt(line, Separator, |left|) by {
      assert line[|left|..|left| + 4] == Separator;
    }
    NoEarlierSeparator(left, right);
    IndexOfAt(line, Separator, |left|);
    SplitSentenceSides(line);
    assert right[..|right|] == right;
  }

  /** The right side names a base letter: "M", "D", "C", "L", "X", "V" or "I". */
  predicate IsUnitAssignment(right: string)
  {
    exists k :: 0 <= k < |Numerals.Base| && Numerals.Base[k].text == right
  }

  lemma UnitAssignmentLetters(right: string)
    ensures IsUnitAssignment(right) <==> |right| == 1 && right[0] in "MDCLXVI"
  {
    if |right| == 1 && right[0] in "MDCLXVI" {
      var c := right[0];
      assert right == [c];
      var k := if c == 'M' then 0 else if c == 'D' then 1 else if c == 'C' then 2
        else if c == 'L' then 3 else if c == 'X' then 4 else if c == 'V' then 5 else 6;
      assert Numerals.Base[k].text == right;
    }
  }

  /** The regular expression's "\d+": one or more decimal digits. */
  predicate IsNumber(d: string)
  {
    |d| > 0 && forall k :: 0 <= k < |d| ==> IsDigit(d[k])
  }

  /**
   * right reads "<digits> <word>" with word "credits" in any case, optionally
   * followed by one newline (which a PCRE `$` also accepts).
   */
  predicate CreditsPhrase(right: string, digits: string, word: string, newline: bool)
  {
    && IsNumber(digits)
    && Lower(word) == "credits"
    && right == digits + " " + word + (if newline then "\n" else "")
  }

  /** The text a pattern ending in `$` must match in full: right without one trailing newline. */
  function Subject(right: string): string
  {
    if |right| > 0 && right[|right| - 1] == '\n' then right[..|right| - 1] else right
  }

  /**
   * The match of '/^(\d+) credits$/i' against the right side: the number of
   * credits, or None when the pattern does not match.
   */
  function MetalCredits(right: string): Option<nat>
  {
    var body := Subject(right);
    if |body| >= 9 && IsNumber(body[..|body| - 8]) && Lower(body[|body| - 8..]) == " credits"
    then Some(DigitsValue(body[..|body| - 8]))
    else None
  }

  /** Lower case commutes with dropping the first character. */
  lemma LowerTail(s: string)
    requires |s| > 0
    ensures Lower(s[1..]) == Lower(s)[1..]
  {
  }

  /** The text the pattern is matched against: the line without one trailing newline. */
  lemma CreditsBody(right: string, digits: string, word: string, newline: bool)
    requires CreditsPhrase(right, digits, word, newline)
    ensures newline <==> |right| > 0 && right[|right| - 1] == '\n'
    ensures digits + " " + word == Subject(right)
  {
    assert |word| == 7;
    assert LowerChar(word[6]) == Lower(word)[6] == 's';
  }

  /** A suffix reading " credits" in lower case is a space and a word reading "credits". */
  lemma CreditsSuffix(suffix: string)
    requires |suffix| == 8 && Lower(suffix) == " credits"
    ensures suffix == " " + suffix[1..] && Lower(suffix[1..]) == "credits"
  {
    LowerTail(suffix);
    assert LowerChar(suffix[0]) == ' ';
  }

  /** Putting back the dropped newline gives the line again. */
  lemma SubjectRestores(right: string)
    ensures var newline := |right| > 0 && right[|right| - 1] == '\n';
      right == Subject(right) + (if newline then "\n" else "")
  {
  }

  /** A number, a space and a word reading "credits", perhaps with a newline, is the phrase. */
  lemma PhraseFromParts(right: string, body: string, digits: string, word: string, newline: bool)
    requires IsNumber(digits) && Lower(word) == "credits"
    requires body == digits + (" " + word) && right == body + (if newline then "\n" else "")
    ensures CreditsPhrase(right, digits, word, newline)
  {
    assert digits + " " + word == digits + (" " + word);
  }

  /** Whatever is recognised has the form "<digits> <Credits>", and the number is the digits' value. */
  lemma MetalCreditsPhrase(right: string)
    ensures MetalCredits(right).Some? ==> exists digits, word, newline ::
      CreditsPhrase(right, digits, word, newline) && MetalCredits(right).value == DigitsValue(digits)
  {
    var newline := |right| > 0 && right[|right| - 1] == '\n';
    var body := Subject(right);
    if MetalCredits(right).Some? {
      assert |body| >= 9 && IsNumber(body[..|body| - 8]) && Lower(body[|body| - 8..]) == " credits";
      var digits, suffix := body[..|body| - 8], body[|body| - 8..];
      CreditsSuffix(suffix);
      var word := suffix[1..];
      assert body == digits + suffix;
      SubjectRestores(right);
      PhraseFromParts(right, body, digits, word, newline);
    }
  }

  /** Every line of the form "<digits> <Credits>" is recognised, with its number. */
  lemma CreditsPhraseMatches(right: string, digits: string, word: string, newline: bool)
    requires CreditsPhrase(right, digits, word, newline)
    ensures MetalCredits(right) == Some(DigitsValue(digits))
  {
    var body := digits + " " + word;
    CreditsBody(right, digits, word, newline);
    assert body[..|body| - 8] == digits;
    assert body[|body| - 8..] == " " + word;
    LowerTail(" " + word);
    assert Lower(" " + word) == " credits";
  }

  /** s splits into space-free units followed by one last token. */
  predicate SplitsInto(s: string, units: seq<string>, last: string)
  {
    && Join(units + [last], " ") == s
    && (forall k :: 0 <= k < |units| ==> !Contains(units[k], " "))
    && !Contains(last, " ")
  }

  /**
   * The units and the metal of "<unit> ... <unit> <metal>": the tokens between
   * single spaces, all but the last being units and the last, trimmed and
   * lower-cased, naming the metal.
   */
  function SeparateMetalFromUnits(s: string): (string, seq<string>)
  {
    var tokens := Explode(s, " ");
    (Lower(Trim(tokens[|tokens| - 1], Whitespace)), tokens[..|tokens| - 1])
  }

  /** The units and the metal token glue back into the phrase they came from. */
  lemma SeparateMetalFromUnitsSplits(s: string)
    ensures var r := SeparateMetalFromUnits(s);
      exists last :: SplitsInto(s, r.1, last) && r.0 == Lower(Trim(last, Whitespace))
  {
    var tokens := Explode(s, " ");
    var units, last := tokens[..|tokens| - 1], tokens[|tokens| - 1];
    assert units + [last] == tokens;
    assert SplitsInto(s, units, last);
    assert SeparateMetalFromUnits(s) == (Lower(Trim(last, Whitespace)), units);
  }

  /** The question asks for the value of some units. */
  predicate AsksHowMuch(left: string)
  {
    Contains(left, "how much")
  }

  /** The question asks for the credits of some amount of metal. */
  predicate AsksHowMany(left: string)
  {
    Contains(left, "how many")
  }
}
