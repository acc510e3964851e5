/**
 * Whole lines through the interpreter: how a well-formed sentence is split,
 * what a unit or metal declaration followed by a question about it answers,
 * and the conversations of tests/InputParserTest.php.
 */
module Scenarios {
  import opened Wrappers
  import opened Text
  import opened Sentences
  import opened Semantics
  import Numerals

  /** Neither end of s is in cs. */
  predicate TrimmedBy(s: string, cs: set<char>)
  {
    s == [] || (s[0] !in cs && s[|s| - 1] !in cs)
  }

  /** Appending '?' to text without " is " does not create one. */
  lemma QuestionMarkAddsNoSeparator(s: string)
    requires !Contains(s, Separator)
    ensures !Contains(s + "?", Separator)
  {
    var t := s + "?";
    forall q | 0 <= q && q + 4 <= |t| ensures !OccursAt(t, Separator, q) {
      if q + 4 <= |s| {
        assert t[q..q + 4] == s[q..q + 4];
        assert !OccursAt(s, Separator, q);
      } else {
        assert t[q..q + 4][3] == t[q + 3] == '?';
      }
    }
  }

  /** Stripping ' ' and '?' from subject + "?" leaves subject. */
  lemma TrimQuestionMark(subject: string)
    requires |subject| > 0 && TrimmedBy(subject, {' ', '?'})
    ensures Trim(subject + "?", {' ', '?'}) == subject
  {
    TrimDropsLast(subject, '?', {' ', '?'});
    assert TrimRight(subject, {' ', '?'}) == subject;
  }

  /** A question "<left> is <subject>?" splits into left and subject. */
  lemma QuestionSplits(left: string, subject: string)
    requires !Contains(left + " ", Separator) && TrimmedBy(left, Whitespace)
    requires !Contains(subject, Separator) && |subject| > 0 && TrimmedBy(subject, {' ', '?'})
    ensures var line := left + Separator + subject + "?";
      IsValidStructure(line) && IsQuestion(line) && SplitSentence(line) == (left, subject)
  {
    var line := left + Separator + subject + "?";
    assert line == left + Separator + (subject + "?");
    assert IsQuestion(line) by {
      assert line[|line| - 1] == '?';
    }
    assert IsValidStructure(line) && SplitSentence(line) == (left, subject) by {
      QuestionMarkAddsNoSeparator(subject);
      SplitAtFirst(left, subject + "?");
      TrimQuestionMark(subject);
      TrimNoop(left, Whitespace);
    }
  }

  /**
   * A question "<left> is <subject>?" reaches answerQuestion with exactly
   * left and subject as its two sides, and the tables do not change.
   */
  lemma QuestionLine(st: State, left: string, subject: string)
    requires !Contains(left + " ", Separator) && TrimmedBy(left, Whitespace)
    requires !Contains(subject, Separator) && |subject| > 0 && TrimmedBy(subject, {' ', '?'})
    ensures var q := Question(st, left, subject);
      Step(st, left + Separator + subject + "?")
        == (st, if q.Ok? then Answered(q.value) else Failed(q.error))
  {
    QuestionSplits(left, subject);
  }

  /** An instruction "<left> is <right>" splits into left and right. */
  lemma InstructionSplits(left: string, right: string)
    requires !Contains(left + " ", Separator) && TrimmedBy(left, Whitespace)
    requires !Contains(right, Separator) && |right| > 0 && TrimmedBy(right, {' ', '?'})
    ensures var line := left + Separator + right;
      IsValidStructure(line) && !IsQuestion(line) && SplitSentence(line) == (left, right)
  {
    var line := left + Separator + right;
    SplitAtFirst(left, right);
    TrimNoop(right, {' ', '?'});
    TrimNoop(left, Whitespace);
    assert line[|line| - 1] == right[|right| - 1];
  }

  /**
   * An instruction "<left> is <right>" reaches processInstruction with
   * exactly left and right as its two sides; when it is rejected the tables
   * do not change.
   */
  lemma InstructionLine(st: State, left: string, right: string)
    requires !Contains(left + " ", Separator) && TrimmedBy(left, Whitespace)
    requires !Contains(right, Separator) && |right| > 0 && TrimmedBy(right, {' ', '?'})
    ensures var r := Instruction(st, left, right);
      Step(st, left + Separator + right)
        == if r.Ok? then (r.value, Accepted) else (st, Failed(r.error))
  {
    InstructionSplits(left, right);
  }

  /** "how much" and "how many Credits" are read as what they ask. */
  lemma QuestionKeywords()
    ensures NoSpaceBeforeI("how much") && TrimmedBy("how much", Whitespace)
    ensures AsksHowMuch("how much")
    ensures NoSpaceBeforeI("how many Credits") && TrimmedBy("how many Credits", Whitespace)
    ensures !AsksHowMuch("how many Credits") && AsksHowMany("how many Credits")
  {
    var much, many := "how much", "how many Credits";
    assert OccursAt(much, "how much", 0) by {
      assert much[0..8] == "how much";
    }
    IndexOfAt(much, "how much", 0);
    assert OccursAt(many, "how many", 0) by {
      assert many[0..8] == "how many";
    }
    IndexOfAt(many, "how many", 0);
    forall q | 0 <= q && q + 8 <= |many| ensures !OccursAt(many, "how much", q) {
      assert many[q..q + 8][0] == many[q];
      assert many[q..q + 8][6] == many[q + 6];
    }
  }

  /** A word: not empty, and no whitespace or '?' anywhere in it. */
  predicate Word(w: string)
  {
    |w| > 0 && forall k :: 0 <= k < |w| ==> w[k] !in Whitespace && w[k] != '?'
  }

  lemma WordIsPlain(w: string)
    requires Word(w)
    ensures !Contains(w + " ", Separator) && !Contains(w, Separator)
    ensures TrimmedBy(w, Whitespace) && TrimmedBy(w, {' ', '?'})
    ensures Explode(w, " ") == [w]
  {
    assert forall k :: 0 <= k < |w| ==> w[k] != ' ';
    assert Join([w], " ") == w;
    ExplodeJoin([w], ' ');
    NoSpaceBeforeIFree(w);
  }

  /** "how much is <unit>?" answers the value of the unit's letter, or names the unit as unknown. */
  lemma HowMuchWord(st: State, unit: string)
    requires Word(unit)
    ensures Step(st, "how much is " + unit + "?") ==
      if unit in st.assignments
      then (st, Answered(UnitsAnswer(unit, Numerals.Decode(st.assignments[unit]))))
      else (st, Failed(UnknownUnit(unit)))
  {
    var q := Question(st, "how much", unit);
    assert "how much" + Separator + unit + "?" == "how much is " + unit + "?";
    assert Step(st, "how much is " + unit + "?") == (st, if q.Ok? then Answered(q.value) else Failed(q.error)) by {
      WordIsPlain(unit);
      QuestionKeywords();
      NoSpaceBeforeIFree("how much");
      QuestionLine(st, "how much", unit);
    }
    HowMuchOneWord(st, unit);
  }

  /** "how much" about a single word looks up that word's letter. */
  lemma HowMuchOneWord(st: State, unit: string)
    requires Word(unit)
    ensures Question(st, "how much", unit) ==
      if unit in st.assignments
      then Ok(UnitsAnswer(unit, Numerals.Decode(st.assignments[unit])))
      else Err(UnknownUnit(unit))
  {
    WordIsPlain(unit);
    QuestionKeywords();
    var a := st.assignments;
    assert [unit][1..] == [] && Romans(a, []) == Ok("");
    if unit in a {
      assert a[unit] + "" == a[unit];
      assert Romans(a, [unit]) == Ok(a[unit]);
    }
    HowMuchQuestion(st, "how much", unit);
  }

  /**
   * Declaring a unit and then asking "how much is <unit>?" answers the value
   * of the letter the unit was given.
   */
  lemma UnitRoundTrip(st: State, unit: string, k: nat)
    requires Word(unit) && k < |Numerals.Base|
    ensures var declared := Step(st, unit + " is " + Numerals.Base[k].text);
      && declared == (st.(assignments := st.assignments[unit := Numerals.Base[k].text]), Accepted)
      && Step(declared.0, "how much is " + unit + "?")
        == (declared.0, Answered(UnitsAnswer(unit, Numerals.Base[k].value)))
  {
    var letter := Numerals.Base[k].text;
    assert IsUnitAssignment(letter);
    UnitAssignmentLetters(letter);
    assert NoSpaceBeforeI(letter) && TrimmedBy(letter, {' ', '?'});
    NoSpaceBeforeIFree(letter);
    WordIsPlain(unit);
    InstructionLine(st, unit, letter);
    HowMuchWord(st.(assignments := st.assignments[unit := letter]), unit);
    Numerals.DecodeBase(k);
  }

  /** strtolower("Credits") is "credits". */
  lemma CreditsWordLower()
    ensures Lower("Credits") == "credits"
  {
    var w, l := "Credits", Lower("Credits");
    assert l[0] == LowerChar('C') == 'c';
    assert l[1] == LowerChar('r') == 'r';
    assert l[2] == LowerChar('e') == 'e';
    assert l[3] == LowerChar('d') == 'd';
    assert l[4] == LowerChar('i') == 'i';
    assert l[5] == LowerChar('t') == 't';
    assert l[6] == LowerChar('s') == 's';
  }

  /** "<digits> Credits" has no space before an 'i' and no ' ' or '?' at either end. */
  lemma CreditsRightSideShape(digits: string)
    requires |digits| > 0 && forall k :: 0 <= k < |digits| ==> IsDigit(digits[k])
    ensures var right := digits + " Credits";
      NoSpaceBeforeI(right) && |right| > 0 && TrimmedBy(right, {' ', '?'})
  {
    var right, tail := digits + " Credits", " Credits";
    assert forall j :: 1 <= j < |tail| ==> tail[j] != ' ';
    forall q | 0 <= q < |right| - 1 ensures !(right[q] == ' ' && right[q + 1] == 'i') {
      if q < |digits| {
        assert right[q] == digits[q];
      } else {
        assert right[q + 1] == tail[q + 1 - |digits|];
        assert q > |digits| ==> right[q] == tail[q - |digits|];
      }
    }
    assert right[0] == digits[0] && right[|right| - 1] == 's';
  }

  /** "<digits> Credits" is a metal declaration worth DigitsValue(digits) credits, and not a letter. */
  lemma CreditsRightSide(digits: string)
    requires |digits| > 0 && forall k :: 0 <= k < |digits| ==> IsDigit(digits[k])
    ensures var right := digits + " Credits";
      && !Contains(right, Separator) && |right| > 0 && TrimmedBy(right, {' ', '?'})
      && !IsUnitAssignment(right) && MetalCredits(right) == Some(DigitsValue(digits))
  {
    var right := digits + " Credits";
    CreditsRightSideShape(digits);
    NoSpaceBeforeIFree(right);
    UnitAssignmentLetters(right);
    CreditsWordLower();
    assert right == digits + " " + "Credits" + "";
    CreditsPhraseMatches(right, digits, "Credits", false);
  }

  /**
   * A metal declaration "<subject> is <right>" records the metal at credits
   * per unit of the units before it, or stops on the first unknown unit.
   */
  lemma MetalLine(st: State, subject: string, right: string, credits: nat)
    requires !Contains(subject + " ", Separator) && TrimmedBy(subject, Whitespace)
    requires !Contains(right, Separator) && |right| > 0 && TrimmedBy(right, {' ', '?'})
    requires !IsUnitAssignment(right) && MetalCredits(right) == Some(credits)
    ensures var metal, units := SeparateMetalFromUnits(subject).0, SeparateMetalFromUnits(subject).1;
      var u := UnitsValue(st.assignments, units);
      Step(st, subject + Separator + right) ==
        if u.Ok? then (st.(metalValues := st.metalValues[metal := Ratio(credits, u.value)]), Accepted)
        else (st, Failed(u.error))
  {
    InstructionLine(st, subject, right);
    MetalInstruction(st, subject, right);
  }

  /** "<subject> is <digits> Credits", the form the metal declarations take. */
  lemma MetalDeclarationLine(st: State, subject: string, digits: string)
    requires !Contains(subject + " ", Separator) && TrimmedBy(subject, Whitespace)
    requires |digits| > 0 && forall k :: 0 <= k < |digits| ==> IsDigit(digits[k])
    ensures var metal, units := SeparateMetalFromUnits(subject).0, SeparateMetalFromUnits(subject).1;
      var u := UnitsValue(st.assignments, units);
      Step(st, subject + Separator + (digits + " Credits")) ==
        if u.Ok? then (st.(metalValues := st.metalValues[metal := Ratio(DigitsValue(digits), u.value)]), Accepted)
        else (st, Failed(u.error))
  {
    var right := digits + " Credits";
    CreditsRightSide(digits);
    MetalLine(st, subject, right, DigitsValue(digits));
  }

  /**
   * "how many Credits is <subject>?" prices the units of the subject at the
   * metal's recorded value, after checking the metal is known.
   */
  lemma HowManyLine(st: State, subject: string)
    requires !Contains(subject, Separator) && |subject| > 0 && TrimmedBy(subject, {' ', '?'})
    ensures var metal, units := SeparateMetalFromUnits(subject).0, SeparateMetalFromUnits(subject).1;
      var u := UnitsValue(st.assignments, units);
      Step(st, "how many Credits is " + subject + "?") ==
        if metal !in st.metalValues then (st, Failed(UnknownMetal))
        else if u.Err? then (st, Failed(u.error))
        else (st, Answered(CreditsAnswer(subject, Credits(u.value, st.metalValues[metal]))))
  {
    assert "how many Credits is " + subject + "?" == "how many Credits" + Separator + subject + "?";
    QuestionKeywords();
    NoSpaceBeforeIFree("how many Credits");
    QuestionLine(st, "how many Credits", subject);
    HowManyQuestion(st, "how many Credits", subject);
  }

  /**
   * Declaring what some units of a metal are worth and then asking about the
   * same units of it gives the declared credits back, whatever the units.
   */
  lemma MetalRoundTrip(st: State, subject: string, digits: string)
    requires !Contains(subject + " ", Separator) && |subject| > 0
    requires TrimmedBy(subject, Whitespace) && TrimmedBy(subject, {' ', '?'})
    requires |digits| > 0 && forall k :: 0 <= k < |digits| ==> IsDigit(digits[k])
    requires var u := UnitsValue(st.assignments, SeparateMetalFromUnits(subject).1); u.Ok? && u.value > 0
    ensures var declared := Step(st, subject + Separator + (digits + " Credits"));
      && declared.1 == Accepted && declared.0.assignments == st.assignments
      && Step(declared.0, "how many Credits is " + subject + "?")
        == (declared.0, Answered(CreditsAnswer(subject, DigitsValue(digits) as real)))
  {
    MetalDeclarationLine(st, subject, digits);
    var n := UnitsValue(st.assignments, SeparateMetalFromUnits(subject).1).value;
    var metal := SeparateMetalFromUnits(subject).0;
    var st1 := st.(metalValues := st.metalValues[metal := Ratio(DigitsValue(digits), n)]);
    NoSeparatorInPrefix(subject, " ");
    HowManyLine(st1, subject);
    CreditsUndoRatio(DigitsValue(digits), n);
  }
}
