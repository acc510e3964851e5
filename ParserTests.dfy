/**
 * The conversations of tests/InputParserTest.php, run through the reference
 * interpreter line by line.
 */
module ParserTests {
  import opened Wrappers
  import opened Text
  import opened Sentences
  import opened Semantics
  import opened Scenarios
  import Numerals

  /** glob is declared as I, and is then worth 1. */
  lemma GlobIsOne()
    ensures Step(Initial, "glob is I") == (State(map["glob" := "I"], map[]), Accepted)
    ensures Step(State(map["glob" := "I"], map[]), "how much is glob?")
      == (State(map["glob" := "I"], map[]), Answered(UnitsAnswer("glob", 1)))
  {
    var glob := "glob";
    assert Word(glob);
    assert Numerals.Base[6] == Numerals.Numeral("I", 1);
    assert glob + " is " + "I" == "glob is I";
    assert "how much is " + glob + "?" == "how much is glob?";
    UnitRoundTrip(Initial, glob, 6);
  }

  /** "glob is I" then "how much is glob?" answers that glob is 1. */
  lemma AssignmentForI()
    ensures Run(Initial, ["glob is I", "how much is glob?"])
      == Session(State(map["glob" := "I"], map[]), [UnitsAnswer("glob", 1)], false)
  {
    assert ["glob is I", "how much is glob?"] == ["glob is I"] + ["how much is glob?"];
    assert ["how much is glob?"] == ["how much is glob?"] + [];
    GlobIsOne();
    var st1 := State(map["glob" := "I"], map[]);
    RunAccepted(Initial, "glob is I", ["how much is glob?"]);
    RunAnswered(st1, "how much is glob?", []);
  }

  /** The tables once glob is I and prok is V. */
  const GlobProk: State := State(map["glob" := "I", "prok" := "V"], map[])

  /** prok is declared as V. */
  lemma ProkIsV()
    ensures Step(State(map["glob" := "I"], map[]), "prok is V") == (GlobProk, Accepted)
  {
    var prok, st1 := "prok", State(map["glob" := "I"], map[]);
    assert Word(prok);
    assert Numerals.Base[5] == Numerals.Numeral("V", 5);
    assert prok + " is " + "V" == "prok is V";
    UnitRoundTrip(st1, prok, 5);
    assert st1.assignments["prok" := "V"] == GlobProk.assignments;
  }

  /** The space-separated tokens of a phrase of three words. */
  lemma ThreeTokens(a: string, b: string, c: string)
    requires ' ' !in a && ' ' !in b && ' ' !in c
    ensures Explode(a + " " + b + " " + c, " ") == [a, b, c]
  {
    var words := [a, b, c];
    assert words[1..] == [b, c] && [b, c][1..] == [c];
    assert Join([c], " ") == c;
    assert Join([b, c], " ") == b + " " + c;
    assert Join(words, " ") == a + " " + (b + " " + c);
    assert a + " " + (b + " " + c) == a + " " + b + " " + c;
    ExplodeJoin(words, ' ');
  }

  /** The space-separated tokens of a phrase of two words. */
  lemma TwoTokens(a: string, b: string)
    requires ' ' !in a && ' ' !in b
    ensures Explode(a + " " + b, " ") == [a, b]
  {
    var words := [a, b];
    assert words[1..] == [b];
    assert Join(words, " ") == a + " " + b;
    ExplodeJoin(words, ' ');
  }

  /** glob prok reads IV, which is 4. */
  lemma GlobProkIsFour()
    ensures UnitsValue(GlobProk.assignments, ["glob", "prok"]) == Ok(4)
  {
    var a := GlobProk.assignments;
    assert "glob" in a && a["glob"] == "I" && "prok" in a && a["prok"] == "V";
    assert ["glob", "prok"][1..] == ["prok"] && ["prok"][1..] == [];
    assert Romans(a, []) == Ok("");
    assert "V" + "" == "V" && "I" + "V" == "IV";
    assert Romans(a, ["prok"]) == Ok("V");
    assert Romans(a, ["glob", "prok"]) == Ok("IV");
    Numerals.SmallExamples();
  }

  /** Asked how much glob prok is, the tables answer 4. */
  lemma GlobProkQuestion()
    ensures Question(GlobProk, "how much", "glob prok") == Ok(UnitsAnswer("glob prok", 4))
  {
    TwoTokens("glob", "prok");
    assert "glob" + " " + "prok" == "glob prok";
    QuestionKeywords();
    HowMuchQuestion(GlobProk, "how much", "glob prok");
    GlobProkIsFour();
  }

  /** "how much is glob prok?" is answered with 4. */
  lemma HowMuchGlobProk()
    ensures Step(GlobProk, "how much is glob prok?")
      == (GlobProk, Answered(UnitsAnswer("glob prok", 4)))
  {
    var subject := "glob prok";
    assert "how much" + Separator + subject + "?" == "how much is glob prok?";
    assert NoSpaceBeforeI(subject) && TrimmedBy(subject, {' ', '?'});
    NoSpaceBeforeIFree(subject);
    QuestionKeywords();
    NoSpaceBeforeIFree("how much");
    QuestionLine(GlobProk, "how much", subject);
    GlobProkQuestion();
  }

  /** "glob is I", "prok is V", then "how much is glob prok?" answers 4. */
  lemma AssignmentForIAndV()
    ensures Run(Initial, ["glob is I", "prok is V", "how much is glob prok?"])
      == Session(GlobProk, [UnitsAnswer("glob prok", 4)], false)
  {
    var l1, l2, l3 := "glob is I", "prok is V", "how much is glob prok?";
    assert [l1, l2, l3] == [l1] + ([l2] + ([l3] + []));
    GlobIsOne();
    ProkIsV();
    HowMuchGlobProk();
    RunAccepted(Initial, l1, [l2, l3]);
    RunAccepted(State(map["glob" := "I"], map[]), l2, [l3]);
    RunAnswered(GlobProk, l3, []);
  }

  /** strtolower(trim("Silver")) is "silver". */
  lemma SilverMetal()
    ensures Lower(Trim("Silver", Whitespace)) == "silver"
  {
    SilverLower("Silver");
  }

  /** The same, for any name spelled "Silver", so that the lower-casing is argued letter by letter. */
  lemma SilverLower(silver: string)
    requires silver == "Silver"
    ensures Lower(Trim(silver, Whitespace)) == "silver"
  {
    assert silver[0] == 'S' && silver[5] == 'r';
    TrimNoop(silver, Whitespace);
    var l := Lower(silver);
    assert l[0] == LowerChar('S') == 's';
    assert l[1] == 'i' && l[2] == 'l' && l[3] == 'v' && l[4] == 'e' && l[5] == 'r';
  }

  /** A phrase of two units and a metal splits into the units and the metal's name. */
  lemma PhraseOfThree(a: string, b: string, c: string)
    requires ' ' !in a && ' ' !in b && ' ' !in c
    ensures SeparateMetalFromUnits(a + " " + b + " " + c) == (Lower(Trim(c, Whitespace)), [a, b])
  {
    ThreeTokens(a, b, c);
    assert [a, b, c][..2] == [a, b];
  }

  /** "glob glob Silver" is two globs of silver. */
  lemma GlobGlobSilver()
    ensures SeparateMetalFromUnits("glob glob Silver") == ("silver", ["glob", "glob"])
  {
    SilverMetal();
    assert "glob glob Silver" == "glob" + " " + "glob" + " " + "Silver";
    PhraseOfThree("glob", "glob", "Silver");
  }

  /** "glob prok Silver" is a glob and a prok of silver. */
  lemma GlobProkSilver()
    ensures SeparateMetalFromUnits("glob prok Silver") == ("silver", ["glob", "prok"])
  {
    SilverMetal();
    assert "glob prok Silver" == "glob" + " " + "prok" + " " + "Silver";
    PhraseOfThree("glob", "prok", "Silver");
  }

  /** "34" is thirty-four. */
  lemma ThirtyFour()
    ensures (forall k :: 0 <= k < |"34"| ==> IsDigit("34"[k])) && DigitsValue("34") == 34
  {
    assert "34"[..1] == "3" && "3"[..0] == "";
  }

  /** glob glob reads II, which is 2. */
  lemma GlobGlobIsTwo()
    ensures UnitsValue(GlobProk.assignments, ["glob", "glob"]) == Ok(2)
  {
    var a := GlobProk.assignments;
    assert "glob" in a && a["glob"] == "I";
    assert ["glob", "glob"][1..] == ["glob"] && ["glob"][1..] == [];
    assert Romans(a, []) == Ok("");
    assert "I" + "" == "I" && "I" + "I" == "II";
    assert Romans(a, ["glob"]) == Ok("I");
    assert Romans(a, ["glob", "glob"]) == Ok("II");
    Numerals.SmallExamples();
  }

  /** The tables once silver is worth 17 credits a unit. */
  const Silver: State := State(GlobProk.assignments, map["silver" := 17.0])

  /** "glob glob Silver is 34 Credits": two units of silver for 34 credits, 17 each. */
  lemma SilverDeclared()
    ensures Step(GlobProk, "glob glob Silver is 34 Credits") == (Silver, Accepted)
  {
    var subject, digits := "glob glob Silver", "34";
    assert subject + Separator + (digits + " Credits") == "glob glob Silver is 34 Credits";
    SilverDeclaredAt(GlobProk, subject, digits);
  }

  /** The same declaration, argued over named parts of the line. */
  lemma SilverDeclaredAt(st: State, subject: string, digits: string)
    requires st == GlobProk && subject == "glob glob Silver" && digits == "34"
    ensures Step(st, subject + Separator + (digits + " Credits")) == (Silver, Accepted)
  {
    assert NoSpaceBeforeI(subject) && TrimmedBy(subject, Whitespace);
    NoSpaceBeforeIFree(subject);
    ThirtyFour();
    GlobGlobSilver();
    GlobGlobIsTwo();
    SeventeenEach();
    MetalDeclarationLine(st, subject, digits);
    assert st.metalValues["silver" := 17.0] == Silver.metalValues;
  }

  /** 34 credits over two units is 17 credits a unit. */
  lemma SeventeenEach()
    ensures Ratio(34, 2) == 17.0
  {
    RatioSpreads(34, 2);
  }

  /** "how many Credits is glob prok Silver?": four units at 17 credits, 68 credits. */
  lemma HowManySilver()
    ensures Step(Silver, "how many Credits is glob prok Silver?")
      == (Silver, Answered(CreditsAnswer("glob prok Silver", 68.0)))
  {
    var subject := "glob prok Silver";
    assert "how many Credits is " + subject + "?" == "how many Credits is glob prok Silver?";
    assert NoSpaceBeforeI(subject) && TrimmedBy(subject, {' ', '?'});
    NoSpaceBeforeIFree(subject);
    GlobProkSilver();
    GlobProkIsFour();
    HowManyLine(Silver, subject);
    assert Credits(4, 17.0) == 68.0;
  }

  /** Declaring glob is accepted, whatever follows. */
  lemma DeclareGlob(rest: seq<string>)
    ensures Run(Initial, ["glob is I"] + rest) == Run(State(map["glob" := "I"], map[]), rest)
  {
    GlobIsOne();
    RunAccepted(Initial, "glob is I", rest);
  }

  /** Declaring prok once glob is known is accepted, whatever follows. */
  lemma DeclareProk(rest: seq<string>)
    ensures Run(State(map["glob" := "I"], map[]), ["prok is V"] + rest) == Run(GlobProk, rest)
  {
    ProkIsV();
    RunAccepted(State(map["glob" := "I"], map[]), "prok is V", rest);
  }

  /** Declaring glob and prok accepts both lines, whatever follows. */
  lemma DeclareGlobProk(rest: seq<string>)
    ensures Run(Initial, ["glob is I", "prok is V"] + rest) == Run(GlobProk, rest)
  {
    assert ["glob is I", "prok is V"] + rest == ["glob is I"] + (["prok is V"] + rest);
    DeclareGlob(["prok is V"] + rest);
    DeclareProk(rest);
  }

  /** Declaring the price of silver accepts the line, whatever follows. */
  lemma DeclareSilver(rest: seq<string>)
    ensures Run(GlobProk, ["glob glob Silver is 34 Credits"] + rest) == Run(Silver, rest)
  {
    SilverDeclared();
    RunAccepted(GlobProk, "glob glob Silver is 34 Credits", rest);
  }

  /** The metal test: after glob, prok and silver are declared, glob prok Silver is 68 credits. */
  lemma AssignmentForMetalSilver()
    ensures Run(Initial, ["glob is I", "prok is V", "glob glob Silver is 34 Credits",
                         "how many Credits is glob prok Silver?"])
      == Session(Silver, [CreditsAnswer("glob prok Silver", 68.0)], false)
  {
    var l1, l2, l3, l4 := "glob is I", "prok is V", "glob glob Silver is 34 Credits",
      "how many Credits is glob prok Silver?";
    assert [l1, l2, l3, l4] == [l1, l2] + ([l3] + [l4]);
    assert [l4] == [l4] + [];
    DeclareGlobProk([l3] + [l4]);
    DeclareSilver([l4]);
    HowManySilver();
    RunAnswered(Silver, l4, []);
  }

  /** A line without " is " is rejected before anything else, and the run stops there. */
  lemma WrongCommand()
    ensures Run(Initial, ["how much wood could" + " a woodchuck chuck" + " if a woodchuck" + " could chuck wood?"])
      == Session(Initial, [], true)
  {
    var p1, p2, p3, p4 := "how much wood could", " a woodchuck chuck", " if a woodchuck", " could chuck wood?";
    var line := p1 + p2 + p3 + p4;
    assert [line] == [line] + [];
    assert forall k :: 0 <= k < |p1| ==> p1[k] != 's';
    assert forall k :: 0 <= k < |p2| ==> p2[k] != 's';
    assert forall k :: 0 <= k < |p3| ==> p3[k] != 's';
    assert forall k :: 0 <= k < |p4| ==> p4[k] != 's';
    NoSNoSeparator(line);
    RunFailed(Initial, line, []);
  }
}
