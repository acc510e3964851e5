/**
 * The class Acme\InputParser of app/InputParser.php: the two tables it
 * fills, the sides of the current sentence, and its methods, each proved
 * to do what the reference interpreter in module Semantics says. A thrown
 * InputParserException is a returned error.
 */
module Parser {
  import opened Wrappers
  import opened Text
  import opened Sentences
  import opened Semantics
  import Numerals

  class InputParser {
    /** Foreign unit name to the Roman letter it stands for. */
    var assignments: map<string, string>
    /** Metal name (lower case) to its credits per unit. */
    var metalValues: map<string, real>
    /** The current line, as the input reader last returned it. */
    var line: string
    /** The sides of the last sentence split on " is ". */
    var leftSide: string
    var rightSide: string

    /** The two tables, as the reference interpreter sees them. */
    function Tables(): State
      reads this
    {
      State(assignments, metalValues)
    }

    constructor ()
      ensures Tables() == Initial
      ensures line == "" && leftSide == "" && rightSide == ""
    {
      assignments := map[];
      metalValues := map[];
      line := "";
      leftSide := "";
      rightSide := "";
    }

    /** splitSentence: the sides of the current line, or the missing " is " error. */
    method SplitSentence() returns (err: Option<Error>)
      modifies this`leftSide, this`rightSide
      ensures IsValidStructure(line) ==> err.None? && (leftSide, rightSide) == Sentences.SplitSentence(line)
      ensures !IsValidStructure(line) ==>
        err == Some(MissingIs) && leftSide == old(leftSide) && rightSide == old(rightSide)
    {
      if !IsValidStructure(line) {
        return Some(MissingIs);
      }
      var sides := Sentences.SplitSentence(line);
      leftSide, rightSide := sides.0, sides.1;
      err := None;
    }

    /** assignNewUnit: the left side now stands for the letter on the right. */
    method AssignNewUnit()
      modifies this`assignments
      ensures assignments == old(assignments)[leftSide := rightSide]
    {
      assignments := assignments[leftSide := rightSide];
    }

    /**
     * convertRomansToInteger: for each entry of the table, largest value
     * first, take it off the front of the string for as long as it is there.
     */
    method ConvertRomansToInteger(romans: string) returns (result: nat)
      ensures result == Numerals.Decode(romans)
    {
      Numerals.TableDecodable();
      result := Scan(Numerals.Table, romans);
    }

    /** The nested loops of convertRomansToInteger over a given table. */
    static method Scan(table: seq<Numerals.Numeral>, romans: string) returns (result: nat)
      requires Numerals.Decodable(table)
      ensures result == Numerals.Pass(table, romans, 0).0
    {
      result := 0;
      var rest := romans;
      var i := 0;
      while i < |table|
        invariant i <= |table|
        invariant result + Numerals.Pass(table, rest, i).0 == Numerals.Pass(table, romans, 0).0
      {
        var key := table[i];
        while key.text <= rest
          invariant result + Numerals.Pass(table, rest, i).0 == Numerals.Pass(table, romans, 0).0
          decreases |rest|
        {
          result := result + key.value;
          rest := rest[|key.text|..];
        }
        i := i + 1;
      }
    }

    /**
     * convertUnitsToInteger: the letters of the units in order, decoded; the
     * first unit without a letter is the error.
     */
    method ConvertUnitsToInteger(units: seq<string>) returns (r: Result<nat, Error>)
      ensures r == UnitsValue(assignments, units)
    {
      var romans := "";
      var k := 0;
      assert units[k..] == units;
      assert Romans(assignments, units).Ok? ==> romans + Romans(assignments, units).value == Romans(assignments, units).value;
      while k < |units|
        invariant k <= |units|
        invariant Romans(assignments, units[k..]).Ok? ==>
          Romans(assignments, units) == Ok(romans + Romans(assignments, units[k..]).value)
        invariant Romans(assignments, units[k..]).Err? ==>
          Romans(assignments, units) == Romans(assignments, units[k..])
      {
        if units[k] !in assignments {
          return Err(UnknownUnit(units[k]));
        }
        assert units[k..][0] == units[k] && units[k..][1..] == units[k + 1..];
        var tail := Romans(assignments, units[k + 1..]);
        if tail.Ok? {
          assert romans + (assignments[units[k]] + tail.value) == romans + assignments[units[k]] + tail.value;
        }
        romans := romans + assignments[units[k]];
        k := k + 1;
      }
      assert romans + "" == romans;
      var n := ConvertRomansToInteger(romans);
      return Ok(n);
    }

    /**
     * assignNewMetal: the credits of the right side spread over the value of
     * the units on the left (0 when they are worth 0); an unknown unit leaves
     * the metals as they were.
     */
    method AssignNewMetal() returns (err: Option<Error>)
      requires MetalCredits(rightSide).Some?
      modifies this`metalValues
      ensures var metal, units := SeparateMetalFromUnits(leftSide).0, SeparateMetalFromUnits(leftSide).1;
        var u := UnitsValue(assignments, units);
        && (u.Ok? ==>
              err.None? && metalValues == old(metalValues)[metal := Ratio(MetalCredits(rightSide).value, u.value)])
        && (u.Err? ==> err == Some(u.error) && metalValues == old(metalValues))
    {
      var creditsAmount := MetalCredits(rightSide).value;
      var (metal, tokens) := SeparateMetalFromUnits(leftSide);
      var unitsInCredits := ConvertUnitsToInteger(tokens);
      if unitsInCredits.Err? {
        return Some(unitsInCredits.error);
      }
      metalValues := metalValues[metal := Ratio(creditsAmount, unitsInCredits.value)];
      err := None;
    }

    /** convertMetalToCredits: the credits the units of the right side's metal are worth. */
    method ConvertMetalToCredits() returns (r: Result<Answer, Error>)
      ensures r == CreditsQuestion(Tables(), rightSide)
    {
      var (metal, units) := SeparateMetalFromUnits(rightSide);
      if metal !in metalValues {
        return Err(UnknownMetal);
      }
      var unitsInCredits := ConvertUnitsToInteger(units);
      if unitsInCredits.Err? {
        return Err(unitsInCredits.error);
      }
      r := Ok(CreditsAnswer(rightSide, Credits(unitsInCredits.value, metalValues[metal])));
    }

    /** answerQuestion: split the line, then answer "how much" or "how many". */
    method AnswerQuestion() returns (r: Result<Answer, Error>)
      modifies this`leftSide, this`rightSide
      ensures !IsValidStructure(line) ==> r == Err(MissingIs)
      ensures IsValidStructure(line) ==>
        (leftSide, rightSide) == Sentences.SplitSentence(line) && r == Question(Tables(), leftSide, rightSide)
    {
      ghost var l := line;
      var err := SplitSentence();
      assert line == l;
      if err.Some? {
        return Err(err.value);
      }
      if Contains(leftSide, "how much") {
        var result := ConvertUnitsToInteger(Explode(rightSide, " "));
        if result.Err? {
          return Err(result.error);
        }
        r := Ok(UnitsAnswer(rightSide, result.value));
      } else if Contains(leftSide, "how many") {
        r := ConvertMetalToCredits();
      } else {
        r := Err(UnanswerableQuestion);
      }
    }

    /** processInstruction: split the line, then record a unit or a metal. */
    method ProcessInstruction() returns (err: Option<Error>)
      modifies this`leftSide, this`rightSide, this`assignments, this`metalValues
      ensures !IsValidStructure(line) ==> err == Some(MissingIs) && Tables() == old(Tables())
      ensures IsValidStructure(line) ==> (leftSide, rightSide) == Sentences.SplitSentence(line)
      ensures IsValidStructure(line) ==> Applied(old(Tables()), Instruction(old(Tables()), leftSide, rightSide), err)
    {
      ghost var st := Tables();
      ghost var l := line;
      err := SplitSentence();
      assert Tables() == st && line == l;
      if err.Some? {
        return;
      }
      ghost var sides := (leftSide, rightSide);
      err := ApplyInstruction();
      assert (leftSide, rightSide) == sides && line == l;
    }

    /** Whether the tables now and the error reported are those an instruction's result calls for. */
    ghost predicate Applied(st: State, r: Result<State, Error>, err: Option<Error>)
      reads this
    {
      if r.Ok? then err.None? && Tables() == r.value else err == Some(r.error) && Tables() == st
    }

    /** The branches of processInstruction once the line is split. */
    method ApplyInstruction() returns (err: Option<Error>)
      modifies this`assignments, this`metalValues
      ensures Applied(old(Tables()), Instruction(old(Tables()), leftSide, rightSide), err)
    {
      ghost var st := Tables();
      if IsUnitAssignment(rightSide) {
        AssignNewUnit();
        err := None;
        UnitInstruction(st, leftSide, rightSide);
      } else if MetalCredits(rightSide).Some? {
        err := AssignNewMetal();
        MetalInstruction(st, leftSide, rightSide);
      } else {
        err := Some(UnrecognizedInstruction);
      }
    }

    /** The body of process()'s loop for one line: answer a question or carry out an instruction. */
    method ProcessLine(l: string) returns (out: Outcome)
      modifies this
      ensures line == l && (Tables(), out) == Step(old(Tables()), l)
    {
      ghost var st := Tables();
      line := l;
      if Sentences.IsQuestion(line) {
        var r := AnswerQuestion();
        out := if r.Ok? then Answered(r.value) else Failed(r.error);
        assert Tables() == st && line == l;
        if IsValidStructure(l) {
          StepQuestion(st, l);
        }
      } else {
        var err := ProcessInstruction();
        out := if err.None? then Accepted else Failed(err.value);
        assert line == l;
        if IsValidStructure(l) {
          StepInstruction(st, l);
        }
      }
    }

    /**
     * process: every line in turn, collecting the answers it prints, until
     * the input ends or a line is rejected.
     */
    method Process(lines: seq<string>) returns (answers: seq<Answer>, stopped: bool)
      modifies this
      ensures Session(Tables(), answers, stopped) == Run(old(Tables()), lines)
    {
      answers, stopped := [], false;
      ghost var whole := Run(Tables(), lines);
      var i := 0;
      assert lines[0..] == lines;
      while i < |lines| && !stopped
        invariant i <= |lines|
        invariant whole == Run(old(Tables()), lines)
        invariant stopped ==> whole == Session(Tables(), answers, true)
        invariant !stopped ==>
          var tail := Run(Tables(), lines[i..]);
          whole == Session(tail.state, answers + tail.answers, tail.stopped)
      {
        ghost var st := Tables();
        RunLoopStep(whole, answers, st, lines, i);
        var out := ProcessLine(lines[i]);
        stopped := out.Failed?;
        if out.Answered? {
          answers := answers + [out.answer];
        }
        i := i + 1;
      }
      if !stopped {
        assert lines[i..] == [];
        assert answers + [] == answers;
      }
    }
  }
}
