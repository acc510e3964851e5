/**
 * The meaning of one line, and of a run of lines, for the command
 * interpreter of app/InputParser.php, as pure functions over the two
 * tables it keeps. The class in Parser.dfy is proved to follow them.
 */
module Semantics {
  import opened Wrappers
  import opened Text
  import opened Sentences
  import Numerals

  /** The five ways a line is rejected. */
  datatype Error =
    | MissingIs                // no " is " in the line
    | UnrecognizedInstruction  // neither a base letter nor "<n> credits"
    | UnknownUnit(unit: string)
    | UnknownMetal
    | UnanswerableQuestion     // neither "how much" nor "how many"

  /** Unit name to base letter, and lower-cased metal name to credits per unit. */
  datatype State = State(assignments: map<string, string>, metalValues: map<string, real>)

  const Initial: State := State(map[], map[])

  /** Every assigned unit stands for a single base letter. */
  predicate Valid(st: State)
  {
    forall u :: u in st.assignments ==> IsUnitAssignment(st.assignments[u])
  }

  /** The two kinds of answer, before they are printed. */
  datatype Answer =
    | UnitsAnswer(subject: string, value: nat)      // "<subject> is <value>"
    | CreditsAnswer(subject: string, credits: real) // "<subject> is <credits> Credits"

  datatype Outcome = Answered(answer: Answer) | Accepted | Failed(error: Error)

  /**
   * The numeral string of a unit sequence: the letters of the units in
   * order, or the first unit that has no letter.
   */
  function Romans(a: map<string, string>, units: seq<string>): (r: Result<string, Error>)
    ensures r.Ok? <==> forall k :: 0 <= k < |units| ==> units[k] in a
    ensures r.Err? ==> exists k :: (0 <= k < |units| && units[k] !in a
      && r.error == UnknownUnit(units[k]) && forall j :: 0 <= j < k ==> units[j] in a)
    ensures r.Ok? && (forall k :: 0 <= k < |units| ==> |a[units[k]]| == 1) ==>
      |r.value| == |units| && forall k :: 0 <= k < |units| ==> [r.value[k]] == a[units[k]]
  {
    if units == [] then Ok("")
    else if units[0] !in a then Err(UnknownUnit(units[0]))
    else match Romans(a, units[1..])
      case Err(e) => Err(e)
      case Ok(rest) => Ok(a[units[0]] + rest)
  }

  /** convertUnitsToInteger: look every unit up, then decode the letters. */
  function UnitsValue(a: map<string, string>, units: seq<string>): Result<nat, Error>
  {
    match Romans(a, units)
    case Ok(s) => Ok(Numerals.Decode(s))
    case Err(e) => Err(e)
  }

  /** credits / n, with 0 standing in for a division by zero. */
  function Ratio(credits: nat, n: nat): real
  {
    if n > 0 then credits as real / n as real else 0.0
  }

  /** The price of one unit: n units of it are worth the credits, and no units give price 0. */
  lemma RatioSpreads(credits: nat, n: nat)
    ensures n > 0 ==> Ratio(credits, n) * n as real == credits as real
    ensures n == 0 ==> Ratio(credits, n) == 0.0
  {
  }

  /** n units of a metal worth ratio credits each. */
  function Credits(n: nat, ratio: real): real
  {
    n as real * ratio
  }

  /** Pricing n units at the ratio learnt from n units gives the credits back. */
  lemma CreditsUndoRatio(credits: nat, n: nat)
    requires n > 0
    ensures Credits(n, Ratio(credits, n)) == credits as real
  {
    RatioSpreads(credits, n);
  }

  /**
   * processInstruction once the line is split: a unit assignment is tried
   * first, then a metal assignment; anything else is rejected. Only the
   * table the instruction is about changes, at one key, and only when the
   * instruction is accepted.
   */
  function Instruction(st: State, left: string, right: string): Result<State, Error>
  {
    if IsUnitAssignment(right) then
      Ok(st.(assignments := st.assignments[left := right]))
    else match MetalCredits(right)
      case None => Err(UnrecognizedInstruction)
      case Some(credits) =>
        var (metal, units) := SeparateMetalFromUnits(left);
        match UnitsValue(st.assignments, units)
        case Err(e) => Err(e)
        case Ok(n) => Ok(st.(metalValues := st.metalValues[metal := Ratio(credits, n)]))
  }

  /**
   * An instruction fails only as unrecognised or on an unknown unit; a unit
   * declaration always succeeds; a metal declaration records the price of one
   * unit of the metal; valid tables stay valid.
   */
  lemma InstructionOutcome(st: State, left: string, right: string)
    ensures var r := Instruction(st, left, right);
      r.Err? ==> r.error == UnrecognizedInstruction || r.error.UnknownUnit?
    ensures Instruction(st, left, right) == Err(UnrecognizedInstruction)
      <==> !IsUnitAssignment(right) && MetalCredits(right).None?
    ensures var r := Instruction(st, left, right);
      IsUnitAssignment(right) ==> r == Ok(State(st.assignments[left := right], st.metalValues))
    ensures var r := Instruction(st, left, right);
      !IsUnitAssignment(right) && r.Ok? ==>
        && MetalCredits(right).Some?
        && r.value.assignments == st.assignments
        && var metal, units := SeparateMetalFromUnits(left).0, SeparateMetalFromUnits(left).1;
           && UnitsValue(st.assignments, units).Ok?
           && r.value.metalValues == st.metalValues[metal :=
                Ratio(MetalCredits(right).value, UnitsValue(st.assignments, units).value)]
    ensures var r := Instruction(st, left, right);
      Valid(st) && r.Ok? ==> Valid(r.value)
  {
  }

  /**
   * The "how much" branch of answerQuestion: the right side's space-separated
   * units, looked up and decoded; the answer is about the whole right side.
   */
  function UnitsQuestion(st: State, right: string): (r: Result<Answer, Error>)
    ensures r.Ok? ==> r.value.UnitsAnswer? && r.value.subject == right
    ensures r.Err? ==> r.error.UnknownUnit?
  {
    match UnitsValue(st.assignments, Explode(right, " "))
    case Err(e) => Err(e)
    case Ok(n) => Ok(UnitsAnswer(right, n))
  }

  /**
   * convertMetalToCredits: the metal is looked up before any unit, then the
   * units are priced at the metal's value; the answer is about the whole
   * right side.
   */
  function CreditsQuestion(st: State, right: string): (r: Result<Answer, Error>)
    ensures r.Ok? ==> r.value.CreditsAnswer? && r.value.subject == right
    ensures r == Err(UnknownMetal) <==> SeparateMetalFromUnits(right).0 !in st.metalValues
    ensures r.Err? ==> r.error == UnknownMetal || r.error.UnknownUnit?
  {
    var (metal, units) := SeparateMetalFromUnits(right);
    if metal !in st.metalValues then Err(UnknownMetal)
    else match UnitsValue(st.assignments, units)
      case Err(e) => Err(e)
      case Ok(n) => Ok(CreditsAnswer(right, Credits(n, st.metalValues[metal])))
  }

  /**
   * answerQuestion once the line is split: "how much" is checked first, then
   * "how many"; a question with neither is rejected.
   */
  function Question(st: State, left: string, right: string): (r: Result<Answer, Error>)
    ensures r == Err(UnanswerableQuestion) <==> !AsksHowMuch(left) && !AsksHowMany(left)
    ensures r.Ok? ==> r.value.subject == right
    ensures r.Ok? ==> (r.value.UnitsAnswer? <==> AsksHowMuch(left))
    ensures AsksHowMuch(left) && r.Err? ==> r.error.UnknownUnit?
    ensures !AsksHowMuch(left) && AsksHowMany(left) ==>
      (r == Err(UnknownMetal) <==> SeparateMetalFromUnits(right).0 !in st.metalValues)
  {
    if AsksHowMuch(left) then UnitsQuestion(st, right)
    else if AsksHowMany(left) then CreditsQuestion(st, right)
    else Err(UnanswerableQuestion)
  }

  /** A unit declaration always succeeds and touches the assignments only. */
  lemma UnitInstruction(st: State, left: string, right: string)
    requires IsUnitAssignment(right)
    ensures Instruction(st, left, right) == Ok(State(st.assignments[left := right], st.metalValues))
  {
  }

  /** A metal declaration prices the metal from the units before it, or names the first unknown unit. */
  lemma MetalInstruction(st: State, left: string, right: string)
    requires !IsUnitAssignment(right) && MetalCredits(right).Some?
    ensures var metal, units := SeparateMetalFromUnits(left).0, SeparateMetalFromUnits(left).1;
      var u := UnitsValue(st.assignments, units);
      Instruction(st, left, right) ==
        if u.Ok? then Ok(st.(metalValues := st.metalValues[metal := Ratio(MetalCredits(right).value, u.value)]))
        else Err(u.error)
  {
  }

  /** A "how much" question looks up the space-separated units of its right side. */
  lemma HowMuchQuestion(st: State, left: string, right: string)
    requires AsksHowMuch(left)
    ensures var u := UnitsValue(st.assignments, Explode(right, " "));
      Question(st, left, right) == if u.Ok? then Ok(UnitsAnswer(right, u.value)) else Err(u.error)
  {
  }

  /** A "how many" question looks the metal up first, then its units. */
  lemma HowManyQuestion(st: State, left: string, right: string)
    requires !AsksHowMuch(left) && AsksHowMany(left)
    ensures var metal, units := SeparateMetalFromUnits(right).0, SeparateMetalFromUnits(right).1;
      Question(st, left, right) ==
        if metal !in st.metalValues then Err(UnknownMetal)
        else
          var u := UnitsValue(st.assignments, units);
          if u.Ok? then Ok(CreditsAnswer(right, Credits(u.value, st.metalValues[metal]))) else Err(u.error)
  {
    var sep := SeparateMetalFromUnits(right);
    var metal, units := sep.0, sep.1;
    if metal in st.metalValues {
      var u := UnitsValue(st.assignments, units);
      assert CreditsQuestion(st, right) == match u
        case Err(e) => Err(e)
        case Ok(n) => Ok(CreditsAnswer(right, Credits(n, st.metalValues[metal])));
    }
  }

  /**
   * One line: a question is answered and changes nothing; an instruction
   * changes the tables and answers nothing; a line without " is " is
   * rejected before either table is looked at; a rejected line changes
   * nothing.
   */
  function Step(st: State, line: string): (r: (State, Outcome))
    ensures !IsValidStructure(line) ==> r == (st, Failed(MissingIs))
    ensures IsQuestion(line) ==> r.0 == st
    ensures r.1.Failed? ==> r.0 == st
    ensures r.1.Answered? ==> IsQuestion(line)
    ensures r.1.Accepted? ==> !IsQuestion(line)
    ensures Valid(st) ==> Valid(r.0)
  {
    if !IsValidStructure(line) then (st, Failed(MissingIs))
    else
      var (left, right) := SplitSentence(line);
      if IsQuestion(line) then
        match Question(st, left, right)
        case Ok(a) => (st, Answered(a))
        case Err(e) => (st, Failed(e))
      else
        InstructionOutcome(st, left, right);
        match Instruction(st, left, right)
        case Ok(st') => (st', Accepted)
        case Err(e) => (st, Failed(e))
  }

  /** A question line with the separator: the tables stay, and the answer or its error is reported. */
  lemma StepQuestion(st: State, line: string)
    requires IsValidStructure(line) && IsQuestion(line)
    ensures var sides := SplitSentence(line);
      var r := Question(st, sides.0, sides.1);
      Step(st, line) == (st, if r.Ok? then Answered(r.value) else Failed(r.error))
  {
  }

  /** An instruction line with the separator: the tables it yields, or its error with the tables kept. */
  lemma StepInstruction(st: State, line: string)
    requires IsValidStructure(line) && !IsQuestion(line)
    ensures var sides := SplitSentence(line);
      var r := Instruction(st, sides.0, sides.1);
      Step(st, line) == if r.Ok? then (r.value, Accepted) else (st, Failed(r.error))
  {
  }

  /** The tables after a run, the answers printed, and whether the run stopped on an error. */
  datatype Session = Session(state: State, answers: seq<Answer>, stopped: bool)

  /**
   * process(): the lines in order, each answer printed, and the whole run
   * abandoned at the first rejected line.
   */
  function Run(st: State, lines: seq<string>): (s: Session)
    ensures |s.answers| <= |lines|
    decreases |lines|
  {
    if lines == [] then Session(st, [], false)
    else
      var step := Step(st, lines[0]);
      if step.1.Failed? then Session(step.0, [], true)
      else
        var rest := Run(step.0, lines[1..]);
        if step.1.Answered? then rest.(answers := [step.1.answer] + rest.answers) else rest
  }

  /** Every table a run leaves behind maps units to base letters only. */
  lemma {:induction false} RunKeepsValid(st: State, lines: seq<string>)
    requires Valid(st)
    ensures Valid(Run(st, lines).state)
    decreases |lines|
  {
    if lines != [] {
      var step := Step(st, lines[0]);
      if !step.1.Failed? {
        RunKeepsValid(step.0, lines[1..]);
      }
    }
  }

  lemma ConsAppend<T>(x: T, p: seq<T>, q: seq<T>)
    ensures [x] + p + q == [x] + (p + q)
  {
  }

  /**
   * Running a + b is running a and then, unless a stopped on an error,
   * running b from where a left the tables; the answers are concatenated.
   */
  lemma {:induction false} RunAppend(st: State, a: seq<string>, b: seq<string>)
    ensures var first := Run(st, a);
      Run(st, a + b) ==
        if first.stopped then first
        else
          var second := Run(first.state, b);
          Session(second.state, first.answers + second.answers, second.stopped)
    decreases |a|
  {
    if a == [] {
      assert a + b == b;
    } else {
      assert (a + b)[0] == a[0] && (a + b)[1..] == a[1..] + b;
      var step := Step(st, a[0]);
      if step.1.Failed? {
        assert Run(st, a + b) == Session(step.0, [], true) == Run(st, a);
      } else {
        var first, tail := Run(step.0, a[1..]), Run(step.0, a[1..] + b);
        assert Run(st, a + b) == if step.1.Answered? then tail.(answers := [step.1.answer] + tail.answers) else tail;
        assert Run(st, a) == if step.1.Answered? then first.(answers := [step.1.answer] + first.answers) else first;
        RunAppend(step.0, a[1..], b);
        if step.1.Answered? && !first.stopped {
          ConsAppend(step.1.answer, first.answers, Run(first.state, b).answers);
        }
      }
    }
  }

  /** A run of one question: its answer, or a stop, and the tables untouched. */
  lemma RunOneQuestion(st: State, q: string)
    requires IsQuestion(q)
    ensures var step := Step(st, q);
      Run(st, [q]) == if step.1.Failed? then Session(st, [], true) else Session(st, [step.1.answer], false)
  {
    var lines := [q];
    assert lines[0] == q && lines[1..] == [];
    var step := Step(st, q);
    assert step.0 == st && (step.1.Failed? || step.1.Answered?);
  }

  /**
   * One turn of process()'s loop: if the whole run is the answers so far
   * followed by the run from line i, then after line i's step it is the
   * answers so far (with the new answer, if any) followed by the run from
   * line i + 1, or it ends here when the step failed.
   */
  lemma RunLoopStep(whole: Session, answers: seq<Answer>, st: State, lines: seq<string>, i: nat)
    requires i < |lines|
    requires var tail := Run(st, lines[i..]);
      whole == Session(tail.state, answers + tail.answers, tail.stopped)
    ensures var step := Step(st, lines[i]);
      step.1.Failed? ==> whole == Session(st, answers, true)
    ensures var step := Step(st, lines[i]);
      var tail := Run(step.0, lines[i + 1..]);
      var more := if step.1.Answered? then answers + [step.1.answer] else answers;
      !step.1.Failed? ==> whole == Session(tail.state, more + tail.answers, tail.stopped)
  {
    RunNext(st, lines, i);
    var step := Step(st, lines[i]);
    if step.1.Failed? {
      assert answers + [] == answers;
    } else if step.1.Answered? {
      var tail := Run(step.0, lines[i + 1..]);
      assert answers + ([step.1.answer] + tail.answers) == answers + [step.1.answer] + tail.answers;
    }
  }

  /** The run from line i on: that line's step, then the run from line i + 1 unless it failed. */
  lemma RunNext(st: State, lines: seq<string>, i: nat)
    requires i < |lines|
    ensures var step := Step(st, lines[i]);
      var rest := Run(step.0, lines[i + 1..]);
      Run(st, lines[i..]) ==
        if step.1.Failed? then Session(st, [], true)
        else if step.1.Answered? then rest.(answers := [step.1.answer] + rest.answers)
        else rest
  {
    assert lines[i..][0] == lines[i] && lines[i..][1..] == lines[i + 1..];
  }

  /** The run of line :: rest after an accepted instruction goes on from the new tables. */
  lemma RunAccepted(st: State, line: string, rest: seq<string>)
    requires Step(st, line).1.Accepted?
    ensures Run(st, [line] + rest) == Run(Step(st, line).0, rest)
  {
    assert ([line] + rest)[0] == line && ([line] + rest)[1..] == rest;
  }

  /** The run of line :: rest after an answered question prints the answer first. */
  lemma RunAnswered(st: State, line: string, rest: seq<string>)
    requires Step(st, line).1.Answered?
    ensures var after := Run(st, rest);
      Run(st, [line] + rest) == after.(answers := [Step(st, line).1.answer] + after.answers)
  {
    assert ([line] + rest)[0] == line && ([line] + rest)[1..] == rest;
  }

  /** A rejected line ends the run, whatever follows it. */
  lemma RunFailed(st: State, line: string, rest: seq<string>)
    requires Step(st, line).1.Failed?
    ensures Run(st, [line] + rest) == Session(st, [], true)
  {
    assert ([line] + rest)[0] == line;
  }

  /** Asking the same question twice in a row gets the same answer twice. */
  lemma RepeatedQuestion(st: State, q: string)
    requires IsQuestion(q)
    ensures var s := Run(st, [q, q]);
      s.stopped || (|s.answers| == 2 && s.answers[0] == s.answers[1] && s.state == st)
  {
    assert [q, q] == [q] + [q];
    RunAppend(st, [q], [q]);
    RunOneQuestion(st, q);
  }
}
