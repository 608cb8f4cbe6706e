/** The test that two programs behave identically: their kept lines are compared, and the
    constants those lines refer to. */
module IdenticalBehavior {
  import opened DataTypes
  import opened Programs
  import opened Introns
  import Registers = ArrayWrappers

  /** The constants compared for the first `n` operands. */
  predicate ConstantsMatch(env: Environment, mine: seq<real>, others: seq<real>, line: Line, n: nat)
    requires env.nbConstants > 0 && |mine| == |others| == env.nbConstants && n <= |line.operands|
  {
    forall k :: 0 <= k < n && line.operands[k].0 == 1 ==>
      mine[line.operands[k].1 % env.nbConstants] == others[line.operands[k].1 % env.nbConstants]
  }

  /** A line has as many operands as its instruction wants; every line has as many as the
      instruction with the most. */
  predicate OperandsPresent(env: Environment, line: Line) {
    line.instruction < |env.instructions| ==> |OperandTypes(env, line)| <= |line.operands|
  }

  predicate AllOperandsPresent(env: Environment, lines: seq<Line>) {
    forall i :: 0 <= i < |lines| ==> OperandsPresent(env, lines[i])
  }

  function Compare(env: Environment, mine: seq<real>, others: seq<real>, a: seq<Line>, b: seq<Line>): (r: Outcome<bool>)
    requires |mine| == |others| == env.nbConstants && AllOperandsPresent(env, a)
    ensures r == Finished(true) ==> a == b
  {
    if a == [] || b == [] then Finished(a == [] && b == [])
    else if a[0] != b[0] then Finished(false)
    else if env.nbConstants == 0 then Compare(env, mine, others, a[1..], b[1..])
    else if a[0].instruction >= |env.instructions| then Threw
    else if !ConstantsMatch(env, mine, others, a[0], |OperandTypes(env, a[0])|) then Finished(false)
    else Compare(env, mine, others, a[1..], b[1..])
  }

  /** A positive answer means exactly: the same lines, and equal constants wherever a line
      refers to one, as long as no line has an unknown instruction. */
  lemma {:induction false} CompareExact(env: Environment, mine: seq<real>, others: seq<real>,
                                         a: seq<Line>, b: seq<Line>)
    requires |mine| == |others| == env.nbConstants && AllOperandsPresent(env, a)
    requires forall i :: 0 <= i < |a| ==> a[i].instruction < |env.instructions|
    ensures Compare(env, mine, others, a, b) == Finished(true) <==>
      a == b && forall i :: 0 <= i < |a| ==> SameConstants(env, mine, others, a[i])
  {
    hide OperandsPresent, SameConstants;
    if a != [] && b != [] {
      CompareExact(env, mine, others, a[1..], b[1..]);
      CompareStep(env, mine, others, a, b);
      assert a == [a[0]] + a[1..] && b == [b[0]] + b[1..];
      assert (forall i :: 0 <= i < |a| ==> SameConstants(env, mine, others, a[i]))
        <==> SameConstants(env, mine, others, a[0])
             && forall i :: 0 <= i < |a[1..]| ==> SameConstants(env, mine, others, a[1..][i]);
    }
  }

  lemma CompareStep(env: Environment, mine: seq<real>, others: seq<real>, a: seq<Line>, b: seq<Line>)
    requires |mine| == |others| == env.nbConstants && AllOperandsPresent(env, a) && a != [] && b != []
    requires a[0].instruction < |env.instructions|
    ensures Compare(env, mine, others, a, b) == Finished(true) <==>
      && a[0] == b[0] && SameConstants(env, mine, others, a[0])
      && Compare(env, mine, others, a[1..], b[1..]) == Finished(true)
  {
  }

  /** Every operand from the constants names equal constants in both programs. */
  predicate SameConstants(env: Environment, mine: seq<real>, others: seq<real>, line: Line)
    requires |mine| == |others| == env.nbConstants && OperandsPresent(env, line)
    requires line.instruction < |env.instructions|
  {
    env.nbConstants > 0 ==> ConstantsMatch(env, mine, others, line, |OperandTypes(env, line)|)
  }

  /** Line `i` is the same in both programs, and so is every constant that one of its operands,
      within the arity of its instruction, names by index 1; the scaled locations name them. */
  ghost predicate AlikeAt(env: Environment, mine: seq<real>, others: seq<real>, a: seq<Line>, b: seq<Line>, i: nat)
    requires |mine| == |others| && i < |a| && i < |b|
  {
    && a[i] == b[i]
    && (mine != [] ==>
          && a[i].instruction < |env.instructions|
          && forall k :: 0 <= k < |env.instructions[a[i].instruction].operandTypes| && k < |a[i].operands|
                         && a[i].operands[k].0 == 1 ==>
               mine[a[i].operands[k].1 % |mine|] == others[a[i].operands[k].1 % |mine|])
  }

  /** The first `n` lines are alike. */
  ghost predicate AlikeUpTo(env: Environment, mine: seq<real>, others: seq<real>, a: seq<Line>, b: seq<Line>, n: nat)
    requires |mine| == |others|
  {
    n <= |a| && n <= |b| && forall i :: 0 <= i < n ==> AlikeAt(env, mine, others, a, b, i)
  }

  /** Behind alike lines both programs have the same line with an unknown instruction, and
      there are constants to compare. */
  ghost predicate Stuck(env: Environment, mine: seq<real>, others: seq<real>, a: seq<Line>, b: seq<Line>, n: nat)
    requires |mine| == |others|
  {
    && AlikeUpTo(env, mine, others, a, b, n) && n < |a| && n < |b|
    && mine != [] && a[n] == b[n] && a[n].instruction >= |env.instructions|
  }

  lemma AlikeShift(env: Environment, mine: seq<real>, others: seq<real>, a: seq<Line>, b: seq<Line>, n: nat)
    requires |mine| == |others| && a != [] && b != []
    ensures AlikeUpTo(env, mine, others, a, b, n + 1)
       <==> AlikeAt(env, mine, others, a, b, 0) && AlikeUpTo(env, mine, others, a[1..], b[1..], n)
  {
    if AlikeUpTo(env, mine, others, a, b, n + 1) {
      forall i | 0 <= i < n
        ensures AlikeAt(env, mine, others, a[1..], b[1..], i)
      {
        assert AlikeAt(env, mine, others, a, b, i + 1);
      }
    }
    if AlikeAt(env, mine, others, a, b, 0) && AlikeUpTo(env, mine, others, a[1..], b[1..], n) {
      forall i | 0 <= i < n + 1
        ensures AlikeAt(env, mine, others, a, b, i)
      {
        if i > 0 {
          assert AlikeAt(env, mine, others, a[1..], b[1..], i - 1);
        }
      }
    }
  }

  lemma FirstAlike(env: Environment, mine: seq<real>, others: seq<real>, a: seq<Line>, b: seq<Line>)
    requires |mine| == |others| == env.nbConstants && a != [] && b != []
    requires OperandsPresent(env, a[0])
    ensures AlikeAt(env, mine, others, a, b, 0) <==>
      && a[0] == b[0]
      && (env.nbConstants > 0 ==>
            a[0].instruction < |env.instructions| && SameConstants(env, mine, others, a[0]))
  {
  }

  /** The answer in full: positive exactly for equally long programs whose lines are all alike;
      an exception exactly when a line with an unknown instruction stands in both behind
      lines that are all alike, and constants would have to be compared. */
  lemma {:induction false} CompareCases(env: Environment, mine: seq<real>, others: seq<real>,
                                         a: seq<Line>, b: seq<Line>)
    requires |mine| == |others| == env.nbConstants && AllOperandsPresent(env, a)
    ensures Compare(env, mine, others, a, b) == Finished(true)
       <==> |a| == |b| && AlikeUpTo(env, mine, others, a, b, |a|)
    ensures Compare(env, mine, others, a, b) == Threw <==> exists n: nat :: Stuck(env, mine, others, a, b, n)
  {
    hide AlikeAt, ConstantsMatch, OperandsPresent;
    if a != [] && b != [] {
      FirstAlike(env, mine, others, a, b);
      AlikeShift(env, mine, others, a, b, |a| - 1);
      CompareCases(env, mine, others, a[1..], b[1..]);
      assert AllOperandsPresent(env, a[1..]);
      if n: nat :| Stuck(env, mine, others, a, b, n) {
        if n > 0 {
          AlikeShift(env, mine, others, a, b, n - 1);
          assert Stuck(env, mine, others, a[1..], b[1..], n - 1);
        }
      }
      if AlikeAt(env, mine, others, a, b, 0) {
        if n: nat :| Stuck(env, mine, others, a[1..], b[1..], n) {
          AlikeShift(env, mine, others, a, b, n);
          assert Stuck(env, mine, others, a, b, n + 1);
        }
      } else if mine != [] && a[0] == b[0] && a[0].instruction >= |env.instructions| {
        assert Stuck(env, mine, others, a, b, 0);
      }
    }
  }

  method NextNonIntron(p: Program, from: nat) returns (lineIdx: nat)
    requires from <= |p.lines|
    ensures from <= lineIdx <= |p.lines|
    ensures lineIdx < |p.lines| ==> !p.lines[lineIdx].intron
    ensures Kept(p.lines[lineIdx..]) == Kept(p.lines[from..])
  {
    lineIdx := from;
    while lineIdx < |p.lines| && p.lines[lineIdx].intron
      invariant from <= lineIdx <= |p.lines|
      invariant Kept(p.lines[lineIdx..]) == Kept(p.lines[from..])
    {
      KeptStep(p.lines, lineIdx);
      lineIdx := lineIdx + 1;
    }
  }

  method CompareConstants(mine: Program, other: Program, line: Line) returns (same: bool)
    requires mine.env.nbConstants > 0 && |mine.constants| == |other.constants| == mine.env.nbConstants
    requires line.instruction < |mine.env.instructions| && |OperandTypes(mine.env, line)| <= |line.operands|
    ensures same == ConstantsMatch(mine.env, mine.constants, other.constants, line, |OperandTypes(mine.env, line)|)
  {
    var nbOperands := |OperandTypes(mine.env, line)|;
    for operandIdx := 0 to nbOperands
      invariant ConstantsMatch(mine.env, mine.constants, other.constants, line, operandIdx)
    {
      if line.operands[operandIdx].0 == 1 {
        var location := line.operands[operandIdx].1 % mine.env.nbConstants;
        if mine.constants[location] != other.constants[location] {
          return false;
        }
      }
    }
    return true;
  }

  lemma KeptFront(s: seq<FlaggedLine>, i: nat)
    requires i <= |s| && (i < |s| ==> !s[i].intron)
    ensures i == |s| ==> Kept(s[i..]) == []
    ensures i < |s| ==> Kept(s[i..]) != [] && Kept(s[i..])[0] == s[i].line && Kept(s[i..])[1..] == Kept(s[i + 1..])
  {
    if i < |s| {
      KeptStep(s, i);
    }
  }

  /** hasIdenticalBehavior, for two programs of one environment. */
  method HasIdenticalBehavior(mine: Program, other: Program) returns (r: Outcome<bool>)
    requires mine.env == other.env && |mine.constants| == |other.constants| == mine.env.nbConstants
    requires AllOperandsPresent(mine.env, Kept(mine.lines))
    ensures r == Compare(mine.env, mine.constants, other.constants, Kept(mine.lines), Kept(other.lines))
    ensures r == Finished(true) <==>
      && |Kept(mine.lines)| == |Kept(other.lines)|
      && AlikeUpTo(mine.env, mine.constants, other.constants, Kept(mine.lines), Kept(other.lines), |Kept(mine.lines)|)
    ensures r == Threw <==> exists n: nat ::
      Stuck(mine.env, mine.constants, other.constants, Kept(mine.lines), Kept(other.lines), n)
  {
    hide Kept, ConstantsMatch, AlikeUpTo, Stuck;
    CompareCases(mine.env, mine.constants, other.constants, Kept(mine.lines), Kept(other.lines));
    assert mine.lines[0..] == mine.lines && other.lines[0..] == other.lines;
    var thisLineIdx := NextNonIntron(mine, 0);
    var otherLineIdx := NextNonIntron(other, 0);
    while thisLineIdx < |mine.lines| && otherLineIdx < |other.lines|
      invariant thisLineIdx <= |mine.lines| && otherLineIdx <= |other.lines|
      invariant thisLineIdx < |mine.lines| ==> !mine.lines[thisLineIdx].intron
      invariant otherLineIdx < |other.lines| ==> !other.lines[otherLineIdx].intron
      invariant AllOperandsPresent(mine.env, Kept(mine.lines[thisLineIdx..]))
      invariant Compare(mine.env, mine.constants, other.constants, Kept(mine.lines), Kept(other.lines))
        == Compare(mine.env, mine.constants, other.constants,
                   Kept(mine.lines[thisLineIdx..]), Kept(other.lines[otherLineIdx..]))
      decreases |mine.lines| - thisLineIdx
    {
      KeptFront(mine.lines, thisLineIdx);
      KeptFront(other.lines, otherLineIdx);
      var thisLine := mine.lines[thisLineIdx].line;
      var otherLine := other.lines[otherLineIdx].line;
      if thisLine != otherLine {
        return Finished(false);
      }
      if mine.env.nbConstants > 0 {
        if thisLine.instruction >= |mine.env.instructions| {
          return Threw;
        }
        var same := CompareConstants(mine, other, thisLine);
        if !same {
          return Finished(false);
        }
      }
      thisLineIdx := NextNonIntron(mine, thisLineIdx + 1);
      otherLineIdx := NextNonIntron(other, otherLineIdx + 1);
    }
    KeptFront(mine.lines, thisLineIdx);
    KeptFront(other.lines, otherLineIdx);
    return Finished(thisLineIdx == |mine.lines| && otherLineIdx == |other.lines|);
  }

  /** The constants one operand reads. */
  function ConstantWindow(env: Environment, constants: seq<real>, t: Type, location: nat): (w: Operand)
    requires |constants| == env.nbConstants
  {
    var space := Registers.AddressSpace(Constant, env.nbConstants, t);
    if space == 0 then []
    else Select(constants, Registers.Accessed(Constant, env.nbConstants, t, location % space))
  }

  /** Every operand from the constants reads equal constants in both programs. */
  predicate WindowsMatch(env: Environment, mine: seq<real>, others: seq<real>, line: Line)
    requires |mine| == |others| == env.nbConstants
  {
    line.instruction < |env.instructions| && env.nbConstants > 0 ==>
      forall k :: 0 <= k < |OperandTypes(env, line)| && k < |line.operands| && line.operands[k].0 == 1 ==>
        ConstantWindow(env, mine, OperandTypes(env, line)[k], line.operands[k].1)
          == ConstantWindow(env, others, OperandTypes(env, line)[k], line.operands[k].1)
  }

  /** Constant operands read at most one constant. */
  predicate SingleConstants(env: Environment, line: Line) {
    line.instruction < |env.instructions| ==>
      forall k :: 0 <= k < |OperandTypes(env, line)| && k < |line.operands| && line.operands[k].0 == 1 ==>
        OperandTypes(env, line)[k].Matrix? || Registers.WindowSize(OperandTypes(env, line)[k]) <= 1
  }

  /** Where operands read one constant each, comparing one constant is comparing them all. */
  lemma SingleConstantsMatch(env: Environment, mine: seq<real>, others: seq<real>, line: Line)
    requires |mine| == |others| == env.nbConstants && OperandsPresent(env, line)
    requires line.instruction < |env.instructions|
    requires SingleConstants(env, line) && SameConstants(env, mine, others, line)
    ensures WindowsMatch(env, mine, others, line)
  {
  }

  lemma SameTyped(m: Machine, n: Machine, line: Line)
    requires n == m.(constants := n.constants) && Typed(m, line)
    ensures Typed(n, line) && (Executable(m, line) <==> Executable(n, line))
  {
    assert NbSources(m) == NbSources(n);
    if line.instruction < |m.env.instructions| {
      forall k | 0 <= k < |OperandTypes(n.env, line)|
        ensures TypedAt(n, line, k)
      {
        assert TypedAt(m, line, k);
      }
    }
  }

  /** An operand reads the same in both programs exactly when it is no constant operand or
      its windows of the constants are equal. */
  lemma SameOperand(m: Machine, n: Machine, registers: seq<real>, line: Line, k: nat)
    requires ValidMachine(m) && n == m.(constants := n.constants) && |n.constants| == |m.constants|
    requires |registers| == m.env.nbRegisters && Typed(m, line) && line.instruction < |m.env.instructions|
    requires k < |OperandTypes(m.env, line)| && k < |line.operands| && line.operands[k].0 < NbSources(m)
    ensures Typed(n, line)
    ensures ReadOperand(m, registers, line, k) == ReadOperand(n, registers, line, k) <==>
      (m.env.nbConstants > 0 && line.operands[k].0 == 1 ==>
         ConstantWindow(m.env, m.constants, OperandTypes(m.env, line)[k], line.operands[k].1)
           == ConstantWindow(m.env, n.constants, OperandTypes(m.env, line)[k], line.operands[k].1))
  {
    SameTyped(m, n, line);
    assert TypedAt(m, line, k);
  }

  /** Programs with the same lines give the same outcome on all data when their constant
      operands read equal constants. For programs that the test finds identical this needs
      checking only where an operand reads several constants (SingleConstantsMatch). */
  lemma {:induction false} IdenticalMeansSame(m: Machine, n: Machine, a: seq<Line>, b: seq<Line>,
                                              registers: seq<real>, ignoreException: bool)
    requires ValidMachine(m) && n == m.(constants := n.constants) && |n.constants| == |m.constants|
    requires |registers| == m.env.nbRegisters && AllTyped(m, a) && AllOperandsPresent(m.env, a)
    requires forall i :: 0 <= i < |a| ==> WindowsMatch(m.env, m.constants, n.constants, a[i])
    requires Compare(m.env, m.constants, n.constants, a, b) == Finished(true)
    ensures AllTyped(n, b)
    ensures Run(m, a, registers, ignoreException) == Run(n, b, registers, ignoreException)
  {
    hide ConstantWindow;
    if a != [] {
      var line := a[0];
      SameTyped(m, n, line);
      if Executable(m, line) {
        var k := |OperandTypes(m.env, line)|;
        forall i | 0 <= i < k
          ensures Fetched(m, registers, line, k)[i] == Fetched(n, registers, line, k)[i]
        {
          assert TypedAt(m, line, i) && TypedAt(n, line, i);
          SameOperand(m, n, registers, line, i);
        }
        assert Fetched(m, registers, line, k) == Fetched(n, registers, line, k);
        IdenticalMeansSame(m, n, a[1..], b[1..], Execute(m, registers, line), ignoreException);
      } else {
        IdenticalMeansSame(m, n, a[1..], b[1..], registers, ignoreException);
      }
    }
  }

  /** A program of one line that gives the second of its two constants. */
  function SecondConstant(c: real): Machine {
    var second := Instruction([Array(Constant, 2)],
      (o: seq<Operand>) => if |o| == 1 && |o[0]| == 2 then o[0][1] else 0.0);
    Machine(Environment(1, 2, [second, second]), [1.0, c], [])
  }

  lemma SecondConstantRuns(c: real, line: Line)
    requires line == Line(0, 0, [(1, 0)])
    ensures var m := SecondConstant(c);
      && Constructible(m) && ValidMachine(m) && AllTyped(m, [line])
      && ResultOf(m, [line], false) == Finished(c)
  {
    var m := SecondConstant(c);
    assert OperandTypes(m.env, line) == [Array(Constant, 2)];
    assert SourceSpace(m, 1, Array(Constant, 2)) == 1;
    assert m.env.instructions[0].operandTypes != [];
    var zeros := Zeros(1);
    assert Fetched(m, zeros, line, 1)[0] == [1.0, c];
    assert [line][1..] == [];
    assert Run(m, [], Execute(m, zeros, line), false) == Finished(Execute(m, zeros, line));
  }

  /** An operand that takes two constants at once escapes the test: it compares one. */
  lemma ArrayConstantsEscape() returns (m: Machine, n: Machine, lines: seq<Line>)
    ensures Constructible(m) && ValidMachine(m)
    ensures n == m.(constants := n.constants) && |n.constants| == |m.constants|
    ensures AllTyped(m, lines) && AllTyped(n, lines) && AllOperandsPresent(m.env, lines)
    ensures Compare(m.env, m.constants, n.constants, lines, lines) == Finished(true)
    ensures ResultOf(m, lines, false) != ResultOf(n, lines, false)
  {
    hide Constructible, ResultOf, AllTyped;
    m, n := SecondConstant(2.0), SecondConstant(3.0);
    var line := Line(0, 0, [(1, 0)]);
    lines := [line];
    SecondConstantRuns(2.0, line);
    SecondConstantRuns(3.0, line);
    assert lines[1..] == [];
  }
}
