/** The program object with its flagged lines, and the engine that runs it. */
module Introns {
  import opened DataTypes
  import opened Programs
  import Registers = ArrayWrappers

  datatype FlaggedLine = Flagged(line: Line, intron: bool)

  /** All lines, flags dropped. */
  function Lines(s: seq<FlaggedLine>): (r: seq<Line>)
    ensures |r| == |s| && forall i :: 0 <= i < |r| ==> r[i] == s[i].line
  {
    seq(|s|, i requires 0 <= i < |s| => s[i].line)
  }

  function NonIntrons(s: seq<FlaggedLine>): (r: seq<FlaggedLine>)
    ensures |r| <= |s|
    ensures forall i :: 0 <= i < |r| ==> !r[i].intron
  {
    if s == [] then []
    else if s[0].intron then NonIntrons(s[1..])
    else [s[0]] + NonIntrons(s[1..])
  }

  /** The lines the engine goes through. */
  function Kept(s: seq<FlaggedLine>): (r: seq<Line>) {
    Lines(NonIntrons(s))
  }

  lemma {:induction false} NonIntronsJoin(a: seq<FlaggedLine>, b: seq<FlaggedLine>)
    ensures NonIntrons(a + b) == NonIntrons(a) + NonIntrons(b)
  {
    if a == [] {
      assert a + b == b;
    } else {
      assert (a + b)[1..] == a[1..] + b;
      NonIntronsJoin(a[1..], b);
    }
  }

  lemma {:induction false} NoIntrons(s: seq<FlaggedLine>)
    requires forall i :: 0 <= i < |s| ==> !s[i].intron
    ensures NonIntrons(s) == s
  {
    if s != [] {
      NoIntrons(s[1..]);
    }
  }

  lemma KeptStep(s: seq<FlaggedLine>, i: nat)
    requires i < |s|
    ensures Kept(s[i..]) == if s[i].intron then Kept(s[i + 1..]) else [s[i].line] + Kept(s[i + 1..])
  {
    assert s[i..][1..] == s[i + 1..];
  }

  /** Every flag says what backward dependency says. */
  ghost predicate Marked(env: Environment, s: seq<FlaggedLine>) {
    forall i :: 0 <= i < |s| ==> (s[i].intron <==> IsIntron(env, Lines(s), i))
  }

  /** Line `j` is no intron and reads what line `i` writes before anything overwrites it. */
  ghost predicate UsesNext(env: Environment, s: seq<FlaggedLine>, i: nat, j: nat) {
    && i < j < |s| && !s[j].intron && LineReads(env, s[j].line, s[i].line.destination)
    && forall k :: i < k < j ==> s[k].line.destination != s[i].line.destination
  }

  /** What line `i` writes is the result, register 0 at the end, or is used by a line that is
      no intron. */
  ghost predicate UsedLater(env: Environment, s: seq<FlaggedLine>, i: nat)
    requires i < |s|
  {
    || (exists j :: UsesNext(env, s, i, j))
    || (s[i].line.destination == 0 && forall k :: i < k < |s| ==> s[k].line.destination != 0)
  }

  /** The flags are the ones that backward dependency demands: from the last line to the first
      each flag follows from those behind it. */
  ghost predicate FlagsAreDependency(env: Environment, s: seq<FlaggedLine>) {
    forall i :: 0 <= i < |s| ==> (s[i].intron <==> !UsedLater(env, s, i))
  }

  lemma MarkedIsDependency(env: Environment, s: seq<FlaggedLine>)
    requires Marked(env, s)
    ensures FlagsAreDependency(env, s)
  {
    hide LineReads, AllReads, IsIntron, Useful;
    var lines := Lines(s);
    forall i | 0 <= i < |s|
      ensures s[i].intron <==> !UsedLater(env, s, i)
    {
      var r := s[i].line.destination;
      UsefulIsLive(env, lines, r, i + 1);
      IntronIs(env, lines, i);
      var next := i + 1;
      forall j: nat
        ensures ReadNext(env, lines, r, next, j) <==> UsesNext(env, s, i, j)
      {
        if i < j < |s| {
          AllReadsAre(env, s[j].line, r);
        }
      }
      if j: nat :| ReadNext(env, lines, r, next, j) {
        assert UsesNext(env, s, i, j);
      }
      if j: nat :| UsesNext(env, s, i, j) {
        assert ReadNext(env, lines, r, next, j);
      }
      assert NeverWritten(lines, r, i + 1) <==> forall k :: i < k < |s| ==> s[k].line.destination != r;
    }
  }

  lemma IntronIs(env: Environment, lines: seq<Line>, i: nat)
    requires i < |lines|
    ensures IsIntron(env, lines, i) <==> lines[i].destination !in Useful(env, lines[i + 1..])
  {
  }

  /** With such flags the engine goes through exactly the needed lines. */
  lemma {:induction false} MarkedKeepsNeeded(env: Environment, s: seq<FlaggedLine>)
    requires Marked(env, s)
    ensures Kept(s) == Needed(env, Lines(s))
  {
    if s != [] {
      assert Lines(s)[1..] == Lines(s[1..]);
      assert Marked(env, s[1..]) by {
        forall i | 0 <= i < |s[1..]|
          ensures s[1..][i].intron <==> IsIntron(env, Lines(s[1..]), i)
        {
          assert Lines(s)[i + 2..] == Lines(s[1..])[i + 1..];
          assert s[i + 1].intron <==> IsIntron(env, Lines(s), i + 1);
        }
      }
      MarkedKeepsNeeded(env, s[1..]);
      KeptStep(s, 0);
      assert s[0..] == s;
    }
  }

  class Program {
    const env: Environment
    var constants: seq<real>
    var lines: seq<FlaggedLine>

    constructor (env: Environment)
      ensures this.env == env && lines == [] && constants == Zeros(env.nbConstants)
    {
      this.env, constants, lines := env, Zeros(env.nbConstants), [];
    }

    /** The operand loop of the scan: adds the registers a line reads. */
    method AddReads(line: Line, usefulRegisters: set<nat>) returns (grown: set<nat>)
      requires RegistersTyped(env, line) && line.instruction < |env.instructions|
      ensures grown == usefulRegisters + Reads(env, line, |OperandTypes(env, line)|)
    {
      grown := usefulRegisters;
      var types := OperandTypes(env, line);
      for idxOperand := 0 to |types|
        invariant grown == usefulRegisters + Reads(env, line, idxOperand)
      {
        var operandType := types[idxOperand];
        assert RegisterTypedAt(env, line, idxOperand);
        if line.operands[idxOperand].0 == 0 {
          var registerIdx := line.operands[idxOperand].1 % RegisterSpace(env, operandType);
          var accessed := Registers.Accessed(Double, env.nbRegisters, operandType, registerIdx);
          grown := InsertAll(accessed, grown);
        }
      }
    }

    method InsertAll(addresses: seq<nat>, before: set<nat>) returns (grown: set<nat>)
      ensures grown == before + AsSet(addresses)
    {
      grown := before;
      for i := 0 to |addresses|
        invariant grown == before + AsSet(addresses[..i])
      {
        assert AsSet(addresses[..i + 1]) == AsSet(addresses[..i]) + {addresses[i]};
        grown := grown + {addresses[i]};
      }
      assert addresses[..|addresses|] == addresses;
    }

    /** identifyIntrons: the backward scan. It marks exactly the lines whose destination no
        later needed line, nor the final result, depends on, and counts them; it throws
        exactly when it meets a needed line with an unknown instruction. Register operands of
        needed lines are scaled, so their types must be ones the registers provide. */
    method IdentifyIntrons() returns (r: Outcome<nat>)
      requires NeededRegistersTyped(env, Lines(lines))
      modifies this`lines
      ensures Lines(lines) == old(Lines(lines))
      ensures r.Finished? <==> Scannable(env, Lines(lines))
      ensures r.Finished? ==>
        && Marked(env, lines) && Kept(lines) == Needed(env, Lines(lines))
        && r.value == |lines| - |Kept(lines)|
        && FlagsAreDependency(env, lines)
    {
      hide Reads, RegistersTyped, Needed, Useful, Scannable, NeededRegistersTyped, FlagsAreDependency;
      ghost var all := Lines(lines);
      var nbIntrons := 0;
      var usefulRegisters := {0};
      var backIter := |lines|;
      assert all[|lines|..] == [];
      NothingNeeded(env);
      while backIter > 0
        invariant 0 <= backIter <= |lines| == |all| && Lines(lines) == all
        invariant usefulRegisters == Useful(env, all[backIter..])
        invariant Scannable(env, all[backIter..])
        invariant forall i :: backIter <= i < |lines| ==> (lines[i].intron <==> IsIntron(env, all, i))
        invariant nbIntrons == |all| - backIter - |Needed(env, all[backIter..])|
      {
        backIter := backIter - 1;
        var line := lines[backIter].line;
        NeededFront(env, all, backIter);
        ScanStep(env, all, backIter);
        var useful := line.destination in usefulRegisters;
        if useful {
          lines := lines[backIter := Flagged(line, false)];
          usefulRegisters := usefulRegisters - {line.destination};
          if line.instruction >= |env.instructions| {
            return Threw;
          }
          usefulRegisters := AddReads(line, usefulRegisters);
        } else {
          lines := lines[backIter := Flagged(line, true)];
          nbIntrons := nbIntrons + 1;
        }
      }
      assert all[0..] == all && Marked(env, lines);
      MarkedKeepsNeeded(env, lines);
      MarkedIsDependency(env, lines);
      return Finished(nbIntrons);
    }

    /** removeLine. */
    method RemoveLine(idx: nat) returns (ok: bool)
      modifies this`lines
      ensures ok <==> idx < |old(lines)|
      ensures lines == if ok then old(lines)[..idx] + old(lines)[idx + 1..] else old(lines)
    {
      if idx >= |lines| {
        return false;
      }
      lines := lines[..idx] + lines[idx + 1..];
      return true;
    }

    /** clearIntrons: removes the flagged lines, keeping the order of the others. */
    method ClearIntrons()
      modifies this`lines
      ensures lines == NonIntrons(old(lines)) && Kept(lines) == Kept(old(lines)) == Lines(lines)
    {
      var index := 0;
      while index < |lines|
        invariant 0 <= index <= |lines|
        invariant forall i :: 0 <= i < index ==> !lines[i].intron
        invariant NonIntrons(lines) == NonIntrons(old(lines))
        decreases |lines| - index
      {
        if lines[index].intron {
          ghost var before := lines;
          var _ := RemoveLine(index);
          assert before == before[..index] + ([before[index]] + before[index + 1..]);
          assert ([before[index]] + before[index + 1..])[1..] == before[index + 1..];
          NonIntronsJoin(before[..index], [before[index]] + before[index + 1..]);
          NonIntronsJoin(before[..index], before[index + 1..]);
        } else {
          index := index + 1;
        }
      }
      NoIntrons(lines);
    }
  }

  lemma NothingNeeded(env: Environment)
    ensures Needed(env, []) == [] && Useful(env, []) == {0} && Scannable(env, [])
  {
  }

  lemma NeededFront(env: Environment, lines: seq<Line>, i: nat)
    requires i < |lines|
    ensures Useful(env, lines[i..]) == Before(env, lines[i], Useful(env, lines[i + 1..]))
    ensures Needed(env, lines[i..])
         == (if IsIntron(env, lines, i) then [] else [lines[i]]) + Needed(env, lines[i + 1..])
  {
    assert lines[i..][1..] == lines[i + 1..];
    assert lines[i..][0] == lines[i];
  }

  /** A line that is no intron is among the needed ones, whatever stands in front of it. */
  lemma {:induction false} NeededAt(env: Environment, lines: seq<Line>, i: nat)
    requires i < |lines|
    ensures !IsIntron(env, lines, i) ==> lines[i] in Needed(env, lines)
  {
    if i > 0 {
      assert lines[1..][i - 1 + 1..] == lines[i + 1..];
      NeededAt(env, lines[1..], i - 1);
    }
  }

  lemma ScanStep(env: Environment, lines: seq<Line>, i: nat)
    requires i < |lines| && Scannable(env, lines[i + 1..]) && NeededRegistersTyped(env, lines)
    ensures IsIntron(env, lines, i) || lines[i].instruction < |env.instructions| ==> Scannable(env, lines[i..])
    ensures !IsIntron(env, lines, i) ==> RegistersTyped(env, lines[i])
    ensures !IsIntron(env, lines, i) && lines[i].instruction >= |env.instructions| ==> !Scannable(env, lines)
  {
    hide RegistersTyped;
    NeededFront(env, lines, i);
    NeededAt(env, lines, i);
  }

  // ----- The engine -----

  lemma RunStep(m: Machine, lines: seq<Line>, registers: seq<real>, ignoreException: bool)
    requires ValidMachine(m) && |registers| == m.env.nbRegisters && AllTyped(m, lines) && lines != []
    ensures AllTyped(m, lines[1..]) && Typed(m, lines[0])
    ensures Run(m, lines, registers, ignoreException) ==
      if Executable(m, lines[0]) then Run(m, lines[1..], Execute(m, registers, lines[0]), ignoreException)
      else if ignoreException then Run(m, lines[1..], registers, ignoreException)
      else Threw
  {
  }

  lemma RunNothing(m: Machine, registers: seq<real>, ignoreException: bool)
    requires ValidMachine(m) && |registers| == m.env.nbRegisters
    ensures Kept([]) == [] && Run(m, [], registers, ignoreException) == Finished(registers)
  {
  }

  class ProgramExecutionEngine {
    const program: Program
    const sources: seq<Source>
    var registers: seq<real>
    var programCounter: nat

    ghost function Setup(): Machine
      reads program
    {
      Machine(program.env, program.constants, sources)
    }

    ghost predicate Valid()
      reads this, program
    {
      && ValidMachine(Setup()) && |registers| == program.env.nbRegisters
      && AllTyped(Setup(), Kept(program.lines))
    }

    constructor (program: Program, sources: seq<Source>)
      requires ValidMachine(Machine(program.env, program.constants, sources))
      requires AllTyped(Machine(program.env, program.constants, sources), Kept(program.lines))
      ensures Valid() && this.program == program && this.sources == sources
    {
      this.program, this.sources := program, sources;
      registers, programCounter := Zeros(program.env.nbRegisters), 0;
    }

    /** executeCurrentLine: fetches every operand, executes, writes the destination. */
    method ExecuteCurrentLine() returns (threw: bool)
      requires Valid() && programCounter < |program.lines|
      requires Typed(Setup(), program.lines[programCounter].line)
      modifies this`registers
      ensures Valid()
      ensures var line := program.lines[programCounter].line;
        && (threw <==> !Executable(Setup(), line))
        && (threw <==> !Runs(Setup(), line)) && Steps(Setup(), line, old(registers), registers)
        && registers == if threw then old(registers) else Execute(Setup(), old(registers), line)
    {
      ExecuteSteps(Setup(), registers, program.lines[programCounter].line);
      hide Steps, Runs;
      ghost var m := Setup();
      var line := program.lines[programCounter].line;
      if line.instruction >= |program.env.instructions| {
        return true;
      }
      var instruction := program.env.instructions[line.instruction];
      var operands: seq<Operand> := [];
      for i := 0 to |instruction.operandTypes|
        invariant |operands| == i
        invariant forall k :: 0 <= k < i ==>
            && k < |line.operands| && line.operands[k].0 < NbSources(m)
            && operands[k] == ReadOperand(m, registers, line, k)
      {
        var operandType := instruction.operandTypes[i];
        assert TypedAt(m, line, i) && OperandTypes(m.env, line)[i] == operandType;
        if line.operands[i].0 >= NbSources(Machine(program.env, program.constants, sources)) {
          return true;
        }
        var data := Read(Machine(program.env, program.constants, sources), registers,
                         line.operands[i].0, operandType, line.operands[i].1);
        operands := operands + [data];
      }
      if line.destination >= program.env.nbRegisters {
        return true;
      }
      assert operands == Fetched(m, registers, line, |operands|);
      registers := registers[line.destination := instruction.execute(operands)];
      return false;
    }

    /** next: on to the following line that is not an intron. */
    method Next() returns (hasNext: bool)
      requires programCounter < |program.lines|
      modifies this`programCounter
      ensures hasNext <==> programCounter < |program.lines|
      ensures old(programCounter) < programCounter <= |program.lines|
      ensures hasNext ==> !program.lines[programCounter].intron
      ensures Kept(program.lines[old(programCounter) + 1..]) == Kept(program.lines[programCounter..])
    {
      programCounter := programCounter + 1;
      while programCounter < |program.lines| && program.lines[programCounter].intron
        invariant old(programCounter) < programCounter <= |program.lines|
        invariant Kept(program.lines[old(programCounter) + 1..]) == Kept(program.lines[programCounter..])
        decreases |program.lines| - programCounter
      {
        KeptStep(program.lines, programCounter);
        programCounter := programCounter + 1;
      }
      return programCounter < |program.lines|;
    }

    /** iterateThroughtProgram: executes the kept lines in order. */
    method IterateThroughProgram(ignoreException: bool) returns (threw: bool)
      requires Valid()
      modifies this`registers, this`programCounter
      ensures Valid()
      ensures Run(Setup(), Kept(program.lines), old(registers), ignoreException)
           == if threw then Threw else Finished(registers)
    {
      hide Run, Execute, Executable, Typed, AllExecutable, NonIntrons, Kept, IsIntron, Lines;
      ghost var m := Setup();
      ghost var lines := program.lines;
      programCounter := 0;
      var hasNext := |program.lines| > 0;
      assert lines[0..] == lines;
      if hasNext && program.lines[0].intron {
        KeptStep(lines, 0);
        hasNext := Next();
      }
      assert Kept(lines[programCounter..]) == Kept(lines);
      while hasNext
        invariant Valid() && programCounter <= |lines| && AllTyped(m, Kept(lines[programCounter..]))
        invariant hasNext <==> programCounter < |lines|
        invariant hasNext ==> !lines[programCounter].intron
        invariant Run(m, Kept(lines), old(registers), ignoreException)
               == Run(m, Kept(lines[programCounter..]), registers, ignoreException)
        decreases |lines| - programCounter
      {
        KeptStep(lines, programCounter);
        ghost var kept := Kept(lines[programCounter..]);
        ghost var counter := programCounter;
        assert kept[0] == lines[programCounter].line && kept[1..] == Kept(lines[programCounter + 1..]);
        RunStep(m, kept, registers, ignoreException);
        var threw := ExecuteCurrentLine();
        if threw && !ignoreException {
          return true;
        }
        hasNext := Next();
        assert Kept(lines[programCounter..]) == kept[1..];
      }
      assert lines[programCounter..] == [];
      RunNothing(m, registers, ignoreException);
      return false;
    }

    /** executeProgram: register 0 after going through the kept lines from zeroed registers. */
    method ExecuteProgram(ignoreException: bool) returns (r: Outcome<real>)
      requires Valid()
      modifies this`registers, this`programCounter
      ensures Valid()
      ensures r == ResultOf(Setup(), Kept(program.lines), ignoreException)
      ensures r.Threw? <==> !ignoreException && !AllRun(Setup(), Kept(program.lines))
      ensures r.Finished? ==> EndsWith(Setup(), Kept(program.lines), r.value)
    {
      ResultIsEnd(Setup(), Kept(program.lines), ignoreException);
      registers := Zeros(program.env.nbRegisters);
      var threw := IterateThroughProgram(ignoreException);
      r := if threw then Threw else Finished(registers[0]);
    }
  }

  /** For every program that can be scanned, and with exceptions let out or ignored: clearing
      the marked lines does not change the result, there is nothing left for a second scan,
      and the result is that of all lines under the conditions of IntronsPreserveResult. */
  method MarkThenClear(engine: ProgramExecutionEngine, ignoreException: bool)
      returns (marked: Outcome<real>, cleared: Outcome<real>, again: Outcome<nat>)
    requires engine.Valid() && AllTyped(engine.Setup(), Lines(engine.program.lines))
    requires Scannable(engine.program.env, Lines(engine.program.lines))
    modifies engine`registers, engine`programCounter, engine.program`lines
    ensures cleared == marked && again == Finished(0)
    ensures var m, all := old(engine.Setup()), old(Lines(engine.program.lines));
      var full := ResultOf(m, all, ignoreException);
      && (!ignoreException ==>
            (marked == full <==> AllExecutable(m, all) || !AllExecutable(m, Needed(m.env, all))))
      && (CoversLive(m, all) && ignoreException ==> marked == full)
  {
    hide Needed, Useful, Executable, Typed, RegistersTyped, Marked, Kept, ResultOf, CoversLive, NeededRegistersTyped;
    ghost var m := engine.Setup();
    ghost var all := Lines(engine.program.lines);
    IntronsPreserveResult(m, all);
    SecondScan(m.env, all);
    TypedIsRegistersTyped(m, all);
    var _ := engine.program.IdentifyIntrons();
    marked := engine.ExecuteProgram(ignoreException);
    engine.program.ClearIntrons();
    cleared := engine.ExecuteProgram(ignoreException);
    again := engine.program.IdentifyIntrons();
  }

  lemma TypedIsRegistersTyped(m: Machine, lines: seq<Line>)
    requires AllTyped(m, lines)
    ensures NeededRegistersTyped(m.env, lines) && NeededRegistersTyped(m.env, Needed(m.env, lines))
  {
    forall l | l in lines
      ensures RegistersTyped(m.env, l)
    {
      TypedRegisters(m, l);
    }
  }
}
