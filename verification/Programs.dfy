/** Programs of a learned graph: lines over registers, their meaning, and the marking and
    removal of introns, the lines that cannot affect register 0. */
module Programs {
  import opened DataTypes
  import Registers = ArrayWrappers

  type Operand = seq<real>

  datatype Instruction = Instruction(operandTypes: seq<Type>, execute: seq<Operand> -> real)

  /** Any data source behind the registers and constants. */
  datatype Source = Source(addressSpace: Type -> nat, read: (Type, nat) -> Operand)

  /** An operand is a pair of data source index and unscaled location. */
  datatype Line = Line(instruction: nat, destination: nat, operands: seq<(nat, nat)>)

  datatype Environment = Environment(nbRegisters: nat, nbConstants: nat, instructions: seq<Instruction>)

  /** What a program runs on: registers come first, then its constants if there are any,
      then the other sources. */
  datatype Machine = Machine(env: Environment, constants: seq<real>, sources: seq<Source>)

  predicate ValidMachine(m: Machine) {
    m.env.nbRegisters > 0 && |m.constants| == m.env.nbConstants
  }

  /** What the constructor of an environment insists on: registers, more than one
      instruction, one with operands, more than one data source, and every operand type
      provided by some data source. */
  predicate Constructible(m: Machine) {
    && m.env.nbRegisters > 0 && |m.env.instructions| > 1 && NbSources(m) > 1
    && (exists i :: 0 <= i < |m.env.instructions| && m.env.instructions[i].operandTypes != [])
    && (forall i :: 0 <= i < |m.env.instructions| ==> Handled(m, m.env.instructions[i]))
  }

  predicate Handled(m: Machine, i: Instruction) {
    forall k :: 0 <= k < |i.operandTypes| ==>
      exists source :: 0 <= source < NbSources(m) && SourceSpace(m, source, i.operandTypes[k]) > 0
  }

  function NbSources(m: Machine): nat {
    (if m.env.nbConstants > 0 then 2 else 1) + |m.sources|
  }

  function OperandTypes(env: Environment, line: Line): seq<Type>
    requires line.instruction < |env.instructions|
  {
    env.instructions[line.instruction].operandTypes
  }

  function RegisterSpace(env: Environment, t: Type): nat {
    Registers.AddressSpace(Double, env.nbRegisters, t)
  }

  function SourceSpace(m: Machine, index: nat, t: Type): nat
    requires index < NbSources(m)
  {
    if index == 0 then RegisterSpace(m.env, t)
    else if m.env.nbConstants == 0 then m.sources[index - 1].addressSpace(t)
    else if index == 1 then Registers.AddressSpace(Constant, m.env.nbConstants, t)
    else m.sources[index - 2].addressSpace(t)
  }

  /** The k-th operand is there, and has a type the registers provide if it is a register:
      otherwise scaling its location would divide by zero. */
  predicate RegisterTypedAt(env: Environment, line: Line, k: nat)
    requires line.instruction < |env.instructions| && k < |OperandTypes(env, line)|
  {
    && k < |line.operands|
    && (line.operands[k].0 == 0 ==> RegisterSpace(env, OperandTypes(env, line)[k]) > 0)
  }

  predicate RegistersTyped(env: Environment, line: Line) {
    line.instruction < |env.instructions| ==>
      forall k :: 0 <= k < |OperandTypes(env, line)| ==> RegisterTypedAt(env, line, k)
  }

  /** The same for any data source. */
  predicate TypedAt(m: Machine, line: Line, k: nat)
    requires line.instruction < |m.env.instructions| && k < |OperandTypes(m.env, line)|
  {
    && k < |line.operands|
    && (line.operands[k].0 < NbSources(m) ==>
          SourceSpace(m, line.operands[k].0, OperandTypes(m.env, line)[k]) > 0)
  }

  predicate Typed(m: Machine, line: Line) {
    line.instruction < |m.env.instructions| ==>
      forall k :: 0 <= k < |OperandTypes(m.env, line)| ==> TypedAt(m, line, k)
  }

  lemma TypedRegisters(m: Machine, line: Line)
    requires Typed(m, line)
    ensures RegistersTyped(m.env, line)
  {
    if line.instruction < |m.env.instructions| {
      forall k | 0 <= k < |OperandTypes(m.env, line)|
        ensures RegisterTypedAt(m.env, line, k)
      {
        assert TypedAt(m, line, k);
      }
    }
  }

  // ----- Meaning -----

  /** Whether executing the line throws nothing: indices of instruction, sources and
      destination are in range. It does not depend on any data. */
  predicate Executable(m: Machine, line: Line) {
    && line.instruction < |m.env.instructions|
    && (forall k :: 0 <= k < |OperandTypes(m.env, line)| && k < |line.operands| ==>
          line.operands[k].0 < NbSources(m))
    && line.destination < m.env.nbRegisters
  }

  function Read(m: Machine, registers: seq<real>, index: nat, t: Type, location: nat): (v: Operand)
    requires |registers| == m.env.nbRegisters && |m.constants| == m.env.nbConstants
    requires index < NbSources(m) && SourceSpace(m, index, t) > 0
  {
    var address := location % SourceSpace(m, index, t);
    if index == 0 then
      Select(registers, Registers.Accessed(Double, m.env.nbRegisters, t, address))
    else if m.env.nbConstants == 0 then m.sources[index - 1].read(t, address)
    else if index == 1 then
      Select(m.constants, Registers.Accessed(Constant, m.env.nbConstants, t, address))
    else m.sources[index - 2].read(t, address)
  }

  function ReadOperand(m: Machine, registers: seq<real>, line: Line, k: nat): (v: Operand)
    requires ValidMachine(m) && |registers| == m.env.nbRegisters
    requires Typed(m, line) && line.instruction < |m.env.instructions|
    requires k < |OperandTypes(m.env, line)| && k < |line.operands| && line.operands[k].0 < NbSources(m)
  {
    assert TypedAt(m, line, k);
    Read(m, registers, line.operands[k].0, OperandTypes(m.env, line)[k], line.operands[k].1)
  }

  function Fetched(m: Machine, registers: seq<real>, line: Line, n: nat): (operands: seq<Operand>)
    requires ValidMachine(m) && |registers| == m.env.nbRegisters
    requires Typed(m, line) && Executable(m, line) && n <= |OperandTypes(m.env, line)|
    ensures |operands| == n
  {
    seq(n, k requires 0 <= k < n =>
      assert TypedAt(m, line, k);
      ReadOperand(m, registers, line, k))
  }

  function Execute(m: Machine, registers: seq<real>, line: Line): (after: seq<real>)
    requires ValidMachine(m) && |registers| == m.env.nbRegisters && Typed(m, line) && Executable(m, line)
    ensures |after| == |registers|
    ensures forall x :: 0 <= x < |after| && x != line.destination ==> after[x] == registers[x]
    ensures after[line.destination] == m.env.instructions[line.instruction].execute(
      Fetched(m, registers, line, |OperandTypes(m.env, line)|))
  {
    var operands := Fetched(m, registers, line, |OperandTypes(m.env, line)|);
    registers[line.destination := m.env.instructions[line.instruction].execute(operands)]
  }

  // ----- Operands and lines in terms of the data -----

  /** The value is the window of consecutive cells that a type takes from a location on, the
      location counted modulo the number of positions the window has. */
  ghost predicate IsWindow(v: Operand, cells: seq<real>, native: Native, t: Type, location: nat) {
    match t
    case Scalar(other) => other == native && cells != [] && v == [cells[location % |cells|]]
    case Array(other, size) =>
      && other == native && size <= |cells| == |v| + (|cells| - size)
      && forall i :: 0 <= i < size ==> v[i] == cells[location % (|cells| - size + 1) + i]
    case Matrix(_, _, _) => false
  }

  /** What operand `operand` of type `t` is: a window of the registers, a window of the constants
      if there are any, or what the data source behind them holds at the scaled location. */
  ghost predicate IsOperand(v: Operand, m: Machine, registers: seq<real>, t: Type, operand: (nat, nat)) {
    var (index, location) := operand;
    var first := if m.constants == [] then 1 else 2;
    if index == 0 then IsWindow(v, registers, Double, t, location)
    else if index < first then IsWindow(v, m.constants, Constant, t, location)
    else
      && index - first < |m.sources| && m.sources[index - first].addressSpace(t) > 0
      && v == m.sources[index - first].read(t, location % m.sources[index - first].addressSpace(t))
  }

  lemma OperandIs(m: Machine, registers: seq<real>, line: Line, k: nat)
    requires ValidMachine(m) && |registers| == m.env.nbRegisters
    requires Typed(m, line) && line.instruction < |m.env.instructions|
    requires k < |OperandTypes(m.env, line)| && k < |line.operands| && line.operands[k].0 < NbSources(m)
    ensures IsOperand(ReadOperand(m, registers, line, k), m, registers, OperandTypes(m.env, line)[k], line.operands[k])
  {
    hide IsWindow, Select, Registers.Accessed, Registers.AddressSpace;
    assert TypedAt(m, line, k);
    var (index, location) := line.operands[k];
    var t := OperandTypes(m.env, line)[k];
    if index == 0 {
      WindowIs(registers, Double, t, location);
    } else if index == 1 && m.constants != [] {
      WindowIs(m.constants, Constant, t, location);
    }
  }

  lemma WindowIs(cells: seq<real>, native: Native, t: Type, location: nat)
    requires Registers.AddressSpace(native, |cells|, t) > 0
    ensures var window := Registers.Accessed(native, |cells|, t, location % Registers.AddressSpace(native, |cells|, t));
      && (forall i :: 0 <= i < |window| ==> window[i] < |cells|)
      && IsWindow(Select(cells, window), cells, native, t, location)
  {
  }

  /** The line names an instruction and a register of the environment, and data sources that
      exist for all operands of the instruction. */
  predicate Runs(m: Machine, line: Line) {
    && line.instruction < |m.env.instructions| && line.destination < m.env.nbRegisters
    && forall k :: 0 <= k < |line.operands| && k < |m.env.instructions[line.instruction].operandTypes| ==>
         line.operands[k].0 <= |m.sources| + (if m.constants == [] then 0 else 1)
  }

  ghost predicate AreOperands(operands: seq<Operand>, m: Machine, registers: seq<real>, line: Line)
    requires line.instruction < |m.env.instructions|
  {
    var types := m.env.instructions[line.instruction].operandTypes;
    && |operands| == |types| <= |line.operands|
    && forall k :: 0 <= k < |types| ==> IsOperand(operands[k], m, registers, types[k], line.operands[k])
  }

  /** What a line does to the registers: it puts the instruction's value on its operands into
      the destination, and does nothing if it cannot be run. */
  ghost predicate Steps(m: Machine, line: Line, before: seq<real>, after: seq<real>) {
    if Runs(m, line) then
      && line.destination < |before|
      && exists operands :: AreOperands(operands, m, before, line)
           && after == before[line.destination := m.env.instructions[line.instruction].execute(operands)]
    else after == before
  }

  lemma ExecuteSteps(m: Machine, registers: seq<real>, line: Line)
    requires ValidMachine(m) && |registers| == m.env.nbRegisters && Typed(m, line)
    ensures Executable(m, line) <==> Runs(m, line)
    ensures Steps(m, line, registers, if Executable(m, line) then Execute(m, registers, line) else registers)
  {
    hide IsOperand, ReadOperand;
    if Executable(m, line) {
      var n := |OperandTypes(m.env, line)|;
      var operands := Fetched(m, registers, line, n);
      forall k | 0 <= k < n
        ensures k < |line.operands|
        ensures IsOperand(operands[k], m, registers, OperandTypes(m.env, line)[k], line.operands[k])
      {
        assert TypedAt(m, line, k);
        OperandIs(m, registers, line, k);
      }
      if n > 0 {
        assert TypedAt(m, line, n - 1);
      }
      assert AreOperands(operands, m, registers, line);
    }
  }

  datatype Outcome<T> = Finished(value: T) | Threw

  predicate AllTyped(m: Machine, lines: seq<Line>) {
    forall i :: 0 <= i < |lines| ==> Typed(m, lines[i])
  }

  predicate AllExecutable(m: Machine, lines: seq<Line>) {
    forall i :: 0 <= i < |lines| ==> Executable(m, lines[i])
  }

  /** Executing lines in order; a line that throws is skipped or ends the run. */
  function Run(m: Machine, lines: seq<Line>, registers: seq<real>, ignoreException: bool): (r: Outcome<seq<real>>)
    requires ValidMachine(m) && |registers| == m.env.nbRegisters && AllTyped(m, lines)
    ensures r.Finished? ==> |r.value| == m.env.nbRegisters
    ensures r.Threw? <==> !ignoreException && !AllExecutable(m, lines)
  {
    if lines == [] then Finished(registers)
    else if Executable(m, lines[0]) then Run(m, lines[1..], Execute(m, registers, lines[0]), ignoreException)
    else if ignoreException then Run(m, lines[1..], registers, ignoreException)
    else Threw
  }

  predicate AllRun(m: Machine, lines: seq<Line>) {
    forall i :: 0 <= i < |lines| ==> Runs(m, lines[i])
  }

  /** The registers before the first line, and after each line in order. */
  ghost predicate Trace(m: Machine, lines: seq<Line>, states: seq<seq<real>>) {
    && |states| == |lines| + 1
    && forall i :: 0 <= i < |lines| ==> Steps(m, lines[i], states[i], states[i + 1])
  }

  /** A run that finishes goes from state to state, line by line; the others end at a line
      that cannot be run. */
  lemma {:induction false} RunIsTrace(m: Machine, lines: seq<Line>, registers: seq<real>, ignoreException: bool)
      returns (states: seq<seq<real>>)
    requires ValidMachine(m) && |registers| == m.env.nbRegisters && AllTyped(m, lines)
    ensures Run(m, lines, registers, ignoreException).Threw?
       <==> !ignoreException && !AllRun(m, lines)
    ensures Run(m, lines, registers, ignoreException).Finished? ==>
      && Trace(m, lines, states) && states[0] == registers
      && Run(m, lines, registers, ignoreException) == Finished(states[|lines|])
  {
    hide Steps, Executable, Runs, Execute;
    forall i | 0 <= i < |lines|
      ensures Executable(m, lines[i]) <==> Runs(m, lines[i])
    {
      ExecuteSteps(m, registers, lines[i]);
    }
    states := [registers];
    if lines != [] && (Executable(m, lines[0]) || ignoreException) {
      ExecuteSteps(m, registers, lines[0]);
      var next := if Executable(m, lines[0]) then Execute(m, registers, lines[0]) else registers;
      var rest := RunIsTrace(m, lines[1..], next, ignoreException);
      states := [registers] + rest;
      if Run(m, lines, registers, ignoreException).Finished? {
        forall i | 0 <= i < |lines|
          ensures Steps(m, lines[i], states[i], states[i + 1])
        {
          if i > 0 {
            assert Steps(m, lines[1..][i - 1], rest[i - 1], rest[i]);
          }
        }
      }
    }
  }

  function Zeros(n: nat): (s: seq<real>)
    ensures |s| == n && forall i :: 0 <= i < n ==> s[i] == 0.0
  {
    seq(n, _ => 0.0)
  }

  /** executeProgram when it goes through the given lines. */
  function ResultOf(m: Machine, lines: seq<Line>, ignoreException: bool): (r: Outcome<real>)
    requires ValidMachine(m) && AllTyped(m, lines)
    ensures r.Threw? <==> !ignoreException && !AllExecutable(m, lines)
  {
    match Run(m, lines, Zeros(m.env.nbRegisters), ignoreException)
    case Finished(registers) => Finished(registers[0])
    case Threw => Threw
  }

  /** Starting from zeroed registers the lines lead to states of which the last has `result` in
      register 0. */
  ghost predicate EndsWith(m: Machine, lines: seq<Line>, result: real) {
    exists states: seq<seq<real>> ::
      && Trace(m, lines, states)
      && |states[0]| == m.env.nbRegisters && (forall i :: 0 <= i < |states[0]| ==> states[0][i] == 0.0)
      && states[|lines|] != [] && states[|lines|][0] == result
  }

  /** The result of executeProgram, in terms of the data the lines go through. */
  lemma ResultIsEnd(m: Machine, lines: seq<Line>, ignoreException: bool)
    requires ValidMachine(m) && AllTyped(m, lines)
    ensures ResultOf(m, lines, ignoreException).Threw? <==> !ignoreException && !AllRun(m, lines)
    ensures ResultOf(m, lines, ignoreException).Finished? ==>
      EndsWith(m, lines, ResultOf(m, lines, ignoreException).value)
  {
    hide Run, Trace, AllRun;
    var states := RunIsTrace(m, lines, Zeros(m.env.nbRegisters), ignoreException);
  }

  // ----- Backward dependency -----

  function AsSet(s: seq<nat>): set<nat> {
    set x | x in s
  }

  /** The registers one operand reads; none if it is no register operand of a type that
      the registers provide. */
  function OperandReads(env: Environment, t: Type, operand: (nat, nat)): (r: seq<nat>) {
    if operand.0 != 0 || RegisterSpace(env, t) == 0 then []
    else Registers.Accessed(Double, env.nbRegisters, t, operand.1 % RegisterSpace(env, t))
  }

  /** The k-th operand reads register `r`. */
  predicate ReadsAt(env: Environment, line: Line, k: nat, r: nat)
    requires line.instruction < |env.instructions| && k < |OperandTypes(env, line)|
  {
    k < |line.operands| && r in OperandReads(env, OperandTypes(env, line)[k], line.operands[k])
  }

  /** The registers the first `n` operands read. */
  function Reads(env: Environment, line: Line, n: nat): (r: set<nat>)
    requires line.instruction < |env.instructions| && n <= |OperandTypes(env, line)|
  {
    if n == 0 then {}
    else
      Reads(env, line, n - 1) +
      if n > |line.operands| then {}
      else AsSet(OperandReads(env, OperandTypes(env, line)[n - 1], line.operands[n - 1]))
  }

  /** The set the operand loop collects, register by register. */
  lemma {:induction false} ReadsExact(env: Environment, line: Line, n: nat, r: nat)
    requires line.instruction < |env.instructions| && n <= |OperandTypes(env, line)|
    ensures r in Reads(env, line, n) <==> exists k :: 0 <= k < n && ReadsAt(env, line, k, r)
  {
    if n > 0 {
      ReadsExact(env, line, n - 1, r);
      var last := n - 1;
      assert r in Reads(env, line, n) <==> r in Reads(env, line, last) || ReadsAt(env, line, last, r);
    }
  }

  /** An operand is a register operand whose window of registers, at the scaled location,
      holds register `r`. */
  ghost predicate ReadsRegister(nbRegisters: nat, t: Type, operand: (nat, nat), r: nat) {
    && operand.0 == 0 && nbRegisters > 0
    && match t
       case Scalar(native) => native == Double && r == operand.1 % nbRegisters
       case Array(native, size) =>
         && native == Double && size <= nbRegisters
         && operand.1 % (nbRegisters - size + 1) <= r < operand.1 % (nbRegisters - size + 1) + size
       case Matrix(_, _, _) => false
  }

  /** Some operand of the line, within the arity of its instruction, reads the register. */
  ghost predicate LineReads(env: Environment, line: Line, r: nat) {
    && line.instruction < |env.instructions|
    && exists k :: 0 <= k < |line.operands| && k < |env.instructions[line.instruction].operandTypes|
         && ReadsRegister(env.nbRegisters, env.instructions[line.instruction].operandTypes[k], line.operands[k], r)
  }

  lemma OperandReadsAre(env: Environment, t: Type, operand: (nat, nat), r: nat)
    ensures r in OperandReads(env, t, operand) <==> ReadsRegister(env.nbRegisters, t, operand, r)
  {
    var cells := OperandReads(env, t, operand);
    if ReadsRegister(env.nbRegisters, t, operand, r) {
      assert cells[r - cells[0]] == r;
    }
  }

  /** The registers a line reads; none if its instruction is unknown. */
  function AllReads(env: Environment, line: Line): (r: set<nat>) {
    if line.instruction < |env.instructions| then Reads(env, line, |OperandTypes(env, line)|) else {}
  }

  lemma AllReadsAre(env: Environment, line: Line, r: nat)
    ensures r in AllReads(env, line) <==> LineReads(env, line, r)
  {
    hide ReadsRegister, OperandReads;
    if line.instruction < |env.instructions| {
      var types := OperandTypes(env, line);
      ReadsExact(env, line, |types|, r);
      forall k | 0 <= k < |types| && k < |line.operands|
        ensures ReadsAt(env, line, k, r) <==> ReadsRegister(env.nbRegisters, types[k], line.operands[k], r)
      {
        OperandReadsAre(env, types[k], line.operands[k], r);
      }
    }
  }

  /** The registers that matter before the line, given those that matter after it. */
  function Before(env: Environment, line: Line, useful: set<nat>): (r: set<nat>) {
    if line.destination !in useful then useful
    else useful - {line.destination} + AllReads(env, line)
  }

  function Useful(env: Environment, lines: seq<Line>): (r: set<nat>) {
    if lines == [] then {0} else Before(env, lines[0], Useful(env, lines[1..]))
  }

  predicate IsIntron(env: Environment, lines: seq<Line>, i: nat)
    requires i < |lines|
  {
    lines[i].destination !in Useful(env, lines[i + 1..])
  }

  /** From line `k` on, the next line that touches register `r` reads it, and is needed. */
  predicate ReadNext(env: Environment, lines: seq<Line>, r: nat, k: nat, j: nat) {
    && k <= j < |lines| && !IsIntron(env, lines, j) && r in AllReads(env, lines[j])
    && forall i :: k <= i < j ==> lines[i].destination != r
  }

  /** No line from `k` on writes the register. */
  predicate NeverWritten(lines: seq<Line>, r: nat, k: nat) {
    forall i :: k <= i < |lines| ==> lines[i].destination != r
  }

  /** The set the backward scan keeps is liveness: a register is in it exactly when a needed
      line reads it before any line writes it, or it is register 0 and stays unwritten. */
  lemma {:induction false} UsefulIsLive(env: Environment, lines: seq<Line>, r: nat, k: nat)
    requires k <= |lines|
    ensures r in Useful(env, lines[k..])
       <==> (exists j :: ReadNext(env, lines, r, k, j)) || (r == 0 && NeverWritten(lines, r, k))
    decreases |lines| - k
  {
    hide Reads;
    if k < |lines| {
      var line, after := lines[k], Useful(env, lines[k + 1..]);
      UsefulIsLive(env, lines, r, k + 1);
      assert lines[k..][0] == line && lines[k..][1..] == lines[k + 1..];
      assert IsIntron(env, lines, k) <==> line.destination !in after;
      assert Useful(env, lines[k..]) == Before(env, line, after);
      if line.destination in after && r in AllReads(env, line) {
        assert ReadNext(env, lines, r, k, k);
      } else if line.destination != r {
        var next := k + 1;
        assert NeverWritten(lines, r, k) <==> NeverWritten(lines, r, next);
        assert r in Useful(env, lines[k..]) <==> r in after;
        if j :| ReadNext(env, lines, r, k, j) {
          assert ReadNext(env, lines, r, next, j);
        }
        if j :| ReadNext(env, lines, r, next, j) {
          assert ReadNext(env, lines, r, k, j);
        }
      }
    }
  }

  /** The lines that are not introns. */
  function Needed(env: Environment, lines: seq<Line>): (r: seq<Line>)
    ensures |r| <= |lines| && forall l :: l in r ==> l in lines
  {
    if lines == [] then []
    else if IsIntron(env, lines, 0) then Needed(env, lines[1..])
    else [lines[0]] + Needed(env, lines[1..])
  }

  /** The scan reaches the first line only if no needed line has an unknown instruction. */
  predicate Scannable(env: Environment, lines: seq<Line>) {
    forall l :: l in Needed(env, lines) ==> l.instruction < |env.instructions|
  }

  /** Register operands of needed lines have types the registers provide. */
  predicate NeededRegistersTyped(env: Environment, lines: seq<Line>) {
    forall l :: l in Needed(env, lines) ==> RegistersTyped(env, l)
  }

  lemma NeededTyped(m: Machine, lines: seq<Line>)
    requires AllTyped(m, lines)
    ensures AllTyped(m, Needed(m.env, lines))
  {
    var needed := Needed(m.env, lines);
    forall i | 0 <= i < |needed|
      ensures Typed(m, needed[i])
    {
      assert needed[i] in lines;
    }
  }

  /** Without its introns a program has the same dependencies and no introns left. */
  lemma {:induction false} SecondScan(env: Environment, lines: seq<Line>)
    ensures Useful(env, Needed(env, lines)) == Useful(env, lines)
    ensures Needed(env, Needed(env, lines)) == Needed(env, lines)
  {
    if lines != [] {
      SecondScan(env, lines[1..]);
      var needed := Needed(env, lines);
      if !IsIntron(env, lines, 0) {
        assert needed[1..] == Needed(env, lines[1..]);
      }
    }
  }

  // ----- Dependency of the lines that execute -----

  function ExecutableLines(m: Machine, lines: seq<Line>): (r: seq<Line>) {
    if lines == [] then []
    else if Executable(m, lines[0]) then [lines[0]] + ExecutableLines(m, lines[1..])
    else ExecutableLines(m, lines[1..])
  }

  /** The registers that matter when lines that throw are skipped. */
  function Live(m: Machine, lines: seq<Line>): (r: set<nat>) {
    Useful(m.env, ExecutableLines(m, lines))
  }

  /** No executable line that a scan of the executable lines alone finds needed is an intron
      of the whole program. */
  predicate CoversLive(m: Machine, lines: seq<Line>) {
    lines == []
    || ((IsIntron(m.env, lines, 0) && Executable(m, lines[0]) ==> lines[0].destination !in Live(m, lines[1..]))
        && CoversLive(m, lines[1..]))
  }

  lemma LiveStep(m: Machine, lines: seq<Line>)
    requires lines != []
    ensures Live(m, lines)
      == if Executable(m, lines[0]) then Before(m.env, lines[0], Live(m, lines[1..])) else Live(m, lines[1..])
  {
    hide Before, Executable;
    if Executable(m, lines[0]) {
      assert ExecutableLines(m, lines)[1..] == ExecutableLines(m, lines[1..]);
    }
  }

  /** When every needed line is executable, the lines that throw are introns, and both
      scans agree. */
  lemma {:induction false} ExecutableCovers(m: Machine, lines: seq<Line>)
    requires AllExecutable(m, Needed(m.env, lines))
    ensures Live(m, lines) == Useful(m.env, lines) && CoversLive(m, lines)
  {
    hide Executable, Live;
    if lines == [] {
      LiveOfNone(m);
    } else {
      LiveStep(m, lines);
      var needed := Needed(m.env, lines);
      if !IsIntron(m.env, lines, 0) {
        assert needed[0] == lines[0] && needed[1..] == Needed(m.env, lines[1..]);
      }
      ExecutableCovers(m, lines[1..]);
    }
  }

  lemma LiveOfNone(m: Machine)
    ensures Live(m, []) == {0}
  {
  }

  // ----- Running without the introns -----

  /** Two register files agree on a set of registers. */
  predicate Agree(a: seq<real>, b: seq<real>, on: set<nat>) {
    |a| == |b| && forall x :: x in on && x < |a| ==> a[x] == b[x]
  }

  /** A line computes the same on register files that agree on what it reads. */
  lemma SameValue(m: Machine, a: seq<real>, b: seq<real>, line: Line)
    requires ValidMachine(m) && |a| == |b| == m.env.nbRegisters
    requires Typed(m, line) && Executable(m, line)
    requires Agree(a, b, AllReads(m.env, line))
    ensures Execute(m, a, line)[line.destination] == Execute(m, b, line)[line.destination]
  {
    var n := |OperandTypes(m.env, line)|;
    forall k | 0 <= k < n
      ensures Fetched(m, a, line, n)[k] == Fetched(m, b, line, n)[k]
    {
      assert TypedAt(m, line, k);
      if line.operands[k].0 == 0 {
        var t := OperandTypes(m.env, line)[k];
        var cells := Registers.Accessed(Double, m.env.nbRegisters, t, line.operands[k].1 % RegisterSpace(m.env, t));
        forall i | 0 <= i < |cells|
          ensures a[cells[i]] == b[cells[i]]
        {
          assert cells[i] in cells && ReadsAt(m.env, line, k, cells[i]);
          ReadsExact(m.env, line, n, cells[i]);
        }
      }
    }
    assert Fetched(m, a, line, n) == Fetched(m, b, line, n);
  }

  /** Executing a line on both sides keeps the agreement on what matters behind it. */
  lemma SharedStep(m: Machine, a: seq<real>, b: seq<real>, line: Line, after: set<nat>)
    requires ValidMachine(m) && |a| == |b| == m.env.nbRegisters
    requires Typed(m, line) && Executable(m, line) && Agree(a, b, Before(m.env, line, after))
    ensures Agree(Execute(m, a, line), Execute(m, b, line), after)
  {
    hide Reads, Execute;
    if line.destination in after {
      SameValue(m, a, b, line);
    }
  }

  /** Skipping introns loses nothing on the registers that matter, as long as they cover the
      live ones, and every line is executable when exceptions are not ignored. */
  lemma {:induction false} RunNeeded(m: Machine, lines: seq<Line>, a: seq<real>, b: seq<real>, ignoreException: bool)
    requires ValidMachine(m) && |a| == |b| == m.env.nbRegisters
    requires AllTyped(m, lines) && AllTyped(m, Needed(m.env, lines))
    requires CoversLive(m, lines) && (ignoreException || AllExecutable(m, lines))
    requires Agree(a, b, Live(m, lines))
    ensures ignoreException || AllExecutable(m, Needed(m.env, lines))
    ensures var full, short := Run(m, lines, a, ignoreException), Run(m, Needed(m.env, lines), b, ignoreException);
      full.Finished? && short.Finished? && full.value[0] == short.value[0]
  {
    hide Live, Executable, Typed, Execute;
    if lines == [] {
      LiveOfNone(m);
    } else {
      var line, rest := lines[0], lines[1..];
      LiveStep(m, lines);
      var next := if Executable(m, line) then Execute(m, a, line) else a;
      if IsIntron(m.env, lines, 0) {
        RunNeeded(m, rest, next, b, ignoreException);
      } else {
        var needed := Needed(m.env, lines);
        assert needed[0] == line && needed[1..] == Needed(m.env, rest);
        if Executable(m, line) {
          SharedStep(m, a, b, line, Live(m, rest));
        }
        RunNeeded(m, rest, next, if Executable(m, line) then Execute(m, b, line) else b, ignoreException);
      }
    }
  }

  lemma AgreeSelf(a: seq<real>, on: set<nat>)
    ensures Agree(a, a, on)
  {
  }

  /** Going through the needed lines only gives the same result: exactly under the stated
      condition for runs that let exceptions out; and for runs that ignore them whenever no
      line that matters among the executable ones was marked, in particular whenever every
      needed line is executable. */
  lemma IntronsPreserveResult(m: Machine, lines: seq<Line>)
    requires ValidMachine(m) && AllTyped(m, lines)
    ensures AllTyped(m, Needed(m.env, lines))
    ensures ResultOf(m, Needed(m.env, lines), false) == ResultOf(m, lines, false)
       <==> AllExecutable(m, lines) || !AllExecutable(m, Needed(m.env, lines))
    ensures CoversLive(m, lines) ==>
      ResultOf(m, Needed(m.env, lines), true) == ResultOf(m, lines, true)
    ensures AllExecutable(m, Needed(m.env, lines)) ==> CoversLive(m, lines)
  {
    hide Needed, Run, AllExecutable, AllTyped, CoversLive, Live;
    NeededTyped(m, lines);
    var zeros := Zeros(m.env.nbRegisters);
    AgreeSelf(zeros, Live(m, lines));
    if CoversLive(m, lines) {
      RunNeeded(m, lines, zeros, zeros, true);
    }
    if AllExecutable(m, Needed(m.env, lines)) {
      ExecutableCovers(m, lines);
      if AllExecutable(m, lines) {
        RunNeeded(m, lines, zeros, zeros, false);
      }
    } else {
      NeededExecutable(m, lines);
    }
  }

  lemma NeededExecutable(m: Machine, lines: seq<Line>)
    ensures AllExecutable(m, lines) ==> AllExecutable(m, Needed(m.env, lines))
  {
    var needed := Needed(m.env, lines);
    forall i | AllExecutable(m, lines) && 0 <= i < |needed|
      ensures Executable(m, needed[i])
    {
      assert needed[i] in lines;
    }
  }

  /** Ignoring exceptions, a needed line that fails leaves the value of an earlier write
      visible, and the scan took that write for an intron. */
  lemma IgnoredFailureDiffers() returns (m: Machine, lines: seq<Line>)
    ensures Constructible(m) && ValidMachine(m) && AllTyped(m, lines)
    ensures AllTyped(m, Needed(m.env, lines)) && Scannable(m.env, lines)
    ensures !CoversLive(m, lines)
    ensures ResultOf(m, Needed(m.env, lines), true) != ResultOf(m, lines, true)
  {
    var one := Instruction([Scalar(Double)], _ => 1.0);
    m := Machine(Environment(1, 0, [one, one]), [], [Source(_ => 1, (_, _) => [])]);
    var writes, fails := Line(0, 0, [(0, 0)]), Line(0, 0, [(2, 0)]);
    lines := [writes, fails];
    assert OperandTypes(m.env, fails) == OperandTypes(m.env, writes) == [Scalar(Double)];
    assert RegisterSpace(m.env, Scalar(Double)) == 1;
    assert SourceSpace(m, 0, Scalar(Double)) == 1;
    assert m.env.instructions[0].operandTypes != [];
    assert Useful(m.env, []) == {0};
    assert lines[1..] == [fails];
    assert [fails][1..] == [];
    assert Reads(m.env, fails, 0) == {};
    assert Reads(m.env, fails, 1) == {};
    assert Useful(m.env, [fails]) == {};
    assert Needed(m.env, [fails]) == [fails];
    assert Needed(m.env, lines) == [fails];
    assert !Executable(m, fails) && Executable(m, writes);
    assert ExecutableLines(m, [fails]) == ExecutableLines(m, []) == [];
    assert Live(m, [fails]) == {0};
    var zeros := Zeros(1);
    assert Execute(m, zeros, writes)[0] == 1.0;
    assert Run(m, [], zeros, true) == Finished(zeros);
    assert Run(m, [fails], zeros, true) == Finished(zeros);
    var ones := Execute(m, zeros, writes);
    assert Run(m, [], ones, true) == Finished(ones);
    assert Run(m, [fails], ones, true) == Finished(ones);
    assert Run(m, lines, zeros, true) == Finished(ones);
  }
}
