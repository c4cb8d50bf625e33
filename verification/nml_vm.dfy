/**
 * `NoiseVM` of noise_machine_language.py: the program counter, the call
 * stack, the classical registers and the order in which qubit registers
 * are first used. Gate effects on the physical qubits are not modelled; a
 * measurement's outcome and whether `int()` accepts an operand are
 * parameters. A Python exception ends the run; the machine state at the
 * raise is kept with the error.
 */
module NmlVm {
  import opened Wrappers
  import opened AssocList
  import opened NmlAssembler

  datatype Vm = Vm(
    instructions: seq<Instruction>,
    labels: Assoc<string, nat>,
    pc: nat,
    halted: bool,
    callStack: seq<nat>,
    classical: Assoc<string, int>,
    qubits: seq<string>)

  /** The exception an instruction raises: a missing operand, an unknown label, a non-numeric cycle count. */
  datatype VmError = IndexError | KeyError(name: string) | ValueError(text: string)

  datatype Outcome = Next(vm: Vm) | Fault(error: VmError, at: Vm)

  /** What the model takes from outside: the i-th measurement's result and whether `int(s)` succeeds. */
  datatype Env = Env(measurement: nat -> int, parsesAsInt: string -> bool)

  /** A fresh machine: no registers, no program, pc 0. */
  const Initial := Vm([], [], 0, false, [], [], [])

  /** `load_program`: a new program from pc 0, not halted; registers and call stack are kept. */
  function LoadProgram(vm: Vm, instructions: seq<Instruction>, labels: Assoc<string, nat>): (r: Vm)
    ensures r.instructions == instructions && r.labels == labels && r.pc == 0 && !r.halted
    ensures r.callStack == vm.callStack && r.classical == vm.classical && r.qubits == vm.qubits
  {
    vm.(instructions := instructions, labels := labels, pc := 0, halted := false)
  }

  /** `get_qubit`: a register is allocated the first time it is named. */
  function Touch(qubits: seq<string>, name: string): (r: seq<string>)
    ensures name in r
    ensures forall q :: q in qubits ==> q in r
    ensures forall q :: q in r ==> q in qubits || q == name
    ensures qubits <= r && |r| <= |qubits| + 1
  {
    if name in qubits then qubits else qubits + [name]
  }

  /** The registers named by the first k operands, in order, each allocated on first use. */
  function TouchAll(qubits: seq<string>, names: seq<string>): (r: seq<string>)
    ensures qubits <= r
    ensures forall i :: 0 <= i < |names| ==> names[i] in r
    decreases |names|
  {
    if |names| == 0 then qubits else TouchAll(Touch(qubits, names[0]), names[1..])
  }

  /**
   * A gate on the qubits named by the first `arity` operands: each is
   * fetched in turn, so a missing operand raises after the earlier ones
   * were allocated.
   */
  function Gate(vm: Vm, ops: seq<string>, arity: nat): (r: Outcome)
    ensures |ops| >= arity ==> r == Next(vm.(pc := vm.pc + 1, qubits := TouchAll(vm.qubits, ops[..arity])))
    ensures |ops| < arity ==> r == Fault(IndexError, vm.(qubits := TouchAll(vm.qubits, ops)))
  {
    if |ops| >= arity then Next(vm.(pc := vm.pc + 1, qubits := TouchAll(vm.qubits, ops[..arity])))
    else Fault(IndexError, vm.(qubits := TouchAll(vm.qubits, ops)))
  }

  /** The number of qubit operands a gate opcode fetches. */
  function Arity(o: Opcode): nat
  {
    match o
    case X => 1 case Y => 1 case Z => 1 case H => 1 case S => 1 case T => 1
    case CNOT => 2 case CZ => 2 case SWAP => 2
    case TOFFOLI => 3
    case _ => 0
  }

  predicate IsGate(o: Opcode)
  {
    o in {X, Y, Z, H, S, T, CNOT, CZ, SWAP, TOFFOLI}
  }

  /** `execute_instruction` for the instruction at pc; `outcome` is what a measurement would return. */
  function Step(vm: Vm, outcome: int, env: Env): (r: Outcome)
    requires vm.pc < |vm.instructions|
    ensures r.Next? ==> r.vm.instructions == vm.instructions && r.vm.labels == vm.labels
    ensures r.Fault? ==> r.at.instructions == vm.instructions && r.at.labels == vm.labels
  {
    var ins := vm.instructions[vm.pc];
    var ops := ins.operands;
    match ins.opcode
    case X | Y | Z | H | S | T | CNOT | CZ | SWAP | TOFFOLI => Gate(vm, ops, Arity(ins.opcode))
    case MEASURE =>
      if |ops| < 3 then Fault(IndexError, vm)
      else Next(vm.(pc := vm.pc + 1, qubits := Touch(vm.qubits, ops[0]), classical := Put(vm.classical, ops[2], outcome)))
    case JUMP =>
      if |ops| < 1 then Fault(IndexError, vm)
      else
        (match Get(vm.labels, ops[0])
         case None => Fault(KeyError(ops[0]), vm)
         case Some(a) => Next(vm.(pc := a)))
    case CJUMP =>
      if |ops| < 2 then Fault(IndexError, vm)
      else if Get(vm.classical, ops[0]).GetOr(0) == 1 then
        (match Get(vm.labels, ops[1])
         case None => Fault(KeyError(ops[1]), vm)
         case Some(a) => Next(vm.(pc := a)))
      else Next(vm.(pc := vm.pc + 1))
    case CALL =>
      if |ops| < 1 then Fault(IndexError, vm)
      else
        var pushed := vm.(callStack := vm.callStack + [vm.pc + 1]);
        (match Get(vm.labels, ops[0])
         case None => Fault(KeyError(ops[0]), pushed)
         case Some(a) => Next(pushed.(pc := a)))
    case RET =>
      if |vm.callStack| > 0 then
        Next(vm.(pc := vm.callStack[|vm.callStack| - 1], callStack := vm.callStack[..|vm.callStack| - 1]))
      else Next(vm.(pc := vm.pc + 1))
    case HALT => Next(vm.(halted := true))
    case HARVEST =>
      if |ops| < 1 then Fault(IndexError, vm)
      else if |ops| > 1 && !env.parsesAsInt(ops[1]) then Fault(ValueError(ops[1]), vm)
      else Next(vm.(pc := vm.pc + 1, qubits := Touch(vm.qubits, ops[0])))
    case SYNC =>
      if |ops| > 0 && !env.parsesAsInt(ops[0]) then Fault(ValueError(ops[0]), vm)
      else Next(vm.(pc := vm.pc + 1))
    case INJECT => Next(vm.(pc := vm.pc + 1))
  }

  /** The control-flow instructions, and only those, change pc other than by one or touch the call stack. */
  lemma StepControl(vm: Vm, outcome: int, env: Env)
    requires vm.pc < |vm.instructions|
    ensures var ins := vm.instructions[vm.pc];
      var r := Step(vm, outcome, env);
      !(ins.opcode in {JUMP, CJUMP, CALL, RET, HALT}) && r.Next? ==>
        r.vm.pc == vm.pc + 1 && r.vm.callStack == vm.callStack && r.vm.halted == vm.halted
    ensures var ins := vm.instructions[vm.pc];
      var r := Step(vm, outcome, env);
      ins.opcode == HALT ==> r == Next(vm.(halted := true))
    ensures var ins := vm.instructions[vm.pc];
      var r := Step(vm, outcome, env);
      ins.opcode == JUMP && |ins.operands| >= 1 ==>
        (r.Next? <==> Get(vm.labels, ins.operands[0]).Some?) &&
        (r.Next? ==> r.vm.pc == Get(vm.labels, ins.operands[0]).value && r.vm.callStack == vm.callStack)
    ensures var ins := vm.instructions[vm.pc];
      var r := Step(vm, outcome, env);
      ins.opcode == CJUMP && |ins.operands| >= 2 && Get(vm.classical, ins.operands[0]) != Some(1) ==>
        r == Next(vm.(pc := vm.pc + 1))
    ensures var ins := vm.instructions[vm.pc];
      var r := Step(vm, outcome, env);
      ins.opcode == CJUMP && |ins.operands| >= 2 && Get(vm.classical, ins.operands[0]) == Some(1) ==>
        (Get(vm.labels, ins.operands[1]).Some? ==> r == Next(vm.(pc := Get(vm.labels, ins.operands[1]).value))) &&
        (Get(vm.labels, ins.operands[1]).None? ==> r == Fault(KeyError(ins.operands[1]), vm))
    ensures var ins := vm.instructions[vm.pc];
      var r := Step(vm, outcome, env);
      ins.opcode in {JUMP, CJUMP, CALL} && |ins.operands| < (if ins.opcode == CJUMP then 2 else 1) ==>
        r == Fault(IndexError, vm)
    ensures var ins := vm.instructions[vm.pc];
      var r := Step(vm, outcome, env);
      ins.opcode == CALL && |ins.operands| >= 1 ==>
        var pushed := vm.(callStack := vm.callStack + [vm.pc + 1]);
        (Get(vm.labels, ins.operands[0]).Some? ==> r == Next(pushed.(pc := Get(vm.labels, ins.operands[0]).value))) &&
        (Get(vm.labels, ins.operands[0]).None? ==> r == Fault(KeyError(ins.operands[0]), pushed))
    ensures var ins := vm.instructions[vm.pc];
      var r := Step(vm, outcome, env);
      ins.opcode == RET && |vm.callStack| > 0 ==>
        r.Next? && r.vm.pc == vm.callStack[|vm.callStack| - 1] && r.vm.callStack + [r.vm.pc] == vm.callStack &&
        r.vm == vm.(pc := r.vm.pc, callStack := r.vm.callStack)
    ensures var ins := vm.instructions[vm.pc];
      var r := Step(vm, outcome, env);
      ins.opcode == RET && |vm.callStack| == 0 ==> r == Next(vm.(pc := vm.pc + 1))
  {
    var ins := vm.instructions[vm.pc];
    if ins.opcode == RET && |vm.callStack| > 0 {
      var n := |vm.callStack|;
      assert vm.callStack[..n - 1] + [vm.callStack[n - 1]] == vm.callStack;
    }
  }

  /**
   * A call to a subroutine whose first instruction is RET comes straight
   * back: two steps later pc is past the call and the stack is as before.
   */
  lemma CallThenReturn(vm: Vm, outcome: int, env: Env)
    requires vm.pc < |vm.instructions|
    requires vm.instructions[vm.pc].opcode == CALL && |vm.instructions[vm.pc].operands| >= 1
    requires Get(vm.labels, vm.instructions[vm.pc].operands[0]).Some?
    requires var a := Get(vm.labels, vm.instructions[vm.pc].operands[0]).value;
      a < |vm.instructions| && vm.instructions[a].opcode == RET
    ensures Step(vm, outcome, env).Next?
    ensures var mid := Step(vm, outcome, env).vm;
      mid.pc < |mid.instructions| && Step(mid, outcome, env).Next? &&
      Step(mid, outcome, env).vm.pc == vm.pc + 1 && Step(mid, outcome, env).vm.callStack == vm.callStack
  {
    var mid := Step(vm, outcome, env).vm;
    assert mid.callStack == vm.callStack + [vm.pc + 1];
    assert mid.callStack[..|mid.callStack| - 1] == vm.callStack;
  }

  /** What `run` returns: the step count, the halted flag, the classical registers and the qubit registers in allocation order. */
  datatype Report = Report(steps: nat, halted: bool, classical: Assoc<string, int>, qubits: seq<string>, final: Vm)

  /** The loop of `run` from step `done` on. */
  function RunFrom(vm: Vm, env: Env, done: nat, maxSteps: int): (r: Result<Report, (VmError, Vm)>)
    ensures r.Ok? ==> done <= r.value.steps && (r.value.steps <= maxSteps || r.value.steps == done)
    ensures r.Ok? ==> r.value.final.halted || r.value.final.pc >= |vm.instructions| || r.value.steps >= maxSteps
    ensures r.Ok? ==> r.value.final.instructions == vm.instructions && r.value.final.labels == vm.labels
    ensures r.Ok? ==> r.value.halted == r.value.final.halted && r.value.classical == r.value.final.classical && r.value.qubits == r.value.final.qubits
    ensures r.Err? ==> r.error.1.instructions == vm.instructions && r.error.1.labels == vm.labels
    ensures vm.halted || vm.pc >= |vm.instructions| || done >= maxSteps ==> r == Ok(Report(done, vm.halted, vm.classical, vm.qubits, vm))
    decreases if done <= maxSteps then maxSteps - done else 0
  {
    if vm.halted || vm.pc >= |vm.instructions| || done >= maxSteps then
      Ok(Report(done, vm.halted, vm.classical, vm.qubits, vm))
    else
      match Step(vm, env.measurement(done), env)
      case Fault(e, at) => Err((e, at))
      case Next(next) => RunFrom(next, env, done + 1, maxSteps)
  }

  /** `run(max_steps)`. */
  function Run(vm: Vm, env: Env, maxSteps: int): (r: Result<Report, (VmError, Vm)>)
    ensures r.Ok? ==> r.value.steps <= (if maxSteps < 0 then 0 else maxSteps)
    ensures r.Ok? ==> r.value.halted || r.value.final.pc >= |vm.instructions| || r.value.steps == maxSteps || (maxSteps < 0 && r.value.steps == 0)
    ensures maxSteps <= 0 ==> r == Ok(Report(0, vm.halted, vm.classical, vm.qubits, vm))
  {
    RunFrom(vm, env, 0, maxSteps)
  }

  /** A straight-line program of gates with all their operands runs to its end, one step per instruction. */
  lemma {:induction false} StraightLine(vm: Vm, env: Env, done: nat, maxSteps: int)
    requires !vm.halted && vm.pc <= |vm.instructions|
    requires forall i :: vm.pc <= i < |vm.instructions| ==>
      IsGate(vm.instructions[i].opcode) && |vm.instructions[i].operands| >= Arity(vm.instructions[i].opcode)
    requires done + |vm.instructions| - vm.pc <= maxSteps
    ensures RunFrom(vm, env, done, maxSteps).Ok?
    ensures RunFrom(vm, env, done, maxSteps).value.steps == done + |vm.instructions| - vm.pc
    ensures RunFrom(vm, env, done, maxSteps).value.final.pc == |vm.instructions|
    ensures !RunFrom(vm, env, done, maxSteps).value.halted
    decreases |vm.instructions| - vm.pc
  {
    if vm.pc < |vm.instructions| {
      var next := Step(vm, env.measurement(done), env);
      assert next.Next? && next.vm.pc == vm.pc + 1 && !next.vm.halted;
      StraightLine(next.vm, env, done + 1, maxSteps);
    }
  }
}
