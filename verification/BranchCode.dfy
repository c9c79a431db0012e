/** luna's conditional branches (writebef, outside object mode), run by the emulator's step. */
module BranchCode {
  import opened Words
  import opened Cpu

  // ---- what is emitted

  predicate IsBranch(opcode: byte) { opcode in {0x10, 0x30, 0x50, 0x70, 0x90, 0xB0, 0xD0, 0xF0} }

  const JMP_ABSOLUTE: byte := 76

  /** opcode ^ 32. */
  function Flip(opcode: byte): (r: byte)
    requires IsBranch(opcode)
    ensures IsBranch(r) && r != opcode
  {
    if Bit(opcode, 32) then opcode - 32 else opcode + 32
  }

  /** The displacement reaches the target. */
  predicate Near(pc: u16, target: u16) { -128 <= target - (pc + 2) <= 127 }

  function Displacement(pc: u16, target: u16): byte
    requires Near(pc, target)
  {
    if target >= pc + 2 then target - pc - 2 else 256 - (pc + 2 - target)
  }

  /** A branch, or the opposite branch around a jump. */
  function Code(opcode: byte, pc: u16, target: u16): (r: seq<byte>)
    requires IsBranch(opcode)
  {
    if Near(pc, target) then [opcode, Displacement(pc, target)]
    else [Flip(opcode), 3, JMP_ABSOLUTE, Low(target), High(target)]
  }

  datatype Flags = Flags(resolved: bool, extdep: bool)

  class Emitter {
    var out: seq<byte>
    var pc: u16
    const noJcc: bool
    var failed: bool

    constructor (pc: u16, noJcc: bool)
      ensures out == [] && this.pc == pc && this.noJcc == noJcc && !failed
    {
      this.pc, this.noJcc, out, failed := pc, noJcc, [], false;
    }

    method PutByte(v: byte)
      modifies this
      ensures out == old(out) + [v] && pc == Wrap(old(pc) + 1) && failed == old(failed)
    {
      out := out + [v];
      pc := Wrap(pc + 1);
    }

    method PutWord(v: u16)
      modifies this
      ensures out == old(out) + [Low(v), High(v)] && pc == Wrap(old(pc) + 2) && failed == old(failed)
    {
      PutByte(Low(v));
      PutByte(High(v));
    }

    /** The relative case of writebef in the final pass. An unresolved target gives nothing; one that
        depends on an external, or is out of reach without automatic conversion, leaves two bytes of
        room, the latter with an error. */
    method WriteBranch(opcode: byte, target: u16, flags: Flags)
      requires IsBranch(opcode)
      modifies this
      ensures !flags.resolved ==> out == old(out) && pc == old(pc)
      ensures flags.resolved && (flags.extdep || (noJcc && !Near(old(pc), target))) ==>
                out == old(out) && pc == Wrap(old(pc) + 2)
      ensures flags.resolved && !flags.extdep && (Near(old(pc), target) || !noJcc) ==>
                var code := Code(opcode, old(pc), target);
                out == old(out) + code && pc == Wrap(old(pc) + |code|)
      ensures failed <==> old(failed) || (flags.resolved && !flags.extdep && noJcc && !Near(old(pc), target))
    {
      if !flags.resolved {
        return;
      }
      if flags.extdep {
        pc := Wrap(pc + 2);
        return;
      }
      var near := WriteNear(opcode, target);
      if near {
      } else if noJcc {
        pc := Wrap(pc + 2);
        failed := true;
      } else {
        WriteFar(opcode, target);
      }
    }

    /** The short form, if the displacement fits. */
    method WriteNear(opcode: byte, target: u16) returns (near: bool)
      requires IsBranch(opcode)
      modifies this
      ensures near == Near(old(pc), target) && failed == old(failed)
      ensures near ==> out == old(out) + Code(opcode, old(pc), target) && pc == Wrap(old(pc) + 2)
      ensures !near ==> out == old(out) && pc == old(pc)
    {
      var d;
      if target >= pc + 2 {
        d := target - pc - 2;
        if d > 127 {
          return false;
        }
      } else {
        d := pc + 2 - target;
        if d > 128 {
          return false;
        }
        d := 256 - d;
      }
      near := true;
      TwoBytes(opcode, d);
    }

    method TwoBytes(v: byte, v': byte)
      modifies this
      ensures out == old(out) + [v, v'] && pc == Wrap(old(pc) + 2) && failed == old(failed)
    {
      PutByte(v);
      PutByte(v');
    }

    /** The long form. */
    method WriteFar(opcode: byte, target: u16)
      requires IsBranch(opcode) && !Near(pc, target)
      modifies this
      ensures out == old(out) + Code(opcode, old(pc), target) && pc == Wrap(old(pc) + 5) && failed == old(failed)
    {
      TwoBytes(Flip(opcode), 3);
      PutByte(JMP_ABSOLUTE);
      PutWord(target);
    }
  }

  // ---- what it does

  /** The rows of the decoder table for branches and for the absolute jump. */
  ghost predicate Table(w: World) {
    && w.decode(0x10) == Instruction(Branch(0x80, false), Relative)
    && w.decode(0x30) == Instruction(Branch(0x80, true), Relative)
    && w.decode(0x50) == Instruction(Branch(0x40, false), Relative)
    && w.decode(0x70) == Instruction(Branch(0x40, true), Relative)
    && w.decode(0x90) == Instruction(Branch(0x01, false), Relative)
    && w.decode(0xB0) == Instruction(Branch(0x01, true), Relative)
    && w.decode(0xD0) == Instruction(Branch(0x02, false), Relative)
    && w.decode(0xF0) == Instruction(Branch(0x02, true), Relative)
    && w.decode(JMP_ABSOLUTE) == Instruction(JMP, Absolute)
  }

  /** The condition that a branch opcode stands for: bit 7, 6, 0 or 1 of P. */
  predicate Condition(opcode: byte, p: byte)
    requires IsBranch(opcode)
  {
    match opcode
    case 0x10 => p < 128
    case 0x30 => p >= 128
    case 0x50 => (p / 64) % 2 == 0
    case 0x70 => (p / 64) % 2 == 1
    case 0x90 => p % 2 == 0
    case 0xB0 => p % 2 == 1
    case 0xD0 => (p / 2) % 2 == 0
    case _ => (p / 2) % 2 == 1
  }

  lemma FlipNegates(opcode: byte, p: byte)
    requires IsBranch(opcode)
    ensures Condition(Flip(opcode), p) == !Condition(opcode, p)
  {
  }

  /** A running processor without interrupts. */
  predicate Quiet(st: State) {
    st.Valid() && !st.halted && !st.irqLine && st.irqInterval == 0
  }

  /** The bytes stand in memory from PC on. */
  predicate Loaded(st: State, code: seq<byte>) {
    && st.Valid() && st.pc + |code| <= 0x1_0000
    && forall i :: 0 <= i < |code| ==> st.mem[st.pc + i] == code[i]
  }

  lemma BranchDecodes(w: World, opcode: byte, p: byte)
    requires Table(w) && IsBranch(opcode)
    ensures var i := w.decode(opcode);
      i.op.Branch? && i.mode == Relative && Holds(i.op, p) == Condition(opcode, p)
  {
  }

  lemma TwoLoaded(st: State, x: byte, y: byte)
    requires Loaded(st, [x, y])
    ensures st.mem[st.pc] == x && st.mem[st.pc + 1] == y
  {
    var code := [x, y];
    assert st.mem[st.pc + 0] == code[0] && st.mem[st.pc + 1] == code[1];
  }

  lemma ThreeLoaded(st: State, x: byte, y: byte, z: byte)
    requires Loaded(st, [x, y, z])
    ensures st.mem[st.pc] == x && st.mem[st.pc + 1] == y && st.mem[st.pc + 2] == z
  {
    var code := [x, y, z];
    assert st.mem[st.pc + 0] == code[0] && st.mem[st.pc + 1] == code[1] && st.mem[st.pc + 2] == code[2];
  }

  lemma StepIsInstr(w: World, st: State)
    requires Quiet(st)
    ensures Step(w, st) == Instr(w, st)
  {
  }

  /** A branch instruction. */
  lemma StepBranch(w: World, st: State, opcode: byte, d: byte)
    requires Table(w) && Quiet(st) && IsBranch(opcode) && Loaded(st, [opcode, d])
    ensures Step(w, st) ==
      st.(pc := if Condition(opcode, st.r.p) then Wrap(st.pc + 0x1_0000 + 2 + Signed(d)) else Wrap(st.pc + 2))
  {
    TwoLoaded(st, opcode, d);
    BranchDecodes(w, opcode, st.r.p);
    BranchTarget(st.pc, d);
    StepIsInstr(w, st);
    InstrBranch(w, st, d);
  }

  lemma InstrBranch(w: World, st: State, d: byte)
    requires st.Valid() && Decoded(w, st).op.Branch? && Decoded(w, st).mode == Relative && st.mem[Wrap(st.pc + 1)] == d
    ensures var next := Wrap(Wrap(st.pc + 1) + 1);
      Instr(w, st) == st.(pc := if Holds(Decoded(w, st).op, st.r.p) then Wrap(next + 0x1_0000 + Signed(d)) else next)
  {
    assert OperandOf(w, st) == Address(d);
    var t := st.(pc := NextPc(w, st));
    ExecuteBranch(w, t, Decoded(w, st).op, d);
    assert NextPc(w, st) == Wrap(Wrap(st.pc + 1) + 1);
  }

  lemma ExecuteBranch(w: World, st: State, op: Opcode, d: byte)
    requires st.Valid() && op.Branch?
    ensures Execute(w, st, op, Address(d)) ==
            if Holds(op, st.r.p) then st.(pc := Wrap(st.pc + 0x1_0000 + Signed(d))) else st
  {
    LowOfByte(d);
  }

  lemma LowOfByte(d: byte)
    ensures Low(d) == d
  {
  }

  lemma BranchTarget(pc: u16, d: byte)
    requires pc + 2 <= 0x1_0000
    ensures Wrap(Wrap(Wrap(pc + 1) + 1) + 0x1_0000 + Signed(d)) == Wrap(pc + 0x1_0000 + 2 + Signed(d))
    ensures Wrap(Wrap(pc + 1) + 1) == Wrap(pc + 2) && Wrap(pc + 1) == pc + 1
  {
  }

  /** An absolute jump. */
  lemma StepJump(w: World, st: State, target: u16)
    requires Table(w) && Quiet(st) && Loaded(st, [JMP_ABSOLUTE, Low(target), High(target)])
    ensures Step(w, st) == st.(pc := target)
  {
    ThreeLoaded(st, JMP_ABSOLUTE, Low(target), High(target));
    StepIsInstr(w, st);
    InstrJump(w, st, target);
  }

  lemma InstrJump(w: World, st: State, target: u16)
    requires st.Valid() && st.pc + 2 < 0x1_0000 && Decoded(w, st) == Instruction(JMP, Absolute)
    requires st.mem[st.pc + 1] == Low(target) && st.mem[st.pc + 2] == High(target)
    ensures Instr(w, st) == st.(pc := target)
  {
    InMemory(st.pc + 1);
    InMemory(st.pc + 2);
    Halves(target);
    assert OperandOf(w, st) == Address(target);
  }

  lemma InMemory(a: nat)
    requires a < 0x1_0000
    ensures Wrap(a) == a
  {
  }

  lemma Halves(v: u16)
    ensures Join(Low(v), High(v)) == v
  {
  }

  lemma NearTarget(pc: u16, target: u16)
    requires Near(pc, target) && pc + 2 <= 0x1_0000
    ensures Wrap(pc + 0x1_0000 + 2 + Signed(Displacement(pc, target))) == target
  {
  }

  /** The number of instructions that the emitted code runs. */
  function Steps(opcode: byte, pc: u16, target: u16, p: byte): nat
    requires IsBranch(opcode)
  {
    if Near(pc, target) || !Condition(opcode, p) then 1 else 2
  }

  /** Whatever code is chosen, it goes to the target exactly if the condition holds and otherwise to
      the byte behind itself, and changes nothing else. */
  lemma BranchMeansTheSame(w: World, st: State, opcode: byte, target: u16)
    requires Table(w) && Quiet(st) && IsBranch(opcode) && Loaded(st, Code(opcode, st.pc, target))
    ensures var code := Code(opcode, st.pc, target);
      Run(w, st, seq(Steps(opcode, st.pc, target, st.r.p), _ => false)) ==
        st.(pc := if Condition(opcode, st.r.p) then target else Wrap(st.pc + |code|))
  {
    if Near(st.pc, target) {
      NearBranch(w, st, opcode, target);
      OneStep(w, st);
    } else if Condition(opcode, st.r.p) {
      FarTaken(w, st, opcode, target);
      TwoSteps(w, st);
    } else {
      FarNotTaken(w, st, opcode, target);
      OneStep(w, st);
    }
  }

  lemma NearBranch(w: World, st: State, opcode: byte, target: u16)
    requires Table(w) && Quiet(st) && IsBranch(opcode) && Near(st.pc, target) && Loaded(st, Code(opcode, st.pc, target))
    ensures Step(w, st) == st.(pc := if Condition(opcode, st.r.p) then target else Wrap(st.pc + 2))
  {
    NearTarget(st.pc, target);
    StepBranch(w, st, opcode, Displacement(st.pc, target));
  }

  lemma FarFirst(w: World, st: State, opcode: byte, target: u16)
    requires Table(w) && Quiet(st) && IsBranch(opcode) && !Near(st.pc, target)
    requires Loaded(st, Code(opcode, st.pc, target))
    ensures Step(w, st) == st.(pc := if Condition(opcode, st.r.p) then st.pc + 2 else Wrap(st.pc + 5))
    ensures Loaded(st.(pc := st.pc + 2), [JMP_ABSOLUTE, Low(target), High(target)])
  {
    var code := Code(opcode, st.pc, target);
    FlipNegates(opcode, st.r.p);
    LoadedPart(st, code, 0, 2);
    LoadedPart(st, code, 2, 5);
    FiveBytes(Flip(opcode), 3, JMP_ABSOLUTE, Low(target), High(target));
    StepBranch(w, st, Flip(opcode), 3);
    OverJump(st.pc);
  }

  lemma FiveBytes(a: byte, b: byte, c: byte, d: byte, e: byte)
    ensures [a, b, c, d, e][0..2] == [a, b] && [a, b, c, d, e][2..5] == [c, d, e]
  {
  }

  /** The opposite branch goes past the jump, or on to it. */
  lemma OverJump(pc: u16)
    requires pc + 5 <= 0x1_0000
    ensures Wrap(pc + 0x1_0000 + 2 + Signed(3)) == Wrap(pc + 5) && Wrap(pc + 2) == pc + 2
  {
  }

  lemma FarTaken(w: World, st: State, opcode: byte, target: u16)
    requires Table(w) && Quiet(st) && IsBranch(opcode) && !Near(st.pc, target)
    requires Loaded(st, Code(opcode, st.pc, target))
    requires Condition(opcode, st.r.p)
    ensures Step(w, Step(w, st)) == st.(pc := target)
  {
    FarFirst(w, st, opcode, target);
    StepJump(w, st.(pc := st.pc + 2), target);
  }

  lemma FarNotTaken(w: World, st: State, opcode: byte, target: u16)
    requires Table(w) && Quiet(st) && IsBranch(opcode) && !Near(st.pc, target)
    requires Loaded(st, Code(opcode, st.pc, target))
    requires !Condition(opcode, st.r.p)
    ensures Step(w, st) == st.(pc := Wrap(st.pc + 5))
  {
    FarFirst(w, st, opcode, target);
  }

  lemma LoadedPart(st: State, code: seq<byte>, i: nat, j: nat)
    requires Loaded(st, code) && i <= j <= |code| && st.pc + i < 0x1_0000
    ensures Loaded(st.(pc := st.pc + i), code[i..j])
  {
    forall k | 0 <= k < j - i
      ensures st.mem[st.pc + i + k] == code[i..j][k]
    {
      assert st.mem[st.pc + (i + k)] == code[i + k];
    }
  }

  lemma OneStep(w: World, st: State)
    requires st.Valid()
    ensures Run(w, st, seq(1, _ => false)) == Step(w, st)
  {
    var irqs := seq(1, _ => false);
    assert Asserted(st, irqs[0]) == st && irqs[1..] == [];
  }

  lemma TwoSteps(w: World, st: State)
    requires st.Valid()
    ensures Run(w, st, seq(2, _ => false)) == Step(w, Step(w, st))
  {
    var irqs := seq(2, _ => false);
    var t := Step(w, st);
    assert Asserted(st, irqs[0]) == st && Asserted(t, irqs[1..][0]) == t && irqs[1..][1..] == [];
    assert Run(w, t, irqs[1..]) == Step(w, t);
  }
}
