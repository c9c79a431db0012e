/** Linked code in the memory of the processor: jumps and calls to labels arrive there. */
module LinkedRun {
  import opened Words
  import opened Cpu
  import opened CpuInstructions
  import Luna
  import Lld

  ghost predicate InMemory(st: State, code: seq<byte>, base: nat) {
    st.Valid() && base + |code| <= 0x1_0000 && forall i :: 0 <= i < |code| ==> st.mem[base + i] == code[i]
  }

  /** The processor is at call k of the linked code, an opcode byte followed by a word to be relocated. */
  ghost predicate AtInstruction(st: State, calls: seq<Lld.Call>, code: seq<byte>, base: u16, k: nat, opcode: byte,
                                x: int, flags: Luna.Flags, lab: nat)
  {
    && InMemory(st, code, base) && k + 1 < |calls|
    && calls[k] == Lld.ByteCall(opcode, Luna.RESOLVED, 0) && calls[k + 1] == Lld.WordCall(x, flags, lab)
    && Luna.ValDefs(flags) && st.pc == base + Lld.CallsWidth(calls[..k])
  }

  lemma InstructionBytes(st: State, calls: seq<Lld.Call>, code: seq<byte>, base: u16, k: nat, opcode: byte, x: int,
                         flags: Luna.Flags, lab: nat, externalIndex: nat -> u16, names: seq<seq<byte>>,
                         value: seq<byte> -> int)
    requires AtInstruction(st, calls, code, base, k, opcode, x, flags, lab)
    requires Lld.AllDelivered(calls, code, externalIndex, base, names, value)
    ensures st.mem[st.pc] == opcode
    ensures (Cell(st, 1) as int) + 256 * (Cell(st, 2) as int)
         == Lld.Target(x, flags, lab, externalIndex, base, names, value) % 0x1_0000
  {
    var at := Lld.CallsWidth(calls[..k]);
    InstructionInCode(calls, code, base, k, opcode, x, flags, lab, externalIndex, names, value);
    CellsAre(st, code, base, at);
  }

  lemma InstructionInCode(calls: seq<Lld.Call>, code: seq<byte>, base: u16, k: nat, opcode: byte, x: int,
                          flags: Luna.Flags, lab: nat, externalIndex: nat -> u16, names: seq<seq<byte>>,
                          value: seq<byte> -> int)
    requires Lld.AllDelivered(calls, code, externalIndex, base, names, value)
    requires k + 1 < |calls| && Luna.ValDefs(flags)
    requires calls[k] == Lld.ByteCall(opcode, Luna.RESOLVED, 0) && calls[k + 1] == Lld.WordCall(x, flags, lab)
    ensures var at := Lld.CallsWidth(calls[..k]);
      && at + 2 < |code| && code[at] == opcode
      && (code[at + 1] as int) + 256 * (code[at + 2] as int)
           == Lld.Target(x, flags, lab, externalIndex, base, names, value) % 0x1_0000
  {
    var at := Lld.CallsWidth(calls[..k]);
    NextPlace(calls, k);
    DeliveredAt(calls, code, k, externalIndex, base, names, value);
    DeliveredAt(calls, code, k + 1, externalIndex, base, names, value);
    ByteThere(code, at, opcode, externalIndex, base, names, value);
    WordThere(code, at + 1, x, flags, lab, externalIndex, base, names, value);
  }

  lemma NextPlace(calls: seq<Lld.Call>, k: nat)
    requires k < |calls|
    ensures Lld.CallsWidth(calls[..k + 1]) == Lld.CallsWidth(calls[..k]) + Lld.CallWidth(calls[k])
  {
    assert calls[..k + 1][..k] == calls[..k];
  }

  lemma DeliveredAt(calls: seq<Lld.Call>, code: seq<byte>, k: nat, externalIndex: nat -> u16, base: int,
                    names: seq<seq<byte>>, value: seq<byte> -> int)
    requires Lld.AllDelivered(calls, code, externalIndex, base, names, value) && k < |calls|
    ensures Lld.Delivers(calls[k], code, Lld.CallsWidth(calls[..k]), externalIndex, base, names, value)
  {
  }

  lemma ByteThere(code: seq<byte>, at: nat, b: byte, externalIndex: nat -> u16, base: int, names: seq<seq<byte>>,
                  value: seq<byte> -> int)
    requires Lld.Delivers(Lld.ByteCall(b, Luna.RESOLVED, 0), code, at, externalIndex, base, names, value)
    ensures at < |code| && code[at] == b
  {
  }

  lemma WordThere(code: seq<byte>, at: nat, x: int, flags: Luna.Flags, lab: nat, externalIndex: nat -> u16, base: int,
                  names: seq<seq<byte>>, value: seq<byte> -> int)
    requires Lld.Delivers(Lld.WordCall(x, flags, lab), code, at, externalIndex, base, names, value)
    requires Luna.ValDefs(flags)
    ensures at + 1 < |code|
    ensures (code[at] as int) + 256 * (code[at + 1] as int)
         == Lld.Target(x, flags, lab, externalIndex, base, names, value) % 0x1_0000
  {
  }

  lemma CellsAre(st: State, code: seq<byte>, base: u16, at: nat)
    requires InMemory(st, code, base) && at + 2 < |code| && st.pc == base + at
    ensures st.mem[st.pc] == code[at] && Cell(st, 1) == code[at + 1] && Cell(st, 2) == code[at + 2]
  {
    assert st.mem[base + at] == code[at] && st.mem[base + (at + 1)] == code[at + 1];
    assert st.mem[base + (at + 2)] == code[at + 2];
  }

  /** A JMP to a label goes to the label's value plus the base address, or to the external. */
  lemma JumpReachesLabel(w: World, st: State, calls: seq<Lld.Call>, code: seq<byte>, base: u16, k: nat, opcode: byte,
                         x: int, flags: Luna.Flags, lab: nat, externalIndex: nat -> u16, names: seq<seq<byte>>,
                         value: seq<byte> -> int)
    requires AtInstruction(st, calls, code, base, k, opcode, x, flags, lab)
    requires Lld.AllDelivered(calls, code, externalIndex, base, names, value)
    requires Executes(st) && w.decode(opcode) == Instruction(JMP, Absolute)
    ensures Step(w, st) == Tick(st).(pc := Lld.Target(x, flags, lab, externalIndex, base, names, value) % 0x1_0000)
  {
    InstructionBytes(st, calls, code, base, k, opcode, x, flags, lab, externalIndex, names, value);
    StepJump(w, st, Absolute, (Cell(st, 1) as int) + 256 * (Cell(st, 2) as int));
  }

  /** A JSR does, too, and leaves the address of its last byte on the stack. */
  lemma CallReachesLabel(w: World, st: State, calls: seq<Lld.Call>, code: seq<byte>, base: u16, k: nat, opcode: byte,
                         x: int, flags: Luna.Flags, lab: nat, externalIndex: nat -> u16, names: seq<seq<byte>>,
                         value: seq<byte> -> int, bytes: seq<byte>, bottom: byte)
    requires AtInstruction(st, calls, code, base, k, opcode, x, flags, lab)
    requires Lld.AllDelivered(calls, code, externalIndex, base, names, value)
    requires Executes(st) && w.decode(opcode) == Instruction(JSR, Absolute)
    requires Represents(w, st, bytes, bottom) && |bytes| < 255
    ensures var t, last := Step(w, st), (st.pc + 2) % 0x1_0000;
      && t.pc == Lld.Target(x, flags, lab, externalIndex, base, names, value) % 0x1_0000
      && Represents(w, t, bytes + [last / 256, last % 256], bottom)
  {
    InstructionBytes(st, calls, code, base, k, opcode, x, flags, lab, externalIndex, names, value);
    StepCall(w, st, bytes, bottom);
  }
}
