/** CentralProcessingUnit.cpp: the stack discipline of the emulated 6502 over whole runs. */
module Cpu {
  import opened Options
  import opened Words

  // ---- instructions

  datatype Mode =
    | Implied | Accumulator | Immediate | Relative
    | ZeroPage | ZeroPageX | ZeroPageY | IndexedIndirect | IndirectIndexed
    | Absolute | AbsoluteX | AbsoluteY | Indirect | UnknownMode

  /** The instructions that touch the stack or the program counter. A branch tests a bit of P. All
      others work on registers, flags and at most one memory cell. */
  datatype Opcode =
    | JMP | JSR | RTS | BRK | RTI | PHA | PHP | PLA | PLP | TXS
    | Branch(mask: byte, ifSet: bool)
    | Data(n: nat)
    | Unknown

  datatype Instruction = Instruction(op: Opcode, mode: Mode)

  datatype Operand = NoOperand | Literal(v: byte) | Address(a: u16) | UnknownOperand

  datatype Registers = Registers(a: byte, x: byte, y: byte, s: byte, p: byte)

  /** What a data instruction does: new A, X, Y and P, and a byte to store at the operand address. */
  datatype Effect = Effect(a: byte, x: byte, y: byte, p: byte, store: Option<byte>)

  /** The configured stack base, the decoder table, and the meaning of the data instructions. */
  datatype World = World(
    base: u16,
    decode: byte -> Instruction,
    data: (nat, Registers, byte) -> Effect)

  datatype State = State(
    r: Registers, pc: u16, halted: bool,
    irqLine: bool, irqCounter: nat, irqInterval: nat,
    mem: seq<byte>)
  {
    predicate Valid() { |mem| == 0x1_0000 }
  }

  function Wrap(n: nat): u16 { n % 0x1_0000 }
  function Next(pc: u16): u16 { if pc == 0xFFFF then 0 else pc + 1 }
  function Previous(pc: u16): u16 { if pc == 0 then 0xFFFF else pc - 1 }
  function Low(n: u16): byte { n % 256 }
  function High(n: u16): byte { n / 256 }
  function Join(lo: byte, hi: byte): u16 { (hi as int) * 256 + (lo as int) }
  function Inc(s: byte): byte { if s == 255 then 0 else s + 1 }
  function Dec(s: byte): byte { if s == 0 then 255 else s - 1 }

  /** One bit of a register; a mask is a power of two. */
  predicate Bit(p: byte, mask: byte)
    requires mask > 0
  {
    (p / mask) % 2 == 1
  }

  /** A mask as the flag operations use it. */
  predicate Flag(mask: byte) { mask in {0x02, 0x04, 0x10, 0x80} }

  function PutBit(p: byte, mask: byte, on: bool): byte
    requires Flag(mask)
  {
    if Bit(p, mask) == on then p else if on then p + mask else p - mask
  }

  function SetBit(p: byte, mask: byte): byte
    requires Flag(mask)
  {
    PutBit(p, mask, true)
  }

  function ClearBit(p: byte, mask: byte): byte
    requires Flag(mask)
  {
    PutBit(p, mask, false)
  }

  /** static_cast<int8_t>. */
  function Signed(v: byte): int { if v < 128 then v else v - 256 }

  // ---- operands

  function ReadWord(mem: seq<byte>, a: nat): u16
    requires |mem| == 0x1_0000
  {
    Join(mem[Wrap(a)], mem[Wrap(a + 1)])
  }

  function ReadZeroPageWord(mem: seq<byte>, a: byte): u16
    requires |mem| == 0x1_0000
  {
    Join(mem[a], mem[Inc(a)])
  }

  function ResolveAddress(mem: seq<byte>, r: Registers, mode: Mode, v: u16): u16
    requires |mem| == 0x1_0000
  {
    match mode
    case ZeroPage => Low(v)
    case ZeroPageX => Low(Wrap(v + r.x))
    case ZeroPageY => Low(Wrap(v + r.y))
    case Absolute => v
    case AbsoluteX => Wrap(v + r.x)
    case AbsoluteY => Wrap(v + r.y)
    case Indirect => ReadWord(mem, v)
    case IndexedIndirect => ReadZeroPageWord(mem, Low(Wrap(v + r.x)))
    case IndirectIndexed => Wrap(ReadZeroPageWord(mem, Low(v)) + r.y)
    case Relative => v
    case _ => 0
  }

  /** The bytes of an operand. */
  function OperandSize(mode: Mode): nat {
    match mode
    case Implied => 0
    case Accumulator => 0
    case UnknownMode => 0
    case Absolute => 2
    case AbsoluteX => 2
    case AbsoluteY => 2
    case Indirect => 2
    case _ => 1
  }

  function OperandAt(mem: seq<byte>, r: Registers, mode: Mode, pc: u16): Operand
    requires |mem| == 0x1_0000
  {
    if mode == UnknownMode then UnknownOperand
    else if mode == Immediate then Literal(mem[pc])
    else if OperandSize(mode) == 0 then NoOperand
    else if OperandSize(mode) == 1 then Address(ResolveAddress(mem, r, mode, mem[pc]))
    else Address(ResolveAddress(mem, r, mode, ReadWord(mem, pc)))
  }

  function ValueOf(o: Operand): u16 {
    match o case Literal(v) => v case Address(a) => a case _ => 0
  }

  /** The value a data instruction works on. */
  function Read(st: State, o: Operand): byte
    requires st.Valid()
  {
    match o case Literal(v) => v case Address(a) => st.mem[a] case _ => st.r.a
  }

  // ---- the stack

  function StackCell(base: u16, s: byte): u16 {
    if base + s < 0x1_0000 then base + s else base + s - 0x1_0000
  }

  function Push(w: World, st: State, v: byte): (t: State)
    requires st.Valid()
    ensures t.Valid()
  {
    st.(mem := st.mem[StackCell(w.base, st.r.s) := v], r := st.r.(s := Dec(st.r.s)))
  }

  function Top(w: World, st: State): byte
    requires st.Valid()
  {
    st.mem[StackCell(w.base, Inc(st.r.s))]
  }

  function Drop(st: State): State { st.(r := st.r.(s := Inc(st.r.s))) }

  function PushWord(w: World, st: State, v: u16): (t: State)
    requires st.Valid()
    ensures t.Valid()
  {
    Push(w, Push(w, st, High(v)), Low(v))
  }

  function PopWord(w: World, st: State): u16
    requires st.Valid()
  {
    Join(Top(w, st), Top(w, Drop(st)))
  }

  // ---- one step

  /** Pushing PC and P, setting the I flag, going through the vector at 0xFFFE. */
  function Enter(w: World, st: State, p: byte): (t: State)
    requires st.Valid()
    ensures t.Valid()
  {
    var t := Push(w, PushWord(w, st, st.pc), p);
    t.(r := t.r.(p := SetBit(t.r.p, 0x04)), pc := ReadWord(t.mem, 0xFFFE))
  }

  function HandleIrq(w: World, st: State): (t: State)
    requires st.Valid()
    ensures t.Valid()
  {
    Enter(w, st, ClearBit(st.r.p, 0x10)).(irqLine := false)
  }

  /** The timer pulls the line every irqInterval instructions. */
  function Tick(st: State): (t: State)
    ensures st.Valid() ==> t.Valid()
  {
    if st.irqInterval == 0 then st
    else if st.irqCounter + 1 >= st.irqInterval then st.(irqCounter := 0, irqLine := true)
    else st.(irqCounter := st.irqCounter + 1)
  }

  predicate TakesIrq(st: State) { st.irqLine && !Bit(st.r.p, 0x04) }

  function Decoded(w: World, st: State): Instruction
    requires st.Valid()
  {
    w.decode(st.mem[st.pc])
  }

  /** Where the next instruction is. */
  function NextPc(w: World, st: State): u16
    requires st.Valid()
  {
    Wrap(Wrap(st.pc + 1) + OperandSize(Decoded(w, st).mode))
  }

  function OperandOf(w: World, st: State): Operand
    requires st.Valid()
  {
    OperandAt(st.mem, st.r, Decoded(w, st).mode, Wrap(st.pc + 1))
  }

  predicate Holds(op: Opcode, p: byte) {
    op.Branch? && op.mask > 0 && Bit(p, op.mask) == op.ifSet
  }

  /** A decoded instruction, with the program counter behind it. */
  function Execute(w: World, st: State, op: Opcode, o: Operand): (t: State)
    requires st.Valid()
    ensures t.Valid()
  {
    match op
    case JMP => st.(pc := ValueOf(o))
    case JSR => PushWord(w, st, Previous(st.pc)).(pc := ValueOf(o))
    case RTS => Drop(Drop(st)).(pc := Next(PopWord(w, st)))
    case BRK => Enter(w, st, SetBit(st.r.p, 0x10)).(halted := true)
    case RTI =>
      var t := Drop(Drop(Drop(st)));
      t.(pc := PopWord(w, Drop(st)), r := t.r.(p := Top(w, st)))
    case PHA => Push(w, st, st.r.a)
    case PHP => Push(w, st, SetBit(st.r.p, 0x10))
    case PLA => LoadA(Drop(st), Top(w, st))
    case PLP => Drop(st).(r := Drop(st).r.(p := Top(w, st)))
    case TXS => st.(r := st.r.(s := st.r.x))
    case Branch(_, _) => if Holds(op, st.r.p) then st.(pc := Wrap(st.pc + 0x1_0000 + Signed(Low(ValueOf(o))))) else st
    case Data(n) => Apply(st, w.data(n, st.r, Read(st, o)), ValueOf(o))
    case Unknown => st.(halted := true)
  }

  /** A with the N and Z flags that go with it. */
  function LoadA(st: State, v: byte): State {
    st.(r := st.r.(a := v, p := PutBit(PutBit(st.r.p, 0x80, v >= 128), 0x02, v == 0)))
  }

  function Apply(st: State, e: Effect, a: u16): (t: State)
    requires st.Valid()
    ensures t.Valid()
  {
    var t := st.(r := Registers(e.a, e.x, e.y, st.r.s, e.p));
    if e.store.Some? then t.(mem := st.mem[a := e.store.value]) else t
  }

  function Instr(w: World, st: State): (t: State)
    requires st.Valid()
    ensures t.Valid()
  {
    Execute(w, st.(pc := NextPc(w, st)), Decoded(w, st).op, OperandOf(w, st))
  }

  function Step(w: World, st: State): (t: State)
    requires st.Valid()
    ensures t.Valid()
  {
    if st.halted then st
    else
      var t := Tick(st);
      if TakesIrq(t) then HandleIrq(w, t) else Instr(w, t)
  }

  // ---- the stack is a sequence

  /** The cells above S hold these bytes, the last of them on top. */
  ghost predicate Holding(base: u16, mem: seq<byte>, s: byte, bytes: seq<byte>)
    requires |mem| == 0x1_0000
    decreases |bytes|
  {
    bytes == [] ||
    (mem[StackCell(base, Inc(s))] == bytes[|bytes| - 1] && Holding(base, mem, Inc(s), bytes[..|bytes| - 1]))
  }

  /** S after n bytes have been popped. */
  function Up(s: byte, n: nat): byte
    decreases n
  {
    if n == 0 then s else Up(Inc(s), n - 1)
  }

  /** Address a is one of the n cells above S. */
  predicate Live(base: u16, s: byte, n: nat, a: u16)
    decreases n
  {
    n > 0 && (a == StackCell(base, Inc(s)) || Live(base, Inc(s), n - 1, a))
  }

  /** A write elsewhere does not disturb the stack. */
  lemma {:induction false} HoldingAfterWrite(base: u16, mem: seq<byte>, s: byte, bytes: seq<byte>, a: u16, v: byte)
    requires |mem| == 0x1_0000 && Holding(base, mem, s, bytes) && !Live(base, s, |bytes|, a)
    ensures Holding(base, mem[a := v], s, bytes)
    decreases |bytes|
  {
    if bytes != [] { HoldingAfterWrite(base, mem, Inc(s), bytes[..|bytes| - 1], a, v); }
  }

  /** Up to 255 bytes, the cell that the next push fills is not in use. */
  lemma {:induction false} FreeCell(base: u16, top: byte, s: byte, n: nat, k: nat)
    requires n + k <= 255 && s == Up(top, k)
    ensures !Live(base, s, n, StackCell(base, top))
    decreases n
  {
    UpIs(top, k);
    if n > 0 {
      UpNext(top, k);
      UpIs(top, k + 1);
      FreeCell(base, top, Inc(s), n - 1, k + 1);
    }
  }

  lemma {:induction false} UpIs(s: byte, n: nat)
    requires n <= 255
    ensures Up(s, n) == if s + n < 256 then s + n else s + n - 256
    decreases n
  {
    if n > 0 { UpIs(Inc(s), n - 1); }
  }

  lemma {:induction false} UpNext(s: byte, n: nat)
    ensures Up(s, n + 1) == Inc(Up(s, n))
    decreases n
  {
    if n > 0 { UpNext(Inc(s), n - 1); }
  }

  /** The stack of a state is this sequence of bytes, at most 256, above a fixed bottom. */
  ghost predicate Represents(w: World, st: State, bytes: seq<byte>, bottom: byte) {
    && st.Valid() && |bytes| <= 256
    && Holding(w.base, st.mem, st.r.s, bytes) && Up(st.r.s, |bytes|) == bottom
  }

  lemma PushHolds(base: u16, mem: seq<byte>, s: byte, bytes: seq<byte>, v: byte)
    requires |mem| == 0x1_0000 && |bytes| < 256 && Holding(base, mem, s, bytes)
    ensures Holding(base, mem[StackCell(base, s) := v], Dec(s), bytes + [v])
  {
    var all := bytes + [v];
    FreeCell(base, s, s, |bytes|, 0);
    HoldingAfterWrite(base, mem, s, bytes, StackCell(base, s), v);
    assert all[..|all| - 1] == bytes && Inc(Dec(s)) == s;
  }

  lemma PushRepresents(w: World, st: State, bytes: seq<byte>, bottom: byte, v: byte)
    requires Represents(w, st, bytes, bottom) && |bytes| < 256
    ensures Represents(w, Push(w, st, v), bytes + [v], bottom)
  {
    PushHolds(w.base, st.mem, st.r.s, bytes, v);
    assert Up(Dec(st.r.s), |bytes| + 1) == Up(st.r.s, |bytes|);
  }

  lemma PopRepresents(w: World, st: State, bytes: seq<byte>, bottom: byte)
    requires Represents(w, st, bytes, bottom) && bytes != []
    ensures Top(w, st) == bytes[|bytes| - 1]
    ensures Represents(w, Drop(st), bytes[..|bytes| - 1], bottom)
  {
  }

  lemma PushWordRepresents(w: World, st: State, bytes: seq<byte>, bottom: byte, v: u16)
    requires Represents(w, st, bytes, bottom) && |bytes| < 255
    ensures Represents(w, PushWord(w, st, v), bytes + [High(v), Low(v)], bottom)
  {
    PushRepresents(w, st, bytes, bottom, High(v));
    PushRepresents(w, Push(w, st, High(v)), bytes + [High(v)], bottom, Low(v));
    assert bytes + [High(v)] + [Low(v)] == bytes + [High(v), Low(v)];
  }

  lemma PopWordRepresents(w: World, st: State, bytes: seq<byte>, bottom: byte, v: u16)
    requires Represents(w, st, bytes + [High(v), Low(v)], bottom)
    ensures PopWord(w, st) == v
    ensures Represents(w, Drop(Drop(st)), bytes, bottom)
  {
    var all := bytes + [High(v), Low(v)];
    PopRepresents(w, st, all, bottom);
    assert all[..|all| - 1] == bytes + [High(v)];
    PopRepresents(w, Drop(st), bytes + [High(v)], bottom);
    assert (bytes + [High(v)])[..|bytes|] == bytes;
  }

  // ---- properly nested runs

  /** What is on the stack: a call, an interrupt or a saved register. */
  datatype Frame = Return(pc: u16) | Interrupt(pc: u16, p: byte) | Saved(v: byte)

  function FrameBytes(f: Frame): (r: seq<byte>)
    ensures 1 <= |r| <= 3
  {
    match f
    case Return(pc) => var a := Previous(pc); [High(a), Low(a)]
    case Interrupt(pc, p) => [High(pc), Low(pc), p]
    case Saved(v) => [v]
  }

  function Bytes(frames: seq<Frame>): seq<byte> {
    if frames == [] then [] else Bytes(frames[..|frames| - 1]) + FrameBytes(frames[|frames| - 1])
  }

  lemma BytesMore(frames: seq<Frame>, f: Frame)
    ensures Bytes(frames + [f]) == Bytes(frames) + FrameBytes(f)
  {
    assert (frames + [f])[..|frames|] == frames;
  }

  function Grow(frames: seq<Frame>, f: Frame): Option<seq<Frame>> {
    if |Bytes(frames)| + |FrameBytes(f)| <= 256 then Some(frames + [f]) else None
  }

  function Shrink(frames: seq<Frame>): seq<Frame>
    requires frames != []
  {
    frames[..|frames| - 1]
  }

  function Last(frames: seq<Frame>): Frame
    requires frames != []
  {
    frames[|frames| - 1]
  }

  /** The address a data instruction writes to. */
  function Target(w: World, st: State): Option<u16>
    requires st.Valid()
  {
    var i := Decoded(w, st);
    if i.op.Data? && w.data(i.op.n, st.r, Read(st.(pc := NextPc(w, st)), OperandOf(w, st))).store.Some?
    then Some(ValueOf(OperandOf(w, st))) else None
  }

  /** The frames after an instruction. None: the run is not properly nested. S is loaded, more than
      256 bytes are pushed, a return does not meet its own frame, or the used part of the stack is
      overwritten. */
  ghost function AfterInstr(w: World, st: State, frames: seq<Frame>): Option<seq<Frame>>
    requires st.Valid()
  {
    match Decoded(w, st).op
    case JSR => Grow(frames, Return(NextPc(w, st)))
    case BRK => Grow(frames, Interrupt(NextPc(w, st), SetBit(st.r.p, 0x10)))
    case PHA => Grow(frames, Saved(st.r.a))
    case PHP => Grow(frames, Saved(SetBit(st.r.p, 0x10)))
    case RTS => if frames != [] && Last(frames).Return? then Some(Shrink(frames)) else None
    case RTI => if frames != [] && Last(frames).Interrupt? then Some(Shrink(frames)) else None
    case PLA => if frames != [] && Last(frames).Saved? then Some(Shrink(frames)) else None
    case PLP => if frames != [] && Last(frames).Saved? then Some(Shrink(frames)) else None
    case TXS => None
    case Data(_) =>
      var t := Target(w, st);
      if t.Some? && Live(w.base, st.r.s, |Bytes(frames)|, t.value) then None else Some(frames)
    case _ => Some(frames)
  }

  ghost function AfterStep(w: World, st: State, frames: seq<Frame>): Option<seq<Frame>>
    requires st.Valid()
  {
    if st.halted then Some(frames)
    else
      var t := Tick(st);
      if TakesIrq(t) then Grow(frames, Interrupt(t.pc, ClearBit(t.r.p, 0x10))) else AfterInstr(w, t, frames)
  }

  /** What the return to a frame restores. */
  predicate Restored(f: Frame, st: State) {
    match f
    case Return(pc) => st.pc == pc
    case Interrupt(pc, p) => st.pc == pc && st.r.p == p
    case Saved(_) => true
  }

  lemma SaveRepresents(w: World, st: State, frames: seq<Frame>, bottom: byte, v: byte)
    requires Represents(w, st, Bytes(frames), bottom) && Grow(frames, Saved(v)).Some?
    ensures Represents(w, Push(w, st, v), Bytes(frames + [Saved(v)]), bottom)
  {
    BytesMore(frames, Saved(v));
    PushRepresents(w, st, Bytes(frames), bottom, v);
  }

  lemma CallRepresents(w: World, st: State, frames: seq<Frame>, bottom: byte, pc: u16, a: u16)
    requires Represents(w, st, Bytes(frames), bottom) && Grow(frames, Return(pc)).Some? && a == Previous(pc)
    ensures Represents(w, PushWord(w, st, a), Bytes(frames + [Return(pc)]), bottom)
  {
    BytesMore(frames, Return(pc));
    PushWordRepresents(w, st, Bytes(frames), bottom, a);
  }

  lemma PushThree(w: World, st: State, bytes: seq<byte>, bottom: byte, x: byte, y: byte, z: byte)
    requires Represents(w, st, bytes, bottom) && |bytes| < 254
    ensures Represents(w, Push(w, Push(w, Push(w, st, x), y), z), bytes + [x, y, z], bottom)
  {
    PushRepresents(w, st, bytes, bottom, x);
    PushRepresents(w, Push(w, st, x), bytes + [x], bottom, y);
    PushRepresents(w, Push(w, Push(w, st, x), y), bytes + [x] + [y], bottom, z);
    assert bytes + [x] + [y] + [z] == bytes + [x, y, z];
  }

  lemma InterruptRepresents(w: World, st: State, frames: seq<Frame>, bottom: byte, pc: u16, p: byte)
    requires Represents(w, st, Bytes(frames), bottom) && Grow(frames, Interrupt(pc, p)).Some?
    ensures Represents(w, Push(w, PushWord(w, st, pc), p), Bytes(frames + [Interrupt(pc, p)]), bottom)
  {
    BytesMore(frames, Interrupt(pc, p));
    PushThree(w, st, Bytes(frames), bottom, High(pc), Low(pc), p);
  }

  lemma EnterRepresents(w: World, st: State, frames: seq<Frame>, bottom: byte, p: byte)
    requires Represents(w, st, Bytes(frames), bottom) && Grow(frames, Interrupt(st.pc, p)).Some?
    ensures Represents(w, Enter(w, st, p), Bytes(frames + [Interrupt(st.pc, p)]), bottom)
  {
    InterruptRepresents(w, st, frames, bottom, st.pc, p);
    SameStack(w, Push(w, PushWord(w, st, st.pc), p), Enter(w, st, p), Bytes(frames + [Interrupt(st.pc, p)]), bottom);
  }

  lemma ShrinkRepresents(w: World, st: State, frames: seq<Frame>, bottom: byte)
    requires frames != [] && Represents(w, st, Bytes(frames), bottom)
    ensures var f, rest := Last(frames), Bytes(Shrink(frames));
      && (f.Saved? ==> Top(w, st) == f.v && Represents(w, Drop(st), rest, bottom))
      && (f.Return? ==> PopWord(w, st) == Previous(f.pc) && Represents(w, Drop(Drop(st)), rest, bottom))
      && (f.Interrupt? ==> Top(w, st) == f.p)
      && (f.Interrupt? ==> PopWord(w, Drop(st)) == f.pc && Represents(w, Drop(Drop(Drop(st))), rest, bottom))
  {
    var f, rest := Last(frames), Bytes(Shrink(frames));
    var all := Bytes(frames);
    match f
    case Saved(v) =>
      PopRepresents(w, st, all, bottom);
      assert all[..|all| - 1] == rest;
    case Return(pc) =>
      PopWordRepresents(w, st, rest, bottom, Previous(pc));
    case Interrupt(pc, p) =>
      PopRepresents(w, st, all, bottom);
      assert all[..|all| - 1] == rest + [High(pc), Low(pc)];
      PopWordRepresents(w, Drop(st), rest, bottom, pc);
  }

  /** Fields other than memory and S do not matter. */
  lemma SameStack(w: World, st: State, t: State, bytes: seq<byte>, bottom: byte)
    requires Represents(w, st, bytes, bottom) && t.mem == st.mem && t.r.s == st.r.s
    ensures Represents(w, t, bytes, bottom)
  {
  }

  /** The frames that a step leaves: one more, the same, or one fewer, and then restored. */
  ghost predicate Follows(w: World, frames: seq<Frame>, t: State, after: seq<Frame>, bottom: byte) {
    && Represents(w, t, Bytes(after), bottom)
    && (|after| < |frames| ==> after == Shrink(frames) && Restored(Last(frames), t))
    && (|after| >= |frames| ==> after == frames || (|after| == |frames| + 1 && Shrink(after) == frames))
  }

  lemma RtsFollows(w: World, st: State, o: Operand, frames: seq<Frame>, bottom: byte)
    requires Represents(w, st, Bytes(frames), bottom) && frames != [] && Last(frames).Return?
    ensures Follows(w, frames, Execute(w, st, RTS, o), Shrink(frames), bottom)
  {
    ShrinkRepresents(w, st, frames, bottom);
    SameStack(w, Drop(Drop(st)), Execute(w, st, RTS, o), Bytes(Shrink(frames)), bottom);
  }

  lemma RtiFollows(w: World, st: State, o: Operand, frames: seq<Frame>, bottom: byte)
    requires Represents(w, st, Bytes(frames), bottom) && frames != [] && Last(frames).Interrupt?
    ensures Follows(w, frames, Execute(w, st, RTI, o), Shrink(frames), bottom)
  {
    ShrinkRepresents(w, st, frames, bottom);
    SameStack(w, Drop(Drop(Drop(st))), Execute(w, st, RTI, o), Bytes(Shrink(frames)), bottom);
  }

  lemma PullFollows(w: World, st: State, op: Opcode, o: Operand, frames: seq<Frame>, bottom: byte)
    requires Represents(w, st, Bytes(frames), bottom) && frames != [] && Last(frames).Saved? && op in {PLA, PLP}
    ensures Follows(w, frames, Execute(w, st, op, o), Shrink(frames), bottom)
  {
    ShrinkRepresents(w, st, frames, bottom);
    SameStack(w, Drop(st), Execute(w, st, op, o), Bytes(Shrink(frames)), bottom);
  }

  lemma JsrFollows(w: World, st: State, o: Operand, frames: seq<Frame>, bottom: byte)
    requires Represents(w, st, Bytes(frames), bottom) && Grow(frames, Return(st.pc)).Some?
    ensures Follows(w, frames, Execute(w, st, JSR, o), frames + [Return(st.pc)], bottom)
  {
    var a, after := Previous(st.pc), frames + [Return(st.pc)];
    CallRepresents(w, st, frames, bottom, st.pc, a);
    SameStack(w, PushWord(w, st, a), Execute(w, st, JSR, o), Bytes(after), bottom);
    assert Shrink(after) == frames;
  }

  lemma BrkFollows(w: World, st: State, o: Operand, frames: seq<Frame>, bottom: byte, f: Frame)
    requires f == Interrupt(st.pc, SetBit(st.r.p, 0x10))
    requires Represents(w, st, Bytes(frames), bottom) && Grow(frames, f).Some?
    ensures Follows(w, frames, Execute(w, st, BRK, o), frames + [f], bottom)
  {
    EnterRepresents(w, st, frames, bottom, f.p);
    SameStack(w, Enter(w, st, f.p), Execute(w, st, BRK, o), Bytes(frames + [f]), bottom);
    assert Shrink(frames + [f]) == frames;
  }

  lemma SaveFollows(w: World, st: State, t: State, frames: seq<Frame>, bottom: byte, v: byte)
    requires Represents(w, st, Bytes(frames), bottom) && Grow(frames, Saved(v)).Some?
    requires t == Push(w, st, v)
    ensures Follows(w, frames, t, frames + [Saved(v)], bottom)
  {
    SaveRepresents(w, st, frames, bottom, v);
    var after := frames + [Saved(v)];
    assert Shrink(after) == frames && |after| == |frames| + 1;
  }

  lemma DataFollows(w: World, st: State, n: nat, o: Operand, frames: seq<Frame>, bottom: byte)
    requires Represents(w, st, Bytes(frames), bottom)
    requires w.data(n, st.r, Read(st, o)).store.Some? ==> !Live(w.base, st.r.s, |Bytes(frames)|, ValueOf(o))
    ensures Follows(w, frames, Execute(w, st, Data(n), o), frames, bottom)
  {
    var t := Execute(w, st, Data(n), o);
    var e := w.data(n, st.r, Read(st, o));
    if e.store.Some? {
      HoldingAfterWrite(w.base, st.mem, st.r.s, Bytes(frames), ValueOf(o), e.store.value);
      SameStack(w, st.(mem := st.mem[ValueOf(o) := e.store.value]), t, Bytes(frames), bottom);
    } else {
      SameStack(w, st, t, Bytes(frames), bottom);
    }
  }

  lemma ControlFollows(w: World, st: State, op: Opcode, o: Operand, frames: seq<Frame>, bottom: byte)
    requires Represents(w, st, Bytes(frames), bottom) && (op.Branch? || op.JMP? || op.Unknown?)
    ensures Follows(w, frames, Execute(w, st, op, o), frames, bottom)
  {
    SameStack(w, st, Execute(w, st, op, o), Bytes(frames), bottom);
  }

  lemma InstrFollows(w: World, st: State, frames: seq<Frame>, bottom: byte)
    requires Represents(w, st, Bytes(frames), bottom) && AfterInstr(w, st, frames).Some?
    ensures Follows(w, frames, Instr(w, st), AfterInstr(w, st, frames).value, bottom)
  {
    var t, op, o := st.(pc := NextPc(w, st)), Decoded(w, st).op, OperandOf(w, st);
    SameStack(w, st, t, Bytes(frames), bottom);
    match op
    case RTS => RtsFollows(w, t, o, frames, bottom);
    case RTI => RtiFollows(w, t, o, frames, bottom);
    case PLA => PullFollows(w, t, op, o, frames, bottom);
    case PLP => PullFollows(w, t, op, o, frames, bottom);
    case Data(n) => DataFollows(w, t, n, o, frames, bottom);
    case Branch(_, _) => ControlFollows(w, t, op, o, frames, bottom);
    case JMP => ControlFollows(w, t, op, o, frames, bottom);
    case Unknown => ControlFollows(w, t, op, o, frames, bottom);
    case _ => GrowFollows(w, t, op, o, frames, bottom);
  }

  /** What an instruction that pushes leaves; st is the state behind the instruction. */
  ghost function Grown(st: State, op: Opcode, frames: seq<Frame>): Option<seq<Frame>> {
    match op
    case JSR => Grow(frames, Return(st.pc))
    case BRK => Grow(frames, Interrupt(st.pc, SetBit(st.r.p, 0x10)))
    case PHA => Grow(frames, Saved(st.r.a))
    case PHP => Grow(frames, Saved(SetBit(st.r.p, 0x10)))
    case _ => None
  }

  lemma GrowFollows(w: World, st: State, op: Opcode, o: Operand, frames: seq<Frame>, bottom: byte)
    requires Represents(w, st, Bytes(frames), bottom) && Grown(st, op, frames).Some?
    ensures Follows(w, frames, Execute(w, st, op, o), Grown(st, op, frames).value, bottom)
  {
    match op
    case JSR => JsrFollows(w, st, o, frames, bottom);
    case BRK => BrkFollows(w, st, o, frames, bottom, Interrupt(st.pc, SetBit(st.r.p, 0x10)));
    case PHA => SaveFollows(w, st, Execute(w, st, op, o), frames, bottom, st.r.a);
    case PHP => SaveFollows(w, st, Execute(w, st, op, o), frames, bottom, SetBit(st.r.p, 0x10));
  }

  /** Every step of a properly nested run keeps S and the stack page in line with the frames, and a
      return restores what its frame says. */
  lemma StepFollows(w: World, st: State, frames: seq<Frame>, bottom: byte)
    requires Represents(w, st, Bytes(frames), bottom) && AfterStep(w, st, frames).Some?
    ensures Follows(w, frames, Step(w, st), AfterStep(w, st, frames).value, bottom)
  {
    if !st.halted {
      var t := Tick(st);
      SameStack(w, st, t, Bytes(frames), bottom);
      if TakesIrq(t) {
        IrqFollows(w, t, frames, bottom, ClearBit(t.r.p, 0x10));
      } else {
        InstrFollows(w, t, frames, bottom);
      }
    }
  }

  lemma IrqFollows(w: World, st: State, frames: seq<Frame>, bottom: byte, p: byte)
    requires p == ClearBit(st.r.p, 0x10)
    requires Represents(w, st, Bytes(frames), bottom) && Grow(frames, Interrupt(st.pc, p)).Some?
    ensures Follows(w, frames, HandleIrq(w, st), frames + [Interrupt(st.pc, p)], bottom)
  {
    var after := frames + [Interrupt(st.pc, p)];
    EnterRepresents(w, st, frames, bottom, p);
    SameStack(w, Enter(w, st, p), HandleIrq(w, st), Bytes(after), bottom);
    assert Shrink(after) == frames;
  }

  // ---- whole runs

  /** SetIrqLine(true) may come from outside before any step. */
  function Asserted(st: State, irq: bool): State { if irq then st.(irqLine := true) else st }

  function Run(w: World, st: State, irqs: seq<bool>): (t: State)
    requires st.Valid()
    ensures t.Valid()
    decreases |irqs|
  {
    if irqs == [] then st else Run(w, Step(w, Asserted(st, irqs[0])), irqs[1..])
  }

  /** The run is properly nested, and these steps are just enough to empty the list of frames. */
  ghost predicate FirstReturn(w: World, st: State, frames: seq<Frame>, irqs: seq<bool>)
    requires st.Valid()
    decreases |irqs|
  {
    irqs != [] &&
    var t := Asserted(st, irqs[0]);
    var after := AfterStep(w, t, frames);
    after.Some? && if after.value == [] then |irqs| == 1 else FirstReturn(w, Step(w, t), after.value, irqs[1..])
  }

  lemma {:induction false} RunReturns(w: World, st: State, frames: seq<Frame>, bottom: byte, irqs: seq<bool>)
    requires frames != [] && Represents(w, st, Bytes(frames), bottom) && FirstReturn(w, st, frames, irqs)
    ensures Run(w, st, irqs).r.s == bottom && Restored(frames[0], Run(w, st, irqs))
    decreases |irqs|
  {
    var t := Asserted(st, irqs[0]);
    SameStack(w, st, t, Bytes(frames), bottom);
    var after := AfterStep(w, t, frames).value;
    StepFollows(w, t, frames, bottom);
    if after == [] {
      assert irqs[1..] == [];
    } else {
      RunReturns(w, Step(w, t), after, bottom, irqs[1..]);
    }
  }

  lemma FrameReturns(w: World, st: State, irqs: seq<bool>, f: Frame)
    requires st.Valid() && FirstReturn(w, st, [], irqs)
    requires AfterStep(w, Asserted(st, irqs[0]), []) == Some([f])
    ensures Run(w, st, irqs).r.s == st.r.s && Restored(f, Run(w, st, irqs))
  {
    var t := Asserted(st, irqs[0]);
    StepFollows(w, t, [], st.r.s);
    RunReturns(w, Step(w, t), [f], st.r.s, irqs[1..]);
  }

  /** A subroutine call comes back: for every properly nested run, with whatever interrupts, the
      program goes on behind the JSR with the S it had. */
  lemma CallReturns(w: World, st: State, irqs: seq<bool>)
    requires st.Valid() && FirstReturn(w, st, [], irqs)
    requires !st.halted && !TakesIrq(Tick(Asserted(st, irqs[0]))) && Decoded(w, st).op == JSR
    ensures var end := Run(w, st, irqs);
      end.pc == NextPc(w, st) && end.r.s == st.r.s
  {
    JsrGrows(w, st, irqs[0]);
    FrameReturns(w, st, irqs, Return(NextPc(w, st)));
  }

  lemma JsrGrows(w: World, st: State, irq: bool)
    requires st.Valid() && !st.halted && !TakesIrq(Tick(Asserted(st, irq))) && Decoded(w, st).op == JSR
    ensures AfterStep(w, Asserted(st, irq), []) == Some([Return(NextPc(w, st))])
  {
    var t, next := Tick(Asserted(st, irq)), NextPc(w, st);
    assert t.mem == st.mem && t.pc == st.pc;
    assert Decoded(w, t) == Decoded(w, st) && NextPc(w, t) == next;
    assert [] + [Return(next)] == [Return(next)];
  }

  /** An interrupt comes back: after a properly nested handler PC and S are as before, and P has
      lost its B bit and nothing else. */
  lemma InterruptReturns(w: World, st: State, irqs: seq<bool>)
    requires st.Valid() && FirstReturn(w, st, [], irqs)
    requires !st.halted && TakesIrq(Tick(Asserted(st, irqs[0])))
    ensures var end := Run(w, st, irqs);
      end.pc == st.pc && end.r.s == st.r.s && end.r.p == ClearBit(st.r.p, 0x10)
  {
    var f := Interrupt(st.pc, ClearBit(st.r.p, 0x10));
    assert [] + [f] == [f];
    FrameReturns(w, st, irqs, f);
  }

  /** Properly nested runs exist: a JSR whose target is an RTS, without interrupts. */
  lemma ShortestCall(w: World, st: State)
    requires st.Valid() && !st.halted && !st.irqLine && st.irqInterval == 0
    requires Decoded(w, st).op == JSR && Decoded(w, Step(w, st)).op == RTS
    ensures FirstReturn(w, st, [], [false, false])
    ensures Run(w, st, [false, false]).pc == NextPc(w, st)
  {
    var irqs := [false, false];
    JsrGrows(w, st, false);
    var t := Step(w, st);
    assert Asserted(st, false) == st && Asserted(t, false) == t && irqs[1..] == [false];
    assert AfterStep(w, t, [Return(NextPc(w, st))]) == Some([]);
    assert FirstReturn(w, t, [Return(NextPc(w, st))], irqs[1..]);
    CallReturns(w, st, irqs);
  }

  /** So do handlers: an interrupt whose vector leads to an RTI, with the timer off. */
  lemma ShortestInterrupt(w: World, st: State)
    requires st.Valid() && !st.halted && st.irqInterval == 0 && !Bit(st.r.p, 0x04)
    requires Decoded(w, Step(w, Asserted(st, true))).op == RTI
    ensures TakesIrq(Tick(Asserted(st, true))) && FirstReturn(w, st, [], [true, false])
    ensures var end := Run(w, st, [true, false]);
      end.pc == st.pc && end.r.s == st.r.s && end.r.p == ClearBit(st.r.p, 0x10)
  {
    var irqs := [true, false];
    var f := Interrupt(st.pc, ClearBit(st.r.p, 0x10));
    var t := Step(w, Asserted(st, true));
    InterruptEnters(w, st, f);
    RtiEnds(w, t, f);
    assert Asserted(t, false) == t && irqs[1..] == [false];
    assert FirstReturn(w, t, [f], irqs[1..]);
    InterruptReturns(w, st, irqs);
  }

  lemma InterruptEnters(w: World, st: State, f: Frame)
    requires st.Valid() && !st.halted && st.irqInterval == 0 && !Bit(st.r.p, 0x04)
    requires f == Interrupt(st.pc, ClearBit(st.r.p, 0x10))
    ensures var t := Asserted(st, true);
      TakesIrq(Tick(t)) && AfterStep(w, t, []) == Some([f]) && Step(w, t) == HandleIrq(w, t)
  {
    assert [] + [f] == [f];
  }

  lemma RtiEnds(w: World, st: State, f: Frame)
    requires st.Valid() && !st.halted && !st.irqLine && st.irqInterval == 0
    requires f.Interrupt? && Decoded(w, st).op == RTI
    ensures AfterStep(w, st, [f]) == Some([])
  {
  }

  // ---- the program

  class Processor {
    const w: World
    var a: byte
    var x: byte
    var y: byte
    var s: byte
    var p: byte
    var pc: u16
    var halted: bool
    var irqLine: bool
    var irqCounter: nat
    var irqInterval: nat
    const memory: array<byte>

    constructor (w: World, memory: array<byte>)
      requires memory.Length == 0x1_0000
      ensures Valid() && this.w == w && this.memory == memory
      ensures Now() == State(Registers(0, 0, 0, 0xFD, 0x20), 0, false, false, 0, 0, memory[..])
    {
      this.w, this.memory := w, memory;
      a, x, y, s, p := 0, 0, 0, 0xFD, 0x20;
      pc, halted, irqLine, irqCounter, irqInterval := 0, false, false, 0, 0;
    }

    ghost predicate Valid() { memory.Length == 0x1_0000 }

    ghost function Now(): (st: State)
      reads this, memory
      requires Valid()
      ensures st.Valid()
    {
      State(Registers(a, x, y, s, p), pc, halted, irqLine, irqCounter, irqInterval, memory[..])
    }

    /** push. */
    method PushByte(v: byte)
      requires Valid()
      modifies `s, memory
      ensures Now() == Push(w, old(Now()), v)
    {
      memory[StackCell(w.base, s)] := v;
      s := Dec(s);
    }

    /** pop. */
    method PopByte() returns (v: byte)
      requires Valid()
      modifies `s
      ensures v == Top(w, old(Now())) && Now() == Drop(old(Now()))
    {
      s := Inc(s);
      v := memory[StackCell(w.base, s)];
    }

    method PushCounter(v: u16)
      requires Valid()
      modifies `s, memory
      ensures Now() == PushWord(w, old(Now()), v)
    {
      PushByte(High(v));
      PushByte(Low(v));
    }

    method PopCounter() returns (v: u16)
      requires Valid()
      modifies `s
      ensures v == PopWord(w, old(Now())) && Now() == Drop(Drop(old(Now())))
    {
      var lo := PopByte();
      var hi := PopByte();
      v := Join(lo, hi);
    }

    method EnterVector(pushed: byte)
      requires Valid()
      modifies `s, `p, `pc, memory
      ensures Now() == Enter(w, old(Now()), pushed)
    {
      PushCounter(pc);
      PushByte(pushed);
      p := SetBit(p, 0x04);
      pc := Join(memory[0xFFFE], memory[0xFFFF]);
    }

    method TakeIrq()
      requires Valid()
      modifies `s, `p, `pc, `irqLine, memory
      ensures Now() == HandleIrq(w, old(Now()))
    {
      EnterVector(ClearBit(p, 0x10));
      irqLine := false;
    }

    method SetIrqLine(asserted: bool)
      requires Valid()
      modifies `irqLine
      ensures Now() == old(Now()).(irqLine := asserted)
    {
      irqLine := asserted;
    }

    method CountTimer()
      requires Valid()
      modifies `irqLine, `irqCounter
      ensures Now() == Tick(old(Now()))
    {
      if irqInterval > 0 {
        irqCounter := irqCounter + 1;
        if irqCounter >= irqInterval {
          irqCounter := 0;
          irqLine := true;
        }
      }
    }

    method ReadOperandWord(at: u16) returns (v: u16)
      requires Valid()
      ensures v == ReadWord(memory[..], at)
    {
      v := Join(memory[at], memory[Wrap(at + 1)]);
    }

    /** FetchOperand, with the program counter behind the opcode. */
    method FetchOperand(mode: Mode) returns (o: Operand)
      requires Valid()
      modifies `pc
      ensures o == OperandAt(memory[..], Registers(a, x, y, s, p), mode, old(pc))
      ensures Now() == old(Now()).(pc := Wrap(old(pc) + OperandSize(mode)))
    {
      if mode == UnknownMode {
        o := UnknownOperand;
      } else if mode == Immediate {
        o := Literal(memory[pc]);
      } else if OperandSize(mode) == 0 {
        o := NoOperand;
      } else if OperandSize(mode) == 1 {
        var v := Resolve(mode, memory[pc]);
        o := Address(v);
      } else {
        var raw := ReadOperandWord(pc);
        var v := Resolve(mode, raw);
        o := Address(v);
      }
      pc := Wrap(pc + OperandSize(mode));
    }

    method Resolve(mode: Mode, v: u16) returns (r: u16)
      requires Valid()
      ensures r == ResolveAddress(memory[..], Registers(a, x, y, s, p), mode, v)
    {
      match mode {
        case ZeroPage => r := Low(v);
        case ZeroPageX => r := Low(Wrap(v + x));
        case ZeroPageY => r := Low(Wrap(v + y));
        case Absolute => r := v;
        case AbsoluteX => r := Wrap(v + x);
        case AbsoluteY => r := Wrap(v + y);
        case Indirect => r := ReadOperandWord(v);
        case IndexedIndirect =>
          var pointer := Low(Wrap(v + x));
          r := Join(memory[pointer], memory[Inc(pointer)]);
        case IndirectIndexed =>
          var pointer := Low(v);
          r := Wrap(Join(memory[pointer], memory[Inc(pointer)]) + y);
        case Relative => r := v;
        case _ => r := 0;
      }
    }

    /** The cases of step that work on registers, flags and one memory cell. */
    method DataInstruction(n: nat, o: Operand)
      requires Valid()
      modifies `a, `x, `y, `p, memory
      ensures Now() == Execute(w, old(Now()), Data(n), o)
    {
      var v := match o case Literal(v) => v case Address(at) => memory[at] case _ => a;
      var e := w.data(n, Registers(a, x, y, s, p), v);
      a, x, y, p := e.a, e.x, e.y, e.p;
      if e.store.Some? {
        memory[ValueOf(o)] := e.store.value;
      }
    }

    /** The cases that move values between registers and stack. */
    method StackInstruction(op: Opcode, o: Operand)
      requires Valid() && op in {PHA, PHP, PLA, PLP, TXS}
      modifies `a, `s, `p, memory
      ensures Now() == Execute(w, old(Now()), op, o)
    {
      if op == PHA {
        PushByte(a);
      } else if op == PHP {
        PushByte(SetBit(p, 0x10));
      } else if op == PLA {
        a := PopByte();
        p := PutBit(PutBit(p, 0x80, a >= 128), 0x02, a == 0);
      } else if op == PLP {
        p := PopByte();
      } else {
        s := x;
      }
    }

    /** Jumps, branches and halting. */
    method JumpInstruction(op: Opcode, o: Operand)
      requires Valid() && (op in {JMP, Unknown} || op.Branch?)
      modifies `pc, `halted
      ensures Now() == Execute(w, old(Now()), op, o)
    {
      if op == JMP {
        pc := ValueOf(o);
      } else if op.Branch? {
        if op.mask > 0 && Bit(p, op.mask) == op.ifSet {
          pc := Wrap(pc + 0x1_0000 + Signed(Low(ValueOf(o))));
        }
      } else {
        halted := true;
      }
    }

    /** Calls and returns. */
    method CallInstruction(op: Opcode, o: Operand)
      requires Valid() && op in {JSR, RTS}
      modifies `s, `pc, memory
      ensures Now() == Execute(w, old(Now()), op, o)
    {
      if op == JSR {
        PushCounter(Previous(pc));
        pc := ValueOf(o);
      } else {
        pc := PopCounter();
        pc := Next(pc);
      }
    }

    /** Software interrupts, and returns from interrupts. */
    method InterruptInstruction(op: Opcode, o: Operand)
      requires Valid() && op in {BRK, RTI}
      modifies `s, `p, `pc, `halted, memory
      ensures Now() == Execute(w, old(Now()), op, o)
    {
      if op == BRK {
        EnterVector(SetBit(p, 0x10));
        halted := true;
      } else {
        p := PopByte();
        pc := PopCounter();
      }
    }

    /** The switch of step. */
    method ExecuteInstruction(op: Opcode, o: Operand)
      requires Valid()
      modifies this, memory
      ensures Now() == Execute(w, old(Now()), op, o)
    {
      if op.Data? {
        DataInstruction(op.n, o);
      } else if op in {PHA, PHP, PLA, PLP, TXS} {
        StackInstruction(op, o);
      } else if op in {JSR, RTS} {
        CallInstruction(op, o);
      } else if op in {BRK, RTI} {
        InterruptInstruction(op, o);
      } else {
        JumpInstruction(op, o);
      }
    }

    method NextInstruction()
      requires Valid()
      modifies this, memory
      ensures Now() == Instr(w, old(Now()))
    {
      ghost var st := Now();
      var i := w.decode(memory[pc]);
      pc := Wrap(pc + 1);
      var o := FetchOperand(i.mode);
      assert i == Decoded(w, st) && o == OperandOf(w, st) && Now() == st.(pc := NextPc(w, st));
      ExecuteInstruction(i.op, o);
    }

    /** step. */
    method Advance()
      requires Valid()
      modifies this, memory
      ensures Now() == Step(w, old(Now()))
    {
      if !halted {
        CountTimer();
        if irqLine && !Bit(p, 0x04) {
          TakeIrq();
        } else {
          NextInstruction();
        }
      }
    }

    /** A run of the processor; before each step the interrupt line may be asserted. */
    method Steps(irqs: seq<bool>)
      requires Valid()
      modifies this, memory
      ensures Now() == Run(w, old(Now()), irqs)
    {
      var i := 0;
      assert irqs[0..] == irqs;
      while i < |irqs|
        invariant 0 <= i <= |irqs| && Run(w, old(Now()), irqs) == Run(w, Now(), irqs[i..])
      {
        assert irqs[i..][0] == irqs[i] && irqs[i..][1..] == irqs[i + 1..];
        if irqs[i] {
          SetIrqLine(true);
        }
        Advance();
        i := i + 1;
      }
    }
  }
}
