/** What single steps of the processor do to the program counter, the stack and memory, in plain
    arithmetic over the bytes in memory. */
module CpuInstructions {
  import opened Options
  import opened Words
  import opened Cpu

  /** The byte k places behind the program counter. */
  function Cell(st: State, k: nat): byte
    requires st.Valid()
  {
    st.mem[(st.pc + k) % 0x1_0000]
  }

  function WordAt(mem: seq<byte>, a: nat): nat
    requires |mem| == 0x1_0000
  {
    (mem[a % 0x1_0000] as int) + 256 * (mem[(a + 1) % 0x1_0000] as int)
  }

  /** Pointers in the zero page do not leave it. */
  function ZeroPageWord(mem: seq<byte>, z: nat): nat
    requires |mem| == 0x1_0000
  {
    (mem[z % 256] as int) + 256 * (mem[(z + 1) % 256] as int)
  }

  /** The step executes an instruction: the processor runs, and no interrupt is due. */
  predicate Executes(st: State) { st.Valid() && !st.halted && !TakesIrq(Tick(st)) }

  predicate Instructs(w: World, st: State, op: Opcode, mode: Mode) {
    Executes(st) && w.decode(st.mem[st.pc]) == Instruction(op, mode)
  }

  /** Nothing has changed but the program counter, S and memory; the timer has gone on. */
  ghost predicate OnlyStack(st: State, t: State) { t == Tick(st).(pc := t.pc, r := st.r.(s := t.r.s), mem := t.mem) }

  // ---- operand addresses

  function Ahead(mode: Mode): nat {
    match mode
    case Implied => 1
    case Accumulator => 1
    case UnknownMode => 1
    case Absolute => 3
    case AbsoluteX => 3
    case AbsoluteY => 3
    case Indirect => 3
    case _ => 2
  }

  lemma JoinIs(mem: seq<byte>, a: nat)
    requires |mem| == 0x1_0000
    ensures ReadWord(mem, a) == WordAt(mem, a)
  {
  }

  lemma ZeroPageJoinIs(mem: seq<byte>, z: byte)
    requires |mem| == 0x1_0000
    ensures ReadZeroPageWord(mem, z) == ZeroPageWord(mem, z)
  {
    assert Inc(z) == (z + 1) % 256;
  }

  lemma ZeroPageWraps(mem: seq<byte>, n: nat)
    requires |mem| == 0x1_0000
    ensures ZeroPageWord(mem, n) == ZeroPageWord(mem, n % 256)
  {
    assert (n + 1) % 256 == (n % 256 + 1) % 256;
  }

  lemma Behind(pc: u16, k: nat)
    requires k <= 2
    ensures Wrap(Wrap(pc + 1) + k) == (pc + 1 + k) % 0x1_0000
  {
  }

  /** The modes with an operand of one byte. */
  predicate ShortAddress(mem: seq<byte>, r: Registers, mode: Mode, v: byte, a: nat)
    requires |mem| == 0x1_0000
  {
    match mode
    case ZeroPage => a == v
    case ZeroPageX => a == (v + r.x) % 256
    case ZeroPageY => a == (v + r.y) % 256
    case IndexedIndirect => a == ZeroPageWord(mem, v + r.x)
    case IndirectIndexed => a == (ZeroPageWord(mem, v) + r.y) % 0x1_0000
    case _ => false
  }

  lemma ShortAddressIs(mem: seq<byte>, r: Registers, mode: Mode, v: byte, a: nat)
    requires |mem| == 0x1_0000 && ShortAddress(mem, r, mode, v, a)
    ensures ResolveAddress(mem, r, mode, v) == a
  {
    SmallSum(v, r.x);
    SmallSum(v, r.y);
    match mode
    case IndexedIndirect =>
      ZeroPageWraps(mem, v + r.x);
      ZeroPageJoinIs(mem, Low(v + r.x));
    case IndirectIndexed => ZeroPageJoinIs(mem, v);
    case _ =>
  }

  lemma SmallSum(v: byte, x: byte)
    ensures Wrap(v + x) == v + x && Low(v + x) == (v + x) % 256 && Low(v) == v
  {
  }

  /** The modes with an operand of two bytes. */
  predicate LongAddress(mem: seq<byte>, r: Registers, mode: Mode, v: u16, a: nat)
    requires |mem| == 0x1_0000
  {
    match mode
    case Absolute => a == v
    case AbsoluteX => a == (v + r.x) % 0x1_0000
    case AbsoluteY => a == (v + r.y) % 0x1_0000
    case Indirect => a == WordAt(mem, v)
    case _ => false
  }

  lemma LongAddressIs(mem: seq<byte>, r: Registers, mode: Mode, v: u16, a: nat)
    requires |mem| == 0x1_0000 && LongAddress(mem, r, mode, v, a)
    ensures ResolveAddress(mem, r, mode, v) == a
  {
    if mode == Indirect { JoinIs(mem, v); }
  }

  /** The address that an instruction works on, by its mode and the bytes behind the opcode. */
  predicate EffectiveAddress(st: State, mode: Mode, a: nat)
    requires st.Valid()
  {
    if Ahead(mode) == 3 then
      WordAt(st.mem, st.pc + 1) < 0x1_0000 && LongAddress(st.mem, st.r, mode, WordAt(st.mem, st.pc + 1), a)
    else ShortAddress(st.mem, st.r, mode, Cell(st, 1), a)
  }

  /** Each mode gives its effective address as operand. */
  lemma OperandAddress(w: World, st: State, mode: Mode, a: nat)
    requires st.Valid() && w.decode(st.mem[st.pc]).mode == mode && EffectiveAddress(st, mode, a)
    ensures a < 0x1_0000 && OperandOf(w, st) == Address(a)
  {
    Behind(st.pc, 0);
    Behind(st.pc, 1);
    if Ahead(mode) == 3 {
      JoinIs(st.mem, Wrap(st.pc + 1));
      WordAtWraps(st.mem, st.pc + 1);
      LongAddressIs(st.mem, st.r, mode, WordAt(st.mem, st.pc + 1), a);
    } else {
      ShortAddressIs(st.mem, st.r, mode, Cell(st, 1), a);
    }
  }

  lemma WordAtWraps(mem: seq<byte>, a: nat)
    requires |mem| == 0x1_0000
    ensures WordAt(mem, a % 0x1_0000) == WordAt(mem, a) < 0x1_0000
  {
    assert (a % 0x1_0000 + 1) % 0x1_0000 == (a + 1) % 0x1_0000;
  }

  lemma NextIs(w: World, st: State)
    requires st.Valid()
    ensures NextPc(w, st) == (st.pc + Ahead(w.decode(st.mem[st.pc]).mode)) % 0x1_0000
  {
    Behind(st.pc, OperandSize(Decoded(w, st).mode));
  }

  lemma StepIs(w: World, st: State)
    requires Executes(st)
    ensures var t := Tick(st);
      Step(w, st) == Execute(w, t.(pc := NextPc(w, st)), Decoded(w, st).op, OperandOf(w, st))
  {
    var t := Tick(st);
    assert t.mem == st.mem && t.pc == st.pc && t.r == st.r;
    assert Decoded(w, t) == Decoded(w, st) && OperandOf(w, t) == OperandOf(w, st) && NextPc(w, t) == NextPc(w, st);
  }

  // ---- data instructions

  /** A data instruction works on the byte at its effective address and stores there. */
  lemma StepData(w: World, st: State, n: nat, mode: Mode, a: nat)
    requires Instructs(w, st, Data(n), mode) && EffectiveAddress(st, mode, a)
    ensures a < 0x1_0000 && var t, e := Step(w, st), w.data(n, st.r, st.mem[a]);
      && t.pc == (st.pc + Ahead(mode)) % 0x1_0000
      && t.r == Registers(e.a, e.x, e.y, st.r.s, e.p)
      && t.mem == if e.store.Some? then st.mem[a := e.store.value] else st.mem
  {
    OperandAddress(w, st, mode, a);
    StepIs(w, st);
    NextIs(w, st);
  }

  /** Without an address it works on the byte behind the opcode, or on A. */
  lemma StepDataHere(w: World, st: State, n: nat, mode: Mode)
    requires Instructs(w, st, Data(n), mode) && mode in {Immediate, Implied, Accumulator}
    ensures var t := Step(w, st);
      var e := w.data(n, st.r, if mode == Immediate then Cell(st, 1) else st.r.a);
      && t.pc == (st.pc + if mode == Immediate then 2 else 1) % 0x1_0000
      && t.r == Registers(e.a, e.x, e.y, st.r.s, e.p)
      && (e.store.None? ==> t.mem == st.mem)
  {
    Behind(st.pc, 0);
    StepIs(w, st);
    NextIs(w, st);
  }

  // ---- jumps, calls and returns

  /** A jump goes to its effective address and does nothing else. */
  lemma StepJump(w: World, st: State, mode: Mode, a: nat)
    requires Instructs(w, st, JMP, mode) && EffectiveAddress(st, mode, a)
    ensures a < 0x1_0000 && Step(w, st) == Tick(st).(pc := a)
  {
    OperandAddress(w, st, mode, a);
    StepIs(w, st);
  }

  /** A call goes to its operand, with the address of its own last byte on top of the stack. */
  lemma StepCall(w: World, st: State, bytes: seq<byte>, bottom: byte)
    requires Instructs(w, st, JSR, Absolute) && Represents(w, st, bytes, bottom) && |bytes| < 255
    ensures var t, last := Step(w, st), (st.pc + 2) % 0x1_0000;
      && t.pc == (Cell(st, 1) as int) + 256 * (Cell(st, 2) as int)
      && Represents(w, t, bytes + [last / 256, last % 256], bottom)
      && OnlyStack(st, t)
  {
    var a := WordAt(st.mem, st.pc + 1);
    OperandAddress(w, st, Absolute, a);
    StepIs(w, st);
    NextIs(w, st);
    LastByte(st.pc);
    var t := Tick(st).(pc := NextPc(w, st));
    SameStack(w, st, t, bytes, bottom);
    Called(w, t, a, bytes, bottom);
  }

  lemma Called(w: World, st: State, a: u16, bytes: seq<byte>, bottom: byte)
    requires Represents(w, st, bytes, bottom) && |bytes| < 255
    ensures var t, last := Execute(w, st, JSR, Address(a)), Previous(st.pc);
      && Represents(w, t, bytes + [last / 256, last % 256], bottom)
      && t == st.(pc := a, r := st.r.(s := t.r.s), mem := t.mem)
  {
    var last := Previous(st.pc);
    PushWordRepresents(w, st, bytes, bottom, last);
    SameStack(w, PushWord(w, st, last), Execute(w, st, JSR, Address(a)), bytes + [High(last), Low(last)], bottom);
  }

  lemma LastByte(pc: u16)
    ensures Previous((pc + 3) % 0x1_0000) == (pc + 2) % 0x1_0000
  {
  }

  /** A return goes behind the address on top of the stack. */
  lemma StepReturn(w: World, st: State, bytes: seq<byte>, high: byte, low: byte, bottom: byte)
    requires Instructs(w, st, RTS, Implied) && Represents(w, st, bytes + [high, low], bottom)
    ensures var t := Step(w, st);
      && t.pc == ((high as int) * 256 + (low as int) + 1) % 0x1_0000
      && Represents(w, t, bytes, bottom) && OnlyStack(st, t) && t.mem == st.mem
  {
    var t := Tick(st).(pc := NextPc(w, st));
    StepIs(w, st);
    SameStack(w, st, t, bytes + [high, low], bottom);
    Returned(w, t, OperandOf(w, st), bytes, high, low, bottom);
  }

  lemma Returned(w: World, st: State, o: Operand, bytes: seq<byte>, high: byte, low: byte, bottom: byte)
    requires Represents(w, st, bytes + [high, low], bottom)
    ensures var t := Execute(w, st, RTS, o);
      && t.pc == ((high as int) * 256 + (low as int) + 1) % 0x1_0000
      && Represents(w, t, bytes, bottom) && t == st.(pc := t.pc, r := st.r.(s := t.r.s))
  {
    var v := Join(low, high);
    HalvesOf(high, low);
    PopWordRepresents(w, st, bytes, bottom, v);
    SameStack(w, Drop(Drop(st)), Execute(w, st, RTS, o), bytes, bottom);
  }

  lemma HalvesOf(high: byte, low: byte)
    ensures High(Join(low, high)) == high && Low(Join(low, high)) == low
    ensures Next(Join(low, high)) == ((high as int) * 256 + (low as int) + 1) % 0x1_0000
  {
  }

  // ---- interrupts

  /** An interrupt goes where the vector says, with PC and P, its bit 4 cleared, on the stack, further
      interrupts masked, and the line released. */
  lemma StepInterrupt(w: World, st: State, bytes: seq<byte>, bottom: byte)
    requires st.Valid() && !st.halted && TakesIrq(Tick(st)) && Represents(w, st, bytes, bottom) && |bytes| <= 253
    ensures var t := Step(w, st);
      var p := if (st.r.p / 16) % 2 == 1 then st.r.p - 16 else st.r.p;
      && t.pc == (t.mem[0xFFFE] as int) + 256 * (t.mem[0xFFFF] as int)
      && Represents(w, t, bytes + [st.pc / 256, st.pc % 256, p], bottom)
      && t.r == st.r.(s := t.r.s, p := st.r.p + 4) && !t.irqLine
  {
    var t := Tick(st);
    var p := ClearBit(st.r.p, 0x10);
    SameStack(w, st, t, bytes, bottom);
    Entered(w, t, bytes, bottom, p);
    SameStack(w, Enter(w, t, p), Step(w, st), bytes + [High(st.pc), Low(st.pc), p], bottom);
  }

  lemma Entered(w: World, st: State, bytes: seq<byte>, bottom: byte, p: byte)
    requires Represents(w, st, bytes, bottom) && |bytes| <= 253
    ensures var t := Enter(w, st, p);
      && Represents(w, t, bytes + [High(st.pc), Low(st.pc), p], bottom)
      && t.pc == (t.mem[0xFFFE] as int) + 256 * (t.mem[0xFFFF] as int)
  {
    var word := bytes + [High(st.pc), Low(st.pc)];
    PushWordRepresents(w, st, bytes, bottom, st.pc);
    PushRepresents(w, PushWord(w, st, st.pc), word, bottom, p);
    assert word + [p] == bytes + [High(st.pc), Low(st.pc), p];
    SameStack(w, Push(w, PushWord(w, st, st.pc), p), Enter(w, st, p), word + [p], bottom);
  }

  /** BRK does the same with bit 4 of P set, and stops the processor. */
  lemma StepBreak(w: World, st: State, bytes: seq<byte>, bottom: byte)
    requires Instructs(w, st, BRK, Implied) && Represents(w, st, bytes, bottom) && |bytes| <= 253
    ensures var t, next := Step(w, st), (st.pc + 1) % 0x1_0000;
      var p := if (st.r.p / 16) % 2 == 1 then st.r.p else st.r.p + 16;
      && t.pc == (t.mem[0xFFFE] as int) + 256 * (t.mem[0xFFFF] as int)
      && Represents(w, t, bytes + [next / 256, next % 256, p], bottom)
      && t.r.p == (if (st.r.p / 4) % 2 == 1 then st.r.p else st.r.p + 4) && t.halted
  {
    var t := Tick(st).(pc := NextPc(w, st));
    var p := SetBit(st.r.p, 0x10);
    StepIs(w, st);
    NextIs(w, st);
    SameStack(w, st, t, bytes, bottom);
    Broken(w, t, bytes, bottom, p);
  }

  lemma Broken(w: World, st: State, bytes: seq<byte>, bottom: byte, p: byte)
    requires Represents(w, st, bytes, bottom) && |bytes| <= 253 && p == SetBit(st.r.p, 0x10)
    ensures p == if (st.r.p / 16) % 2 == 1 then st.r.p else st.r.p + 16
    ensures var t := Execute(w, st, BRK, NoOperand);
      && t.pc == (t.mem[0xFFFE] as int) + 256 * (t.mem[0xFFFF] as int)
      && Represents(w, t, bytes + [st.pc / 256, st.pc % 256, p], bottom)
      && t.r.p == SetBit(st.r.p, 0x04) && t.halted
  {
    Entered(w, st, bytes, bottom, p);
    SameStack(w, Enter(w, st, p), Execute(w, st, BRK, NoOperand), bytes + [High(st.pc), Low(st.pc), p], bottom);
  }

  /** RTI takes P and PC from the stack. */
  lemma StepReturnFromInterrupt(w: World, st: State, bytes: seq<byte>, high: byte, low: byte, p: byte, bottom: byte)
    requires Instructs(w, st, RTI, Implied) && Represents(w, st, bytes + [high, low] + [p], bottom)
    ensures var t := Step(w, st);
      && t.pc == (high as int) * 256 + (low as int) && t.r.p == p
      && Represents(w, t, bytes, bottom) && t.mem == st.mem
  {
    var t := Tick(st).(pc := NextPc(w, st));
    StepIs(w, st);
    SameStack(w, st, t, bytes + [high, low] + [p], bottom);
    ReturnedFromInterrupt(w, t, OperandOf(w, st), bytes, high, low, p, bottom);
  }

  lemma ReturnedFromInterrupt(w: World, st: State, o: Operand, bytes: seq<byte>, high: byte, low: byte, p: byte,
                              bottom: byte)
    requires Represents(w, st, bytes + [high, low] + [p], bottom)
    ensures var t := Execute(w, st, RTI, o);
      && t.pc == (high as int) * 256 + (low as int) && t.r.p == p
      && Represents(w, t, bytes, bottom) && t.mem == st.mem
  {
    var all := bytes + [high, low] + [p];
    HalvesOf(high, low);
    PopRepresents(w, st, all, bottom);
    assert all[..|all| - 1] == bytes + [high, low];
    PopWordRepresents(w, Drop(st), bytes, bottom, Join(low, high));
    SameStack(w, Drop(Drop(Drop(st))), Execute(w, st, RTI, o), bytes, bottom);
  }

  // ---- registers and stack

  /** PHA pushes A, PHP pushes P with bit 4 set. */
  lemma StepPush(w: World, st: State, op: Opcode, bytes: seq<byte>, bottom: byte)
    requires op in {PHA, PHP} && Instructs(w, st, op, Implied) && Represents(w, st, bytes, bottom) && |bytes| < 256
    ensures var t, flags := Step(w, st), if (st.r.p / 16) % 2 == 1 then st.r.p else st.r.p + 16;
      && Represents(w, t, bytes + [if op == PHA then st.r.a else flags], bottom)
      && t.pc == (st.pc + 1) % 0x1_0000 && OnlyStack(st, t)
  {
    var t := Tick(st).(pc := NextPc(w, st));
    StepIs(w, st);
    NextIs(w, st);
    SameStack(w, st, t, bytes, bottom);
    PushRepresents(w, t, bytes, bottom, if op == PHA then st.r.a else SetBit(st.r.p, 0x10));
  }

  /** PLA loads A from the stack, with Z and N as the value says and all other flags as they were. */
  lemma StepPull(w: World, st: State, bytes: seq<byte>, v: byte, bottom: byte)
    requires Instructs(w, st, PLA, Implied) && Represents(w, st, bytes + [v], bottom)
    ensures var t := Step(w, st);
      && t.r.a == v && t.r.x == st.r.x && t.r.y == st.r.y
      && (Bit(t.r.p, 0x80) <==> v >= 128) && (Bit(t.r.p, 0x02) <==> v == 0)
      && t.r.p % 2 == st.r.p % 2 && (t.r.p / 4) % 32 == (st.r.p / 4) % 32
      && Represents(w, t, bytes, bottom) && t.pc == (st.pc + 1) % 0x1_0000 && t.mem == st.mem
  {
    var t := Tick(st).(pc := NextPc(w, st));
    StepIs(w, st);
    NextIs(w, st);
    SameStack(w, st, t, bytes + [v], bottom);
    PopRepresents(w, t, bytes + [v], bottom);
    assert (bytes + [v])[..|bytes|] == bytes;
    SameStack(w, Drop(t), Step(w, st), bytes, bottom);
    FlagsSet(st.r.p, v);
  }

  lemma FlagsSet(p: byte, v: byte)
    ensures var q := PutBit(PutBit(p, 0x80, v >= 128), 0x02, v == 0);
      && (Bit(q, 0x80) <==> v >= 128) && (Bit(q, 0x02) <==> v == 0)
      && q % 2 == p % 2 && (q / 4) % 32 == (p / 4) % 32
  {
    var r := PutBit(p, 0x80, v >= 128);
    TopSet(p, v >= 128, r);
    SecondSet(r, v == 0, PutBit(r, 0x02, v == 0));
  }

  lemma TopSet(p: byte, on: bool, r: byte)
    requires r == PutBit(p, 0x80, on)
    ensures (r >= 128 <==> on) && r % 128 == p % 128
    ensures r % 2 == p % 2 && (r / 4) % 32 == (p / 4) % 32
  {
    assert p / 128 == if p >= 128 then 1 else 0;
    assert r == p || r == p + 128 || r == p - 128;
  }

  lemma SecondSet(r: byte, on: bool, q: byte)
    requires q == PutBit(r, 0x02, on)
    ensures Bit(q, 0x02) == on && q % 2 == r % 2 && q / 4 == r / 4 && (Bit(q, 0x80) <==> r >= 128)
  {
    assert r == 4 * (r / 4) + 2 * (r / 2 % 2) + r % 2;
    assert q == 4 * (r / 4) + (if on then 2 else 0) + r % 2;
    assert q / 128 == r / 128;
  }

  /** PLP loads P from the stack. */
  lemma StepLoadFlags(w: World, st: State, bytes: seq<byte>, v: byte, bottom: byte)
    requires Instructs(w, st, PLP, Implied) && Represents(w, st, bytes + [v], bottom)
    ensures var t := Step(w, st);
      t.r == st.r.(s := t.r.s, p := v) && Represents(w, t, bytes, bottom) && t.mem == st.mem
  {
    var t := Tick(st).(pc := NextPc(w, st));
    StepIs(w, st);
    SameStack(w, st, t, bytes + [v], bottom);
    PopRepresents(w, t, bytes + [v], bottom);
    assert (bytes + [v])[..|bytes|] == bytes;
    SameStack(w, Drop(t), Step(w, st), bytes, bottom);
  }

  /** TXS loads S from X. */
  lemma StepTxs(w: World, st: State)
    requires Instructs(w, st, TXS, Implied)
    ensures Step(w, st) == Tick(st).(pc := (st.pc + 1) % 0x1_0000, r := st.r.(s := st.r.x))
  {
    StepIs(w, st);
    NextIs(w, st);
  }

  // ---- the timer

  function Ticks(st: State, n: nat): State { if n == 0 then st else Tick(Ticks(st, n - 1)) }

  /** A timer that starts at 0 pulls the line at the step whose number is the interval, and not before. */
  lemma {:induction false} TimerFires(st: State, n: nat)
    requires st.irqInterval > 0 && st.irqCounter == 0 && !st.irqLine && n <= st.irqInterval
    ensures var t := Ticks(st, n);
      && t.irqInterval == st.irqInterval && (t.irqLine <==> n == st.irqInterval)
      && t.irqCounter == if n == st.irqInterval then 0 else n
  {
    if n > 0 { TimerFires(st, n - 1); }
  }
}
