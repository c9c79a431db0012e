/** tunslip6: SLIP framing (RFC 1055) on a serial line, with optional XON/XOFF stuffing. */
module Slip {
  import opened Words

  const END: byte := 0xC0
  const ESC: byte := 0xDB
  const ESC_END: byte := 0xDC
  const ESC_ESC: byte := 0xDD
  const ESC_XON: byte := 0xDE
  const ESC_XOFF: byte := 0xDF
  const XON: byte := 17
  const XOFF: byte := 19
  const BUFFER: nat := 2000

  // ---- the encoding

  function Stuff(c: byte, flow: bool): (r: seq<byte>)
    ensures 1 <= |r| <= 2 && END !in r
    ensures flow ==> XON !in r && XOFF !in r
  {
    if c == END then [ESC, ESC_END]
    else if c == ESC then [ESC, ESC_ESC]
    else if flow && c == XON then [ESC, ESC_XON]
    else if flow && c == XOFF then [ESC, ESC_XOFF]
    else [c]
  }

  function StuffAll(p: seq<byte>, flow: bool): (r: seq<byte>)
    ensures |p| <= |r| <= 2 * |p| && END !in r
    ensures flow ==> XON !in r && XOFF !in r
  {
    if p == [] then [] else Stuff(p[0], flow) + StuffAll(p[1..], flow)
  }

  lemma {:induction false} StuffAllAppend(p: seq<byte>, q: seq<byte>, flow: bool)
    ensures StuffAll(p + q, flow) == StuffAll(p, flow) + StuffAll(q, flow)
  {
    if p == [] {
      assert p + q == q;
    } else {
      assert (p + q)[0] == p[0] && (p + q)[1..] == p[1..] + q;
      StuffAllAppend(p[1..], q, flow);
    }
  }

  function Encode(p: seq<byte>, flow: bool): seq<byte> { StuffAll(p, flow) + [END] }

  function EncodeAll(ps: seq<seq<byte>>, flow: bool): seq<byte> {
    if ps == [] then [] else EncodeAll(ps[..|ps| - 1], flow) + Encode(ps[|ps| - 1], flow)
  }

  // ---- the decoding

  function Unstuff(c: byte): byte {
    if c == ESC_END then END
    else if c == ESC_ESC then ESC
    else if c == ESC_XON then XON
    else if c == ESC_XOFF then XOFF
    else c
  }

  /** One more byte in the buffer; a full buffer is dropped before the next byte is read. */
  function Stored(acc: seq<byte>, c: byte): (r: seq<byte>)
    requires |acc| < BUFFER
    ensures |r| < BUFFER
  {
    if |acc| + 1 == BUFFER then [] else acc + [c]
  }

  /** The buffer, the unread input (nothing or a lone ESC) and the packets found. */
  datatype Decoded = Decoded(acc: seq<byte>, rest: seq<byte>, packets: seq<seq<byte>>)

  function Found(p: seq<byte>, d: Decoded): Decoded { d.(packets := [p] + d.packets) }

  function Decode(acc: seq<byte>, input: seq<byte>): (d: Decoded)
    requires |acc| < BUFFER
    ensures |d.acc| < BUFFER && d.rest in {[], [ESC]}
    decreases |input|
  {
    if input == [] then Decoded(acc, [], [])
    else if input[0] == END then
      if acc == [] then Decode([], input[1..]) else Found(acc, Decode([], input[1..]))
    else if input[0] == ESC then
      if |input| == 1 then Decoded(acc, [ESC], []) else Decode(Stored(acc, Unstuff(input[1])), input[2..])
    else Decode(Stored(acc, input[0]), input[1..])
  }

  /** Decoding goes on where it stopped, with the unread byte put back in front. */
  function Resume(d: Decoded, input: seq<byte>): Decoded
    requires |d.acc| < BUFFER
  {
    var e := Decode(d.acc, d.rest + input);
    e.(packets := d.packets + e.packets)
  }

  /** How the input is cut into chunks does not matter, even between an ESC and its companion. */
  lemma {:induction false} ChunkingIsInvisible(acc: seq<byte>, a: seq<byte>, b: seq<byte>)
    requires |acc| < BUFFER
    ensures Decode(acc, a + b) == Resume(Decode(acc, a), b)
    decreases |a|
  {
    var d := Decode(acc, a);
    if a == [] {
      assert a + b == b && d.rest + b == b;
    } else if a == [ESC] {
      assert d.rest + b == a + b;
    } else {
      var n := if a[0] == ESC then 2 else 1;
      assert (a + b)[n..] == a[n..] + b && (a + b)[0] == a[0];
      if a[0] == ESC { assert (a + b)[1] == a[1]; }
      if a[0] == END {
        ChunkingIsInvisible([], a[1..], b);
        if acc != [] { AddFirst(acc, Decode([], a[1..]), b); }
      } else {
        ChunkingIsInvisible(Stored(acc, if a[0] == ESC then Unstuff(a[1]) else a[0]), a[n..], b);
      }
    }
  }

  lemma AddFirst(p: seq<byte>, d: Decoded, b: seq<byte>)
    requires |d.acc| < BUFFER
    ensures Resume(Found(p, d), b) == Found(p, Resume(d, b))
  {
    var e := Decode(d.acc, d.rest + b);
    assert [p] + d.packets + e.packets == [p] + (d.packets + e.packets);
  }

  lemma MoreOfLine(line: seq<byte>, taken: nat, more: nat, bytes: seq<byte>)
    requires taken + more <= |line| && bytes == line[taken..taken + more]
    ensures Decode([], line[..taken + more]) == Resume(Decode([], line[..taken]), bytes)
  {
    ChunkingIsInvisible([], line[..taken], bytes);
    assert line[..taken + more] == line[..taken] + bytes;
  }

  // ---- round trip

  /** The buffer after another packet's bytes: only what came after the last drop is left. */
  function Kept(acc: seq<byte>, p: seq<byte>): (r: seq<byte>)
    requires |acc| < BUFFER
    ensures |r| < BUFFER
    decreases |p|
  {
    if p == [] then acc else Kept(Stored(acc, p[0]), p[1..])
  }

  /** The bytes of a stretch of n that are dropped: whole buffers. */
  function Dropped(n: nat): (r: nat)
    ensures r <= n < r + BUFFER
  {
    if n < BUFFER then 0 else BUFFER + Dropped(n - BUFFER)
  }

  lemma {:induction false} KeptIs(acc: seq<byte>, p: seq<byte>)
    requires |acc| < BUFFER
    ensures Kept(acc, p) == (acc + p)[Dropped(|acc| + |p|)..]
    decreases |p|
  {
    if p == [] {
      assert (acc + p)[0..] == acc;
    } else {
      var rest := p[1..];
      KeptIs(Stored(acc, p[0]), rest);
      if |acc| + 1 == BUFFER {
        DropFront(acc, p, Dropped(|rest|));
      } else {
        MoveOne(acc, p);
      }
    }
  }

  lemma MoveOne(acc: seq<byte>, p: seq<byte>)
    requires p != []
    ensures acc + [p[0]] + p[1..] == acc + p
  {
  }

  lemma DropFront(acc: seq<byte>, p: seq<byte>, k: nat)
    requires p != [] && k <= |p| - 1
    ensures (acc + p)[|acc| + 1 + k..] == p[1..][k..] == ([] + p[1..])[k..]
  {
  }

  lemma Associative(a: seq<byte>, b: seq<byte>, c: seq<byte>)
    ensures a + b + c == a + (b + c)
  {
  }

  lemma DecodeByte(acc: seq<byte>, c: byte, flow: bool, rest: seq<byte>)
    requires |acc| < BUFFER
    ensures Decode(acc, Stuff(c, flow) + rest) == Decode(Stored(acc, c), rest)
  {
    var s := Stuff(c, flow);
    assert (s + rest)[|s|..] == rest;
  }

  /** The stuffed bytes of a packet go into the buffer unchanged. */
  lemma {:induction false} DecodeStuffed(acc: seq<byte>, p: seq<byte>, flow: bool, more: seq<byte>)
    requires |acc| < BUFFER
    ensures Decode(acc, StuffAll(p, flow) + more) == Decode(Kept(acc, p), more)
    decreases |p|
  {
    if p == [] {
      assert StuffAll(p, flow) + more == more;
    } else {
      var first, others := Stuff(p[0], flow), StuffAll(p[1..], flow);
      Associative(first, others, more);
      DecodeByte(acc, p[0], flow, others + more);
      DecodeStuffed(Stored(acc, p[0]), p[1..], flow, more);
    }
  }

  /** What arrives of one packet, of any length: all of it up to 1999 bytes, otherwise what follows
      the last full buffer. An empty packet and an empty remainder are not delivered. */
  lemma DecodeEncoded(p: seq<byte>, flow: bool, more: seq<byte>)
    ensures var left := Left(p);
      Decode([], Encode(p, flow) + more) == if left == [] then Decode([], more) else Found(left, Decode([], more))
  {
    Associative(StuffAll(p, flow), [END], more);
    DecodeStuffed([], p, flow, [END] + more);
    DecodeDelimiter(Kept([], p), more);
    KeptAll(p);
  }

  /** What is left of a packet: all that follows its last full buffer. */
  function Left(p: seq<byte>): seq<byte> { p[Dropped(|p|)..] }

  lemma KeptAll(p: seq<byte>)
    ensures Kept([], p) == Left(p)
  {
    KeptIs([], p);
    assert [] + p == p;
  }

  lemma DecodeDelimiter(acc: seq<byte>, more: seq<byte>)
    requires |acc| < BUFFER
    ensures Decode(acc, [END] + more) == if acc == [] then Decode([], more) else Found(acc, Decode([], more))
  {
    var input := [END] + more;
    assert input[1..] == more;
  }

  /** A packet is delivered as it was sent exactly if it is neither empty nor longer than 1999 bytes. */
  lemma RoundTripExactly(p: seq<byte>, flow: bool)
    ensures Decode([], Encode(p, flow)) == Decoded([], [], [p]) <==> 1 <= |p| < BUFFER
  {
    DecodeEncoded(p, flow, []);
    assert Encode(p, flow) + [] == Encode(p, flow);
    assert Decode([], []) == Decoded([], [], []);
    var left := Left(p);
    if 1 <= |p| < BUFFER {
      assert left == p;
    } else if left != [] {
      assert |left| < |p|;
      assert Found(left, Decode([], [])).packets[0] != p;
    }
  }

  /** What arrives of a sequence of packets: what is left of each, unless that is empty. */
  function Arrivals(ps: seq<seq<byte>>): seq<seq<byte>> {
    if ps == [] then []
    else
      var before, left := Arrivals(ps[..|ps| - 1]), Left(ps[|ps| - 1]);
      if left == [] then before else before + [left]
  }

  lemma OneMore(coded: seq<byte>, sent: seq<seq<byte>>, p: seq<byte>, flow: bool)
    requires Decode([], coded) == Decoded([], [], sent)
    ensures Decode([], coded + Encode(p, flow)) == Decoded([], [], if Left(p) == [] then sent else sent + [Left(p)])
  {
    DecodeEncoded(p, flow, []);
    assert Encode(p, flow) + [] == Encode(p, flow);
    ChunkingIsInvisible([], coded, Encode(p, flow));
    assert [] + Encode(p, flow) == Encode(p, flow);
  }

  /** For packets of any length. */
  lemma {:induction false} RoundTrip(ps: seq<seq<byte>>, flow: bool)
    ensures Decode([], EncodeAll(ps, flow)) == Decoded([], [], Arrivals(ps))
  {
    if ps != [] {
      var init, p := ps[..|ps| - 1], ps[|ps| - 1];
      RoundTrip(init, flow);
      OneMore(EncodeAll(init, flow), Arrivals(init), p, flow);
    }
  }

  function NonEmpty(ps: seq<seq<byte>>): seq<seq<byte>> {
    if ps == [] then []
    else
      var before, p := NonEmpty(ps[..|ps| - 1]), ps[|ps| - 1];
      if p == [] then before else before + [p]
  }

  predicate Short(ps: seq<seq<byte>>) { forall p <- ps :: |p| < BUFFER }

  /** Packets up to 1999 bytes arrive as they are, except for empty ones. */
  lemma {:induction false} ShortArrive(ps: seq<seq<byte>>)
    requires Short(ps)
    ensures Arrivals(ps) == NonEmpty(ps)
  {
    if ps != [] {
      var init, p := ps[..|ps| - 1], ps[|ps| - 1];
      assert p in ps && Left(p) == p;
      forall q <- init ensures |q| < BUFFER { assert q in ps; }
      ShortArrive(init);
    }
  }

  /** Whatever part of the line's output has been read, the packets found are a prefix of those that
      arrive in the end. */
  lemma DeliveredPrefix(ps: seq<seq<byte>>, flow: bool, read: seq<byte>, unread: seq<byte>)
    requires read + unread == EncodeAll(ps, flow)
    ensures Decode([], read).packets <= Arrivals(ps)
    ensures unread == [] ==> Decode([], read) == Decoded([], [], Arrivals(ps))
  {
    RoundTrip(ps, flow);
    ChunkingIsInvisible([], read, unread);
    if unread == [] { assert read + unread == read; }
  }

  // ---- the output queue

  /** What a write to the serial line may answer. */
  datatype WriteResult = Wrote(n: nat) | Again | Broken

  class Sender {
    const flow: bool
    const slipBuf: array<byte>
    var slipBegin: nat
    var slipEnd: nat
    /** Everything the line has taken so far. */
    var line: seq<byte>

    constructor (flow: bool)
      ensures Valid() && fresh(slipBuf) && this.flow == flow && line == [] && Queued() == [] && slipEnd == 0
    {
      this.flow := flow;
      slipBuf := new byte[BUFFER];
      slipBegin, slipEnd, line := 0, 0, [];
    }

    ghost predicate Valid()
      reads this
    {
      slipBuf.Length == BUFFER && slipBegin <= slipEnd <= BUFFER && (slipBegin == slipEnd ==> slipEnd == 0)
    }

    ghost function Queued(): seq<byte>
      reads this, slipBuf
      requires Valid()
    {
      slipBuf[slipBegin..slipEnd]
    }

    /** slip_send; the answer false is the program's exit on overflow. */
    method SlipSend(c: byte) returns (ok: bool)
      requires Valid()
      modifies `slipEnd, slipBuf
      ensures Valid() && ok == (old(slipEnd) < BUFFER)
      ensures slipEnd == if ok then old(slipEnd) + 1 else old(slipEnd)
      ensures Queued() == if ok then old(Queued()) + [c] else old(Queued())
    {
      if slipEnd >= BUFFER {
        return false;
      }
      slipBuf[slipEnd] := c;
      slipEnd := slipEnd + 1;
      ok := true;
    }

    /** slip_send_char, and one round of the loop in write_to_serial. */
    method SlipSendChar(c: byte) returns (ok: bool)
      requires Valid()
      modifies `slipEnd, slipBuf
      ensures Valid() && ok == (old(slipEnd) + |Stuff(c, flow)| <= BUFFER)
      ensures ok ==> slipEnd == old(slipEnd) + |Stuff(c, flow)| && Queued() == old(Queued()) + Stuff(c, flow)
    {
      if c == END {
        ok := SlipPair(ESC_END);
      } else if c == ESC {
        ok := SlipPair(ESC_ESC);
      } else if c == XON && flow {
        ok := SlipPair(ESC_XON);
      } else if c == XOFF && flow {
        ok := SlipPair(ESC_XOFF);
      } else {
        ok := SlipSend(c);
      }
    }

    method SlipPair(c: byte) returns (ok: bool)
      requires Valid()
      modifies `slipEnd, slipBuf
      ensures Valid() && ok == (old(slipEnd) + 2 <= BUFFER)
      ensures ok ==> slipEnd == old(slipEnd) + 2 && Queued() == old(Queued()) + [ESC, c]
    {
      ok := SlipSend(ESC);
      if ok {
        ok := SlipSend(c);
      }
    }

    /** write_to_serial: the encoded packet joins the queue, unless the buffer is too short for it. */
    method WriteToSerial(p: seq<byte>) returns (ok: bool)
      requires Valid()
      modifies `slipEnd, slipBuf
      ensures Valid() && ok == (old(slipEnd) + |Encode(p, flow)| <= BUFFER)
      ensures ok ==> slipEnd == old(slipEnd) + |Encode(p, flow)| && Queued() == old(Queued()) + Encode(p, flow)
    {
      ok := SendBytes(p);
      if ok {
        ok := SlipSend(END);
      }
      Associative(old(Queued()), StuffAll(p, flow), [END]);
    }

    /** The loop of write_to_serial. */
    method SendBytes(p: seq<byte>) returns (ok: bool)
      requires Valid()
      modifies `slipEnd, slipBuf
      ensures Valid() && ok == (old(slipEnd) + |StuffAll(p, flow)| <= BUFFER)
      ensures ok ==> slipEnd == old(slipEnd) + |StuffAll(p, flow)| && Queued() == old(Queued()) + StuffAll(p, flow)
    {
      var i := 0;
      ghost var before, start, done: seq<byte> := Queued(), slipEnd, [];
      while i < |p|
        invariant i <= |p| && Valid()
        invariant done == StuffAll(p[..i], flow) && slipEnd == start + |done|
        invariant Queued() == before + done
      {
        StuffNext(p, i, flow);
        Associative(before, done, Stuff(p[i], flow));
        ok := SlipSendChar(p[i]);
        if !ok {
          return;
        }
        done := done + Stuff(p[i], flow);
        i := i + 1;
      }
      assert p[..i] == p;
      ok := true;
    }

    /** slip_flushbuf: what the line does not take stays queued. The answer false is the exit on a
        failed write. */
    method SlipFlushbuf(answer: WriteResult) returns (ok: bool)
      requires Valid() && (answer.Wrote? ==> answer.n <= |Queued()|)
      modifies `slipBegin, `slipEnd, `line
      ensures Valid() && old(line) <= line && line + Queued() == old(line + Queued())
      ensures ok <==> old(slipEnd) == 0 || answer != Broken
      ensures |line| == |old(line)| + if answer.Wrote? && old(slipEnd) != 0 then answer.n else 0
    {
      if slipEnd == 0 {
        return true;
      }
      if answer.Wrote? {
        line := line + slipBuf[slipBegin..slipBegin + answer.n];
        slipBegin := slipBegin + answer.n;
        if slipBegin == slipEnd {
          slipBegin, slipEnd := 0, 0;
        }
      }
      ok := answer != Broken;
    }
  }

  lemma StuffNext(p: seq<byte>, i: nat, flow: bool)
    requires i < |p|
    ensures StuffAll(p[..i + 1], flow) == StuffAll(p[..i], flow) + Stuff(p[i], flow)
    ensures |StuffAll(p[..i + 1], flow)| <= |StuffAll(p, flow)|
  {
    assert p[..i + 1] == p[..i] + [p[i]];
    StuffAllAppend(p[..i], [p[i]], flow);
    assert StuffAll([p[i]], flow) == Stuff(p[i], flow) + StuffAll([], flow);
    assert p == p[..i + 1] + p[i + 1..];
    StuffAllAppend(p[..i + 1], p[i + 1..], flow);
  }

  // ---- the input side

  predicate Printable(c: byte) {
    c in {0, 13, 10, 9} || 32 <= c <= 126
  }

  /** Apart from its first byte, the packet is text. */
  predicate Sensible(p: seq<byte>) { forall i :: 1 <= i < |p| ==> Printable(p[i]) }

  /** A packet for the TUN device: neither a command, nor a debug line, nor text. */
  predicate IsData(p: seq<byte>)
    requires p != []
  {
    p[0] !in {33, 63, 13} && !Sensible(p)
  }

  function DataOnly(ps: seq<seq<byte>>): seq<seq<byte>> {
    if ps == [] then []
    else
      var p := ps[|ps| - 1];
      DataOnly(ps[..|ps| - 1]) + if p != [] && IsData(p) then [p] else []
  }

  lemma DataOnlyMore(ps: seq<seq<byte>>, p: seq<byte>)
    requires p != []
    ensures DataOnly(ps + [p]) == if IsData(p) then DataOnly(ps) + [p] else DataOnly(ps)
  {
    assert (ps + [p])[..|ps|] == ps;
  }

  /** Exactly these packets go to the TUN device: not those that begin with "!", "?" or a carriage
      return, nor those in which nothing behind the first byte is outside printable text. */
  lemma {:induction false} ReachesTun(ps: seq<seq<byte>>, p: seq<byte>)
    ensures p in DataOnly(ps) <==>
      && p in ps && p != [] && p[0] as char !in {'!', '?', '\r'}
      && exists i :: 1 <= i < |p| && p[i] as char !in {'\0', '\r', '\n', '\t'} && !(' ' <= p[i] as char <= '~')
  {
    if ps != [] {
      var init, q := ps[..|ps| - 1], ps[|ps| - 1];
      ReachesTun(init, p);
      assert p in ps <==> p in init || p == q;
      if p == q && p != [] { DataIs(p); }
    }
  }

  lemma DataIs(p: seq<byte>)
    requires p != []
    ensures IsData(p) <==>
      && p[0] as char !in {'!', '?', '\r'}
      && exists i :: 1 <= i < |p| && p[i] as char !in {'\0', '\r', '\n', '\t'} && !(' ' <= p[i] as char <= '~')
  {
    forall i | 1 <= i < |p|
      ensures Printable(p[i]) <==> p[i] as char in {'\0', '\r', '\n', '\t'} || ' ' <= p[i] as char <= '~'
    {
    }
  }

  function After(found: seq<seq<byte>>, d: Decoded): Decoded { d.(packets := found + d.packets) }

  class Receiver {
    const inbuf: array<byte>
    var inbufptr: nat
    /** Bytes that have arrived and were not read yet. */
    var stream: seq<byte>
    /** Packets written to the TUN device. */
    var tun: seq<seq<byte>>
    /** All packets found so far. */
    ghost var found: seq<seq<byte>>

    constructor ()
      ensures Valid() && fresh(inbuf) && Acc() == [] && stream == [] && tun == [] && found == []
    {
      inbuf := new byte[BUFFER];
      inbufptr, stream, tun, found := 0, [], [], [];
    }

    ghost predicate Valid()
      reads this
    {
      inbuf.Length == BUFFER && inbufptr < BUFFER && tun == DataOnly(found)
    }

    ghost function Acc(): seq<byte>
      reads this, inbuf
      requires inbufptr <= inbuf.Length
    {
      inbuf[..inbufptr]
    }

    /** Buffer, unread input and packets found. */
    ghost function State(): Decoded
      reads this, inbuf
      requires inbufptr <= inbuf.Length
    {
      Decoded(Acc(), stream, found)
    }

    method IsSensibleString() returns (r: bool)
      requires inbufptr <= inbuf.Length
      ensures r == Sensible(Acc())
    {
      var i := 1;
      while i < inbufptr
        invariant 1 <= i
        invariant forall j :: 1 <= j < i && j < inbufptr ==> Printable(inbuf[j])
      {
        if !Printable(inbuf[i]) {
          assert !Printable(Acc()[i]);
          return false;
        }
        i := i + 1;
      }
      r := true;
    }

    /** The kind of a packet that is complete. */
    method ForTun() returns (r: bool)
      requires 0 < inbufptr <= inbuf.Length
      ensures r == IsData(Acc())
    {
      if inbuf[0] == 33 || inbuf[0] == 63 || inbuf[0] == 13 {
        return false;
      }
      var text := IsSensibleString();
      r := !text;
    }

    /** What serial_to_tun does at the end of a packet. */
    method Deliver()
      requires Valid()
      modifies `inbufptr, `tun, `found
      ensures Valid() && inbufptr == 0
      ensures found == if old(Acc()) == [] then old(found) else old(found) + [old(Acc())]
    {
      if inbufptr > 0 {
        var data := ForTun();
        var p := inbuf[..inbufptr];
        DataOnlyMore(found, p);
        if data {
          tun := tun + [p];
        }
        found := found + [p];
        inbufptr := 0;
      }
    }

    /** Storing a byte, with the drop of a full buffer that happens before the next one is read. */
    method Store(c: byte)
      requires Valid()
      modifies `inbufptr, inbuf
      ensures Valid() && Acc() == Stored(old(Acc()), c)
    {
      inbuf[inbufptr] := c;
      inbufptr := inbufptr + 1;
      if inbufptr >= BUFFER {
        inbufptr := 0;
      }
    }

    method NextByte() returns (c: byte)
      requires stream != []
      modifies `stream
      ensures [c] + stream == old(stream)
    {
      c := stream[0];
      stream := stream[1..];
    }

    /** More bytes of the line arrive. */
    method Arrive(line: seq<byte>, taken: nat, more: nat)
      requires Valid() && taken + more <= |line| && State() == Decode([], line[..taken])
      modifies this, inbuf
      ensures Valid() && State() == Decode([], line[..taken + more])
    {
      var bytes := line[taken..taken + more];
      MoreOfLine(line, taken, more, bytes);
      stream := stream + bytes;
      SerialToTun();
    }

    /** serial_to_tun: all that has arrived is decoded; a lone ESC is put back. */
    method SerialToTun()
      requires Valid()
      modifies this, inbuf
      ensures Valid()
      ensures State() == After(old(found), Decode(old(Acc()), old(stream)))
    {
      ghost var result := After(found, Decode(Acc(), stream));
      while stream != []
        invariant Valid() && result == After(found, Decode(Acc(), stream))
        decreases |stream|
      {
        ghost var input, acc, before := stream, Acc(), found;
        var c := NextByte();
        assert stream == input[1..];
        if c == END {
          Deliver();
          DecodeEnd(before, acc, input);
        } else if c == ESC {
          if stream == [] {
            stream := [ESC];
            return;
          }
          c := NextByte();
          assert stream == input[2..];
          Store(Unstuff(c));
        } else {
          Store(c);
        }
      }
    }
  }

  lemma DecodeEnd(found: seq<seq<byte>>, acc: seq<byte>, input: seq<byte>)
    requires |acc| < BUFFER && input != [] && input[0] == END
    ensures After(found, Decode(acc, input)) ==
            After(if acc == [] then found else found + [acc], Decode([], input[1..]))
  {
    var d := Decode([], input[1..]);
    assert found + [acc] + d.packets == found + ([acc] + d.packets);
  }

  // ---- whole runs

  /** A packet is sent, the queue is offered to the line, or some of the line's output arrives. */
  datatype Event = Send(p: seq<byte>) | Flush(answer: WriteResult) | Arrive(n: nat)

  lemma {:induction false} DataOnlyPrefix(ps: seq<seq<byte>>, qs: seq<seq<byte>>)
    requires ps <= qs
    ensures DataOnly(ps) <= DataOnly(qs)
    decreases |qs|
  {
    if ps != qs {
      var init := qs[..|qs| - 1];
      assert ps <= init;
      DataOnlyPrefix(ps, init);
    }
  }

  lemma {:induction false} DataOfNonEmpty(ps: seq<seq<byte>>)
    ensures DataOnly(NonEmpty(ps)) == DataOnly(ps)
  {
    if ps != [] {
      var init, p := ps[..|ps| - 1], ps[|ps| - 1];
      DataOfNonEmpty(init);
      if p != [] {
        DataOnlyMore(NonEmpty(init), p);
      }
    }
  }

  lemma EncodeAllMore(ps: seq<seq<byte>>, p: seq<byte>, flow: bool)
    ensures EncodeAll(ps + [p], flow) == EncodeAll(ps, flow) + Encode(p, flow)
  {
    assert (ps + [p])[..|ps|] == ps;
  }

  /** Both ends of the line, and how much of the sender's output the receiver has had. */
  class Link {
    const flow: bool
    const sender: Sender
    const receiver: Receiver
    var taken: nat
    var accepted: seq<seq<byte>>

    constructor (flow: bool)
      ensures Valid() && fresh(sender) && fresh(receiver) && fresh(sender.slipBuf) && fresh(receiver.inbuf)
      ensures this.flow == flow && accepted == []
    {
      this.flow := flow;
      sender := new Sender(flow);
      receiver := new Receiver();
      taken, accepted := 0, [];
    }

    /** Every packet is on the line or in the queue. */
    ghost predicate Sending()
      reads `accepted, sender, sender.slipBuf
    {
      && sender.Valid() && sender.flow == flow && Short(accepted)
      && sender.line + sender.Queued() == EncodeAll(accepted, flow)
    }

    /** The receiver has decoded what it has had. */
    ghost predicate Receiving()
      reads `taken, sender`line, receiver, receiver.inbuf
    {
      receiver.Valid() && taken <= |sender.line| && receiver.State() == Decode([], sender.line[..taken])
    }

    ghost predicate Valid()
      reads this, sender, sender.slipBuf, receiver, receiver.inbuf
    {
      Sending() && Receiving() && sender.slipBuf != receiver.inbuf
    }

    /** Nothing is queued or under way. */
    ghost predicate Quiet()
      reads this, sender, sender.slipBuf
      requires sender.Valid()
    {
      sender.Queued() == [] && taken == |sender.line|
    }

    /** In every reachable state the packets found are a prefix of the packets accepted, except for empty
        ones, and the packets passed on are the data among them; when the line is quiet, none is missing. */
    lemma Safe()
      requires Valid()
      ensures receiver.found <= NonEmpty(accepted) && receiver.tun <= DataOnly(accepted)
      ensures Quiet() ==> receiver.found == NonEmpty(accepted) && receiver.tun == DataOnly(accepted)
    {
      var read, unread := sender.line[..taken], sender.line[taken..] + sender.Queued();
      assert read + unread == sender.line + sender.Queued();
      DeliveredPrefix(accepted, flow, read, unread);
      ShortArrive(accepted);
      DataOnlyPrefix(receiver.found, NonEmpty(accepted));
      DataOfNonEmpty(accepted);
    }

    /** The answer false is the program's exit. */
    method SendPacket(p: seq<byte>) returns (ok: bool)
      requires Valid()
      modifies this, sender, sender.slipBuf
      ensures ok ==> Valid() && accepted == old(accepted) + [p]
      ensures ok == (old(sender.slipEnd) + |Encode(p, flow)| <= BUFFER)
      ensures receiver.tun == old(receiver.tun) && (!ok ==> accepted == old(accepted))
    {
      ghost var line, queue := sender.line, sender.Queued();
      ok := sender.WriteToSerial(p);
      if ok {
        EncodeAllMore(accepted, p, flow);
        Associative(line, queue, Encode(p, flow));
        accepted := accepted + [p];
      }
    }

    method FlushQueue(answer: WriteResult) returns (ok: bool)
      requires Valid()
      modifies sender
      ensures Valid() && (answer != Broken ==> ok)
    {
      var available := sender.slipEnd - sender.slipBegin;
      ghost var line := sender.line;
      ok := sender.SlipFlushbuf(if answer.Wrote? && answer.n > available then Wrote(available) else answer);
      assert sender.line[..taken] == line[..taken];
    }

    method ArriveBytes(n: nat)
      requires Valid()
      modifies `taken, receiver, receiver.inbuf
      ensures Valid() && old(taken) <= taken
    {
      var more := if taken + n <= |sender.line| then n else |sender.line| - taken;
      receiver.Arrive(sender.line, taken, more);
      taken := taken + more;
    }

    /** One event; the answer false is the program's exit. */
    method Step(e: Event) returns (ok: bool)
      requires Valid()
      modifies this, sender, sender.slipBuf, receiver, receiver.inbuf
      ensures ok ==> Valid() && accepted == if e.Send? then old(accepted) + [e.p] else old(accepted)
      ensures !ok ==> e.Send? || e == Flush(Broken)
      ensures !ok ==> accepted == old(accepted) && receiver.tun <= DataOnly(accepted)
    {
      Safe();
      match e {
        case Send(p) =>
          ok := SendPacket(p);
        case Flush(answer) =>
          ok := FlushQueue(answer);
          Safe();
        case Arrive(n) =>
          ArriveBytes(n);
          ok := true;
      }
    }
  }

  /** The packets that the events hand to the sender. */
  function SentBy(events: seq<Event>): seq<seq<byte>> {
    if events == [] then []
    else
      var e := events[|events| - 1];
      SentBy(events[..|events| - 1]) + if e.Send? then [e.p] else []
  }

  lemma SentByNext(events: seq<Event>, i: nat)
    requires i < |events|
    ensures SentBy(events[..i + 1]) == SentBy(events[..i]) + if events[i].Send? then [events[i].p] else []
  {
    assert events[..i + 1][..i] == events[..i];
  }

  /** A run, up to its end or to the exit of the program: the TUN device gets a prefix of the data
      packets accepted, in order and unchanged, and all of them if the line has become quiet. */
  method Run(flow: bool, events: seq<Event>)
    returns (done: nat, accepted: seq<seq<byte>>, tun: seq<seq<byte>>, quiet: bool)
    ensures done <= |events| && accepted == SentBy(events[..done])
    ensures done < |events| ==> events[done].Send? || events[done] == Flush(Broken)
    ensures tun <= DataOnly(accepted)
    ensures quiet ==> tun == DataOnly(accepted)
  {
    var link := new Link(flow);
    done, quiet := 0, false;
    while done < |events|
      invariant done <= |events| && link.Valid() && fresh(link) && fresh(link.sender) && fresh(link.receiver)
      invariant fresh(link.sender.slipBuf) && fresh(link.receiver.inbuf)
      invariant link.accepted == SentBy(events[..done])
    {
      SentByNext(events, done);
      var ok := link.Step(events[done]);
      if !ok {
        return done, link.accepted, link.receiver.tun, false;
      }
      done := done + 1;
    }
    link.Safe();
    accepted, tun := link.accepted, link.receiver.tun;
    quiet := link.sender.slipEnd == 0 && link.taken == |link.sender.line|;
  }
}
