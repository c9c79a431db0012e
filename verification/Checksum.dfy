/** tunslip: the Internet checksum, the packet check, and the two places that write checksums. */
module Checksum {
  import opened Words

  // ---- sums

  function Word(hi: byte, lo: byte): u16 { (hi as int) * 256 + (lo as int) }

  /** sum += t; if (sum < t) sum++ in 16 bits: one's complement addition. */
  function OnesAdd(sum: u16, t: u16): u16 {
    var s := (sum + t) % 0x1_0000;
    if s < t then s + 1 else s
  }

  lemma OnesAddIs(sum: u16, t: u16)
    ensures OnesAdd(sum, t) == sum + t || OnesAdd(sum, t) == sum + t - 0xffff
    ensures OnesAdd(sum, t) == 0 <==> sum == 0 && t == 0
  {
  }

  /** The first 16-bit word in network order; an odd last byte is padded with zero. */
  function FirstWord(s: seq<byte>): u16
    requires s != []
  {
    Word(s[0], if |s| >= 2 then s[1] else 0)
  }

  function Rest(s: seq<byte>): (r: seq<byte>)
    requires s != []
    ensures |r| < |s|
  {
    if |s| >= 2 then s[2..] else []
  }

  /** The plain sum of the words. */
  function WordSum(s: seq<byte>): nat
    decreases |s|
  {
    if s == [] then 0 else FirstWord(s) + WordSum(Rest(s))
  }

  /** The loop of ip4sum over a running 16-bit sum. */
  function Ip4SumOf(sum: u16, s: seq<byte>): u16
    decreases |s|
  {
    if s == [] then sum else Ip4SumOf(OnesAdd(sum, FirstWord(s)), Rest(s))
  }

  /** The running sum is the word sum less a multiple of 65535, and zero only if everything is. */
  lemma {:induction false} Ip4SumReduces(sum: u16, s: seq<byte>) returns (k: nat)
    ensures Ip4SumOf(sum, s) == sum + WordSum(s) - 0xffff * k
    ensures Ip4SumOf(sum, s) == 0 <==> sum == 0 && WordSum(s) == 0
    decreases |s|
  {
    k := 0;
    if s != [] {
      var t := FirstWord(s);
      OnesAddIs(sum, t);
      k := Ip4SumReduces(OnesAdd(sum, t), Rest(s));
      if OnesAdd(sum, t) != sum + t { k := k + 1; }
    }
  }

  lemma Ip4SumModulo(sum: u16, s: seq<byte>)
    ensures Ip4SumOf(sum, s) % 0xffff == (sum + WordSum(s)) % 0xffff
    ensures Ip4SumOf(sum, s) == 0 <==> sum == 0 && WordSum(s) == 0
  {
    var k := Ip4SumReduces(sum, s);
    ModuloShift(sum + WordSum(s), k);
  }

  lemma {:induction false} ModuloShift(x: int, k: nat)
    ensures (x - 0xffff * k) % 0xffff == x % 0xffff
  {
    if k > 0 {
      ModuloShift(x, k - 1);
      var y := x - 0xffff * (k - 1);
      assert (y - 0xffff) % 0xffff == y % 0xffff;
    }
  }

  lemma Ip4SumStep(sum: u16, s: seq<byte>, i: nat, end: nat)
    requires i < end <= |s|
    ensures Ip4SumOf(sum, s[i..end]) ==
      if i + 1 < end then Ip4SumOf(OnesAdd(sum, Word(s[i], s[i + 1])), s[i + 2..end]) else OnesAdd(sum, Word(s[i], 0))
  {
    var rest := s[i..end];
    if i + 1 < end {
      assert Rest(rest) == s[i + 2..end];
    } else {
      assert Rest(rest) == [];
    }
  }

  /** One addition with the carry added back. */
  method AddWord(start: u16, t: u16) returns (sum: u16)
    ensures sum == OnesAdd(start, t)
  {
    sum := (start + t) % 0x1_0000;
    if sum < t { sum := sum + 1; }
  }

  /** ip4sum on len bytes of a buffer. */
  method Ip4Sum(start: u16, p: array<byte>, from: nat, len: nat) returns (sum: u16)
    requires from + len <= p.Length
    ensures sum == Ip4SumOf(start, p[..][from..from + len])
  {
    sum := start;
    var i, end := from, from + len;
    ghost var s := p[..];
    ghost var total := Ip4SumOf(start, s[from..end]);
    while i + 1 < end
      invariant from <= i <= end
      invariant total == Ip4SumOf(sum, s[i..end])
    {
      Ip4SumStep(sum, s, i, end);
      sum := AddWord(sum, Word(p[i], p[i + 1]));
      i := i + 2;
    }
    if i < end {
      Ip4SumStep(sum, s, i, end);
      sum := AddWord(sum, Word(p[i], 0));
    }
  }

  // ---- check_ip

  const IP_ID: nat := 4
  const IP_OFF: nat := 6
  const IP_P: nat := 9
  const IP_SUM: nat := 10
  const IP_SRC: nat := 12
  const UH_SPORT: nat := 20
  const UH_SUM: nat := 26

  predicate GoodSum(sum: u16) { sum == 0 || sum == 0xffff }

  /** The low half of a byte, in 32-bit words. */
  function InWords(vhl: byte): (hl: nat)
    ensures hl % 4 == 0 && hl % 2 == 0 && hl <= 60
  {
    var words := vhl % 16;
    4 * words
  }

  function HeaderLength(b: seq<byte>): nat
    requires b != []
  {
    InWords(b[0])
  }

  /** The header fields that check_ip looks at, besides the sums. */
  datatype Fields = Fields(version: int, total: u16, proto: byte, addresses: seq<byte>, udpSum: u16)

  function FieldsOf(b: seq<byte>): Fields
    requires |b| >= 28
  {
    Fields((b[0] as int) / 16, Word(b[2], b[3]), b[IP_P], b[IP_SRC..IP_SRC + 8], Word(b[UH_SUM], b[UH_SUM + 1]))
  }

  /** The sum over pseudo header and payload that check_ip computes for TCP and UDP. */
  function TransportSum(proto: byte, addresses: seq<byte>, payload: seq<byte>): u16 {
    Ip4SumOf(Ip4SumOf((proto + |payload|) % 0x1_0000, addresses), payload)
  }

  /** check_ip on the parts of a packet. */
  function CheckParts(f: Fields, len: nat, header: seq<byte>, payload: seq<byte>): int {
    if f.version != 4 then -1
    else if f.total > len then -2
    else if f.total < len then -3
    else if !GoodSum(Ip4SumOf(0, header)) then -4
    else if f.proto == 6 || f.proto == 17 then
      if GoodSum(TransportSum(f.proto, f.addresses, payload)) then 0
      else if f.proto == 6 then -5
      else if f.udpSum != 0 then -6
      else 0
    else if f.proto == 1 && !GoodSum(Ip4SumOf(0, payload)) then -7
    else 0
  }

  predicate LengthFits(f: Fields, len: nat) { f.version == 4 && f.total == len }

  /** check_ip sums up what follows the header for TCP, UDP and ICMP. */
  predicate PayloadRead(f: Fields) { f.proto == 6 || f.proto == 17 || f.proto == 1 }

  /** The length behind the header is a 16-bit difference, which wraps around if the header length
      exceeds the packet length. */
  function PayloadLength(hl: nat, len: nat): (n: nat)
    ensures hl <= len < hl + 0x1_0000 ==> n == len - hl
  {
    (len - hl) % 0x1_0000
  }

  function PayloadEnd(hl: nat, len: nat): (end: nat)
    ensures hl <= end && (hl <= len < hl + 0x1_0000 ==> end == len)
  {
    hl + PayloadLength(hl, len)
  }

  function Slice(b: seq<byte>, from: nat, to: nat): seq<byte> {
    if from <= to <= |b| then b[from..to] else []
  }

  function HeaderOf(b: seq<byte>): seq<byte>
    requires b != []
  {
    Slice(b, 0, HeaderLength(b))
  }

  function PayloadOf(b: seq<byte>, len: nat): seq<byte>
    requires b != []
  {
    Slice(b, HeaderLength(b), PayloadEnd(HeaderLength(b), len))
  }

  /** As far as check_ip gets, header and payload end inside a buffer of this size. */
  predicate EndsInside(f: Fields, len: nat, hl: nat, header: seq<byte>, size: nat) {
    LengthFits(f, len) ==>
      && hl <= size
      && (GoodSum(Ip4SumOf(0, header)) && PayloadRead(f) ==> PayloadEnd(hl, len) <= size)
  }

  /** What check_ip reads is inside the buffer. */
  predicate Readable(b: seq<byte>, len: nat) {
    28 <= |b| && EndsInside(FieldsOf(b), len, HeaderLength(b), HeaderOf(b), |b|)
  }

  function CheckIpOf(b: seq<byte>, len: nat): int
    requires Readable(b, len)
  {
    CheckParts(FieldsOf(b), len, HeaderOf(b), PayloadOf(b, len))
  }

  /** check_ip. */
  method CheckIp(p: array<byte>, len: nat) returns (code: int)
    requires Readable(p[..], len)
    ensures code == CheckIpOf(p[..], len)
  {
    ghost var b: seq<byte> := p[..];
    if (p[0] as int) / 16 != 4 { return -1; }
    if Word(p[2], p[3]) > len { return -2; }
    if Word(p[2], p[3]) < len { return -3; }
    var hl := InWords(p[0]);
    var sum := Ip4Sum(0, p, 0, hl);
    assert 0 + hl == hl;
    if sum != 0xffff && sum != 0 { return -4; }
    code := CheckPayload(p, hl, len, FieldsOf(b), HeaderOf(b));
  }

  /** The part of check_ip behind the header. */
  method CheckPayload(p: array<byte>, hl: nat, len: nat, ghost f: Fields, ghost header: seq<byte>) returns (code: int)
    requires 28 <= p.Length && hl == HeaderLength(p[..])
    requires f == FieldsOf(p[..]) && LengthFits(f, len) && GoodSum(Ip4SumOf(0, header))
    requires PayloadRead(f) ==> PayloadEnd(hl, len) <= p.Length
    ensures code == CheckParts(f, len, header, PayloadOf(p[..], len))
  {
    var length := PayloadLength(hl, len);
    if p[IP_P] == 6 || p[IP_P] == 17 {
      var sum := SumTransport(p, hl, length);
      if sum != 0xffff && sum != 0 {
        if p[IP_P] == 6 { return -5; }
        if p[UH_SUM] != 0 || p[UH_SUM + 1] != 0 { return -6; }
      }
    } else if p[IP_P] == 1 {
      var sum := Ip4Sum(0, p, hl, length);
      if sum != 0xffff && sum != 0 { return -7; }
    }
    return 0;
  }

  method SumTransport(p: array<byte>, hl: nat, length: nat) returns (sum: u16)
    requires 28 <= p.Length && hl + length <= p.Length
    ensures sum == TransportSum(p[IP_P], p[..][IP_SRC..IP_SRC + 8], p[..][hl..hl + length])
  {
    ghost var addresses: seq<byte>, payload: seq<byte> := p[..][IP_SRC..IP_SRC + 8], p[..][hl..hl + length];
    var start := ((p[IP_P] as int) + length) % 0x1_0000;
    var inner := Ip4Sum(start, p, IP_SRC, 8);
    assert inner == Ip4SumOf(start, addresses);
    sum := Ip4Sum(inner, p, hl, length);
    assert |payload| == length;
  }

  // ---- what is summed

  /** The bytes at even places count 256 times. */
  function Weighted(s: seq<byte>, from: nat): nat
    decreases |s|
  {
    if s == [] then 0 else (if from % 2 == 0 then 256 * (s[0] as int) else s[0]) + Weighted(s[1..], from + 1)
  }

  lemma {:induction false} WeightedTwo(s: seq<byte>, from: nat)
    ensures Weighted(s, from + 2) == Weighted(s, from)
    decreases |s|
  {
    if s != [] {
      WeightedTwo(s[1..], from + 1);
      assert (from + 2) % 2 == from % 2;
    }
  }

  /** The sum of the words is that of the bytes, each with its weight. */
  lemma {:induction false} WordSumWeighted(s: seq<byte>)
    ensures WordSum(s) == Weighted(s, 0)
    decreases |s|
  {
    if |s| == 1 {
      assert s[1..] == [];
    } else if |s| >= 2 {
      assert s[1..][1..] == s[2..];
      WordSumWeighted(s[2..]);
      WeightedTwo(s[2..], 0);
    }
  }

  /** check_ip sums up, for TCP and UDP, the protocol, the length, both addresses and the payload:
      the checksum is good exactly if these words add up to a multiple of 65535. */
  lemma TransportSummed(proto: byte, addresses: seq<byte>, payload: seq<byte>)
    requires proto + |payload| < 0x1_0000
    ensures GoodSum(TransportSum(proto, addresses, payload)) <==>
      (proto + |payload| + Weighted(addresses, 0) + Weighted(payload, 0)) % 0xffff == 0
  {
    TransportWords(proto, addresses, payload);
    WordSumWeighted(addresses);
    WordSumWeighted(payload);
    var sum := proto + |payload| + WordSum(addresses) + WordSum(payload);
    assert sum == proto + |payload| + Weighted(addresses, 0) + Weighted(payload, 0);
  }

  lemma TransportWords(proto: byte, addresses: seq<byte>, payload: seq<byte>)
    requires proto + |payload| < 0x1_0000
    ensures GoodSum(TransportSum(proto, addresses, payload)) <==>
      (proto + |payload| + WordSum(addresses) + WordSum(payload)) % 0xffff == 0
  {
    NoCarry(proto, |payload|);
    InSequence(proto + |payload|, addresses, payload, WordSum(addresses), WordSum(payload));
  }

  /** Two sums in a row. */
  lemma InSequence(start: u16, s: seq<byte>, t: seq<byte>, m: nat, n: nat)
    requires m == WordSum(s) && n == WordSum(t)
    ensures GoodSum(Ip4SumOf(Ip4SumOf(start, s), t)) <==> (start + m + n) % 0xffff == 0
  {
    var k := Ip4SumReduces(start, s);
    var inner := Ip4SumOf(start, s);
    GoodIffMultiple(inner, t);
    InTurn(inner, start, m, n, k);
  }

  lemma NoCarry(proto: byte, n: nat)
    requires proto + n < 0x1_0000
    ensures (proto + n) % 0x1_0000 == proto + n
  {
  }

  lemma InTurn(inner: int, start: int, a: int, p: int, k: nat)
    requires inner == start + a - 0xffff * k
    ensures (inner + p) % 0xffff == (start + a + p) % 0xffff
  {
    ModuloShift(start + a + p, k);
  }

  // ---- a checksum is good when the words add up to a multiple of 65535

  lemma GoodIffMultiple(sum: u16, s: seq<byte>)
    ensures GoodSum(Ip4SumOf(sum, s)) <==> (sum + WordSum(s)) % 0xffff == 0
  {
    Ip4SumModulo(sum, s);
  }

  /** Replacing one word changes the sum by the difference. */
  lemma {:induction false} WordSumSet(s: seq<byte>, k: nat, hi: byte, lo: byte)
    requires k % 2 == 0 && k + 1 < |s|
    ensures WordSum(s[k := hi][k + 1 := lo]) == WordSum(s) - Word(s[k], s[k + 1]) + Word(hi, lo)
    decreases |s|
  {
    var t := s[k := hi][k + 1 := lo];
    if k == 0 {
      assert Rest(t) == Rest(s);
    } else {
      assert Rest(t) == Rest(s)[k - 2 := hi][k - 2 + 1 := lo];
      WordSumSet(Rest(s), k - 2, hi, lo);
    }
  }

  /** Replacing an odd last byte. */
  lemma {:induction false} WordSumSetLast(s: seq<byte>, last: byte)
    requires |s| % 2 == 1
    ensures WordSum(s[|s| - 1 := last]) == WordSum(s) + Word(last, 0) - Word(s[|s| - 1], 0)
    decreases |s|
  {
    var t := s[|s| - 1 := last];
    if |s| > 1 {
      assert Rest(t) == Rest(s)[|s| - 2 - 1 := last];
      WordSumSetLast(Rest(s), last);
    }
  }

  /** What the 16-bit field at k contributes to the sum from an even offset to an end that may cut
      through the field. */
  function Share(b: seq<byte>, k: nat, from: nat, to: nat): u16
    requires k + 1 < |b|
  {
    if k < from || to <= k then 0
    else if k + 1 < to then Word(b[k], b[k + 1])
    else Word(b[k], 0)
  }

  /** The two buffers differ in one 16-bit field at most. */
  ghost predicate DifferIn(b: seq<byte>, r: seq<byte>, k: nat) {
    |r| == |b| && k + 1 < |b| && forall i :: 0 <= i < |b| && i != k && i != k + 1 ==> r[i] == b[i]
  }

  lemma FieldSum(b: seq<byte>, r: seq<byte>, k: nat, from: nat, to: nat)
    requires DifferIn(b, r, k) && k % 2 == 0 && from % 2 == 0 && from <= to <= |b|
    ensures WordSum(r[from..to]) == WordSum(b[from..to]) + Share(r, k, from, to) - Share(b, k, from, to)
  {
    if k < from || to <= k {
      SamePart(b, r, k, from, to);
    } else if k + 1 < to {
      WholeFieldSum(b, r, k, from, to);
    } else {
      CutFieldSum(b, r, k, from);
    }
  }

  lemma SamePart(b: seq<byte>, r: seq<byte>, k: nat, from: nat, to: nat)
    requires DifferIn(b, r, k) && k % 2 == 0 && from % 2 == 0 && from <= to <= |b| && (k < from || to <= k)
    ensures r[from..to] == b[from..to]
  {
    assert k < from ==> k + 1 < from;
  }

  lemma WholeFieldSum(b: seq<byte>, r: seq<byte>, k: nat, from: nat, to: nat)
    requires DifferIn(b, r, k) && k % 2 == 0 && from % 2 == 0 && from <= k && k + 1 < to <= |b|
    ensures WordSum(r[from..to]) == WordSum(b[from..to]) + Word(r[k], r[k + 1]) - Word(b[k], b[k + 1])
  {
    var s: seq<byte>, t: seq<byte> := b[from..to], r[from..to];
    assert t == s[k - from := r[k]][k - from + 1 := r[k + 1]];
    WordSumSet(s, k - from, r[k], r[k + 1]);
  }

  lemma CutFieldSum(b: seq<byte>, r: seq<byte>, k: nat, from: nat)
    requires DifferIn(b, r, k) && k % 2 == 0 && from % 2 == 0 && from <= k
    ensures WordSum(r[from..k + 1]) == WordSum(b[from..k + 1]) + Word(r[k], 0) - Word(b[k], 0)
  {
    var s: seq<byte>, t: seq<byte> := b[from..k + 1], r[from..k + 1];
    assert t == s[k - from := r[k]];
    WordSumSetLast(s, r[k]);
  }

  // ---- which packets are accepted, byte by byte

  /** The weighted sum of a part of the packet. */
  function PartSum(b: seq<byte>, from: nat, to: nat): nat
    requires from <= to <= |b|
  {
    Weighted(b[from..to], 0)
  }

  /** Version 4, the right length, a header sum that is a multiple of 65535, and such a sum, too, over what
      the checksum of ICMP, of TCP, and of UDP if it has one, covers. */
  predicate SoundSums(version: int, total: int, proto: int, udpSummed: bool, len: nat, header: nat, payload: nat,
                      pseudo: nat)
  {
    && version == 4 && total == len && header % 0xffff == 0
    && (proto == 1 ==> payload % 0xffff == 0)
    && (proto == 6 || (proto == 17 && udpSummed) ==> (pseudo + payload) % 0xffff == 0)
  }

  /** The same of the bytes of a packet. The pseudo header is protocol, payload length and addresses. */
  ghost predicate Sound(b: seq<byte>, hl: nat, len: nat)
    requires 28 <= |b| && hl <= len <= |b|
  {
    SoundSums((b[0] as int) / 16, 256 * (b[2] as int) + (b[3] as int), b[9], !(b[26] == b[27] == 0), len,
              PartSum(b, 0, hl), PartSum(b, hl, len), b[9] + (len - hl) + PartSum(b, 12, 20))
  }

  /** check_ip accepts exactly the sound packets. */
  lemma AcceptedIff(b: seq<byte>, len: nat, hl: nat)
    requires Readable(b, len) && hl == HeaderLength(b) <= len <= |b| && b[9] + len < 0x1_0000
    ensures CheckIpOf(b, len) == 0 <==> Sound(b, hl, len)
  {
    CheckOfParts(b, len, hl);
    FieldsAre(b);
    SoundIff(b, FieldsOf(b), hl, len);
  }

  ghost predicate AreFields(b: seq<byte>, f: Fields)
    requires 28 <= |b|
  {
    && f.version == (b[0] as int) / 16 && f.total == 256 * (b[2] as int) + (b[3] as int) && f.proto == b[9]
    && f.addresses == b[12..20] && (f.udpSum != 0) == !(b[26] == b[27] == 0)
  }

  lemma FieldsAre(b: seq<byte>)
    requires 28 <= |b|
    ensures AreFields(b, FieldsOf(b))
  {
  }

  lemma SoundIff(b: seq<byte>, f: Fields, hl: nat, len: nat)
    requires 28 <= |b| && hl <= len <= |b| && b[9] + len < 0x1_0000 && AreFields(b, f)
    ensures CheckParts(f, len, b[0..hl], b[hl..len]) == 0 <==> Sound(b, hl, len)
  {
    PartsAccepted(f, len, b[0..hl], b[hl..len]);
  }

  lemma CheckOfParts(b: seq<byte>, len: nat, hl: nat)
    requires Readable(b, len) && hl == HeaderLength(b) <= len <= |b| && len < 0x1_0000
    ensures CheckIpOf(b, len) == CheckParts(FieldsOf(b), len, b[0..hl], b[hl..len])
  {
  }

  lemma HeaderSummedUp(s: seq<byte>)
    ensures GoodSum(Ip4SumOf(0, s)) <==> Weighted(s, 0) % 0xffff == 0
  {
    GoodIffMultiple(0, s);
    WordSumWeighted(s);
  }

  lemma PartsAccepted(f: Fields, len: nat, header: seq<byte>, payload: seq<byte>)
    requires f.proto + |payload| < 0x1_0000
    ensures CheckParts(f, len, header, payload) == 0 <==>
      SoundSums(f.version, f.total, f.proto, f.udpSum != 0, len, Weighted(header, 0), Weighted(payload, 0),
                f.proto + |payload| + Weighted(f.addresses, 0))
  {
    HeaderSummedUp(header);
    HeaderSummedUp(payload);
    TransportSummed(f.proto, f.addresses, payload);
  }

  // ---- the identification rewrite of write_to_serial

  datatype Order = Big | Little

  /** Reading and writing a 16-bit field in the byte order of the machine. */
  function Load(b: seq<byte>, k: nat, order: Order): u16
    requires k + 1 < |b|
  {
    if order == Big then Word(b[k], b[k + 1]) else Word(b[k + 1], b[k])
  }

  function Store(b: seq<byte>, k: nat, v: u16, order: Order): (r: seq<byte>)
    requires k + 1 < |b|
    ensures |r| == |b| && Load(r, k, order) == v
  {
    if order == Big then b[k := v / 256][k + 1 := v % 256] else b[k := v % 256][k + 1 := v / 256]
  }

  /** The bit IP_DF of a 16-bit field. */
  predicate DontFragment(v: u16) { 0x4000 <= v < 0x8000 || 0xC000 <= v }

  lemma BitFourteen(v: u16)
    ensures DontFragment(v) <==> (v / 0x4000) % 2 == 1
  {
    assert v / 0x4000 == if v < 0x4000 then 0 else if v < 0x8000 then 1 else if v < 0xC000 then 2 else 3;
  }

  /** The don't-fragment test, made on the field as the machine reads it. */
  predicate NeedsId(b: seq<byte>, order: Order)
    requires |b| >= 28
  {
    Load(b, IP_ID, order) == 0 && DontFragment(Load(b, IP_OFF, order))
  }

  /** Bit 6 of a byte. */
  predicate BitSix(x: byte) { 64 <= x < 128 || 192 <= x }

  predicate TestedBytes(b: seq<byte>, order: Order)
    requires |b| >= 28
  {
    b[4] == 0 && b[5] == 0 && BitSix(if order == Big then b[6] else b[7])
  }

  /** Where the test looks: no identification, and the don't-fragment bit on a big-endian machine; on a
      little-endian one bit 6 of the other byte, which belongs to the fragment offset. */
  lemma NeedsIdIff(b: seq<byte>, order: Order)
    requires |b| >= 28
    ensures NeedsId(b, order) == TestedBytes(b, order)
  {
    var id, off := Load(b, IP_ID, order), Load(b, IP_OFF, order);
    if order == Big {
      assert id == Word(b[4], b[5]) && off == Word(b[6], b[7]);
      FlagTest(b[6], b[7], off);
      ZeroTest(b[4], b[5], id);
    } else {
      assert id == Word(b[5], b[4]) && off == Word(b[7], b[6]);
      FlagTest(b[7], b[6], off);
      ZeroTest(b[5], b[4], id);
    }
  }

  lemma FlagTest(hi: byte, lo: byte, v: u16)
    requires v == Word(hi, lo)
    ensures DontFragment(v) <==> BitSix(hi)
  {
  }

  lemma ZeroTest(hi: byte, lo: byte, v: u16)
    requires v == Word(hi, lo)
    ensures v == 0 <==> hi == lo == 0
  {
  }

  lemma TestFails(b: seq<byte>, order: Order)
    requires |b| >= 28 && !TestedBytes(b, order)
    ensures !NeedsId(b, order)
  {
    NeedsIdIff(b, order);
  }

  lemma TestPasses(b: seq<byte>, order: Order)
    requires |b| >= 28 && TestedBytes(b, order)
    ensures NeedsId(b, order)
  {
    NeedsIdIff(b, order);
  }

  lemma NoFragmentOffset(b: seq<byte>)
    requires |b| >= 28 && b[7] == 0
    ensures !TestedBytes(b, Little)
  {
  }

  /** So a packet with the don't-fragment bit and no identification is left alone there. */
  lemma DontFragmentMissed(b: seq<byte>)
    requires |b| >= 28 && TestedBytes(b, Big) && b[7] == 0
    ensures NeedsId(b, Big) && !NeedsId(b, Little)
  {
    NoFragmentOffset(b);
    TestPasses(b, Big);
    TestFails(b, Little);
  }

  /** htons(ip_id++) goes into the field, its complement is added to the checksum. */
  function Rewritten(b: seq<byte>, id: u16, order: Order): (r: seq<byte>)
    requires |b| >= 28
    ensures |r| == |b|
  {
    var b1 := b[IP_ID := id / 256][IP_ID + 1 := id % 256];
    var nid := 0xffff - Load(b1, IP_ID, order);
    Store(b1, IP_SUM, OnesAdd(Load(b1, IP_SUM, order), nid), order)
  }

  /** Read the other way round, a 16-bit number is 256 times itself modulo 65535, so one's complement
      sums may be formed in either byte order. */
  lemma SwapModulo(hi: byte, lo: byte)
    ensures 256 * Word(lo, hi) == Word(hi, lo) + 0xffff * (lo as int)
  {
  }

  /** What the rewrite does to the checksum word in network order. */
  lemma ChecksumWord(b: seq<byte>, id: u16, order: Order) returns (k: int)
    requires |b| >= 28
    ensures var r := Rewritten(b, id, order);
      Word(r[IP_SUM], r[IP_SUM + 1]) == Word(b[IP_SUM], b[IP_SUM + 1]) - id + 0xffff * k
  {
    var r := Rewritten(b, id, order);
    var b1 := b[IP_ID := id / 256][IP_ID + 1 := id % 256];
    var sum, nid := Load(b1, IP_SUM, order), 0xffff - Load(b1, IP_ID, order);
    OnesAddIs(sum, nid);
    var c := if OnesAdd(sum, nid) == sum + nid then 0 else 1;
    if order == Big {
      k := 1 - c;
    } else {
      SwapModulo(r[IP_SUM], r[IP_SUM + 1]);
      SwapModulo(b[IP_SUM], b[IP_SUM + 1]);
      SwapModulo(id / 256, id % 256);
      k := (b[IP_SUM + 1] as int) - (id % 256) + 256 * (1 - c) - (r[IP_SUM + 1] as int);
    }
  }

  /** The two buffers differ in identification and checksum at most. */
  ghost predicate DifferInTwo(b: seq<byte>, r: seq<byte>) {
    && |b| == |r| >= 28
    && forall i :: 0 <= i < |b| && i !in {IP_ID, IP_ID + 1, IP_SUM, IP_SUM + 1} ==> r[i] == b[i]
  }

  /** By how much these two fields change a sum from an even offset on. */
  function Change(b: seq<byte>, r: seq<byte>, from: nat, to: nat): int
    requires |b| == |r| >= 28
  {
    Share(r, IP_ID, from, to) - Share(b, IP_ID, from, to) + Share(r, IP_SUM, from, to) - Share(b, IP_SUM, from, to)
  }

  lemma ChangedSum(b: seq<byte>, r: seq<byte>, from: nat, to: nat)
    requires DifferInTwo(b, r) && from % 2 == 0 && from <= to <= |b|
    ensures WordSum(r[from..to]) == WordSum(b[from..to]) + Change(b, r, from, to)
  {
    var mid := Between(b, r);
    FieldSum(b, mid, IP_ID, from, to);
    FieldSum(mid, r, IP_SUM, from, to);
  }

  /** With the identification of r and the rest of b. */
  lemma Between(b: seq<byte>, r: seq<byte>) returns (mid: seq<byte>)
    requires DifferInTwo(b, r)
    ensures DifferIn(b, mid, IP_ID) && DifferIn(mid, r, IP_SUM)
    ensures mid[IP_ID] == r[IP_ID] && mid[IP_ID + 1] == r[IP_ID + 1]
  {
    mid := b[IP_ID := r[IP_ID]][IP_ID + 1 := r[IP_ID + 1]];
  }

  lemma SameFields(b: seq<byte>, r: seq<byte>)
    requires DifferInTwo(b, r)
    ensures FieldsOf(r) == FieldsOf(b) && HeaderLength(r) == HeaderLength(b)
  {
    assert r[IP_SRC..IP_SRC + 8] == b[IP_SRC..IP_SRC + 8];
  }

  lemma {:induction false} ModuloAdd(x: int, k: int)
    ensures (x + 0xffff * k) % 0xffff == x % 0xffff
  {
    if k >= 0 { ModuloShift(x + 0xffff * k, k); } else { ModuloShift(x, -k); }
  }

  lemma AddDivisible(x: int, y: int)
    requires x % 0xffff == 0
    ensures (x + y) % 0xffff == y % 0xffff
  {
    ModuloAdd(y, x / 0xffff);
  }

  /** A good sum stays good exactly if the words change by a multiple of 65535. */
  lemma GoodAfterChange(sum: u16, s: seq<byte>, t: seq<byte>, d: int)
    requires GoodSum(Ip4SumOf(sum, s)) && WordSum(t) == WordSum(s) + d
    ensures GoodSum(Ip4SumOf(sum, t)) <==> d % 0xffff == 0
  {
    GoodIffMultiple(sum, s);
    GoodIffMultiple(sum, t);
    MultipleStays(sum + WordSum(s), d, sum + WordSum(t));
  }

  lemma MultipleStays(x: int, d: int, y: int)
    requires x % 0xffff == 0 && y == x + d
    ensures y % 0xffff == 0 <==> d % 0xffff == 0
  {
    AddDivisible(x, d);
  }

  /** The payload sum decides: not for UDP without a checksum. */
  predicate PayloadMatters(f: Fields) { f.proto == 6 || (f.proto == 17 && f.udpSum != 0) || f.proto == 1 }

  lemma PartsAfterChange(
      f: Fields, len: nat, h: seq<byte>, h': seq<byte>, p: seq<byte>, p': seq<byte>, dh: int, dp: int)
    requires CheckParts(f, len, h, p) == 0
    requires WordSum(h') == WordSum(h) + dh
    requires PayloadMatters(f) ==> |p'| == |p| && WordSum(p') == WordSum(p) + dp
    ensures CheckParts(f, len, h', p') == 0 <==> dh % 0xffff == 0 && (PayloadMatters(f) ==> dp % 0xffff == 0)
  {
    GoodAfterChange(0, h, h', dh);
    if PayloadMatters(f) {
      PayloadAfterChange(f, p, p', dp);
    }
  }

  lemma PayloadAfterChange(f: Fields, p: seq<byte>, p': seq<byte>, dp: int)
    requires PayloadMatters(f) && |p'| == |p| && WordSum(p') == WordSum(p) + dp
    requires GoodSum(if f.proto == 1 then Ip4SumOf(0, p) else TransportSum(f.proto, f.addresses, p))
    ensures GoodSum(if f.proto == 1 then Ip4SumOf(0, p') else TransportSum(f.proto, f.addresses, p')) <==>
            dp % 0xffff == 0
  {
    if f.proto == 1 {
      GoodAfterChange(0, p, p', dp);
    } else {
      GoodAfterChange(Ip4SumOf((f.proto + |p|) % 0x1_0000, f.addresses), p, p', dp);
    }
  }

  /** Header and, where it matters, payload sum change by multiples of 65535. */
  predicate StaysValid(b: seq<byte>, r: seq<byte>, len: nat)
    requires |b| == |r| >= 28
  {
    && Change(b, r, 0, HeaderLength(b)) % 0xffff == 0
    && (PayloadMatters(FieldsOf(b)) ==> Change(b, r, HeaderLength(b), PayloadEnd(HeaderLength(b), len)) % 0xffff == 0)
  }

  /** An accepted packet, of any length, stays acceptable after the rewrite exactly if what the two
      rewritten fields contribute to the sums changes by multiples of 65535. */
  lemma RewriteKeepsPacketValid(b: seq<byte>, len: nat, id: u16, order: Order)
    requires Readable(b, len) && CheckIpOf(b, len) == 0
    ensures var r := Rewritten(b, id, order);
      Readable(r, len) && (CheckIpOf(r, len) == 0 <==> StaysValid(b, r, len))
  {
    ChangedStaysValid(b, Rewritten(b, id, order), len);
  }

  lemma ChangedSlice(b: seq<byte>, r: seq<byte>, from: nat, to: nat)
    requires DifferInTwo(b, r) && from % 2 == 0 && from <= to <= |b|
    ensures |Slice(r, from, to)| == |Slice(b, from, to)|
    ensures WordSum(Slice(r, from, to)) == WordSum(Slice(b, from, to)) + Change(b, r, from, to)
  {
    ChangedSum(b, r, from, to);
  }

  lemma ChangedStaysValid(b: seq<byte>, r: seq<byte>, len: nat)
    requires Readable(b, len) && CheckIpOf(b, len) == 0 && DifferInTwo(b, r)
    ensures Readable(r, len) && (CheckIpOf(r, len) == 0 <==> StaysValid(b, r, len))
  {
    SameFields(b, r);
    var f, hl := FieldsOf(b), HeaderLength(b);
    ChangedParts(b, r, len, f, hl, PayloadEnd(hl, len));
  }

  lemma ChangedParts(b: seq<byte>, r: seq<byte>, len: nat, f: Fields, hl: nat, end: nat)
    requires DifferInTwo(b, r) && hl % 2 == 0 && end == PayloadEnd(hl, len)
    requires EndsInside(f, len, hl, Slice(b, 0, hl), |b|)
    requires CheckParts(f, len, Slice(b, 0, hl), Slice(b, hl, end)) == 0
    ensures EndsInside(f, len, hl, Slice(r, 0, hl), |r|)
    ensures CheckParts(f, len, Slice(r, 0, hl), Slice(r, hl, end)) == 0 <==>
      Change(b, r, 0, hl) % 0xffff == 0 && (PayloadMatters(f) ==> Change(b, r, hl, end) % 0xffff == 0)
  {
    ChangedSlice(b, r, 0, hl);
    if PayloadRead(f) {
      ChangedSlice(b, r, hl, end);
    }
    PartsAfterChange(f, len, Slice(b, 0, hl), Slice(r, 0, hl), Slice(b, hl, end), Slice(r, hl, end),
                     Change(b, r, 0, hl), Change(b, r, hl, end));
  }

  /** So a packet that does not end inside the checksum or before it stays acceptable exactly if its
      header length field is not 2 (eight bytes: the identification is in the header, the checksum
      behind it) or the new identification counts for nothing in a one's complement sum. A header of
      12 bytes or more is always safe, whatever the length of the packet and the byte order. */
  lemma RewriteSafeIff(b: seq<byte>, len: nat, id: u16, order: Order)
    requires Readable(b, len) && CheckIpOf(b, len) == 0 && NeedsId(b, order)
    ensures var r := Rewritten(b, id, order);
      && Readable(r, len)
      && (HeaderLength(b) >= 12 ==> CheckIpOf(r, len) == 0)
      && (PayloadEnd(HeaderLength(b), len) >= 12 ==>
           (CheckIpOf(r, len) == 0 <==> HeaderLength(b) != 8 || id % 0xffff == 0))
  {
    var r := Rewritten(b, id, order);
    RewriteKeepsPacketValid(b, len, id, order);
    var k := RewriteRenumbers(b, id, order);
    if HeaderLength(b) >= 12 || PayloadEnd(HeaderLength(b), len) >= 12 {
      ChangeModulo(b, r, id, k, HeaderLength(b), PayloadEnd(HeaderLength(b), len));
    }
  }

  /** r has identification id where b has none, and a checksum lowered by it up to a multiple of 65535. */
  ghost predicate Renumbered(b: seq<byte>, r: seq<byte>, id: u16, k: int) {
    && |b| == |r| >= 28
    && Word(b[IP_ID], b[IP_ID + 1]) == 0 && Word(r[IP_ID], r[IP_ID + 1]) == id
    && Word(r[IP_SUM], r[IP_SUM + 1]) == Word(b[IP_SUM], b[IP_SUM + 1]) - id + 0xffff * k
  }

  lemma RewriteRenumbers(b: seq<byte>, id: u16, order: Order) returns (k: int)
    requires |b| >= 28 && NeedsId(b, order)
    ensures Renumbered(b, Rewritten(b, id, order), id, k)
  {
    k := ChecksumWord(b, id, order);
  }

  /** The ends do not cut through the two fields. */
  predicate Uncut(k: nat) { k <= 4 || k == 8 || k >= 12 }

  lemma ChangeIs(b: seq<byte>, r: seq<byte>, id: u16, k: int, from: nat, to: nat)
    requires Renumbered(b, r, id, k) && Uncut(from) && Uncut(to)
    ensures Change(b, r, from, to) ==
      (if from <= 4 && 8 <= to then id else 0) + (if from <= 8 && 12 <= to then 0xffff * k - id else 0)
  {
  }

  lemma ChangeModulo(b: seq<byte>, r: seq<byte>, id: u16, k: int, hl: nat, end: nat)
    requires Renumbered(b, r, id, k) && hl % 4 == 0 && hl <= end && end >= 12
    ensures hl != 8 ==> Change(b, r, 0, hl) % 0xffff == 0 == Change(b, r, hl, end) % 0xffff
    ensures hl == 8 ==> Change(b, r, 0, hl) == id
    ensures hl == 8 && id % 0xffff == 0 ==> Change(b, r, hl, end) % 0xffff == 0
  {
    var i: int := id;
    HeaderEnd(hl);
    ChangeIs(b, r, id, k, 0, hl);
    ChangeIs(b, r, id, k, hl, end);
    ModuloAdd(0, k);
    if id % 0xffff == 0 {
      ModuloAdd(-i, k);
      AddDivisible(i, -i);
    }
  }

  /** The end of a header does not cut through the identification or the checksum. */
  lemma HeaderEnd(hl: nat)
    requires hl % 4 == 0
    ensures Uncut(hl)
  {
  }

  /** An accepted packet with a header length of eight bytes. */
  function ShortHeaderPacket(): seq<byte> {
    [0x42, 0, 0, 28, 0, 0, 0xBD, 0xE3, 0x40, 0x63, 0, 0, 0, 0] + [0, 0, 0, 0, 0, 0, 0, 0, 0, 0, 0, 0, 0, 0]
  }

  /** The rewrite makes it unacceptable on a little-endian machine. */
  lemma ShortHeaderBreaks()
    ensures var b := ShortHeaderPacket();
      && Readable(b, 28) && CheckIpOf(b, 28) == 0 && NeedsId(b, Little)
      && Readable(Rewritten(b, 1, Little), 28) && CheckIpOf(Rewritten(b, 1, Little), 28) != 0
  {
    var b := ShortHeaderPacket();
    ShortHeaderAccepted(b);
    RewriteSafeIff(b, 28, 1, Little);
    assert 1 % 0xffff != 0;
  }

  lemma ShortHeaderAccepted(b: seq<byte>)
    requires |b| == 28 && b[0] == 0x42 && b[1] == b[2] == b[4] == b[5] == 0 && b[3] == 28
    requires b[6] == 0xBD && b[7] == 0xE3 && b[9] == 0x63
    ensures Readable(b, 28) && HeaderLength(b) == 8 && CheckIpOf(b, 28) == 0 && NeedsId(b, Little)
  {
    var f, h := FieldsOf(b), b[..8];
    assert HeaderLength(b) == 8 && f.version == 4 && f.total == 28 && f.proto == 0x63;
    FourWords(h);
    assert HeaderOf(b) == h;
    assert CheckParts(f, 28, h, PayloadOf(b, 28)) == 0;
  }

  lemma WordSumStep(s: seq<byte>)
    requires |s| >= 2
    ensures WordSum(s) == Word(s[0], s[1]) + WordSum(s[2..])
  {
  }

  lemma FourWords(h: seq<byte>)
    requires |h| == 8 && h[0] == 0x42 && h[3] == 28 && h[6] == 0xBD && h[7] == 0xE3
    requires h[1] == h[2] == h[4] == h[5] == 0
    ensures GoodSum(Ip4SumOf(0, h))
  {
    WordSumStep(h);
    WordSumStep(h[2..]);
    WordSumStep(h[2..][2..]);
    WordSumStep(h[2..][2..][2..]);
    assert h[2..][2..][2..][2..] == [];
    assert WordSum(h) == 0x4200 + 28 + 0 + 0xBDE3;
    GoodIffMultiple(0, h);
  }

  /** The rewrite in place. */
  method RewriteId(p: array<byte>, id: u16, order: Order)
    requires p.Length >= 28
    modifies p
    ensures p[..] == Rewritten(old(p[..]), id, order)
  {
    ghost var b: seq<byte> := p[..];
    p[IP_ID], p[IP_ID + 1] := id / 256, id % 256;
    ghost var b1: seq<byte> := p[..];
    assert b1 == b[IP_ID := id / 256][IP_ID + 1 := id % 256];
    var nid := 0xffff - Load(p[..], IP_ID, order);
    var sum := AddWord(Load(p[..], IP_SUM, order), nid);
    if order == Big {
      p[IP_SUM], p[IP_SUM + 1] := sum / 256, sum % 256;
    } else {
      p[IP_SUM], p[IP_SUM + 1] := sum % 256, sum / 256;
    }
    assert p[..] == Store(b1, IP_SUM, sum, order);
  }

  /** The packet that write_to_serial sends, if it passes both checks. */
  function Prepared(b: seq<byte>, len: nat, id: u16, order: Order): (r: seq<byte>)
    requires Readable(b, len)
  {
    if CheckIpOf(b, len) == 0 && NeedsId(b, order) then Rewritten(b, id, order) else b
  }

  /** An accepted packet whose test bit is set and which has no identification gets it, high byte first;
      every other packet stays as it is. */
  lemma PreparedIs(b: seq<byte>, len: nat, id: u16, order: Order)
    requires Readable(b, len)
    ensures var r := Prepared(b, len, id, order);
      if CheckIpOf(b, len) == 0 && NeedsId(b, order) then Identified(b, r, id) else r == b
  {
    if CheckIpOf(b, len) == 0 && NeedsId(b, order) { RewrittenId(b, id, order); }
  }

  /** r differs from b in checksum and identification, which is id. */
  ghost predicate Identified(b: seq<byte>, r: seq<byte>, id: u16) {
    DifferInTwo(b, r) && r[4] == id / 256 && r[5] == id % 256
  }

  lemma RewrittenId(b: seq<byte>, id: u16, order: Order)
    requires |b| >= 28
    ensures Identified(b, Rewritten(b, id, order), id)
  {
  }

  /** The start of write_to_serial: a negative code means that the packet is dropped. */
  method PrepareForSerial(p: array<byte>, len: nat, id: u16, order: Order) returns (code: int, nextId: u16)
    requires Readable(p[..], len)
    modifies p
    ensures p[..] == Prepared(old(p[..]), len, id, order) && Readable(p[..], len)
    ensures code == CheckIpOf(p[..], len)
    ensures var b := old(p[..]);
      code == 0 <==> CheckIpOf(b, len) == 0 && (NeedsId(b, order) ==> StaysValid(b, p[..], len))
    ensures var b := old(p[..]);
      var hl := HeaderLength(b);
      CheckIpOf(b, len) == 0 && (hl >= 12 || (id % 0xffff == 0 && PayloadEnd(hl, len) >= 12)) ==>
        code == 0
    ensures var b := old(p[..]);
      nextId == if CheckIpOf(b, len) == 0 && NeedsId(b, order) then (id + 1) % 0x1_0000 else id
  {
    nextId := id;
    code := CheckIp(p, len);
    if code < 0 {
      return;
    }
    if NeedsId(p[..], order) {
      ghost var b: seq<byte> := p[..];
      RewriteKeepsPacketValid(b, len, id, order);
      RewriteSafeIff(b, len, id, order);
      RewriteId(p, id, order);
      nextId := (id + 1) % 0x1_0000;
      code := CheckIp(p, len);
    }
  }

  // ---- relay_dhcp_to_client

  /** A packet with its header fields set and both checksums still zero. */
  predicate Unsummed(b: seq<byte>, len: nat) {
    && 28 <= len <= |b| && len < 0x1_0000
    && b[0] == 0x45 && Word(b[2], b[3]) == len && b[IP_P] == 17
    && b[IP_SUM] == 0 && b[IP_SUM + 1] == 0 && b[UH_SUM] == 0 && b[UH_SUM + 1] == 0
  }

  /** The header checksum makes the header sum 65535. */
  lemma HeaderSummed(b: seq<byte>, len: nat, sum: u16)
    requires Unsummed(b, len) && sum == Ip4SumOf(0, b[0..20])
    ensures var b1 := b[IP_SUM := (0xffff - sum) / 256][IP_SUM + 1 := (0xffff - sum) % 256];
      GoodSum(Ip4SumOf(0, b1[0..20]))
  {
    var c := 0xffff - sum;
    var b1 := b[IP_SUM := c / 256][IP_SUM + 1 := c % 256];
    FieldSum(b, b1, IP_SUM, 0, 20);
    var k := Ip4SumReduces(0, b[0..20]);
    GoodIffMultiple(0, b1[0..20]);
    ModuloAdd(0, k + 1);
  }

  /** Adding the complement of a sum, or 65535 for a sum of 65535, gives a good sum. */
  lemma ComplementClosesSum(start: u16, s: seq<byte>, t: seq<byte>, sum: u16, c: u16)
    requires sum == Ip4SumOf(start, s) && c == if sum != 0xffff then 0xffff - sum else 0xffff
    requires WordSum(t) == WordSum(s) + c
    ensures GoodSum(Ip4SumOf(start, t))
  {
    var k := Ip4SumReduces(start, s);
    GoodIffMultiple(start, t);
    ModuloAdd(0, k + 1);
    ModuloAdd(0, k + 2);
  }

  /** The UDP checksum does the same for pseudo header and payload. */
  lemma PayloadSummed(b: seq<byte>, r: seq<byte>, len: nat, sum: u16)
    requires 28 <= len <= |b| == |r| && b[UH_SUM] == 0 && b[UH_SUM + 1] == 0
    requires forall i :: 0 <= i < |b| && i != UH_SUM && i != UH_SUM + 1 ==> r[i] == b[i]
    requires sum == TransportSum(b[IP_P], b[IP_SRC..IP_SRC + 8], b[20..len])
    requires Word(r[UH_SUM], r[UH_SUM + 1]) == if sum != 0xffff then 0xffff - sum else 0xffff
    ensures GoodSum(TransportSum(r[IP_P], r[IP_SRC..IP_SRC + 8], r[20..len]))
  {
    UdpFieldSum(b, r, len);
    assert r[IP_SRC..IP_SRC + 8] == b[IP_SRC..IP_SRC + 8];
    var payload, payload' := b[20..len], r[20..len];
    ComplementClosesSum(Ip4SumOf((b[IP_P] + |payload|) % 0x1_0000, b[IP_SRC..IP_SRC + 8]), payload, payload',
                        sum, Word(r[UH_SUM], r[UH_SUM + 1]));
  }

  lemma UdpFieldSum(b: seq<byte>, r: seq<byte>, len: nat)
    requires 28 <= len <= |b| == |r| && b[UH_SUM] == 0 && b[UH_SUM + 1] == 0
    requires forall i :: 0 <= i < |b| && i != UH_SUM && i != UH_SUM + 1 ==> r[i] == b[i]
    ensures WordSum(r[20..len]) == WordSum(b[20..len]) + Word(r[UH_SUM], r[UH_SUM + 1])
  {
    FieldSum(b, r, UH_SUM, 20, len);
  }

  /** The header checksum. */
  method FillHeaderSum(p: array<byte>, len: nat)
    requires Unsummed(p[..], len)
    modifies p
    ensures GoodSum(Ip4SumOf(0, p[..][0..20]))
    ensures forall i :: 0 <= i < p.Length && i != IP_SUM && i != IP_SUM + 1 ==> p[i] == old(p[i])
  {
    ghost var b: seq<byte> := p[..];
    var sum := Ip4Sum(0, p, 0, 20);
    HeaderSummed(b, len, sum);
    p[IP_SUM], p[IP_SUM + 1] := (0xffff - sum) / 256, (0xffff - sum) % 256;
    assert p[..] == b[IP_SUM := (0xffff - sum) / 256][IP_SUM + 1 := (0xffff - sum) % 256];
  }

  /** The UDP checksum. */
  method FillUdpSum(p: array<byte>, len: nat)
    requires 28 <= len <= p.Length && len < 0x1_0000 && p[UH_SUM] == 0 && p[UH_SUM + 1] == 0
    modifies p
    ensures GoodSum(TransportSum(p[IP_P], p[..][IP_SRC..IP_SRC + 8], p[..][20..len]))
    ensures forall i :: 0 <= i < p.Length && i != UH_SUM && i != UH_SUM + 1 ==> p[i] == old(p[i])
  {
    ghost var b: seq<byte> := p[..];
    var sum := SumTransport(p, 20, len - 20);
    assert 20 + (len - 20) == len;
    var c := if sum != 0xffff then 0xffff - sum else 0xffff;
    p[UH_SUM], p[UH_SUM + 1] := c / 256, c % 256;
    ghost var r: seq<byte> := p[..];
    PayloadSummed(b, r, len, sum);
  }

  /** Filling in the two checksums of the relayed packet: it passes check_ip, and nothing but the
      four checksum bytes has changed. */
  method FillChecksums(p: array<byte>, len: nat)
    requires Unsummed(p[..], len)
    modifies p
    ensures Readable(p[..], len) && CheckIpOf(p[..], len) == 0
    ensures forall i :: 0 <= i < p.Length && i !in {IP_SUM, IP_SUM + 1, UH_SUM, UH_SUM + 1} ==> p[i] == old(p[i])
  {
    FillHeaderSum(p, len);
    ghost var b: seq<byte> := p[..];
    FillUdpSum(p, len);
    ghost var r: seq<byte> := p[..];
    assert r[0..20] == b[0..20];
    GoodSumsAccepted(r, len);
  }

  lemma GoodSumsAccepted(r: seq<byte>, len: nat)
    requires 28 <= len <= |r| && len < 0x1_0000 && r[0] == 0x45 && Word(r[2], r[3]) == len && r[IP_P] == 17
    requires GoodSum(Ip4SumOf(0, r[0..20])) && GoodSum(TransportSum(r[IP_P], r[IP_SRC..IP_SRC + 8], r[20..len]))
    ensures Readable(r, len) && CheckIpOf(r, len) == 0
  {
    assert HeaderLength(r) == 20 && PayloadEnd(20, len) == len;
    assert HeaderOf(r) == r[0..20] && PayloadOf(r, len) == r[20..len];
  }
}
