/** The relocatable object stream between the assembler luna and the linker lld: what is written,
    and what it stands for once the base address and the externals are known. */
module ObjectFormat {
  import opened Words

  datatype Part = Low | High | Word

  function Lo(x: int): byte { x % 256 }
  function Hi(x: int): byte { x / 256 % 256 }

  /** The bytes that a value leaves in the code. */
  function Take(part: Part, x: int): seq<byte> {
    match part
    case Low => [Lo(x)]
    case High => [Hi(x)]
    case Word => [Lo(x), Hi(x)]
  }

  /** What the assembler was asked to emit. */
  datatype Item =
    | Plain(value: int)
    | Relocatable(value: int, part: Part)
    | External(index: nat, offset: int, part: Part)

  /** The meaning of an item for a base address and the values of the externals. */
  function Image(item: Item, base: int, ext: nat -> int): seq<byte> {
    match item
    case Plain(v) => [Lo(v)]
    case Relocatable(v, part) => Take(part, v + base)
    case External(k, offset, part) => Take(part, ext(k) + offset)
  }

  function Images(items: seq<Item>, base: int, ext: nat -> int): seq<byte> {
    if items == [] then [] else Images(items[..|items| - 1], base, ext) + Image(items[|items| - 1], base, ext)
  }

  function Zeros(n: nat): seq<Item> { seq(n, i => Plain(0)) }

  lemma ImagesSnoc(items: seq<Item>, item: Item, base: int, ext: nat -> int)
    ensures Images(items + [item], base, ext) == Images(items, base, ext) + Image(item, base, ext)
  {
    var longer := items + [item];
    assert longer[..|longer| - 1] == items;
  }

  /** The pieces of the stream. */
  datatype Fragment =
    | Raw(bytes: seq<byte>)
    | Rel(part: Part, value: u16)
    | Ext(part: Part, index: u16)
    | ExtOffset(part: Part, index: u16, offset: u16)

  function PartCode(part: Part): int {
    match part
    case Low => 1
    case High => 2
    case Word => 3
  }

  ghost predicate WellFormedFragment(f: Fragment) { f.Raw? ==> 0 < |f.bytes| < 0x80 }

  ghost function Encode(f: Fragment): seq<byte>
    requires WellFormedFragment(f)
  {
    match f
    case Raw(b) => [|b|] + b
    case Rel(part, v) => [0x80 + PartCode(part), Lo(v), Hi(v)]
    case Ext(part, k) => [0xc0 + PartCode(part), Lo(k), Hi(k)]
    case ExtOffset(part, k, o) => [0xd0 + PartCode(part), Lo(k), Hi(k), Lo(o), Hi(o)]
  }

  /** The fragment refers to one of the n externals in the list. */
  ghost predicate IndexBelow(f: Fragment, n: nat) { f.Ext? || f.ExtOffset? ==> f.index < n }

  ghost predicate WellFormedStream(fs: seq<Fragment>) { forall f <- fs :: WellFormedFragment(f) }

  ghost function EncodeAll(fs: seq<Fragment>): seq<byte>
    requires WellFormedStream(fs)
  {
    if fs == [] then [] else EncodeAll(fs[..|fs| - 1]) + Encode(fs[|fs| - 1])
  }

  function SignedWord(w: u16): int { if w >= 0x8000 then w - 0x1_0000 else w }

  function FragmentImage(f: Fragment, base: int, ext: nat -> int): seq<byte> {
    match f
    case Raw(b) => b
    case Rel(part, v) => Take(part, v + base)
    case Ext(part, k) => Take(part, ext(k))
    case ExtOffset(part, k, o) => Take(part, ext(k) + SignedWord(o))
  }

  function FragmentImages(fs: seq<Fragment>, base: int, ext: nat -> int): seq<byte> {
    if fs == [] then [] else FragmentImages(fs[..|fs| - 1], base, ext) + FragmentImage(fs[|fs| - 1], base, ext)
  }

  lemma EncodeSnoc(fs: seq<Fragment>, f: Fragment)
    requires WellFormedStream(fs) && WellFormedFragment(f)
    ensures WellFormedStream(fs + [f])
    ensures EncodeAll(fs + [f]) == EncodeAll(fs) + Encode(f)
  {
    var longer := fs + [f];
    assert longer[..|longer| - 1] == fs;
  }

  lemma FragmentImagesSnoc(fs: seq<Fragment>, f: Fragment, base: int, ext: nat -> int)
    ensures FragmentImages(fs + [f], base, ext) == FragmentImages(fs, base, ext) + FragmentImage(f, base, ext)
  {
    var longer := fs + [f];
    assert longer[..|longer| - 1] == fs;
  }

  lemma AssociativeBytes(a: seq<byte>, b: seq<byte>, c: seq<byte>)
    ensures (a + b) + c == a + (b + c)
  {
  }

  // ---- what stands in front of the stream

  /** A global label and its value relative to the start of the code. */
  datatype Global = Global(name: seq<byte>, value: int)

  /** "obj". */
  const MAGIC: seq<byte> := [111, 98, 106]

  function EncodeGlobals(globals: seq<Global>): seq<byte> {
    if globals == [] then [0]
    else globals[0].name + [0, Lo(globals[0].value), Hi(globals[0].value)] + EncodeGlobals(globals[1..])
  }

  function EncodeNames(names: seq<seq<byte>>): seq<byte> {
    if names == [] then [0] else names[0] + [0] + EncodeNames(names[1..])
  }

  /** The header: globals, the size of the code in 16 bits, and the names of the externals. */
  function Header(globals: seq<Global>, pcEnd: nat, names: seq<seq<byte>>): seq<byte> {
    MAGIC + (EncodeGlobals(globals) + ([Lo(pcEnd), Hi(pcEnd)] + EncodeNames(names)))
  }

  /** luna's labels have between 1 and 29 characters. */
  ghost predicate IsName(n: seq<byte>) { 0 < |n| < 30 && forall b <- n :: b != 0 }

  ghost predicate AreGlobals(globals: seq<Global>) { forall g <- globals :: IsName(g.name) }

  /** Only the low 16 bits of a value matter for the bytes taken from it. */
  lemma TakeModulo(part: Part, x: int, y: int)
    requires (x - y) % 0x1_0000 == 0
    ensures Take(part, x) == Take(part, y)
  {
    var q := (x - y) / 0x1_0000;
    assert x == y + q * 0x1_0000;
    assert x / 256 == y / 256 + q * 256;
    assert (y / 256 + q * 256) % 256 == y / 256 % 256;
    assert (y + q * 0x1_0000) % 256 == y % 256;
  }
}

/** luna: putbyte, putword and the buffer of plain bytes, in the final pass in object mode. */
module Luna {
  import opened Words
  import opened ObjectFormat

  /** The flags of an expression that matter here. */
  datatype Flags = Flags(variable: bool, extdep: bool, takelo: bool, takehi: bool, external: bool, forceword: bool)

  const RESOLVED := Flags(false, false, false, false, false, false)

  predicate ValDefs(f: Flags) { f.variable || f.extdep || f.takelo || f.takehi }

  function PartOf(f: Flags): Part { if f.takelo then Low else if f.takehi then High else Word }

  /** A byte that is to be relocated must be one half of a variable or an external. */
  predicate ByteAccepted(f: Flags) {
    !ValDefs(f) || ((PartOf(f) != Word || f.forceword) && (f.variable || f.external))
  }

  /** A word must be all of it. */
  predicate WordAccepted(f: Flags) { !ValDefs(f) || (!f.takelo && !f.takehi && (f.variable || f.external)) }

  /** What a value with these flags stands for. */
  function ItemOf(i: int, f: Flags, index: nat): Item {
    if !ValDefs(f) then Plain(i)
    else if f.variable then Relocatable(i, PartOf(f))
    else External(index, i, PartOf(f))
  }

  function Width(items: seq<Item>): nat {
    if items == [] then 0
    else Width(items[..|items| - 1]) + |Image(items[|items| - 1], 0, k => 0)|
  }

  lemma {:induction false} WidthIsImageLength(items: seq<Item>, base: int, ext: nat -> int)
    ensures |Images(items, base, ext)| == Width(items)
  {
    if items != [] { WidthIsImageLength(items[..|items| - 1], base, ext); }
  }

  lemma {:induction false} WidthConcat(a: seq<Item>, b: seq<Item>)
    ensures Width(a + b) == Width(a) + Width(b)
  {
    if b == [] {
      assert a + b == a;
    } else {
      WidthConcat(a, b[..|b| - 1]);
      assert (a + b)[..|a + b| - 1] == a + b[..|b| - 1];
    }
  }

  lemma {:induction false} WidthZeros(n: nat)
    ensures Width(Zeros(n)) == n
  {
    if n > 0 {
      WidthZeros(n - 1);
      assert Zeros(n)[..n - 1] == Zeros(n - 1);
    }
  }

  ghost predicate StandsAt(fs: seq<Fragment>, buffered: seq<byte>, items: seq<Item>, base: int, ext: nat -> int) {
    FragmentImages(fs, base, ext) + buffered == Images(items, base, ext)
  }

  /** Fragments followed by plain bytes leave the image of the items, for every base address and all
      externals. */
  ghost predicate Stands(fs: seq<Fragment>, buffered: seq<byte>, items: seq<Item>) {
    forall base: int, ext: nat -> int :: StandsAt(fs, buffered, items, base, ext)
  }

  ghost predicate SameImageAt(f: Fragment, item: Item, base: int, ext: nat -> int) {
    FragmentImage(f, base, ext) == Image(item, base, ext)
  }

  /** The fragment and the item leave the same bytes in the code. */
  ghost predicate SameImage(f: Fragment, item: Item) {
    forall base: int, ext: nat -> int :: SameImageAt(f, item, base, ext)
  }

  lemma StandsPlain(fs: seq<Fragment>, buffered: seq<byte>, items: seq<Item>, x: int)
    requires Stands(fs, buffered, items)
    ensures Stands(fs, buffered + [Lo(x)], items + [Plain(x)])
  {
    forall base: int, ext: nat -> int
      ensures StandsAt(fs, buffered + [Lo(x)], items + [Plain(x)], base, ext)
    {
      ImagesSnoc(items, Plain(x), base, ext);
      assert StandsAt(fs, buffered, items, base, ext);
    }
  }

  /** The buffered bytes as a fragment. */
  lemma StandsFlushed(fs: seq<Fragment>, buffered: seq<byte>, items: seq<Item>)
    requires WellFormedStream(fs) && Stands(fs, buffered, items) && 0 < |buffered| < 128
    ensures WellFormedStream(fs + [Raw(buffered)]) && Stands(fs + [Raw(buffered)], [], items)
    ensures EncodeAll(fs + [Raw(buffered)]) == EncodeAll(fs) + Encode(Raw(buffered))
  {
    EncodeSnoc(fs, Raw(buffered));
    forall base: int, ext: nat -> int
      ensures StandsAt(fs + [Raw(buffered)], [], items, base, ext)
    {
      FragmentImagesSnoc(fs, Raw(buffered), base, ext);
      assert StandsAt(fs, buffered, items, base, ext);
    }
  }

  lemma StandsFragment(fs: seq<Fragment>, items: seq<Item>, f: Fragment, item: Item)
    requires WellFormedStream(fs) && WellFormedFragment(f) && Stands(fs, [], items) && SameImage(f, item)
    ensures WellFormedStream(fs + [f]) && Stands(fs + [f], [], items + [item])
    ensures EncodeAll(fs + [f]) == EncodeAll(fs) + Encode(f)
  {
    EncodeSnoc(fs, f);
    forall base: int, ext: nat -> int
      ensures StandsAt(fs + [f], [], items + [item], base, ext)
    {
      assert StandsAt(fs, [], items, base, ext) && SameImageAt(f, item, base, ext);
      StandsFragmentAt(fs, items, f, item, base, ext);
    }
  }

  lemma StandsFragmentAt(fs: seq<Fragment>, items: seq<Item>, f: Fragment, item: Item, base: int, ext: nat -> int)
    requires StandsAt(fs, [], items, base, ext) && SameImageAt(f, item, base, ext)
    ensures StandsAt(fs + [f], [], items + [item], base, ext)
  {
    FragmentImagesSnoc(fs, f, base, ext);
    ImagesSnoc(items, item, base, ext);
    AppendBoth(FragmentImages(fs, base, ext), Images(items, base, ext), FragmentImage(f, base, ext));
  }

  lemma AppendBoth(a: seq<byte>, b: seq<byte>, c: seq<byte>)
    requires a + [] == b
    ensures (a + c) + [] == b + c
  {
    assert a + [] == a;
  }

  /** A value stored in 16 bits relocates to the same bytes as the value itself. */
  lemma StoredValues(i: int, part: Part, k: u16)
    ensures SameImage(Rel(part, i % 0x1_0000), Relocatable(i, part))
    ensures i == 0 ==> SameImage(Ext(part, k), External(k, i, part))
    ensures SameImage(ExtOffset(part, k, i % 0x1_0000), External(k, i, part))
    ensures Lo(i % 0x1_0000) == Lo(i) && Hi(i % 0x1_0000) == Hi(i)
  {
    var w := i % 0x1_0000;
    TakeModulo(Word, w, i);
    forall base: int, ext: nat -> int
      ensures SameImageAt(Rel(part, w), Relocatable(i, part), base, ext)
    {
      TakeModulo(part, w + base, i + base);
    }
    forall base: int, ext: nat -> int
      ensures SameImageAt(ExtOffset(part, k, w), External(k, i, part), base, ext)
    {
      TakeModulo(part, ext(k) + SignedWord(w), ext(k) + i);
    }
  }

  lemma FileGrows(front: seq<byte>, fs: seq<Fragment>, f: Fragment)
    requires WellFormedStream(fs) && WellFormedFragment(f)
    ensures WellFormedStream(fs + [f]) && front + EncodeAll(fs) + Encode(f) == front + EncodeAll(fs + [f])
  {
    EncodeSnoc(fs, f);
    AssociativeBytes(front, EncodeAll(fs), Encode(f));
  }

  class Assembler {
    var pc: nat
    /** Zero bytes asked for by .buf and not written yet. */
    var bufBytes: nat
    const plain: array<byte>
    var plainLen: nat
    /** The object file. */
    var out: seq<byte>
    var errors: nat
    /** Set by the first putbyte, which writes the header. */
    var orgLock: bool
    /** The global labels, pc_end as the pass before has left it, and the names of the externals. */
    const globals: seq<Global>
    const pcEnd: nat
    const names: seq<seq<byte>>
    /** label_val of the external labels: their numbers in that list. */
    const externalIndex: nat -> u16
    ghost var items: seq<Item>
    ghost var fragments: seq<Fragment>

    constructor (globals: seq<Global>, pcEnd: nat, names: seq<seq<byte>>, externalIndex: nat -> u16)
      ensures Ready() && PcAgrees() && fresh(plain)
      ensures pc == 0 && bufBytes == 0 && items == [] && errors == 0 && !orgLock
      ensures this.globals == globals && this.pcEnd == pcEnd && this.names == names
      ensures this.externalIndex == externalIndex
    {
      this.globals, this.pcEnd, this.names, this.externalIndex := globals, pcEnd, names, externalIndex;
      plain := new byte[128](i => 0);
      pc, bufBytes, plainLen, out, errors, orgLock, items, fragments := 0, 0, 0, [], 0, false, [], [];
    }

    /** The stream written so far and the buffered bytes stand for the items. */
    ghost predicate Valid()
      reads this, plain
    {
      && plain.Length == 128 && plainLen < 127
      && Written()
      && Stands(fragments, plain[..plainLen], items)
    }

    /** Between two calls; before the first one nothing has been written. */
    ghost predicate Ready()
      reads this, plain
    {
      Valid() && (!orgLock ==> fragments == [] && plainLen == 0 && items == [])
    }

    ghost function Front(): seq<byte>
      reads this`orgLock
    {
      if orgLock then Header(globals, pcEnd, names) else []
    }

    ghost predicate Written()
      reads this`out, this`fragments, this`orgLock
    {
      && WellFormedStream(fragments) && out == Front() + EncodeAll(fragments)
      && forall f <- fragments :: IndexBelow(f, |names|)
    }

    /** An external label has a number in the list of externals. */
    ghost predicate Listed(flags: Flags, lab: nat) { flags.external ==> externalIndex(lab) < |names| }

    ghost predicate PcAgrees()
      reads this
    {
      pc == bufBytes + Width(items)
    }

    /** raw_put. */
    method RawPut(x: int)
      modifies this`out, this`errors
      ensures 0 <= x < 256 ==> out == old(out) + [x] && errors == old(errors)
    {
      if Hi(x) != 0 {
        errors := errors + 1;
        return;
      }
      out := out + [Lo(x)];
    }

    /** Several raw_put calls. */
    method RawPutAll(bytes: seq<byte>)
      modifies this`out, this`errors
      ensures out == old(out) + bytes && errors == old(errors)
    {
      var i := 0;
      while i < |bytes|
        invariant 0 <= i <= |bytes| && errors == old(errors) && out == old(out) + bytes[..i]
      {
        RawPut(bytes[i]);
        i := i + 1;
      }
      assert bytes[..|bytes|] == bytes;
    }

    /** The length byte and the bytes of a fragment that the linker copies. */
    method WriteChunk(bytes: seq<byte>)
      requires 0 < |bytes| < 128
      modifies this`out, this`errors
      ensures out == old(out) + Encode(Raw(bytes)) && errors == old(errors)
    {
      RawPut(|bytes|);
      RawPutAll(bytes);
    }

    /** The header that the first putbyte writes. */
    method WriteHeader()
      requires out == []
      modifies this`out, this`errors
      ensures out == Header(globals, pcEnd, names) && errors == old(errors)
    {
      RawPutAll(MAGIC);
      assert out == MAGIC;
      WriteGlobals();
      RawPutAll([Lo(pcEnd), Hi(pcEnd)]);
      WriteNames();
      AssociativeBytes(MAGIC, EncodeGlobals(globals), [Lo(pcEnd), Hi(pcEnd)]);
      AssociativeBytes(MAGIC, EncodeGlobals(globals) + [Lo(pcEnd), Hi(pcEnd)], EncodeNames(names));
      AssociativeBytes(EncodeGlobals(globals), [Lo(pcEnd), Hi(pcEnd)], EncodeNames(names));
    }

    method WriteGlobals()
      modifies this`out, this`errors
      ensures out == old(out) + EncodeGlobals(globals) && errors == old(errors)
    {
      var x := 0;
      ghost var all := out + EncodeGlobals(globals);
      assert globals[0..] == globals;
      while x < |globals|
        invariant x <= |globals| && errors == old(errors)
        invariant out + EncodeGlobals(globals[x..]) == all
      {
        var g := globals[x];
        assert globals[x..][1..] == globals[x + 1..];
        var bytes := g.name + [0, Lo(g.value), Hi(g.value)];
        AssociativeBytes(out, bytes, EncodeGlobals(globals[x + 1..]));
        RawPutAll(bytes);
        x := x + 1;
      }
      RawPut(0);
    }

    method WriteNames()
      modifies this`out, this`errors
      ensures out == old(out) + EncodeNames(names) && errors == old(errors)
    {
      var x := 0;
      ghost var all := out + EncodeNames(names);
      assert names[0..] == names;
      while x < |names|
        invariant x <= |names| && errors == old(errors)
        invariant out + EncodeNames(names[x..]) == all
      {
        assert names[x..][1..] == names[x + 1..];
        var bytes := names[x] + [0];
        AssociativeBytes(out, bytes, EncodeNames(names[x + 1..]));
        RawPutAll(bytes);
        x := x + 1;
      }
      RawPut(0);
    }

    /** cleanup_plain_buf: at most 127 bytes become a fragment of their own. */
    method CleanupPlainBuf()
      requires plain.Length == 128 && plainLen <= 127
      requires Written() && Stands(fragments, plain[..plainLen], items)
      modifies this`out, this`errors, this`plainLen, this`fragments
      ensures Valid() && plainLen == 0 && errors == old(errors)
    {
      if plainLen == 0 {
        return;
      }
      FlushBytes(plain[..plainLen]);
      plainLen := 0;
      assert plain[..0] == [];
    }

    /** The buffered bytes become a fragment. */
    method FlushBytes(bytes: seq<byte>)
      requires 0 < |bytes| < 128 && Written() && Stands(fragments, bytes, items)
      modifies this`out, this`errors, this`fragments
      ensures Written() && Stands(fragments, [], items) && errors == old(errors)
    {
      StandsFlushed(fragments, bytes, items);
      FileGrows(Front(), fragments, Raw(bytes));
      WriteChunk(bytes);
      fragments := fragments + [Raw(bytes)];
    }

    /** One byte into the buffer, which is written out when it holds 127. */
    method PutPlain(x: int)
      requires Valid()
      modifies this`out, this`errors, this`plainLen, this`fragments, this`items, plain
      ensures Valid() && items == old(items) + [Plain(x)] && errors == old(errors)
    {
      ghost var before := plain[..plainLen];
      StandsPlain(fragments, before, items, x);
      plain[plainLen] := Lo(x);
      plainLen := plainLen + 1;
      items := items + [Plain(x)];
      assert plain[..plainLen] == before + [Lo(x)];
      if plainLen == 127 {
        CleanupPlainBuf();
      }
    }

    /** putbyte. The first call writes the header. Pending zeros come before the value; this is a plain
        byte, or a fragment if it depends on the base address or an external. */
    method PutByte(i: int, flags: Flags, lab: nat)
      requires Ready() && Listed(flags, lab)
      modifies this, plain
      ensures Ready() && orgLock && pc == old(pc) + 1 && bufBytes == 0 && errors >= old(errors)
      ensures errors == old(errors) ==>
        items == old(items) + Zeros(old(bufBytes)) + [ItemOf(i, flags, externalIndex(lab))]
      ensures errors == old(errors) <==> ByteAccepted(flags)
    {
      if !orgLock {
        Begin();
      }
      PutZeros();
      if !ValDefs(flags) {
        PutPlain(i);
      } else {
        CleanupPlainBuf();
        PutValue(i, flags, lab);
      }
      pc := pc + 1;
      bufBytes := 0;
    }

    /** The header goes out, and org_lock is set; nothing looks at it before the end of putbyte. */
    method Begin()
      requires Ready() && !orgLock
      modifies this`out, this`errors, this`orgLock
      ensures Ready() && orgLock && errors == old(errors)
    {
      WriteHeader();
      orgLock := true;
      assert EncodeAll(fragments) == [];
    }

    /** The loop that writes the zeros asked for by .buf. */
    method PutZeros()
      requires Valid()
      modifies this`out, this`errors, this`plainLen, this`fragments, this`items, plain
      ensures Valid() && items == old(items) + Zeros(bufBytes) && errors == old(errors)
    {
      var x := 0;
      while x < bufBytes
        invariant 0 <= x <= bufBytes && Valid() && errors == old(errors)
        invariant items == old(items) + Zeros(x)
      {
        PutPlain(0);
        x := x + 1;
      }
    }

    /** A value that depends on the base address or an external, from an empty buffer. */
    method PutValue(i: int, flags: Flags, lab: nat)
      requires Valid() && plainLen == 0 && ValDefs(flags) && Listed(flags, lab)
      modifies this`out, this`errors, this`fragments, this`items
      ensures Valid() && errors >= old(errors)
      ensures errors == old(errors) ==> items == old(items) + [ItemOf(i, flags, externalIndex(lab))]
      ensures errors == old(errors) <==> ByteAccepted(flags)
    {
      var part, k := PartOf(flags), externalIndex(lab);
      StoredValues(i, part, k);
      if part == Word && !flags.forceword { errors := errors + 1; }
      if flags.variable {
        PutFragment([0x80 + PartCode(part), Lo(i), Hi(i)], Rel(part, i % 0x1_0000), Relocatable(i, part));
      } else if flags.external {
        if i == 0 {
          PutFragment([0xc0 + PartCode(part), Lo(k), Hi(k)], Ext(part, k), External(k, i, part));
        } else {
          PutFragment([0xd0 + PartCode(part), Lo(k), Hi(k), Lo(i), Hi(i)], ExtOffset(part, k, i % 0x1_0000),
                      External(k, i, part));
        }
      } else {
        errors := errors + 1;
      }
    }

    /** The bytes of one such fragment. */
    method PutFragment(bytes: seq<byte>, ghost f: Fragment, ghost item: Item)
      requires Valid() && plainLen == 0 && WellFormedFragment(f) && bytes == Encode(f) && SameImage(f, item)
      requires IndexBelow(f, |names|)
      modifies this`out, this`errors, this`fragments, this`items
      ensures Valid() && items == old(items) + [item] && errors == old(errors)
    {
      assert plain[..plainLen] == [];
      StandsFragment(fragments, items, f, item);
      FileGrows(Front(), fragments, f);
      RawPutAll(bytes);
      fragments, items := fragments + [f], items + [item];
    }

    /** putword. Constants are two plain bytes; a value to be relocated is one fragment of two bytes. */
    method PutWord(word: int, flags: Flags, lab: nat)
      requires Ready() && Listed(flags, lab)
      modifies this, plain
      ensures Ready() && errors >= old(errors)
      ensures errors == old(errors) ==> orgLock && pc == old(pc) + 2 && bufBytes == 0 && !flags.takelo && !flags.takehi
      ensures errors == old(errors) ==>
        items == old(items) + Zeros(old(bufBytes)) + WordItems(word, flags, externalIndex(lab))
      ensures errors == old(errors) <==> WordAccepted(flags)
    {
      if !ValDefs(flags) {
        PutByte(Lo(word), RESOLVED, 0);
        PutByte(Hi(word), RESOLVED, 0);
        return;
      }
      if flags.takelo || flags.takehi {
        errors := errors + 1;
        return;
      }
      PutByte(word, flags.(forceword := true), lab);
      pc := pc + 1;
    }

    /** The .buf directive: zeros that are only written when something follows. */
    method Buf(n: nat)
      requires Ready()
      modifies this`pc, this`bufBytes, this`errors
      ensures Ready() && pc == old(pc) + n && bufBytes == old(bufBytes) + n
      ensures errors == old(errors) + if n > 0xffff then 1 else 0
    {
      if n > 0xffff {
        errors := errors + 1;
      }
      bufBytes := bufBytes + n;
      pc := pc + n;
    }

    /** The end of the final pass. */
    method Close()
      requires Ready()
      modifies this, plain
      ensures orgLock == old(orgLock)
      ensures WellFormedStream(fragments) && out == Front() + (EncodeAll(fragments) + [0])
      ensures forall f <- fragments :: IndexBelow(f, |names|)
      ensures items == old(items) + Zeros(old(bufBytes)) && pc == old(pc) && errors == old(errors)
      ensures Stands(fragments, [], items)
    {
      PutZeros();
      CleanupPlainBuf();
      assert plain[..0] == [];
      AssociativeBytes(Front(), EncodeAll(fragments), [0]);
      RawPut(0);
    }
  }

  function WordItems(w: int, f: Flags, index: nat): seq<Item> {
    if !ValDefs(f) then [Plain(Lo(w)), Plain(Hi(w))] else [ItemOf(w, f, index)]
  }
}

/** lld: add_code and make_code. */
module Lld {
  import opened Words
  import opened ObjectFormat
  import opened Luna

  /** What reading an object file comes to: code and the unread rest; a rejected file; a file that
      ends too early; an access outside an array, which the program does not guard against; a label
      that is too long; or code that does not fit below 64k. */
  datatype Outcome =
    | Linked(code: seq<byte>, rest: seq<byte>, warned: bool)
    | IllObject
    | UnexpectedEof
    | OutOfBounds
    | LabelTooLong
    | Crossed64k

  function Word16(lo: byte, hi: byte): u16 { lo + 256 * hi }

  function PartOfCode(tmp: byte): int { tmp % 4 }

  function CodePart(c: int): Part
    requires 1 <= c <= 3
  {
    if c == 3 then Word else if c == 1 then Low else High
  }

  datatype Made = Made(bytes: seq<byte>) | Refused | Overrun

  /** make_code: the bytes for a value, given the fill and the size of the code buffer. */
  function MakeCode(tmp: byte, val: int, fill: nat, size: nat): Made {
    if PartOfCode(tmp) == 0 then Refused
    else
      var bytes := Take(CodePart(PartOfCode(tmp)), val);
      if fill + |bytes| > size then Overrun else Made(bytes)
  }

  /** The value that a fragment other than plain bytes stands for. */
  datatype Operand = Value(val: int, length: nat) | Short | BadIndex | BadPrefix | UnguardedIndex

  function OperandAt(s: seq<byte>, pc: int, ext: seq<int>): Operand
    requires s != [] && s[0] >= 0x80
  {
    var kind := s[0] / 16;
    if kind != 0x8 && kind != 0xc && kind != 0xd then BadPrefix
    else if |s| < (if kind == 0xd then 5 else 3) then Short
    else
      var i := Word16(s[1], s[2]);
      if kind == 0x8 then Value(i + pc, 3)
      else if i > |ext| then BadIndex
      else if i == |ext| then UnguardedIndex
      else if kind == 0xc then Value(ext[i], 3)
      else Value(ext[i] + SignedWord(Word16(s[3], s[4])), 5)
  }

  /** The relocation loop of add_code from the stream s, with code already in the buffer. */
  function Relocate(s: seq<byte>, pc: int, ext: seq<int>, code: seq<byte>, size: nat, warned: bool): Outcome
    decreases |s|
  {
    if s == [] then Linked(code, [], warned)
    else if s[0] == 0 then Linked(code, s[1..], warned)
    else if s[0] < 0x80 then
      if |code| + s[0] >= size then IllObject
      else if |s| < 1 + s[0] then UnexpectedEof
      else Relocate(s[1 + s[0]..], pc, ext, code + s[1..1 + s[0]], size, warned)
    else
      match OperandAt(s, pc, ext)
      case BadPrefix => IllObject
      case BadIndex => IllObject
      case Short => UnexpectedEof
      case UnguardedIndex => OutOfBounds
      case Value(val, length) =>
        match MakeCode(s[0], val, |code|, size)
        case Refused => IllObject
        case Overrun => OutOfBounds
        case Made(bytes) =>
          Relocate(s[length..], pc, ext, code + bytes, size, warned || |code| + 2 >= size)
  }

  // ---- the streams that luna writes

  lemma {:induction false} EncodeFirst(fs: seq<Fragment>)
    requires WellFormedStream(fs) && fs != []
    ensures EncodeAll(fs) == Encode(fs[0]) + EncodeAll(fs[1..])
  {
    if |fs| > 1 {
      var front, last := fs[..|fs| - 1], fs[|fs| - 1];
      EncodeFirst(front);
      assert fs[1..][..|fs[1..]| - 1] == front[1..];
      AssociativeBytes(Encode(front[0]), EncodeAll(front[1..]), Encode(last));
    }
  }

  lemma {:induction false} ImagesFirst(fs: seq<Fragment>, base: int, ext: nat -> int)
    requires fs != []
    ensures FragmentImages(fs, base, ext) == FragmentImage(fs[0], base, ext) + FragmentImages(fs[1..], base, ext)
  {
    if |fs| > 1 {
      var front, last := fs[..|fs| - 1], fs[|fs| - 1];
      ImagesFirst(front, base, ext);
      assert fs[1..][..|fs[1..]| - 1] == front[1..];
      AssociativeBytes(FragmentImage(front[0], base, ext), FragmentImages(front[1..], base, ext),
                       FragmentImage(last, base, ext));
    }
  }

  function AsFunction(ext: seq<int>): nat -> int { (k: nat) => if k < |ext| then ext[k] else 0 }

  lemma Word16OfBytes(w: u16)
    ensures Word16(Lo(w), Hi(w)) == w
  {
  }

  lemma DropPrefix(a: seq<byte>, tail: seq<byte>)
    ensures (a + tail)[|a|..] == tail
    ensures forall i :: 0 <= i < |a| ==> (a + tail)[i] == a[i]
  {
  }

  lemma OperandRel(s: seq<byte>, v: u16, pc: int, ext: seq<int>)
    requires |s| >= 3 && s[0] / 16 == 0x8 && s[1] == Lo(v) && s[2] == Hi(v)
    ensures OperandAt(s, pc, ext) == Value(v + pc, 3)
  {
    Word16OfBytes(v);
  }

  lemma OperandExt(s: seq<byte>, k: u16, pc: int, ext: seq<int>)
    requires |s| >= 3 && s[0] / 16 == 0xc && s[1] == Lo(k) && s[2] == Hi(k) && k < |ext|
    ensures OperandAt(s, pc, ext) == Value(ext[k], 3)
  {
    Word16OfBytes(k);
  }

  lemma OperandExtOffset(s: seq<byte>, k: u16, o: u16, pc: int, ext: seq<int>)
    requires |s| >= 5 && s[0] / 16 == 0xd && k < |ext|
    requires s[1] == Lo(k) && s[2] == Hi(k) && s[3] == Lo(o) && s[4] == Hi(o)
    ensures OperandAt(s, pc, ext) == Value(ext[k] + SignedWord(o), 5)
  {
    Word16OfBytes(k);
    Word16OfBytes(o);
  }

  /** The value of a fragment other than plain bytes, once base and externals are known. */
  function FragmentValue(f: Fragment, pc: int, ext: seq<int>): int
    requires !f.Raw? && IndexBelow(f, |ext|)
  {
    match f
    case Rel(_, v) => v + pc
    case Ext(_, k) => ext[k]
    case ExtOffset(_, k, o) => ext[k] + SignedWord(o)
  }

  /** It is what the linker finds there. */
  lemma OperandOfFragment(f: Fragment, tail: seq<byte>, pc: int, ext: seq<int>)
    requires !f.Raw? && IndexBelow(f, |ext|)
    ensures OperandAt(Encode(f) + tail, pc, ext) == Value(FragmentValue(f, pc, ext), |Encode(f)|)
  {
    var s := Encode(f) + tail;
    DropPrefix(Encode(f), tail);
    match f
    case Rel(_, v) => OperandRel(s, v, pc, ext);
    case Ext(_, k) => OperandExt(s, k, pc, ext);
    case ExtOffset(_, k, o) => OperandExtOffset(s, k, o, pc, ext);
  }

  /** The linker reads one fragment of luna's as what it stands for. */
  lemma RelocateFragment(f: Fragment, tail: seq<byte>, pc: int, ext: seq<int>, code: seq<byte>, size: nat)
    requires WellFormedFragment(f) && IndexBelow(f, |ext|)
    requires |code| + |FragmentImage(f, pc, AsFunction(ext))| + 2 <= size
    ensures Relocate(Encode(f) + tail, pc, ext, code, size, false)
         == Relocate(tail, pc, ext, code + FragmentImage(f, pc, AsFunction(ext)), size, false)
  {
    if f.Raw? {
      RelocateRaw(f.bytes, tail, pc, ext, code, size);
    } else {
      RelocateOther(f, tail, pc, ext, code, size);
      ImageIsTaken(f, pc, ext);
    }
  }

  lemma ImageIsTaken(f: Fragment, pc: int, ext: seq<int>)
    requires !f.Raw? && IndexBelow(f, |ext|)
    ensures FragmentImage(f, pc, AsFunction(ext)) == Take(f.part, FragmentValue(f, pc, ext))
  {
  }

  lemma PrefixByte(f: Fragment)
    requires !f.Raw?
    ensures |Encode(f)| >= 3 && Encode(f)[0] >= 0x80 && PartOfCode(Encode(f)[0]) == PartCode(f.part)
  {
  }

  lemma RelocateOther(f: Fragment, tail: seq<byte>, pc: int, ext: seq<int>, code: seq<byte>, size: nat)
    requires !f.Raw? && IndexBelow(f, |ext|)
    requires |code| + |Take(f.part, FragmentValue(f, pc, ext))| + 2 <= size
    ensures Relocate(Encode(f) + tail, pc, ext, code, size, false)
         == Relocate(tail, pc, ext, code + Take(f.part, FragmentValue(f, pc, ext)), size, false)
  {
    OperandOfFragment(f, tail, pc, ext);
    PrefixByte(f);
    var bytes, val := Encode(f), FragmentValue(f, pc, ext);
    DropPrefix(bytes, tail);
    RelocateValue(bytes + tail, f.part, val, |bytes|, pc, ext, code, size);
  }

  lemma RelocateRaw(b: seq<byte>, tail: seq<byte>, pc: int, ext: seq<int>, code: seq<byte>, size: nat)
    requires 0 < |b| < 0x80 && |code| + |b| + 2 <= size
    ensures Relocate([|b|] + b + tail, pc, ext, code, size, false) == Relocate(tail, pc, ext, code + b, size, false)
  {
    var s := [|b|] + b + tail;
    assert s[1..1 + |b|] == b && s[1 + |b|..] == tail;
  }

  lemma RelocateValue(s: seq<byte>, part: Part, val: int, length: nat, pc: int, ext: seq<int>, code: seq<byte>,
                      size: nat)
    requires s != [] && s[0] >= 0x80 && PartOfCode(s[0]) == PartCode(part)
    requires length <= |s| && OperandAt(s, pc, ext) == Value(val, length)
    requires |code| + |Take(part, val)| + 2 <= size
    ensures Relocate(s, pc, ext, code, size, false) ==
            Relocate(s[length..], pc, ext, code + Take(part, val), size, false)
  {
    assert MakeCode(s[0], val, |code|, size) == Made(Take(part, val));
  }

  /** A stream, its end mark and what follows, by its first fragment. */
  lemma StreamFirst(fs: seq<Fragment>, tail: seq<byte>)
    requires WellFormedStream(fs) && fs != []
    ensures EncodeAll(fs) + [0] + tail == Encode(fs[0]) + (EncodeAll(fs[1..]) + [0] + tail)
  {
    EncodeFirst(fs);
    AssociativeBytes(Encode(fs[0]), EncodeAll(fs[1..]), [0]);
    AssociativeBytes(Encode(fs[0]), EncodeAll(fs[1..]) + [0], tail);
  }

  lemma RelocateEnd(tail: seq<byte>, pc: int, ext: seq<int>, code: seq<byte>, size: nat)
    ensures Relocate([] + [0] + tail, pc, ext, code, size, false) == Linked(code, tail, false)
  {
    var s := [] + [0] + tail;
    assert s[1..] == tail;
  }

  /** Linking a whole stream: no guard fires, nothing is left over, nothing is missing. */
  lemma {:induction false} RelocateStream(fs: seq<Fragment>, tail: seq<byte>, pc: int, ext: seq<int>, code: seq<byte>,
                                          size: nat)
    requires WellFormedStream(fs) && forall f <- fs :: IndexBelow(f, |ext|)
    requires |code| + |FragmentImages(fs, pc, AsFunction(ext))| + 2 <= size
    ensures Relocate(EncodeAll(fs) + [0] + tail, pc, ext, code, size, false)
         == Linked(code + FragmentImages(fs, pc, AsFunction(ext)), tail, false)
    decreases |fs|
  {
    if fs == [] {
      RelocateEnd(tail, pc, ext, code, size);
      assert code + [] == code;
    } else {
      var first, rest := FragmentImage(fs[0], pc, AsFunction(ext)), FragmentImages(fs[1..], pc, AsFunction(ext));
      StreamFirst(fs, tail);
      ImagesFirst(fs, pc, AsFunction(ext));
      RelocateFragment(fs[0], EncodeAll(fs[1..]) + [0] + tail, pc, ext, code, size);
      RelocateStream(fs[1..], tail, pc, ext, code + first, size);
      AssociativeBytes(code, first, rest);
    }
  }

  /** From putbyte calls to code in place: the linked code is the image of the items, as many bytes
      as the program counter ended at, in a buffer of that size plus two. */
  lemma LinkedCode(fs: seq<Fragment>, items: seq<Item>, pcEnd: nat, pc: int, ext: seq<int>)
    requires WellFormedStream(fs) && (forall f <- fs :: IndexBelow(f, |ext|)) && Stands(fs, [], items)
    requires pcEnd == Width(items)
    ensures Relocate(EncodeAll(fs) + [0], pc, ext, [], pcEnd + 2, false)
         == Linked(Images(items, pc, AsFunction(ext)), [], false)
    ensures |Images(items, pc, AsFunction(ext))| == pcEnd
  {
    StandsMeans(fs, items, pc, AsFunction(ext));
    WidthIsImageLength(items, pc, AsFunction(ext));
    RelocateWhole(fs, Images(items, pc, AsFunction(ext)), pc, ext, pcEnd + 2);
  }

  lemma StandsMeans(fs: seq<Fragment>, items: seq<Item>, pc: int, ext: nat -> int)
    requires Stands(fs, [], items)
    ensures FragmentImages(fs, pc, ext) == Images(items, pc, ext)
  {
    assert StandsAt(fs, [], items, pc, ext);
    NoBytes(FragmentImages(fs, pc, ext));
  }

  lemma NoBytes(a: seq<byte>)
    ensures a + [] == a && [] + a == a
  {
  }

  lemma RelocateWhole(fs: seq<Fragment>, img: seq<byte>, pc: int, ext: seq<int>, size: nat)
    requires WellFormedStream(fs) && (forall f <- fs :: IndexBelow(f, |ext|))
    requires img == FragmentImages(fs, pc, AsFunction(ext)) && |img| + 2 <= size
    ensures Relocate(EncodeAll(fs) + [0], pc, ext, [], size, false) == Linked(img, [], false)
  {
    RelocateStream(fs, [], pc, ext, [], size);
    NoBytes(img);
    NoBytes(EncodeAll(fs) + [0]);
  }

  // ---- the list of externals in front of the code

  datatype NamesRead = Names(names: seq<seq<byte>>, rest: seq<byte>) | NamesCutOff

  function IndexOfZero(s: seq<byte>): (n: nat)
    ensures n <= |s| && (n < |s| ==> s[n] == 0) && forall i :: 0 <= i < n ==> s[i] != 0
  {
    if s == [] || s[0] == 0 then 0 else 1 + IndexOfZero(s[1..])
  }

  /** Zero-terminated names up to an empty one. */
  function ReadNames(s: seq<byte>, names: seq<seq<byte>>): NamesRead
    decreases |s|
  {
    if s == [] then NamesCutOff
    else if s[0] == 0 then Names(names, s[1..])
    else
      var n := IndexOfZero(s);
      if n == |s| then NamesCutOff else ReadNames(s[n + 1..], names + [s[..n]])
  }

  lemma ZeroAt(s: seq<byte>, n: nat)
    requires n < |s| && s[n] == 0 && forall i :: 0 <= i < n ==> s[i] != 0
    ensures IndexOfZero(s) == n
  {
  }

  lemma {:induction false} ReadEncodedNames(names: seq<seq<byte>>, tail: seq<byte>, before: seq<seq<byte>>)
    requires forall n <- names :: IsName(n)
    ensures ReadNames(EncodeNames(names) + tail, before) == Names(before + names, tail)
    decreases |names|
  {
    var s := EncodeNames(names) + tail;
    if names == [] {
      assert s == [0] + tail && s[1..] == tail && before + names == before;
    } else {
      var n, rest := names[0], EncodeNames(names[1..]) + tail;
      assert n in names && s == n + [0] + rest;
      ReadOneName(n, rest, before);
      ReadEncodedNames(names[1..], tail, before + [n]);
      assert before + [n] + names[1..] == before + names;
    }
  }

  lemma ReadOneName(n: seq<byte>, rest: seq<byte>, before: seq<seq<byte>>)
    requires IsName(n)
    ensures ReadNames(n + [0] + rest, before) == ReadNames(rest, before + [n])
  {
    var s := n + [0] + rest;
    forall i | 0 <= i < |n| ensures s[i] != 0 {
      assert s[i] == n[i] && n[i] in n;
    }
    ZeroAt(s, |n|);
    assert s[..|n|] == n && s[|n| + 1..] == rest;
  }

  function ValuesOf(names: seq<seq<byte>>, value: seq<byte> -> int): (r: seq<int>)
    ensures |r| == |names|
  {
    seq(|names|, i requires 0 <= i < |names| => value(names[i]))
  }

  /** add_code on a whole file, the values of global names being given. */
  function AddCodeResult(s: seq<byte>, pc: int, value: seq<byte> -> int, size: nat): Outcome {
    match ReadNames(s, [])
    case NamesCutOff => UnexpectedEof
    case Names(names, rest) => Relocate(rest, pc, ValuesOf(names, value), [], size, false)
  }

  // ---- the header

  const LABEL_LENGTH_MAX: nat := 40

  datatype Skipped = Rest(s: seq<byte>) | Failed(o: Outcome)

  /** A zero-terminated name; only the first pass looks at its length. */
  function SkipLabel(s: seq<byte>, check: bool): (r: Skipped)
    ensures r.Rest? ==> |r.s| < |s|
  {
    var n := IndexOfZero(s);
    if check && n >= LABEL_LENGTH_MAX then Failed(LabelTooLong)
    else if n == |s| then Failed(UnexpectedEof)
    else Rest(s[n + 1..])
  }

  /** The list of globals, each with two bytes for its value. */
  function SkipGlobals(s: seq<byte>, check: bool): (r: Skipped)
    ensures r.Rest? ==> |r.s| < |s|
    decreases |s|
  {
    if s == [] then Failed(UnexpectedEof)
    else if s[0] == 0 then Rest(s[1..])
    else
      match SkipLabel(s, check)
      case Failed(o) => Failed(o)
      case Rest(t) => if |t| < 2 then Failed(UnexpectedEof) else SkipGlobals(t[2..], check)
  }

  /** The list of externals, as the first pass reads it. */
  function SkipNames(s: seq<byte>): Skipped
    decreases |s|
  {
    if s == [] then Failed(UnexpectedEof)
    else if s[0] == 0 then Rest(s[1..])
    else
      match SkipLabel(s, true)
      case Failed(o) => Failed(o)
      case Rest(t) => SkipNames(t)
  }

  datatype SizeRead = Size(size: u16, rest: seq<byte>) | NoSize(o: Outcome)

  /** Magic, globals and size; the second pass does not look at the magic again. */
  function ReadSize(s: seq<byte>, first: bool): SizeRead {
    if |s| < 3 then NoSize(UnexpectedEof)
    else if first && s[..3] != MAGIC then NoSize(IllObject)
    else
      match SkipGlobals(s[3..], first)
      case Failed(o) => NoSize(o)
      case Rest(t) => if |t| < 2 then NoSize(UnexpectedEof) else Size(Word16(t[0], t[1]), t[2..])
  }

  /** The first pass over a file, which ends with the test that the code stays below 64k. */
  function FirstPass(s: seq<byte>, pc: u16): Skipped {
    match ReadSize(s, true)
    case NoSize(o) => Failed(o)
    case Size(size, rest) =>
      match SkipNames(rest)
      case Failed(o) => Failed(o)
      case Rest(_) => if pc + size > 0xffff then Failed(Crossed64k) else Rest([])
  }

  /** The second pass: the code buffer has two bytes more than the header says, and nothing may follow. */
  function SecondPass(s: seq<byte>, pc: u16, value: seq<byte> -> int): Outcome {
    match ReadSize(s, false)
    case NoSize(o) => o
    case Size(size, rest) =>
      var o := AddCodeResult(rest, pc, value, size + 2);
      if o.Linked? && o.rest != [] then IllObject else o
  }

  /** Linking one object file at an address, the values of the externals being given. */
  function LinkFile(s: seq<byte>, pc: u16, value: seq<byte> -> int): Outcome {
    var f := FirstPass(s, pc);
    if f.Failed? then f.o else SecondPass(s, pc, value)
  }

  lemma SkipOneLabel(n: seq<byte>, rest: seq<byte>, check: bool)
    requires IsName(n)
    ensures SkipLabel(n + [0] + rest, check) == Rest(rest)
    ensures (n + [0] + rest)[0] != 0
  {
    var s := n + [0] + rest;
    forall i | 0 <= i < |n| ensures s[i] != 0 {
      assert s[i] == n[i] && n[i] in n;
    }
    ZeroAt(s, |n|);
    assert s[|n| + 1..] == rest;
  }

  lemma {:induction false} SkipEncodedGlobals(globals: seq<Global>, tail: seq<byte>, check: bool)
    requires AreGlobals(globals)
    ensures SkipGlobals(EncodeGlobals(globals) + tail, check) == Rest(tail)
    decreases |globals|
  {
    if globals == [] {
      assert ([0] + tail)[1..] == tail;
    } else {
      var g, rest := globals[0], EncodeGlobals(globals[1..]) + tail;
      var value := [Lo(g.value), Hi(g.value)];
      assert g in globals && EncodeGlobals(globals) + tail == g.name + [0] + (value + rest);
      SkipOneLabel(g.name, value + rest, check);
      assert (value + rest)[2..] == rest;
      SkipEncodedGlobals(globals[1..], tail, check);
    }
  }

  lemma {:induction false} SkipEncodedNames(names: seq<seq<byte>>, tail: seq<byte>)
    requires forall n <- names :: IsName(n)
    ensures SkipNames(EncodeNames(names) + tail) == Rest(tail)
    decreases |names|
  {
    if names == [] {
      assert ([0] + tail)[1..] == tail;
    } else {
      var rest := EncodeNames(names[1..]) + tail;
      assert names[0] in names && EncodeNames(names) + tail == names[0] + [0] + rest;
      SkipOneLabel(names[0], rest, true);
      SkipEncodedNames(names[1..], tail);
    }
  }

  /** The linker finds the size that luna has written: the low 16 bits of pc_end. */
  lemma ReadHeader(globals: seq<Global>, pcEnd: nat, names: seq<seq<byte>>, code: seq<byte>, first: bool)
    requires AreGlobals(globals)
    ensures ReadSize(Header(globals, pcEnd, names) + code, first) == Size(pcEnd % 0x1_0000, EncodeNames(names) + code)
  {
    var s := Header(globals, pcEnd, names) + code;
    var size := [Lo(pcEnd), Hi(pcEnd)];
    var rest := EncodeNames(names) + code;
    HeaderParts(EncodeGlobals(globals), size, EncodeNames(names), code);
    assert s[3..] == EncodeGlobals(globals) + (size + rest) && s[..3] == MAGIC;
    SkipEncodedGlobals(globals, size + rest, first);
    assert (size + rest)[2..] == rest;
    StoredSize(pcEnd);
  }

  lemma HeaderParts(a: seq<byte>, b: seq<byte>, c: seq<byte>, d: seq<byte>)
    ensures MAGIC + (a + (b + c)) + d == MAGIC + (a + (b + (c + d)))
  {
    AssociativeBytes(MAGIC, a + (b + c), d);
    AssociativeBytes(a, b + c, d);
    AssociativeBytes(b, c, d);
  }

  lemma StoredSize(n: nat)
    ensures Word16(Lo(n), Hi(n)) == n % 0x1_0000
  {
    var q := n / 256;
    assert n == 0x1_0000 * (q / 256) + (256 * (q % 256) + n % 256);
  }

  /** The size field holds pc_end, or far less than that. */
  lemma SizeField(pcEnd: nat) returns (size: nat)
    ensures size == pcEnd % 0x1_0000
    ensures if pcEnd < 0x1_0000 then size == pcEnd else size + 2 < pcEnd
  {
    size := pcEnd % 0x1_0000;
  }

  /** Both passes over a file that has a header. */
  lemma LinkWithHeader(globals: seq<Global>, pcEnd: nat, size: nat, names: seq<seq<byte>>, code: seq<byte>, pc: u16,
                       value: seq<byte> -> int)
    requires AreGlobals(globals) && (forall n <- names :: IsName(n)) && size == pcEnd % 0x1_0000
    ensures var o := AddCodeResult(EncodeNames(names) + code, pc, value, size + 2);
      LinkFile(Header(globals, pcEnd, names) + code, pc, value) ==
        if pc + size > 0xffff then Crossed64k else if o.Linked? && o.rest != [] then IllObject else o
  {
    ReadHeader(globals, pcEnd, names, code, true);
    ReadHeader(globals, pcEnd, names, code, false);
    SkipEncodedNames(names, code);
    PassesOver(Header(globals, pcEnd, names) + code, EncodeNames(names) + code, pc, size, value);
  }

  /** Both passes over a file whose size field and externals can be read. */
  lemma PassesOver(s: seq<byte>, rest: seq<byte>, pc: u16, size: u16, value: seq<byte> -> int)
    requires ReadSize(s, true) == ReadSize(s, false) == Size(size, rest) && SkipNames(rest).Rest?
    ensures var o := AddCodeResult(rest, pc, value, size + 2);
      LinkFile(s, pc, value) ==
        if pc + size > 0xffff then Crossed64k else if o.Linked? && o.rest != [] then IllObject else o
  {
  }

  /** Linked code never outgrows the buffer. */
  lemma {:induction false} LinkedFits(s: seq<byte>, pc: int, ext: seq<int>, code: seq<byte>, size: nat, warned: bool)
    requires |code| <= size
    ensures var o := Relocate(s, pc, ext, code, size, warned);
      o.Linked? ==> |o.code| <= size
    decreases |s|
  {
    if s == [] || s[0] == 0 {
    } else if s[0] < 0x80 {
      if |code| + s[0] < size && |s| >= 1 + s[0] {
        LinkedFits(s[1 + s[0]..], pc, ext, code + s[1..1 + s[0]], size, warned);
      }
    } else {
      var v := OperandAt(s, pc, ext);
      if v.Value? {
        var made := MakeCode(s[0], v.val, |code|, size);
        if made.Made? {
          LinkedFits(s[v.length..], pc, ext, code + made.bytes, size, warned || |code| + 2 >= size);
        }
      }
    }
  }

  /** What luna writes, lld reads back as the bytes that were asked for, exactly if they end below 64k. */
  lemma ObjectFileRoundTrip(globals: seq<Global>, names: seq<seq<byte>>, fs: seq<Fragment>, items: seq<Item>,
                            pc: u16, value: seq<byte> -> int)
    requires AreGlobals(globals) && (forall n <- names :: IsName(n))
    requires WellFormedStream(fs) && (forall f <- fs :: IndexBelow(f, |names|)) && Stands(fs, [], items)
    ensures var code := Images(items, pc, AsFunction(ValuesOf(names, value)));
      var o := LinkFile(Header(globals, Width(items), names) + (EncodeAll(fs) + [0]), pc, value);
      |code| == Width(items) && (o == Linked(code, [], false) <==> pc + Width(items) <= 0xffff)
  {
    var code := Images(items, pc, AsFunction(ValuesOf(names, value)));
    WidthIsImageLength(items, pc, AsFunction(ValuesOf(names, value)));
    var size := SizeField(Width(items));
    var stream := EncodeAll(fs) + [0];
    LinkWithHeader(globals, Width(items), size, names, stream, pc, value);
    if Width(items) < 0x1_0000 {
      StreamLinked(names, fs, items, pc, value);
    } else {
      StreamTooLong(names, stream, size, pc, value);
    }
  }

  /** With a buffer for all of it, the list of externals and the stream give the code. */
  lemma StreamLinked(names: seq<seq<byte>>, fs: seq<Fragment>, items: seq<Item>, pc: int, value: seq<byte> -> int)
    requires (forall n <- names :: IsName(n)) && WellFormedStream(fs) && (forall f <- fs :: IndexBelow(f, |names|))
    requires Stands(fs, [], items)
    ensures AddCodeResult(EncodeNames(names) + (EncodeAll(fs) + [0]), pc, value, Width(items) + 2)
         == Linked(Images(items, pc, AsFunction(ValuesOf(names, value))), [], false)
  {
    AddCodeAfterNames(names, EncodeAll(fs) + [0], pc, value, Width(items) + 2);
    LinkedCode(fs, items, Width(items), pc, ValuesOf(names, value));
  }

  /** With a smaller buffer no code longer than the buffer comes out. */
  lemma StreamTooLong(names: seq<seq<byte>>, stream: seq<byte>, size: nat, pc: int, value: seq<byte> -> int)
    requires forall n <- names :: IsName(n)
    ensures var o := AddCodeResult(EncodeNames(names) + stream, pc, value, size + 2);
      o.Linked? ==> |o.code| <= size + 2
  {
    AddCodeAfterNames(names, stream, pc, value, size + 2);
    LinkedFits(stream, pc, ValuesOf(names, value), [], size + 2, false);
  }

  lemma AddCodeAfterNames(names: seq<seq<byte>>, stream: seq<byte>, pc: int, value: seq<byte> -> int, size: nat)
    requires forall n <- names :: IsName(n)
    ensures AddCodeResult(EncodeNames(names) + stream, pc, value, size)
         == Relocate(stream, pc, ValuesOf(names, value), [], size, false)
  {
    ReadEncodedNames(names, stream, []);
    assert [] + names == names;
  }

  /** Without any putbyte there is no header, only zeros, and the file is rejected. */
  lemma NoHeaderRejected(fs: seq<Fragment>, n: nat, pc: u16, value: seq<byte> -> int)
    requires WellFormedStream(fs) && Stands(fs, [], Zeros(n))
    ensures !LinkFile(EncodeAll(fs) + [0], pc, value).Linked?
  {
    var s := EncodeAll(fs) + [0];
    if fs != [] {
      EncodeFirst(fs);
      if fs[0].Raw? {
        FirstIsZero(fs, n);
        assert s[1] == fs[0].bytes[0];
      } else {
        PrefixByte(fs[0]);
        assert s[0] == Encode(fs[0])[0];
      }
    }
    NoMagic(s, pc, value);
  }

  lemma NoMagic(s: seq<byte>, pc: u16, value: seq<byte> -> int)
    requires |s| < 3 || s[0] != MAGIC[0] || s[1] != MAGIC[1]
    ensures !LinkFile(s, pc, value).Linked?
  {
    if |s| >= 3 {
      var m := s[..3];
      assert m[0] == s[0] && m[1] == s[1];
      assert ReadSize(s, true) == NoSize(IllObject);
    }
  }

  lemma FirstIsZero(fs: seq<Fragment>, n: nat)
    requires fs != [] && fs[0].Raw? && WellFormedFragment(fs[0]) && Stands(fs, [], Zeros(n))
    ensures fs[0].bytes[0] == 0
  {
    var ext: nat -> int := k => 0;
    StandsMeans(fs, Zeros(n), 0, ext);
    ImagesFirst(fs, 0, ext);
    ZeroImages(n, 0, ext);
    var image := FragmentImages(fs, 0, ext);
    assert image[0] == fs[0].bytes[0] && image[0] in Images(Zeros(n), 0, ext);
  }

  lemma {:induction false} ZeroImages(n: nat, base: int, ext: nat -> int)
    ensures forall b <- Images(Zeros(n), base, ext) :: b == 0
  {
    if n > 0 {
      ZeroImages(n - 1, base, ext);
      assert Zeros(n)[..n - 1] == Zeros(n - 1);
    }
  }

  class Linker {
    const buffer: array<byte>
    var fill: nat
    /** The message about the buffer being nearly full was given. */
    var warned: bool

    constructor (size: nat)
      ensures fresh(buffer) && buffer.Length == size && fill == 0 && !warned
    {
      buffer := new byte[size](i => 0);
      fill, warned := 0, false;
    }

    /** add_code: reads the object file from its list of externals on. */
    method AddCode(s: seq<byte>, pc: int, value: seq<byte> -> int) returns (o: Outcome)
      requires fill == 0 && !warned
      modifies this, buffer
      ensures o == AddCodeResult(s, pc, value, buffer.Length)
      ensures o.Linked? ==> fill == |o.code| <= buffer.Length && buffer[..fill] == o.code && warned == o.warned
    {
      var r := ReadNameList(s);
      if r.NamesCutOff? {
        return UnexpectedEof;
      }
      o := RelocateLoop(r.rest, pc, ValuesOf(r.names, value));
    }

    /** The loop that fills the table of externals. */
    method ReadNameList(s: seq<byte>) returns (r: NamesRead)
      ensures r == ReadNames(s, [])
    {
      var unread, labMap := s, [];
      while unread != [] && unread[0] != 0
        invariant ReadNames(s, []) == ReadNames(unread, labMap)
        decreases |unread|
      {
        var n := IndexOfZero(unread);
        if n == |unread| {
          return NamesCutOff;
        }
        labMap := labMap + [unread[..n]];
        unread := unread[n + 1..];
      }
      if unread == [] {
        return NamesCutOff;
      }
      return Names(labMap, unread[1..]);
    }

    /** The loop over the fragments. */
    method RelocateLoop(s: seq<byte>, pc: int, ext: seq<int>) returns (o: Outcome)
      requires fill == 0 && !warned
      modifies this, buffer
      ensures o == Relocate(s, pc, ext, [], buffer.Length, false)
      ensures o.Linked? ==> fill == |o.code| <= buffer.Length && buffer[..fill] == o.code && warned == o.warned
    {
      var unread := s;
      while unread != []
        invariant fill <= buffer.Length
        invariant Relocate(s, pc, ext, [], buffer.Length, false)
               == Relocate(unread, pc, ext, buffer[..fill], buffer.Length, warned)
        decreases |unread|
      {
        var tmp := unread[0];
        if tmp == 0 {
          return Linked(buffer[..fill], unread[1..], warned);
        } else if tmp < 0x80 {
          if fill + tmp >= buffer.Length { return IllObject; }
          if |unread| < 1 + tmp { return UnexpectedEof; }
          Store(unread[1..1 + tmp]);
          unread := unread[1 + tmp..];
        } else {
          match OperandAt(unread, pc, ext) {
            case BadPrefix => return IllObject;
            case BadIndex => return IllObject;
            case Short => return UnexpectedEof;
            case UnguardedIndex => return OutOfBounds;
            case Value(val, length) =>
              var made := MakeCode(tmp, val, fill, buffer.Length);
              if made.Refused? { return IllObject; }
              if made.Overrun? { return OutOfBounds; }
              if fill + 2 >= buffer.Length { warned := true; }
              Store(made.bytes);
              unread := unread[length..];
          }
        }
      }
      return Linked(buffer[..fill], [], warned);
    }

    /** code_buffer[code_buffer_ptr++] = ... for each byte. */
    method Store(bytes: seq<byte>)
      requires fill + |bytes| <= buffer.Length
      modifies this`fill, buffer
      ensures fill == old(fill) + |bytes| && buffer[..fill] == old(buffer[..fill]) + bytes
    {
      var i := 0;
      while i < |bytes|
        invariant 0 <= i <= |bytes| && fill == old(fill) + i
        invariant buffer[..fill] == old(buffer[..fill]) + bytes[..i]
      {
        buffer[fill] := bytes[i];
        fill := fill + 1;
        i := i + 1;
      }
      assert bytes[..|bytes|] == bytes;
    }
  }

  /** Passing over a name. */
  method ReadLabel(s: seq<byte>, check: bool) returns (r: Skipped)
    ensures r == SkipLabel(s, check)
  {
    var j := 0;
    while j < |s| && s[j] != 0 && !(check && j >= LABEL_LENGTH_MAX)
      invariant 0 <= j <= |s| && (check ==> j <= LABEL_LENGTH_MAX)
      invariant forall i :: 0 <= i < j ==> s[i] != 0
    {
      j := j + 1;
    }
    if check && j >= LABEL_LENGTH_MAX {
      return Failed(LabelTooLong);
    }
    if j == |s| {
      return Failed(UnexpectedEof);
    }
    ZeroAt(s, j);
    r := Rest(s[j + 1..]);
  }

  /** The loops over the globals in the first pass and in open_ext. */
  method ReadGlobalList(s: seq<byte>, check: bool) returns (r: Skipped)
    ensures r == SkipGlobals(s, check)
  {
    var unread := s;
    while unread != [] && unread[0] != 0
      invariant SkipGlobals(s, check) == SkipGlobals(unread, check)
      decreases |unread|
    {
      var name := ReadLabel(unread, check);
      if name.Failed? {
        return name;
      }
      if |name.s| < 2 {
        return Failed(UnexpectedEof);
      }
      unread := name.s[2..];
    }
    r := if unread == [] then Failed(UnexpectedEof) else Rest(unread[1..]);
  }

  method ReadSizeField(s: seq<byte>, first: bool) returns (r: SizeRead)
    ensures r == ReadSize(s, first)
  {
    if |s| < 3 {
      return NoSize(UnexpectedEof);
    }
    if first && s[..3] != MAGIC {
      return NoSize(IllObject);
    }
    var t := ReadGlobalList(s[3..], first);
    if t.Failed? {
      return NoSize(t.o);
    }
    if |t.s| < 2 {
      return NoSize(UnexpectedEof);
    }
    r := Size(Word16(t.s[0], t.s[1]), t.s[2..]);
  }

  /** The loop over the externals in the first pass. */
  method ReadExternals(s: seq<byte>) returns (r: Skipped)
    ensures r == SkipNames(s)
  {
    var unread := s;
    while unread != [] && unread[0] != 0
      invariant SkipNames(s) == SkipNames(unread)
      decreases |unread|
    {
      var name := ReadLabel(unread, true);
      if name.Failed? {
        return name;
      }
      unread := name.s;
    }
    r := if unread == [] then Failed(UnexpectedEof) else Rest(unread[1..]);
  }

  /** Both passes of lld over one file. */
  method LinkObject(s: seq<byte>, pc: u16, value: seq<byte> -> int) returns (o: Outcome)
    ensures o == LinkFile(s, pc, value)
  {
    var header := ReadSizeField(s, true);
    if header.NoSize? {
      return header.o;
    }
    var externals := ReadExternals(header.rest);
    if externals.Failed? {
      return externals.o;
    }
    if pc + header.size > 0xffff {
      return Crossed64k;
    }
    header := ReadSizeField(s, false);
    if header.NoSize? {
      return header.o;
    }
    var l := new Linker(header.size + 2);
    o := l.AddCode(header.rest, pc, value);
    if o.Linked? && o.rest != [] {
      o := IllObject;
    }
  }

  // ---- both programs together

  /** What luna is asked to emit, in order. */
  datatype Call = ByteCall(i: int, flags: Flags, lab: nat) | WordCall(w: int, flags: Flags, lab: nat) | BufCall(n: nat)

  function CallItems(c: Call, externalIndex: nat -> u16): seq<Item> {
    match c
    case ByteCall(i, flags, lab) => [ItemOf(i, flags, externalIndex(lab))]
    case WordCall(w, flags, lab) => WordItems(w, flags, externalIndex(lab))
    case BufCall(n) => Zeros(n)
  }

  function AllItems(calls: seq<Call>, externalIndex: nat -> u16): seq<Item> {
    if calls == [] then []
    else AllItems(calls[..|calls| - 1], externalIndex) + CallItems(calls[|calls| - 1], externalIndex)
  }

  /** luna reports no error for the call. */
  predicate Accepted(c: Call) {
    match c
    case ByteCall(_, flags, _) => ByteAccepted(flags)
    case WordCall(_, flags, _) => WordAccepted(flags)
    case BufCall(n) => n <= 0xffff
  }

  predicate AllAccepted(calls: seq<Call>) { forall c <- calls :: Accepted(c) }

  /** Flags come from an expression; external labels are in the list. */
  ghost predicate GoodCall(c: Call, externalIndex: nat -> u16, externals: nat) {
    !c.BufCall? ==> !c.flags.forceword && (c.flags.external ==> externalIndex(c.lab) < externals)
  }

  lemma ItemWidth(item: Item)
    ensures Width([item]) == if item.Plain? || item.part != Word then 1 else 2
  {
    assert [item][..0] == [];
  }

  lemma WordItemsWidth(w: int, f: Flags, index: nat)
    requires !f.takelo && !f.takehi
    ensures Width(WordItems(w, f, index)) == 2
  {
    ItemWidth(ItemOf(w, f, index));
    ItemWidth(Plain(Lo(w)));
    ItemWidth(Plain(Hi(w)));
    WidthConcat([Plain(Lo(w))], [Plain(Hi(w))]);
  }

  /** The program counter after zeros and one more group of items. */
  lemma WidthAfter(items: seq<Item>, n: nat, more: seq<Item>)
    ensures Width(items + Zeros(n) + more) == Width(items) + n + Width(more)
  {
    WidthConcat(items + Zeros(n), more);
    WidthConcat(items, Zeros(n));
    WidthZeros(n);
  }

  lemma NoZeros(items: seq<Item>)
    ensures items + Zeros(0) == items
  {
  }

  lemma MoreZeros(items: seq<Item>, m: nat, n: nat)
    ensures items + Zeros(m + n) == items + Zeros(m) + Zeros(n)
  {
  }

  /** What a call adds to the program counter. */
  function CallWidth(c: Call): nat {
    match c case ByteCall(_, _, _) => 1 case WordCall(_, _, _) => 2 case BufCall(n) => n
  }

  function CallsWidth(calls: seq<Call>): nat {
    if calls == [] then 0 else CallsWidth(calls[..|calls| - 1]) + CallWidth(calls[|calls| - 1])
  }

  /** Something other than .buf is asked for. */
  predicate Emits(calls: seq<Call>) { exists c <- calls :: !c.BufCall? }

  lemma OneMoreCall(calls: seq<Call>, c: Call, externalIndex: nat -> u16)
    ensures CallsWidth(calls + [c]) == CallsWidth(calls) + CallWidth(c)
    ensures AllItems(calls + [c], externalIndex) == AllItems(calls, externalIndex) + CallItems(c, externalIndex)
    ensures Emits(calls + [c]) <==> Emits(calls) || !c.BufCall?
    ensures AllAccepted(calls + [c]) <==> AllAccepted(calls) && Accepted(c)
  {
    var longer := calls + [c];
    assert longer[..|calls|] == calls && c in longer;
    assert forall d <- calls :: d in longer;
  }

  /** Errors are reported unless all calls are in order. While there is none, the items and the pending
      zeros are what the calls so far have asked for, the program counter keeps step, and the header is
      there if anything was emitted. */
  ghost predicate InStep(a: Assembler, wanted: seq<Item>, width: nat, emits: bool, ok: bool)
    reads a
  {
    && (a.errors == 0 <==> ok)
    && (a.errors == 0 ==>
          a.PcAgrees() && a.items + Zeros(a.bufBytes) == wanted && a.pc == width && a.orgLock == emits)
  }

  method EmitByte(a: Assembler, i: int, flags: Flags, lab: nat, ghost wanted: seq<Item>, ghost width: nat,
                  ghost emits: bool, ghost ok: bool)
    requires a.Ready() && GoodCall(ByteCall(i, flags, lab), a.externalIndex, |a.names|)
    requires InStep(a, wanted, width, emits, ok)
    modifies a, a.plain
    ensures a.Ready() && InStep(a, wanted + [ItemOf(i, flags, a.externalIndex(lab))], width + 1, true,
                                  ok && ByteAccepted(flags))
  {
    ghost var item := ItemOf(i, flags, a.externalIndex(lab));
    WidthAfter(a.items, a.bufBytes, [item]);
    ItemWidth(item);
    a.PutByte(i, flags, lab);
    NoZeros(a.items);
  }

  method EmitWord(a: Assembler, w: int, flags: Flags, lab: nat, ghost wanted: seq<Item>, ghost width: nat,
                  ghost emits: bool, ghost ok: bool)
    requires a.Ready() && GoodCall(WordCall(w, flags, lab), a.externalIndex, |a.names|)
    requires InStep(a, wanted, width, emits, ok)
    modifies a, a.plain
    ensures a.Ready() && InStep(a, wanted + WordItems(w, flags, a.externalIndex(lab)), width + 2, true,
                                  ok && WordAccepted(flags))
  {
    ghost var more := WordItems(w, flags, a.externalIndex(lab));
    WidthAfter(a.items, a.bufBytes, more);
    if !flags.takelo && !flags.takehi { WordItemsWidth(w, flags, a.externalIndex(lab)); }
    a.PutWord(w, flags, lab);
    NoZeros(a.items);
  }

  method EmitBuf(a: Assembler, n: nat, ghost wanted: seq<Item>, ghost width: nat, ghost emits: bool, ghost ok: bool)
    requires a.Ready() && InStep(a, wanted, width, emits, ok)
    modifies a
    ensures a.Ready() && InStep(a, wanted + Zeros(n), width + n, emits, ok && n <= 0xffff)
  {
    MoreZeros(a.items, a.bufBytes, n);
    a.Buf(n);
  }

  /** luna's final pass over a sequence of calls. */
  method Assemble(calls: seq<Call>, globals: seq<Global>, pcEnd: nat, names: seq<seq<byte>>, externalIndex: nat -> u16)
    returns (a: Assembler)
    requires forall c <- calls :: GoodCall(c, externalIndex, |names|)
    ensures fresh(a) && fresh(a.plain) && a.globals == globals && a.pcEnd == pcEnd && a.names == names
    ensures WellFormedStream(a.fragments) && a.out == a.Front() + (EncodeAll(a.fragments) + [0])
    ensures (forall f <- a.fragments :: IndexBelow(f, |names|)) && Stands(a.fragments, [], a.items)
    ensures a.errors == 0 ==> a.items == AllItems(calls, externalIndex) && Width(a.items) == CallsWidth(calls)
    ensures a.errors == 0 ==> a.orgLock == Emits(calls)
    ensures a.errors == 0 <==> AllAccepted(calls)
  {
    a := new Assembler(globals, pcEnd, names, externalIndex);
    NoZeros(a.items);
    EmitCalls(a, calls);
    Finish(a, calls);
  }

  method EmitCalls(a: Assembler, calls: seq<Call>)
    requires a.Ready() && Follows(a, []) && forall c <- calls :: GoodCall(c, a.externalIndex, |a.names|)
    modifies a, a.plain
    ensures a.Ready() && Follows(a, calls)
  {
    for i := 0 to |calls|
      invariant a.Ready() && Follows(a, calls[..i])
    {
      EmitNext(a, calls, i);
    }
    Prefixes(calls, |calls|);
  }

  method EmitNext(a: Assembler, calls: seq<Call>, i: nat)
    requires i < |calls| && forall c <- calls :: GoodCall(c, a.externalIndex, |a.names|)
    requires a.Ready() && Follows(a, calls[..i])
    modifies a, a.plain
    ensures a.Ready() && Follows(a, calls[..i + 1])
  {
    Prefixes(calls, i);
    var c := calls[i];
    assert c in calls;
    EmitCall(a, c, calls[..i]);
  }

  lemma Prefixes(calls: seq<Call>, i: nat)
    requires i <= |calls|
    ensures if i < |calls| then calls[..i + 1] == calls[..i] + [calls[i]] else calls[..i] == calls
  {
  }

  method Finish(a: Assembler, ghost done: seq<Call>)
    requires a.Ready() && Follows(a, done)
    modifies a, a.plain
    ensures WellFormedStream(a.fragments) && a.out == a.Front() + (EncodeAll(a.fragments) + [0])
    ensures (forall f <- a.fragments :: IndexBelow(f, |a.names|)) && Stands(a.fragments, [], a.items)
    ensures a.errors == 0 ==> a.items == AllItems(done, a.externalIndex) && Width(a.items) == CallsWidth(done)
    ensures a.errors == 0 ==> a.orgLock == Emits(done)
    ensures a.errors == 0 <==> AllAccepted(done)
  {
    WidthAfter(a.items, a.bufBytes, []);
    NothingMore(a.items + Zeros(a.bufBytes));
    a.Close();
  }

  lemma NothingMore(items: seq<Item>)
    ensures items + [] == items
  {
  }

  ghost predicate Follows(a: Assembler, done: seq<Call>)
    reads a
  {
    InStep(a, AllItems(done, a.externalIndex), CallsWidth(done), Emits(done), AllAccepted(done))
  }

  method EmitCall(a: Assembler, c: Call, ghost done: seq<Call>)
    requires a.Ready() && GoodCall(c, a.externalIndex, |a.names|) && Follows(a, done)
    modifies a, a.plain
    ensures a.Ready() && Follows(a, done + [c])
  {
    ghost var wanted, width := AllItems(done, a.externalIndex), CallsWidth(done);
    ghost var emits, ok := Emits(done), AllAccepted(done);
    OneMoreCall(done, c, a.externalIndex);
    match c {
      case ByteCall(b, flags, lab) => EmitByte(a, b, flags, lab, wanted, width, emits, ok);
      case WordCall(w, flags, lab) => EmitWord(a, w, flags, lab, wanted, width, emits, ok);
      case BufCall(n) => EmitBuf(a, n, wanted, width, emits, ok);
    }
  }

  /** The pass before the final one over the same calls: pc_end. */
  method CountBytes(calls: seq<Call>) returns (pcEnd: nat)
    ensures pcEnd == CallsWidth(calls)
  {
    pcEnd := 0;
    for i := 0 to |calls|
      invariant pcEnd == CallsWidth(calls[..i])
    {
      OneMoreCall(calls[..i], calls[i], k => 0);
      assert calls[..i + 1] == calls[..i] + [calls[i]];
      match calls[i] {
        case ByteCall(_, _, _) => pcEnd := pcEnd + 1;
        case WordCall(_, _, _) => pcEnd := pcEnd + 2;
        case BufCall(n) => pcEnd := pcEnd + n;
      }
    }
    assert calls[..|calls|] == calls;
  }

  // ---- which bytes stand where in the linked code

  /** The number that a relocated value comes to: counted from the base address, or from an external. */
  function Target(x: int, f: Flags, lab: nat, externalIndex: nat -> u16, base: int, names: seq<seq<byte>>,
                  value: seq<byte> -> int): int
  {
    if f.variable then x + base
    else x + if externalIndex(lab) < |names| then value(names[externalIndex(lab)]) else 0
  }

  /** The code holds at some place what a call asks for: the value, or the low or the high half of the
      number it is relocated to; a word with its low byte first; zeros. */
  ghost predicate Delivers(c: Call, code: seq<byte>, at: nat, externalIndex: nat -> u16, base: int,
                           names: seq<seq<byte>>, value: seq<byte> -> int)
  {
    match c
    case ByteCall(i, f, lab) =>
      at < |code| && var t := Target(i, f, lab, externalIndex, base, names, value);
      code[at] == if !ValDefs(f) then i % 256 else if f.takelo then t % 256 else t / 256 % 256
    case WordCall(w, f, lab) =>
      at + 1 < |code| && var t := if ValDefs(f) then Target(w, f, lab, externalIndex, base, names, value) else w;
      (code[at] as int) + 256 * (code[at + 1] as int) == t % 0x1_0000
    case BufCall(n) => at + n <= |code| && forall i :: at <= i < at + n ==> code[i] == 0
  }

  /** Every call finds its bytes behind those of the calls before it. */
  ghost predicate AllDelivered(calls: seq<Call>, code: seq<byte>, externalIndex: nat -> u16, base: int,
                               names: seq<seq<byte>>, value: seq<byte> -> int)
  {
    && |code| == CallsWidth(calls)
    && forall k :: 0 <= k < |calls| ==>
         Delivers(calls[k], code, CallsWidth(calls[..k]), externalIndex, base, names, value)
  }

  lemma HalvesOfWord(x: int)
    ensures (Lo(x) as int) + 256 * (Hi(x) as int) == x % 0x1_0000
  {
  }

  lemma LowHalf(x: int)
    ensures Lo(Lo(x)) == Lo(x) && Lo(Hi(x)) == Hi(x)
  {
  }

  lemma EndOfBoth(a: seq<Item>, front: seq<Item>, last: Item)
    ensures a + (front + [last]) == a + front + [last]
  {
  }

  lemma {:induction false} ImagesConcat(a: seq<Item>, b: seq<Item>, base: int, ext: nat -> int)
    ensures Images(a + b, base, ext) == Images(a, base, ext) + Images(b, base, ext)
  {
    if b == [] {
      assert a + b == a;
    } else {
      var front, last := b[..|b| - 1], b[|b| - 1];
      ImagesConcat(a, front, base, ext);
      EndOfBoth(a, front, last);
      assert b == front + [last];
      ImagesSnoc(a + front, last, base, ext);
      AssociativeBytes(Images(a, base, ext), Images(front, base, ext), Image(last, base, ext));
    }
  }

  lemma OneImage(item: Item, base: int, ext: nat -> int)
    ensures Images([item], base, ext) == Image(item, base, ext)
  {
    assert [item][..0] == [];
  }

  lemma ZerosDelivered(n: nat, base: int, ext: nat -> int)
    ensures var code := Images(Zeros(n), base, ext);
      |code| == n && forall i :: 0 <= i < n ==> code[i] == 0
  {
    var code := Images(Zeros(n), base, ext);
    WidthIsImageLength(Zeros(n), base, ext);
    WidthZeros(n);
    ZeroImages(n, base, ext);
    forall i | 0 <= i < n ensures code[i] == 0 {
      assert code[i] in code;
    }
  }

  lemma ByteDelivered(i: int, f: Flags, lab: nat, externalIndex: nat -> u16, base: int, names: seq<seq<byte>>,
                      value: seq<byte> -> int)
    requires ByteAccepted(f) && !f.forceword && (f.external ==> externalIndex(lab) < |names|)
    ensures var code := Image(ItemOf(i, f, externalIndex(lab)), base, AsFunction(ValuesOf(names, value)));
      |code| == 1 && Delivers(ByteCall(i, f, lab), code, 0, externalIndex, base, names, value)
  {
  }

  lemma WordDelivered(w: int, f: Flags, lab: nat, externalIndex: nat -> u16, base: int, names: seq<seq<byte>>,
                      value: seq<byte> -> int)
    requires ValDefs(f) && WordAccepted(f) && (f.external ==> externalIndex(lab) < |names|)
    ensures var code := Image(ItemOf(w, f, externalIndex(lab)), base, AsFunction(ValuesOf(names, value)));
      |code| == 2 && Delivers(WordCall(w, f, lab), code, 0, externalIndex, base, names, value)
  {
    HalvesOfWord(Target(w, f, lab, externalIndex, base, names, value));
  }

  lemma ConstantDelivered(w: int, f: Flags, lab: nat, externalIndex: nat -> u16, base: int, names: seq<seq<byte>>,
                          value: seq<byte> -> int, ext: nat -> int)
    requires !ValDefs(f)
    ensures var code := Images([Plain(Lo(w)), Plain(Hi(w))], base, ext);
      |code| == 2 && Delivers(WordCall(w, f, lab), code, 0, externalIndex, base, names, value)
  {
    ImagesConcat([Plain(Lo(w))], [Plain(Hi(w))], base, ext);
    OneImage(Plain(Lo(w)), base, ext);
    OneImage(Plain(Hi(w)), base, ext);
    assert [Plain(Lo(w))] + [Plain(Hi(w))] == [Plain(Lo(w)), Plain(Hi(w))];
    LowHalf(w);
    HalvesOfWord(w);
  }

  /** The bytes of one call. */
  lemma CallDelivered(c: Call, externalIndex: nat -> u16, base: int, names: seq<seq<byte>>, value: seq<byte> -> int)
    requires Accepted(c) && GoodCall(c, externalIndex, |names|)
    ensures var code := Images(CallItems(c, externalIndex), base, AsFunction(ValuesOf(names, value)));
      |code| == CallWidth(c) && Delivers(c, code, 0, externalIndex, base, names, value)
  {
    var ext := AsFunction(ValuesOf(names, value));
    match c
    case ByteCall(i, f, lab) =>
      OneImage(ItemOf(i, f, externalIndex(lab)), base, ext);
      ByteDelivered(i, f, lab, externalIndex, base, names, value);
    case WordCall(w, f, lab) =>
      if ValDefs(f) {
        OneImage(ItemOf(w, f, externalIndex(lab)), base, ext);
        WordDelivered(w, f, lab, externalIndex, base, names, value);
      } else {
        ConstantDelivered(w, f, lab, externalIndex, base, names, value, ext);
      }
    case BufCall(n) => ZerosDelivered(n, base, ext);
  }

  lemma DeliversAfter(c: Call, front: seq<byte>, code: seq<byte>, externalIndex: nat -> u16, base: int,
                      names: seq<seq<byte>>, value: seq<byte> -> int)
    requires Delivers(c, code, 0, externalIndex, base, names, value)
    ensures Delivers(c, front + code, |front|, externalIndex, base, names, value)
  {
    assert forall i :: 0 <= i < |code| ==> (front + code)[|front| + i] == code[i];
    assert forall i :: |front| <= i < |front| + |code| ==> (front + code)[i] == code[i - |front|];
  }

  lemma DeliversBefore(c: Call, code: seq<byte>, more: seq<byte>, at: nat, externalIndex: nat -> u16, base: int,
                       names: seq<seq<byte>>, value: seq<byte> -> int)
    requires Delivers(c, code, at, externalIndex, base, names, value)
    ensures Delivers(c, code + more, at, externalIndex, base, names, value)
  {
  }

  lemma DeliveredMore(calls: seq<Call>, c: Call, front: seq<byte>, code: seq<byte>, externalIndex: nat -> u16,
                      base: int, names: seq<seq<byte>>, value: seq<byte> -> int)
    requires AllDelivered(calls, front, externalIndex, base, names, value)
    requires |code| == CallWidth(c) && Delivers(c, code, 0, externalIndex, base, names, value)
    ensures AllDelivered(calls + [c], front + code, externalIndex, base, names, value)
  {
    var longer, n := calls + [c], |calls|;
    assert longer[..n] == calls && longer[n] == c;
    DeliversAfter(c, front, code, externalIndex, base, names, value);
    forall k | 0 <= k < |longer|
      ensures Delivers(longer[k], front + code, CallsWidth(longer[..k]), externalIndex, base, names, value)
    {
      if k < n {
        assert longer[..k] == calls[..k] && longer[k] == calls[k];
        DeliversBefore(calls[k], front, code, CallsWidth(calls[..k]), externalIndex, base, names, value);
      }
    }
  }

  /** The images of all calls. */
  lemma {:induction false} CallsDelivered(calls: seq<Call>, externalIndex: nat -> u16, base: int,
                                          names: seq<seq<byte>>, value: seq<byte> -> int)
    requires AllAccepted(calls) && forall c <- calls :: GoodCall(c, externalIndex, |names|)
    ensures AllDelivered(calls, Images(AllItems(calls, externalIndex), base, AsFunction(ValuesOf(names, value))),
                         externalIndex, base, names, value)
  {
    if calls != [] {
      var ext := AsFunction(ValuesOf(names, value));
      var init, c := calls[..|calls| - 1], calls[|calls| - 1];
      assert c in calls && (forall d <- init :: d in calls) && calls == init + [c];
      CallsDelivered(init, externalIndex, base, names, value);
      CallDelivered(c, externalIndex, base, names, value);
      ImagesConcat(AllItems(init, externalIndex), CallItems(c, externalIndex), base, ext);
      DeliveredMore(init, c, Images(AllItems(init, externalIndex), base, ext),
                    Images(CallItems(c, externalIndex), base, ext), externalIndex, base, names, value);
    }
  }

  /** Assembling a sequence of calls and linking the object file at some address. luna reports no error
      exactly if it accepts each call; then lld gives the code that the calls ask for, without a
      complaint, if and only if something other than .buf was asked for and the code ends below 64k. */
  method AssembleAndLink(calls: seq<Call>, globals: seq<Global>, names: seq<seq<byte>>, externalIndex: nat -> u16,
                         pc: u16, value: seq<byte> -> int)
    returns (errors: nat, o: Outcome)
    requires AreGlobals(globals) && forall n <- names :: IsName(n)
    requires forall c <- calls :: GoodCall(c, externalIndex, |names|)
    ensures errors == 0 <==> AllAccepted(calls)
    ensures var code := Images(AllItems(calls, externalIndex), pc, AsFunction(ValuesOf(names, value)));
      errors == 0 ==> (o == Linked(code, [], false) <==> Emits(calls) && pc + CallsWidth(calls) <= 0xffff)
    ensures errors == 0 && Emits(calls) && pc + CallsWidth(calls) <= 0xffff ==>
      o.Linked? && AllDelivered(calls, o.code, externalIndex, pc, names, value)
  {
    var pcEnd := CountBytes(calls);
    var a := Assemble(calls, globals, pcEnd, names, externalIndex);
    errors := a.errors;
    if errors == 0 {
      CallsDelivered(calls, externalIndex, pc, names, value);
      FileLinks(calls, globals, names, externalIndex, pc, value, a.fragments, a.out);
    }
    o := LinkObject(a.out, pc, value);
  }

  /** A file whose stream stands for the calls, with a header if anything is emitted. */
  lemma FileLinks(calls: seq<Call>, globals: seq<Global>, names: seq<seq<byte>>, externalIndex: nat -> u16, pc: u16,
                  value: seq<byte> -> int, fs: seq<Fragment>, out: seq<byte>)
    requires AreGlobals(globals) && (forall n <- names :: IsName(n)) && WellFormedStream(fs)
    requires (forall f <- fs :: IndexBelow(f, |names|)) && Stands(fs, [], AllItems(calls, externalIndex))
    requires Width(AllItems(calls, externalIndex)) == CallsWidth(calls)
    requires var front := if Emits(calls) then Header(globals, CallsWidth(calls), names) else [];
      out == front + (EncodeAll(fs) + [0])
    ensures var code := Images(AllItems(calls, externalIndex), pc, AsFunction(ValuesOf(names, value)));
      LinkFile(out, pc, value) == Linked(code, [], false) <==> Emits(calls) && pc + CallsWidth(calls) <= 0xffff
  {
    if Emits(calls) {
      ObjectFileRoundTrip(globals, names, fs, AllItems(calls, externalIndex), pc, value);
    } else {
      OnlyZeros(calls, externalIndex);
      NoHeaderRejected(fs, CallsWidth(calls), pc, value);
      assert out == EncodeAll(fs) + [0];
    }
  }

  lemma {:induction false} OnlyZeros(calls: seq<Call>, externalIndex: nat -> u16)
    requires !Emits(calls)
    ensures AllItems(calls, externalIndex) == Zeros(CallsWidth(calls))
  {
    if calls != [] {
      var front, last := calls[..|calls| - 1], calls[|calls| - 1];
      assert last in calls && last.BufCall?;
      forall c <- front ensures c.BufCall? {
        assert c in calls;
      }
      OnlyZeros(front, externalIndex);
      MoreZeros([], CallsWidth(front), last.n);
      NoBytesBefore(CallsWidth(front), last.n);
    }
  }

  lemma NoBytesBefore(m: nat, n: nat)
    ensures Zeros(m) + Zeros(n) == Zeros(m + n)
  {
  }

  /** Two .buf directives and a byte. */
  function BufBufByte(m: nat, n: nat): seq<Call> { [BufCall(m), BufCall(n), ByteCall(0, RESOLVED, 0)] }

  lemma BufBufByteWidth(m: nat, n: nat, externalIndex: nat -> u16)
    ensures CallsWidth(BufBufByte(m, n)) == m + n + 1 && Emits(BufBufByte(m, n))
    ensures Width(AllItems(BufBufByte(m, n), externalIndex)) == m + n + 1
  {
    var calls := BufBufByte(m, n);
    var front := [] + [BufCall(m)] + [BufCall(n)];
    assert calls == front + [ByteCall(0, RESOLVED, 0)];
    OneMoreCall([], BufCall(m), externalIndex);
    OneMoreCall([] + [BufCall(m)], BufCall(n), externalIndex);
    OneMoreCall(front, ByteCall(0, RESOLVED, 0), externalIndex);
    WidthZeros(m);
    WidthZeros(n);
    ItemWidth(Plain(0));
    WidthConcat([], Zeros(m));
    WidthConcat([] + Zeros(m), Zeros(n));
    WidthConcat([] + Zeros(m) + Zeros(n), [Plain(0)]);
  }

  /** The size field can be too narrow: three calls that luna accepts give 65538 bytes, and
      whatever stream stands for them is not linked to what they asked for. */
  lemma SizeFieldOverflows(globals: seq<Global>, names: seq<seq<byte>>, externalIndex: nat -> u16, fs: seq<Fragment>,
                           pc: u16, value: seq<byte> -> int)
    requires AreGlobals(globals) && (forall n <- names :: IsName(n))
    requires WellFormedStream(fs) && (forall f <- fs :: IndexBelow(f, |names|))
    requires Stands(fs, [], AllItems(BufBufByte(0xffff, 2), externalIndex))
    ensures var calls := BufBufByte(0xffff, 2);
      && AllAccepted(calls) && (forall c <- calls :: GoodCall(c, externalIndex, |names|))
      && Emits(calls) && CallsWidth(calls) == 65538
      && LinkFile(Header(globals, 65538, names) + (EncodeAll(fs) + [0]), pc, value)
           != Linked(Images(AllItems(calls, externalIndex), pc, AsFunction(ValuesOf(names, value))), [], false)
  {
    BufBufByteWidth(0xffff, 2, externalIndex);
    ObjectFileRoundTrip(globals, names, fs, AllItems(BufBufByte(0xffff, 2), externalIndex), pc, value);
  }
}
