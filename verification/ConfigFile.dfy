/** confdata.cpp and symbol.cpp: writing a .config file and reading it back. */
module ConfigFile {
  import opened Options
  import opened KconfigExpr

  datatype Value = TriValue(t: Tri) | TextValue(s: string)

  const CONFIG: string := "CONFIG_"

  // ---- quoting

  predicate Special(c: char) { c == '"' || c == '\\' }

  function EscapeBody(s: string): string {
    if s == "" then ""
    else (if Special(s[0]) then ['\\', s[0]] else [s[0]]) + EscapeBody(s[1..])
  }

  function Escape(s: string): string { "\"" + EscapeBody(s) + "\"" }

  /** The text up to the closing quote, a backslash making the next character an ordinary one. */
  function Unescape(s: string): Option<string> {
    if s == "" || s == "\\" then None
    else if s[0] == '"' then Some("")
    else if s[0] == '\\' then InFront(s[1], Unescape(s[2..]))
    else InFront(s[0], Unescape(s[1..]))
  }

  function InFront(c: char, r: Option<string>): Option<string> {
    if r.Some? then Some([c] + r.value) else None
  }

  /** Reading a quoted string gives the string back, whatever characters it has and whatever follows. */
  lemma {:induction false} UnescapeEscape(s: string, more: string)
    ensures Unescape(EscapeBody(s) + "\"" + more) == Some(s)
  {
    var quoted := EscapeBody(s) + "\"" + more;
    if s == "" {
      assert quoted[0] == '"';
    } else {
      var rest := EscapeBody(s[1..]) + "\"" + more;
      UnescapeEscape(s[1..], more);
      UnescapeFirst(s[0], quoted, rest);
      assert s == [s[0]] + s[1..];
    }
  }

  lemma UnescapeFirst(c: char, quoted: string, rest: string)
    requires quoted == (if Special(c) then ['\\', c] else [c]) + rest && rest != ""
    ensures Unescape(quoted) == InFront(c, Unescape(rest))
  {
    assert quoted[if Special(c) then 2 else 1..] == rest;
  }

  lemma {:induction false} EscapeKeepsLine(s: string)
    requires '\n' !in s
    ensures '\n' !in EscapeBody(s)
  {
    if s != "" { EscapeKeepsLine(s[1..]); }
  }

  // ---- valid texts

  predicate IsDigit(c: char) { '0' <= c <= '9' }

  predicate IsHexDigit(c: char) { IsDigit(c) || 'a' <= c <= 'f' || 'A' <= c <= 'F' }

  predicate ValidInt(s: string) {
    var t := if s != "" && s[0] == '-' then s[1..] else s;
    t != "" && (t[0] == '0' ==> |t| == 1) && forall c :: c in t ==> IsDigit(c)
  }

  predicate ValidHex(s: string) {
    var t := if |s| >= 2 && s[0] == '0' && s[1] in "xX" then s[2..] else s;
    t != "" && forall c :: c in t ==> IsHexDigit(c)
  }

  /** sym_string_valid for the types that hold texts. */
  predicate ValidText(typ: SymType, s: string) {
    match typ
    case Str => true
    case Int => ValidInt(s)
    case Hex => ValidHex(s)
    case _ => false
  }

  /** The values that a symbol can have; a text must fit on a line. */
  predicate HasType(v: Value, typ: SymType) {
    match typ
    case Boolean => v == TriValue(N) || v == TriValue(Y)
    case Tristate => v.TriValue?
    case Str => v.TextValue? && '\n' !in v.s
    case Unknown => false
    case _ => v.TextValue? && ValidText(typ, v.s)
  }

  // ---- lines

  function TriChar(t: Tri): char {
    if t == N then 'n' else if t == M then 'm' else 'y'
  }

  function ValueText(v: Value, typ: SymType): string {
    match v
    case TriValue(t) => [TriChar(t)]
    case TextValue(s) => if typ == Str then Escape(s) else s
  }

  /** The line for a symbol, without its newline. */
  function PrintLine(sym: Symbol, v: Value): string {
    if v == TriValue(N) then "# " + CONFIG + sym.name + " is not set"
    else CONFIG + sym.name + "=" + ValueText(v, sym.typ)
  }

  /** strchr from a position on. */
  function Find(s: string, c: char, from: nat): (r: Option<nat>)
    requires from <= |s|
    ensures r.Some? ==> from <= r.value < |s| && s[r.value] == c
    ensures r.Some? ==> c !in s[from..r.value]
    ensures r.None? ==> c !in s[from..]
    decreases |s| - from
  {
    if from == |s| then None
    else if s[from] == c then Some(from)
    else Find(s, c, from + 1)
  }

  /** What a line says. */
  datatype Statement = Skip | Unset(name: string) | Assign(name: string, text: string)

  function StripCr(s: string): string {
    if s != "" && s[|s| - 1] == '\r' then s[..|s| - 1] else s
  }

  function ParseLine(line: string, ended: bool): Statement {
    if line == "" then Skip
    else if line[0] == '#' then
      if |line| >= 9 && line[2..9] == CONFIG then ParseUnset(line) else Skip
    else if |line| >= 7 && line[..7] == CONFIG then
      var p := Find(line, '=', 7);
      if p.None? then Skip
      else Assign(line[7..p.value], if ended then StripCr(line[p.value + 1..]) else line[p.value + 1..])
    else Skip
  }

  function ParseUnset(line: string): Statement
    requires |line| >= 9
  {
    var p := Find(line, ' ', 9);
    if p.Some? && "is not set" <= line[p.value + 1..] then Unset(line[9..p.value]) else Skip
  }

  /** conf_set_sym_val: the value that a text gives to a symbol, if it is valid. */
  function TextToValue(typ: SymType, p: string): Option<Value> {
    match typ
    case Tristate => if p != "" && p[0] == 'm' then Some(TriValue(M)) else YesOrNo(p)
    case Boolean => YesOrNo(p)
    case Str =>
      if p == "" || p[0] != '"' then None
      else
        var s := Unescape(p[1..]);
        if s.Some? then Some(TextValue(s.value)) else None
    case Unknown => None
    case _ => if ValidText(typ, p) then Some(TextValue(p)) else None
  }

  function YesOrNo(p: string): Option<Value> {
    if p == "" then None
    else if p[0] == 'y' then Some(TriValue(Y))
    else if p[0] == 'n' then Some(TriValue(N))
    else None
  }

  predicate GoodName(name: string) {
    ' ' !in name && '=' !in name && '\n' !in name && name !in {"y", "m", "n"}
  }

  // ---- one line there and back

  lemma {:induction false} FindFirst(s: string, a: string, c: char, b: string, from: nat, i: nat)
    requires s == a + [c] + b && from <= i <= |a| && c !in a[i..]
    ensures Find(s, c, i) == Some(|a|)
    decreases |a| - i
  {
    if i < |a| {
      assert s[i] == a[i] == a[i..][0];
      assert a[i + 1..] == a[i..][1..];
      FindFirst(s, a, c, b, from, i + 1);
    }
  }

  predicate EndsInCr(s: string) { s != "" && s[|s| - 1] == '\r' }

  lemma AssignLine(name: string, text: string, ended: bool)
    requires GoodName(name) && !EndsInCr(text)
    ensures ParseLine(CONFIG + name + "=" + text, ended) == Assign(name, text)
  {
    var line, a := CONFIG + name + "=" + text, CONFIG + name;
    assert line == a + ['='] + text;
    assert a[7..] == name && line[7..|a|] == name && line[|a| + 1..] == text;
    FindFirst(line, a, '=', text, 7, 7);
    assert line[..7] == CONFIG;
  }

  lemma UnsetLine(name: string, ended: bool)
    requires GoodName(name)
    ensures ParseLine("# " + CONFIG + name + " is not set", ended) == Unset(name)
  {
    var line, a, b := "# " + CONFIG + name + " is not set", "# " + CONFIG + name, "is not set";
    var c := " is not set";
    assert c == [' '] + b;
    assert line == a + c;
    assert line == a + [' '] + b;
    assert a[9..] == name && line[9..|a|] == name && line[|a| + 1..] == b;
    FindFirst(line, a, ' ', b, 9, 9);
    assert line[2..9] == CONFIG;
  }

  /** A value written as text is read as that value, and its text stays on its line. */
  lemma ValueBack(typ: SymType, v: Value)
    requires HasType(v, typ)
    ensures var t := ValueText(v, typ);
      TextToValue(typ, t) == Some(v) && '\n' !in t && !EndsInCr(t)
  {
    if typ == Str {
      var t := Escape(v.s);
      assert t[1..] == EscapeBody(v.s) + "\"" + "";
      UnescapeEscape(v.s, "");
      EscapeKeepsLine(v.s);
    } else if typ == Int || typ == Hex {
      DigitsOnly(typ, v.s);
    }
  }

  lemma DigitsOnly(typ: SymType, s: string)
    requires (typ == Int || typ == Hex) && ValidText(typ, s)
    ensures '\n' !in s && !EndsInCr(s)
  {
    var k :=
      if typ == Int then (if s[0] == '-' then 1 else 0)
      else if |s| >= 2 && s[0] == '0' && s[1] in "xX" then 2 else 0;
    var t := s[k..];
    assert forall c :: c in t ==> IsHexDigit(c);
    forall i | 0 <= i < |s|
      ensures s[i] != '\n' && (i == |s| - 1 ==> s[i] != '\r')
    {
      if i >= k { assert s[i] == t[i - k]; assert s[i] in t; }
    }
  }

  /** What a statement does to the value of one symbol. */
  function Effect(sym: Symbol, st: Statement, before: Option<Value>): Option<Value> {
    match st
    case Skip => before
    case Unset(name) =>
      if name == sym.name && IsLogic(sym.typ) then Some(TriValue(N)) else before
    case Assign(name, text) =>
      if name == sym.name && TextToValue(sym.typ, text).Some? then TextToValue(sym.typ, text) else before
  }

  /** The line written for a symbol sets this symbol, and no other, to the value written. */
  lemma LineBack(sym: Symbol, v: Value, ended: bool, before: Option<Value>)
    requires GoodName(sym.name) && HasType(v, sym.typ)
    ensures var st := ParseLine(PrintLine(sym, v), ended);
      !st.Skip? && st.name == sym.name && Effect(sym, st, before) == Some(v)
  {
    if v == TriValue(N) {
      UnsetLine(sym.name, ended);
    } else {
      var text := ValueText(v, sym.typ);
      ValueBack(sym.typ, v);
      AssignLine(sym.name, text, ended);
    }
  }

  lemma LineStaysOne(sym: Symbol, v: Value)
    requires GoodName(sym.name) && HasType(v, sym.typ)
    ensures '\n' !in PrintLine(sym, v)
  {
    ValueBack(sym.typ, v);
  }

  // ---- whole files

  /** What conf_write puts out, in the order of the menus: symbols, and lines that are not for reading. */
  datatype Item = Entry(i: nat) | Remark(line: string)

  const NOT_SET: string := " is not set"

  /** A comment that says of a name that it is not set; anything may follow. */
  predicate Unsets(line: string, name: string) {
    |line| >= 2 && line[0] == '#' && CONFIG + name + NOT_SET <= line[2..]
  }

  /** The reader passes over a line. */
  predicate Ignored(line: string) { '\n' !in line && ParseLine(line, true) == Skip }

  /** A comment is read as saying that a name is not set exactly if it says so, the name having no blank. */
  lemma UnsetIff(line: string, name: string)
    requires line != "" && line[0] == '#'
    ensures ParseLine(line, true) == Unset(name) <==> ' ' !in name && Unsets(line, name)
  {
    if ParseLine(line, true) == Unset(name) {
      var p := Find(line, ' ', 9).value;
      UnsetSays(line, p);
    }
    if ' ' !in name && Unsets(line, name) {
      SaysUnset(line, name);
    }
  }

  lemma UnsetSays(line: string, p: nat)
    requires |line| >= 9 && line[0] == '#' && line[2..9] == CONFIG && 9 <= p < |line| && line[p] == ' '
    requires "is not set" <= line[p + 1..]
    ensures Unsets(line, line[9..p])
  {
    var rest := line[p + 1..];
    assert line[2..] == line[2..9] + line[9..p] + [line[p]] + rest;
    assert rest == "is not set" + rest[10..] && NOT_SET == [' '] + "is not set";
    var said := CONFIG + line[9..p] + NOT_SET;
    assert line[2..] == said + rest[10..];
  }

  lemma SaysUnset(line: string, name: string)
    requires ' ' !in name && Unsets(line, name)
    ensures ParseLine(line, true) == Unset(name)
  {
    var said := CONFIG + name + NOT_SET;
    var rest := line[2..][|said|..];
    var a, b := line[..2] + CONFIG + name, "is not set" + rest;
    assert NOT_SET == [' '] + "is not set";
    assert line == line[..2] + line[2..] && line[2..] == said + rest;
    assert line == a + [' '] + b;
    assert a[9..] == name && line[9..|a|] == name && line[|a| + 1..] == b && line[2..9] == CONFIG;
    FindFirst(line, a, ' ', b, 9, 9);
  }

  /** A title is ignored exactly if it is one line and does not say of a name that it is not set. */
  lemma CommentIgnored(t: string)
    ensures Ignored("# " + t) <==> '\n' !in t && !exists name: string :: ' ' !in name && Unsets("# " + t, name)
  {
    var line := "# " + t;
    assert '\n' in line <==> '\n' in t by {
      assert forall i :: 0 <= i < |t| ==> line[i + 2] == t[i];
    }
    var st := ParseLine(line, true);
    if st != Skip {
      UnsetIff(line, st.name);
    }
    forall name: string | ' ' !in name && Unsets(line, name)
      ensures st != Skip
    {
      UnsetIff(line, name);
    }
  }

  ghost predicate Distinct(syms: seq<Symbol>) {
    && (forall i :: 0 <= i < |syms| ==> GoodName(syms[i].name))
    && (forall i, j :: 0 <= i < j < |syms| ==> syms[i].name != syms[j].name)
  }

  /** A line that conf_write puts between symbols: a comment or an empty line. */
  predicate IsRemark(line: string) { '\n' !in line && (line == "" || line[0] == '#') }

  /** Every item can be written: symbols have values of their types. */
  ghost predicate Writable(syms: seq<Symbol>, values: seq<Value>, items: seq<Item>) {
    && |values| == |syms|
    && (forall it :: it in items && it.Entry? ==> it.i < |syms| && HasType(values[it.i], syms[it.i].typ))
    && (forall it :: it in items && it.Remark? ==> IsRemark(it.line))
  }

  /** A remark that resets this symbol when it is read. */
  predicate Resets(line: string, sym: Symbol) {
    IsLogic(sym.typ) && Unsets(line, sym.name)
  }

  /** No remark resets a symbol. */
  ghost predicate Harmless(syms: seq<Symbol>, items: seq<Item>) {
    forall it, sym :: it in items && it.Remark? && sym in syms ==> !Resets(it.line, sym)
  }

  function ItemLine(syms: seq<Symbol>, values: seq<Value>, it: Item): string
    requires |values| == |syms| && (it.Entry? ==> it.i < |syms|)
  {
    if it.Entry? then PrintLine(syms[it.i], values[it.i]) else it.line
  }

  ghost function WriteAll(syms: seq<Symbol>, values: seq<Value>, items: seq<Item>): string
    requires Writable(syms, values, items)
  {
    if items == [] then ""
    else ItemLine(syms, values, items[0]) + "\n" + WriteAll(syms, values, items[1..])
  }

  function Lookup(syms: seq<Symbol>, name: string, from: nat): (r: Option<nat>)
    requires from <= |syms|
    ensures r.Some? ==> from <= r.value < |syms| && syms[r.value].name == name
    ensures r.None? ==> forall i :: from <= i < |syms| ==> syms[i].name != name
    decreases |syms| - from
  {
    if from == |syms| then None
    else if syms[from].name == name then Some(from)
    else Lookup(syms, name, from + 1)
  }

  /** One line is taken in. */
  function Take(syms: seq<Symbol>, def: seq<Option<Value>>, st: Statement): (r: seq<Option<Value>>)
    requires |def| == |syms|
    ensures |r| == |syms|
  {
    if st.Skip? then def
    else
      var i := Lookup(syms, st.name, 0);
      if i.None? then def else def[i.value := Effect(syms[i.value], st, def[i.value])]
  }

  function ReadAll(syms: seq<Symbol>, def: seq<Option<Value>>, text: string): (r: seq<Option<Value>>)
    requires |def| == |syms|
    ensures |r| == |syms|
    decreases |text|
  {
    if text == "" then def
    else
      match Find(text, '\n', 0)
      case None => Take(syms, def, ParseLine(text, false))
      case Some(p) => ReadAll(syms, Take(syms, def, ParseLine(text[..p], true)), text[p + 1..])
  }

  lemma ReadLineOf(syms: seq<Symbol>, def: seq<Option<Value>>, line: string, rest: string)
    requires |def| == |syms| && '\n' !in line
    ensures ReadAll(syms, def, line + "\n" + rest) == ReadAll(syms, Take(syms, def, ParseLine(line, true)), rest)
  {
    var text := line + "\n" + rest;
    assert text == line + ['\n'] + rest;
    FindFirst(text, line, '\n', rest, 0, 0);
    assert text[..|line|] == line && text[|line| + 1..] == rest;
  }

  /** What reading an item does to one symbol. */
  function ItemEffect(syms: seq<Symbol>, values: seq<Value>, it: Item, j: nat, before: Option<Value>): Option<Value>
    requires |values| == |syms| && j < |syms|
  {
    match it
    case Entry(i) => if i == j then Some(values[j]) else before
    case Remark(line) => if Resets(line, syms[j]) then Some(TriValue(N)) else before
  }

  /** The last item that says something about a symbol decides. */
  function LastWord(syms: seq<Symbol>, values: seq<Value>, items: seq<Item>, j: nat,
                    before: Option<Value>): Option<Value>
    requires |values| == |syms| && j < |syms|
  {
    if items == [] then before
    else LastWord(syms, values, items[1..], j, ItemEffect(syms, values, items[0], j, before))
  }

  lemma TakeItem(syms: seq<Symbol>, values: seq<Value>, def: seq<Option<Value>>, it: Item, j: nat)
    requires Distinct(syms) && |def| == |syms| == |values| && j < |syms|
    requires it.Entry? ==> it.i < |syms| && HasType(values[it.i], syms[it.i].typ)
    requires it.Remark? ==> IsRemark(it.line)
    ensures Take(syms, def, ParseLine(ItemLine(syms, values, it), true))[j] == ItemEffect(syms, values, it, j, def[j])
  {
    match it
    case Entry(i) => TakeEntry(syms, values, def, i, j);
    case Remark(line) => TakeRemark(syms, def, line, j);
  }

  lemma TakeEntry(syms: seq<Symbol>, values: seq<Value>, def: seq<Option<Value>>, i: nat, j: nat)
    requires Distinct(syms) && |def| == |syms| == |values| && i < |syms| && HasType(values[i], syms[i].typ)
    requires j < |syms|
    ensures Take(syms, def, ParseLine(PrintLine(syms[i], values[i]), true))[j] ==
            if i == j then Some(values[j]) else def[j]
  {
    LineBack(syms[i], values[i], true, def[i]);
    FoundAt(syms, i);
  }

  lemma TakeRemark(syms: seq<Symbol>, def: seq<Option<Value>>, line: string, j: nat)
    requires Distinct(syms) && |def| == |syms| && IsRemark(line) && j < |syms|
    ensures Take(syms, def, ParseLine(line, true))[j] == if Resets(line, syms[j]) then Some(TriValue(N)) else def[j]
  {
    var st := ParseLine(line, true);
    FoundAt(syms, j);
    if line != "" {
      UnsetIff(line, syms[j].name);
      assert GoodName(syms[j].name);
    }
  }

  lemma FoundAt(syms: seq<Symbol>, i: nat)
    requires Distinct(syms) && i < |syms|
    ensures Lookup(syms, syms[i].name, 0) == Some(i)
  {
  }

  /** Reading a file that was written gives every symbol its last word in the file. */
  lemma {:induction false} FileReads(syms: seq<Symbol>, values: seq<Value>, def: seq<Option<Value>>,
                                     items: seq<Item>, j: nat)
    requires Distinct(syms) && |def| == |syms| && Writable(syms, values, items) && j < |syms|
    ensures ReadAll(syms, def, WriteAll(syms, values, items))[j] == LastWord(syms, values, items, j, def[j])
    decreases |items|
  {
    if items != [] {
      var it, rest := items[0], items[1..];
      assert it in items && forall other :: other in rest ==> other in items;
      if it.Entry? { LineStaysOne(syms[it.i], values[it.i]); }
      TakeItem(syms, values, def, it, j);
      ReadLineOf(syms, def, ItemLine(syms, values, it), WriteAll(syms, values, rest));
      FileReads(syms, values, Take(syms, def, ParseLine(ItemLine(syms, values, it), true)), rest, j);
    }
  }

  /** The values that the items put in place of what was there. */
  function Restored(def: seq<Option<Value>>, values: seq<Value>, items: seq<Item>): (r: seq<Option<Value>>)
    requires |values| == |def|
    ensures |r| == |def|
    ensures forall j :: 0 <= j < |r| ==> r[j] == if Entry(j) in items then Some(values[j]) else def[j]
  {
    seq(|def|, j requires 0 <= j < |def| => if Entry(j) in items then Some(values[j]) else def[j])
  }

  lemma {:induction false} HarmlessLastWord(syms: seq<Symbol>, values: seq<Value>, items: seq<Item>, j: nat,
                                            before: Option<Value>)
    requires |values| == |syms| && j < |syms| && Harmless(syms, items)
    ensures LastWord(syms, values, items, j, before) == if Entry(j) in items then Some(values[j]) else before
    decreases |items|
  {
    if items != [] {
      var it, rest := items[0], items[1..];
      assert it in items && syms[j] in syms && forall other :: other in rest ==> other in items;
      HarmlessLastWord(syms, values, rest, j, ItemEffect(syms, values, it, j, before));
      assert Entry(j) in items <==> it == Entry(j) || Entry(j) in rest;
    }
  }

  /** Reading a file that was written restores the value of every symbol in it, and of no other, unless a
      title resets a symbol. */
  lemma FileRoundTrip(syms: seq<Symbol>, values: seq<Value>, def: seq<Option<Value>>, items: seq<Item>)
    requires Distinct(syms) && |def| == |syms| && Writable(syms, values, items) && Harmless(syms, items)
    ensures ReadAll(syms, def, WriteAll(syms, values, items)) == Restored(def, values, items)
  {
    var r := ReadAll(syms, def, WriteAll(syms, values, items));
    forall j | 0 <= j < |def|
      ensures r[j] == Restored(def, values, items)[j]
    {
      FileReads(syms, values, def, items, j);
      HarmlessLastWord(syms, values, items, j, def[j]);
    }
  }

  /** A menu titled like that behind the symbol: y was written, n is read. */
  lemma TitleResetsSymbol(name: string)
    requires GoodName(name)
    ensures var syms, values := [Symbol(3, name, Boolean, false)], [TriValue(Y)];
      var items := [Entry(0), Remark("# " + CONFIG + name + NOT_SET)];
      && Writable(syms, values, items)
      && ReadAll(syms, [None], WriteAll(syms, values, items)) == [Some(TriValue(N))]
  {
    var syms, values := [Symbol(3, name, Boolean, false)], [TriValue(Y)];
    var title := "# " + CONFIG + name + NOT_SET;
    var items := [Entry(0), Remark(title)];
    assert title[2..] == CONFIG + name + NOT_SET;
    forall i | 0 <= i < |title| ensures title[i] != '\n' {
      if 9 <= i < 9 + |name| { assert title[i] == name[i - 9]; }
    }
    assert items[1..] == [Remark(title)] && items[1..][1..] == [];
    assert LastWord(syms, values, items[1..][1..], 0, Some(TriValue(N))) == Some(TriValue(N));
    assert LastWord(syms, values, items[1..], 0, Some(TriValue(Y))) == Some(TriValue(N));
    FileReads(syms, values, [None], items, 0);
  }

  // ---- the program

  lemma {:induction false} EscapeAppend(s: string, t: string)
    ensures EscapeBody(s + t) == EscapeBody(s) + EscapeBody(t)
  {
    if s == "" {
      assert s + t == t;
    } else {
      assert (s + t)[0] == s[0] && (s + t)[1..] == s[1..] + t;
      EscapeAppend(s[1..], t);
    }
  }

  lemma {:induction false} EscapePlain(s: string)
    requires forall c :: c in s ==> !Special(c)
    ensures EscapeBody(s) == s
  {
    if s != "" {
      EscapePlain(s[1..]);
      assert s == [s[0]] + s[1..];
    }
  }

  /** strcspn: the length of the part before the next quote or backslash. */
  method PlainLength(s: string, from: nat) returns (l: nat)
    requires from <= |s|
    ensures from + l <= |s| && (forall c :: c in s[from..from + l] ==> !Special(c))
    ensures from + l < |s| ==> Special(s[from + l])
  {
    l := 0;
    while from + l < |s| && !Special(s[from + l])
      invariant from + l <= |s|
      invariant forall c :: c in s[from..from + l] ==> !Special(c)
    {
      assert s[from..from + l + 1] == s[from..from + l] + [s[from + l]];
      l := l + 1;
    }
  }

  lemma EscapeChunk(s: string, from: nat, l: nat)
    requires from + l <= |s| && forall c :: c in s[from..from + l] ==> !Special(c)
    ensures EscapeBody(s[..from + l]) == EscapeBody(s[..from]) + s[from..from + l]
  {
    assert s[..from + l] == s[..from] + s[from..from + l];
    EscapeAppend(s[..from], s[from..from + l]);
    EscapePlain(s[from..from + l]);
  }

  lemma EscapeSpecial(s: string, p: nat)
    requires p < |s| && Special(s[p])
    ensures EscapeBody(s[..p + 1]) == EscapeBody(s[..p]) + ['\\', s[p]]
  {
    assert s[..p + 1] == s[..p] + [s[p]];
    EscapeAppend(s[..p], [s[p]]);
    assert EscapeBody([s[p]]) == ['\\', s[p]] + EscapeBody("");
  }

  /** The first loop of sym_escape_string_value: the length of the buffer that it allocates, exact. */
  method EscapedSize(s: string) returns (size: nat)
    ensures size == |Escape(s)| + 1
  {
    size := |s| + 2 + 1;
    var p := 0;
    assert s[..0] == "";
    while true
      invariant p <= |s| && size == |s| + 3 + |EscapeBody(s[..p])| - p
      decreases |s| - p
    {
      var l := PlainLength(s, p);
      EscapeChunk(s, p, l);
      p := p + l;
      if p == |s| { break; }
      EscapeSpecial(s, p);
      size := size + 1;
      p := p + 1;
    }
    assert s[..p] == s;
  }

  /** The second loop. */
  method EscapeStringValue(s: string) returns (res: string)
    ensures res == Escape(s)
  {
    var p := 0;
    res := "\"";
    ghost var done := "";
    assert s[..0] == "";
    while true
      invariant p <= |s| && done == EscapeBody(s[..p]) && res == "\"" + done
      decreases |s| - p
    {
      var l := PlainLength(s, p);
      EscapeChunk(s, p, l);
      res, done := res + s[p..p + l], done + s[p..p + l];
      p := p + l;
      if p == |s| { break; }
      EscapeSpecial(s, p);
      var pair := ['\\', s[p]];
      res, done := res + pair, done + pair;
      p := p + 1;
    }
    assert s[..p] == s;
    res := res + "\"";
  }

  function Before(s: string, r: Option<string>): Option<string> {
    if r.Some? then Some(s + r.value) else None
  }

  lemma {:induction false} UnescapePlain(s: string, i: nat, n: nat)
    requires i < n <= |s| && !Special(s[i])
    ensures Before(s[..i], Unescape(s[i..n])) == Before(s[..i + 1], Unescape(s[i + 1..n]))
  {
    var t := s[i..n];
    assert t[1..] == s[i + 1..n];
    var r := Unescape(t[1..]);
    if r.Some? { assert s[..i] + ([s[i]] + r.value) == s[..i + 1] + r.value; }
  }

  /** Dropping a backslash and stepping over the character behind it. */
  lemma UnescapeSkip(s: string, t: string, i: nat, n: nat)
    requires i + 1 < n <= |s| && s[i] == '\\' && |t| >= n - 1
    requires t[..i] == s[..i] && t[i..n - 1] == s[i + 1..n]
    ensures Before(s[..i], Unescape(s[i..n])) == Before(t[..i + 1], Unescape(t[i + 1..n - 1]))
  {
    var u := s[i..n];
    assert t[i] == t[i..n - 1][0] == u[1];
    assert u[2..] == t[i..n - 1][1..] == t[i + 1..n - 1];
    var r := Unescape(u[2..]);
    if r.Some? { assert s[..i] + ([u[1]] + r.value) == t[..i + 1] + r.value; }
  }

  /** memmove(a + i, a + i + 1, ...): the character at i goes. */
  method Remove(a: array<char>, i: nat, n: nat)
    requires i < n <= a.Length
    modifies a
    ensures a[..i] == old(a[..i]) && a[i..n - 1] == old(a[i + 1..n])
  {
    forall j | i <= j < n - 1 {
      a[j] := a[j + 1];
    }
  }

  /** The loop of conf_set_sym_val that unescapes a text in its own buffer; a negative answer stands
      for a text without an end. */
  method UnescapeInPlace(a: array<char>, len: nat) returns (m: int)
    requires len <= a.Length
    modifies a
    ensures m <= len
    ensures Unescape(old(a[..len])) == if m < 0 then None else Some(a[..m])
  {
    var i, n := 0, len;
    ghost var result := Unescape(a[..len]);
    StartUnescaping(a[..], len);
    while i < n && a[i] != '"'
      invariant i <= n <= len
      invariant result == Before(a[..i], Unescape(a[i..n]))
      decreases n - i
    {
      ghost var s: string := a[..];
      if a[i] == '\\' {
        if i + 1 == n {
          assert a[i..n] == "\\";
          return -1;
        }
        Remove(a, i, n);
        UnescapeSkip(s, a[..], i, n);
        n := n - 1;
      } else {
        UnescapePlain(s, i, n);
      }
      i := i + 1;
    }
    if i == n {
      return -1;
    }
    assert a[i..n][0] == '"' && a[..i] + "" == a[..i];
    m := i;
  }

  lemma StartUnescaping(s: string, n: nat)
    requires n <= |s|
    ensures Unescape(s[..n]) == Before(s[..0], Unescape(s[0..n]))
  {
    assert s[0..n] == s[..n];
    var r := Unescape(s[..n]);
    if r.Some? { assert s[..0] + r.value == r.value; }
  }

  /** conf_read_simple for the user's values. */
  class Reader {
    const syms: seq<Symbol>
    var def: seq<Option<Value>>

    constructor (syms: seq<Symbol>)
      ensures this.syms == syms && def == seq(|syms|, i => None)
    {
      this.syms := syms;
      def := seq(|syms|, i => None);
    }

    method FindSymbol(name: string) returns (r: Option<nat>)
      ensures r == Lookup(syms, name, 0)
    {
      var i := 0;
      while i < |syms|
        invariant i <= |syms| && Lookup(syms, name, 0) == Lookup(syms, name, i)
      {
        if syms[i].name == name {
          return Some(i);
        }
        i := i + 1;
      }
      r := None;
    }

    /** The line's text is copied, so that it can be unescaped in place. */
    method UnquoteText(p: string) returns (r: Option<string>)
      ensures r == Unescape(p)
    {
      var a := new char[|p|](i requires 0 <= i < |p| => p[i]);
      assert a[..] == p == a[..|p|];
      var m := UnescapeInPlace(a, |p|);
      r := if m < 0 then None else Some(a[..m]);
    }

    /** conf_set_sym_val. */
    method SetSymVal(i: nat, p: string)
      requires i < |syms| == |def|
      modifies `def
      ensures def == old(def)[i := Effect(syms[i], Assign(syms[i].name, p), old(def[i]))]
    {
      var typ := syms[i].typ;
      if typ == Tristate && p != "" && p[0] == 'm' {
        def := def[i := Some(TriValue(M))];
      } else if IsLogic(typ) {
        if p != "" && p[0] == 'y' {
          def := def[i := Some(TriValue(Y))];
        } else if p != "" && p[0] == 'n' {
          def := def[i := Some(TriValue(N))];
        }
      } else if typ == Str {
        if p != "" && p[0] == '"' {
          var s := UnquoteText(p[1..]);
          if s.Some? {
            def := def[i := Some(TextValue(s.value))];
          }
        }
      } else if typ != Unknown && ValidText(typ, p) {
        def := def[i := Some(TextValue(p))];
      }
    }

    method TakeLine(line: string, ended: bool)
      requires |syms| == |def|
      modifies `def
      ensures def == Take(syms, old(def), ParseLine(line, ended))
    {
      var st := ParseLine(line, ended);
      if st.Skip? {
        return;
      }
      var i := FindSymbol(st.name);
      if i.None? {
        return;
      }
      var typ := syms[i.value].typ;
      if st.Unset? {
        if IsLogic(typ) {
          def := def[i.value := Some(TriValue(N))];
        }
      } else {
        SetSymVal(i.value, st.text);
      }
    }

    /** The values are cleared, then the lines of the file are taken one by one. */
    method ReadSimple(text: string)
      modifies `def
      ensures def == ReadAll(syms, seq(|syms|, i => None), text)
    {
      def := seq(|syms|, i => None);
      var rest := text;
      while rest != ""
        invariant |def| == |syms|
        invariant ReadAll(syms, def, rest) == ReadAll(syms, seq(|syms|, i => None), text)
        decreases |rest|
      {
        var p := Find(rest, '\n', 0);
        if p.None? {
          TakeLine(rest, false);
          rest := "";
        } else {
          TakeLine(rest[..p.value], true);
          rest := rest[p.value + 1..];
        }
      }
    }
  }

  /** Writing items, and reading the file. */
  method WriteAndRead(syms: seq<Symbol>, values: seq<Value>, items: seq<Item>) returns (def: seq<Option<Value>>)
    requires Distinct(syms) && Writable(syms, values, items)
    ensures |def| == |syms| && forall j :: 0 <= j < |syms| ==> def[j] == LastWord(syms, values, items, j, None)
    ensures Harmless(syms, items) ==> def == Restored(seq(|syms|, i => None), values, items)
  {
    var text := ConfWrite(syms, values, items);
    var reader := new Reader(syms);
    reader.ReadSimple(text);
    ghost var start: seq<Option<Value>> := seq(|syms|, i => None);
    forall j | 0 <= j < |syms|
      ensures ReadAll(syms, start, text)[j] == LastWord(syms, values, items, j, None)
    {
      FileReads(syms, values, start, items, j);
    }
    if Harmless(syms, items) { FileRoundTrip(syms, values, start, items); }
    def := reader.def;
  }

  /** What conf_write makes of the items, with conf_write_symbol and kconfig_print_symbol. */
  method ConfWrite(syms: seq<Symbol>, values: seq<Value>, items: seq<Item>) returns (text: string)
    requires Writable(syms, values, items)
    ensures text == WriteAll(syms, values, items)
  {
    text := "";
    var k := 0;
    assert items[0..] == items;
    ghost var whole, rest := WriteAll(syms, values, items), WriteAll(syms, values, items);
    while k < |items|
      invariant k <= |items| && whole == text + rest && rest == WriteAll(syms, values, items[k..])
    {
      WriteNext(syms, values, items, k);
      var line := PrintItem(syms, values, items[k]);
      rest := WriteAll(syms, values, items[k + 1..]);
      LongerText(text, line, rest);
      text := text + line + "\n";
      k := k + 1;
    }
  }

  method PrintItem(syms: seq<Symbol>, values: seq<Value>, it: Item) returns (line: string)
    requires |values| == |syms| && (it.Entry? ==> it.i < |syms| && HasType(values[it.i], syms[it.i].typ))
    ensures line == ItemLine(syms, values, it)
  {
    match it {
      case Entry(i) => line := PrintSymbol(syms[i], values[i]);
      case Remark(t) => line := t;
    }
  }

  lemma WriteNext(syms: seq<Symbol>, values: seq<Value>, items: seq<Item>, k: nat)
    requires Writable(syms, values, items) && k < |items|
    ensures items[k] in items
    ensures WriteAll(syms, values, items[k..]) ==
            ItemLine(syms, values, items[k]) + "\n" + WriteAll(syms, values, items[k + 1..])
  {
    assert items[k..][1..] == items[k + 1..];
  }

  lemma LongerText(text: string, line: string, rest: string)
    ensures text + (line + "\n" + rest) == text + line + "\n" + rest
  {
  }

  method PrintSymbol(sym: Symbol, v: Value) returns (line: string)
    requires HasType(v, sym.typ)
    ensures line == PrintLine(sym, v)
  {
    var value;
    if sym.typ == Str {
      value := EscapeStringValue(v.s);
    } else {
      value := if v.TriValue? then [TriChar(v.t)] else v.s;
    }
    if IsLogic(sym.typ) && value[0] == 'n' {
      return "# " + CONFIG + sym.name + " is not set";
    }
    line := CONFIG + sym.name + "=" + value;
  }
}
