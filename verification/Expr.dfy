/** Kconfig symbols and expressions, and the three-valued meaning that expr_calc_value gives them. */
module KconfigExpr {

  /** n = 0, m = 1, y = 2: the order of the tristate enum. */
  type Tri = x: int | 0 <= x <= 2

  const N: Tri := 0
  const M: Tri := 1
  const Y: Tri := 2

  datatype SymType = Unknown | Boolean | Tristate | Int | Hex | Str

  /** Symbols are compared by address in the program; here by all their fields, the id among them. */
  datatype Symbol = Symbol(id: nat, name: string, typ: SymType, isConst: bool)

  /** The three built-in constants. Their type field is never set, so it is S_UNKNOWN. */
  const YES := Symbol(0, "y", Unknown, true)
  const MOD := Symbol(1, "m", Unknown, true)
  const NO := Symbol(2, "n", Unknown, true)

  datatype Rel = Eq | Neq | Lt | Le | Gt | Ge
  datatype Conn = And | Or

  datatype Expr =
    | Sym(s: Symbol)
    | Cmp(rel: Rel, l: Symbol, r: Symbol)
    | Not(e: Expr)
    | Bin(op: Conn, left: Expr, right: Expr)

  /** The calculated value of a symbol: its tristate part and its string part. */
  datatype Val = Val(tri: Tri, str: string)

  type Env = Symbol -> Val

  /** What symbol calculation guarantees: constants and undefined names stand for
      themselves, and a boolean symbol is never m. */
  ghost predicate WellFormed(env: Env) {
    && env(YES) == Val(Y, "y") && env(MOD) == Val(M, "m") && env(NO) == Val(N, "n")
    && (forall s: Symbol :: s.typ == Boolean ==> env(s).tri != M)
    && (forall s: Symbol :: s.typ == Unknown ==>
          env(s).str == s.name && (s == YES || s == MOD || env(s).tri == N))
  }

  predicate IsLogic(t: SymType) { t == Boolean || t == Tristate }

  function TriName(v: Tri): string {
    if v == N then "n" else if v == M then "m" else "y"
  }

  /** sym_get_string_value. With modules off no symbol has the value m, so m always prints as "m". */
  function StringValue(s: Symbol, v: Val): string {
    if IsLogic(s.typ) then TriName(v.tri) else v.str
  }

  /** The sign of strcmp. */
  function StrCmp(a: string, b: string): int {
    if a == [] then (if b == [] then 0 else -1)
    else if b == [] then 1
    else if a[0] < b[0] then -1
    else if a[0] > b[0] then 1
    else StrCmp(a[1..], b[1..])
  }

  // ---- number parsing: strtoll / strtoull accepting only a fully consumed string

  datatype Parsed = NotNumber | Signed(v: int) | Unsigned(v: int)

  const TWO63: int := 0x8000_0000_0000_0000
  const TWO64: int := 0x1_0000_0000_0000_0000

  predicate IsSpace(c: char) { c == ' ' || 9 as char <= c <= 13 as char }

  function SkipSpace(s: string): string {
    if s != [] && IsSpace(s[0]) then SkipSpace(s[1..]) else s
  }

  function DigitOf(c: char): int {
    if '0' <= c <= '9' then c as int - '0' as int
    else if 'a' <= c <= 'f' then c as int - 'a' as int + 10
    else if 'A' <= c <= 'F' then c as int - 'A' as int + 10
    else 99
  }

  /** The number s denotes in the base, or -1 when some character is not a digit. */
  function Digits(s: string, base: int, acc: nat): int
    requires base > 0
  {
    if s == [] then acc
    else if DigitOf(s[0]) >= base then -1
    else Digits(s[1..], base, acc * base + DigitOf(s[0]))
  }

  function Magnitude(s: string, base: int): int
    requires base == 0 || base == 10 || base == 16
  {
    if s == [] then -1
    else if base != 10 && |s| > 2 && s[0] == '0' && (s[1] == 'x' || s[1] == 'X') then Digits(s[2..], 16, 0)
    else if base == 0 && s[0] == '0' then Digits(s, 8, 0)
    else Digits(s, if base == 0 then 10 else base, 0)
  }

  /** expr_parse_string for the type of the symbol the string came from. */
  function ParseString(str: string, typ: SymType): Parsed {
    if IsLogic(typ) then
      Signed(if str == "n" then 0 else if str == "m" then 1 else if str == "y" then 2 else -1)
    else
      var s := SkipSpace(str);
      var neg := s != [] && s[0] == '-';
      var body := if s != [] && (s[0] == '-' || s[0] == '+') then s[1..] else s;
      var m := Magnitude(body, if typ == Int then 10 else if typ == Hex then 16 else 0);
      if m < 0 then NotNumber
      else if typ == Hex then
        if m >= TWO64 then NotNumber else Unsigned(if neg && m > 0 then TWO64 - m else m)
      else
        var v := if neg then -m else m;
        if -TWO63 <= v < TWO63 then Signed(v) else NotNumber
  }

  function Sign(x: int): int { if x < 0 then -1 else if x > 0 then 1 else 0 }

  function AsUnsigned(p: Parsed): int { if p.NotNumber? then 0 else p.v % TWO64 }

  /** The comparison result of expr_calc_value: negative, zero or positive. */
  function Compare(env: Env, l: Symbol, r: Symbol): int {
    var s1, s2 := StringValue(l, env(l)), StringValue(r, env(r));
    var both := l.typ == Str && r.typ == Str;
    var p1 := if both then NotNumber else ParseString(s1, l.typ);
    var p2 := if both then NotNumber else ParseString(s2, r.typ);
    if p1.NotNumber? || p2.NotNumber? then StrCmp(s1, s2)
    else if p1.Unsigned? || p2.Unsigned? then Sign(AsUnsigned(p1) - AsUnsigned(p2))
    else Sign(p1.v - p2.v)
  }

  predicate Holds(rel: Rel, res: int) {
    match rel
    case Eq => res == 0
    case Neq => res != 0
    case Lt => res < 0
    case Le => res <= 0
    case Gt => res > 0
    case Ge => res >= 0
  }

  function Combine(op: Conn, a: Tri, b: Tri): Tri {
    match op
    case And => if a < b then a else b
    case Or => if a > b then a else b
  }

  /** The operand an AND or OR ignores. */
  function Identity(op: Conn): Expr { Sym(if op == And then YES else NO) }

  /** expr_calc_value on a non-null expression. */
  function Eval(e: Expr, env: Env): Tri {
    match e
    case Sym(s) => env(s).tri
    case Cmp(rel, l, r) => if Holds(rel, Compare(env, l, r)) then Y else N
    case Not(a) => 2 - Eval(a, env)
    case Bin(op, a, b) => Combine(op, Eval(a, env), Eval(b, env))
  }

  ghost predicate Equivalent(a: Expr, b: Expr) {
    forall env: Env :: WellFormed(env) ==> Eval(a, env) == Eval(b, env)
  }

  /** Number of nodes. */
  function Size(e: Expr): (n: nat)
    ensures n >= 1
  {
    match e
    case Sym(_) => 1
    case Cmp(_, _, _) => 1
    case Not(a) => 1 + Size(a)
    case Bin(_, a, b) => 1 + Size(a) + Size(b)
  }

  /** A boolean or tristate symbol equals one of the three constants exactly when it has that value. */
  lemma CompareWithConstant(env: Env, s: Symbol, c: Symbol)
    requires WellFormed(env) && IsLogic(s.typ) && c in {YES, MOD, NO}
    ensures (Compare(env, s, c) == 0) <==> (env(s).tri == env(c).tri)
  {
    assert ParseString("y", Unknown).NotNumber? && ParseString("m", Unknown).NotNumber?
        && ParseString("n", Unknown).NotNumber?;
    StrCmpZero(StringValue(s, env(s)), c.name);
  }

  lemma {:induction false} StrCmpZero(a: string, b: string)
    ensures (StrCmp(a, b) == 0) <==> (a == b)
  {
    if a != [] && b != [] && a[0] == b[0] {
      StrCmpZero(a[1..], b[1..]);
      assert a == [a[0]] + a[1..] && b == [b[0]] + b[1..];
    }
  }
}
