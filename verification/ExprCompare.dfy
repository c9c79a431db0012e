/** What the comparisons in conditions mean: numbers as numbers, strings as strings, and tristates by
    their values, except against the constants y, m and n. */
module ExprCompare {
  import opened KconfigExpr

  predicate Relates(rel: Rel, x: int, y: int) {
    match rel
    case Eq => x == y
    case Neq => x != y
    case Lt => x < y
    case Le => x <= y
    case Gt => x > y
    case Ge => x >= y
  }

  // ---- numbers

  function Digit(d: nat): (c: char)
    requires d < 16
    ensures DigitOf(c) == d && !IsSpace(c) && c != '-' && c != '+'
  {
    if d < 10 then ('0' as int + d) as char else ('a' as int + d - 10) as char
  }

  /** The usual way to write a number in some base. */
  function Numeral(n: nat, base: nat): (s: string)
    requires base == 10 || base == 16
    ensures s != [] && !IsSpace(s[0]) && s[0] != '-' && s[0] != '+'
    decreases n
  {
    if n < base then [Digit(n)]
    else
      QuotientSmaller(n, base);
      Numeral(n / base, base) + [Digit(n % base)]
  }

  lemma QuotientSmaller(n: nat, base: nat)
    requires (base == 10 || base == 16) && base <= n
    ensures n / base < n
  {
    if base == 10 { assert n / 10 < n; } else { assert n / 16 < n; }
  }

  function IntText(x: int): string { if x < 0 then "-" + Numeral(-x, 10) else Numeral(x, 10) }

  function HexText(x: nat): string { "0x" + Numeral(x, 16) }

  lemma {:induction false} DigitsAppend(s: string, c: char, base: nat, acc: nat)
    requires base > 0 && 0 <= DigitOf(c) < base && Digits(s, base, acc) >= 0
    ensures Digits(s + [c], base, acc) == Digits(s, base, acc) * base + DigitOf(c)
    decreases |s|
  {
    if s == [] {
      assert [c][1..] == [];
    } else {
      assert (s + [c])[0] == s[0] && (s + [c])[1..] == s[1..] + [c];
      DigitsAppend(s[1..], c, base, acc * base + DigitOf(s[0]));
    }
  }

  lemma {:induction false} NumeralDigits(n: nat, base: nat)
    requires base == 10 || base == 16
    ensures Digits(Numeral(n, base), base, 0) == n
    decreases n
  {
    if n < base {
      assert [Digit(n)][1..] == [];
    } else {
      QuotientSmaller(n, base);
      NumeralDigits(n / base, base);
      DigitsAppend(Numeral(n / base, base), Digit(n % base), base, 0);
    }
  }

  lemma IntParses(x: int)
    requires -TWO63 <= x < TWO63
    ensures ParseString(IntText(x), Int) == Signed(x)
  {
    var n: nat := if x < 0 then -x else x;
    NumeralDigits(n, 10);
    assert ("-" + Numeral(n, 10))[1..] == Numeral(n, 10);
  }

  lemma HexParses(x: nat)
    requires x < TWO64
    ensures ParseString(HexText(x), Hex) == Unsigned(x)
  {
    NumeralDigits(x, 16);
    assert HexText(x)[2..] == Numeral(x, 16);
  }

  /** Integers, of at most 64 bits, compare as numbers. */
  lemma IntsCompare(env: Env, rel: Rel, l: Symbol, r: Symbol, x: int, y: int)
    requires l.typ == r.typ == Int && -TWO63 <= x < TWO63 && -TWO63 <= y < TWO63
    requires env(l).str == IntText(x) && env(r).str == IntText(y)
    ensures Eval(Cmp(rel, l, r), env) == if Relates(rel, x, y) then Y else N
  {
    IntParses(x);
    IntParses(y);
  }

  /** So do hexadecimal numbers. */
  lemma HexesCompare(env: Env, rel: Rel, l: Symbol, r: Symbol, x: nat, y: nat)
    requires l.typ == r.typ == Hex && x < TWO64 && y < TWO64
    requires env(l).str == HexText(x) && env(r).str == HexText(y)
    ensures Eval(Cmp(rel, l, r), env) == if Relates(rel, x, y) then Y else N
  {
    HexParses(x);
    HexParses(y);
    Remainder(x);
    Remainder(y);
    assert Compare(env, l, r) == Sign(x - y);
  }

  lemma Remainder(x: nat)
    requires x < TWO64
    ensures x % TWO64 == x
  {
  }

  // ---- strings

  /** k is the length of a common prefix behind which a comes first. */
  ghost predicate BeforeAt(a: string, b: string, k: nat) {
    k <= |a| && k < |b| && a[..k] == b[..k] && (k == |a| || a[k] < b[k])
  }

  /** The first difference decides; a prefix comes first. */
  ghost predicate Before(a: string, b: string) {
    exists k: nat :: BeforeAt(a, b, k)
  }

  lemma BeforeLater(c: char, s: string, t: string, k: nat)
    ensures BeforeAt([c] + s, [c] + t, k + 1) <==> BeforeAt(s, t, k)
  {
    var a, b := [c] + s, [c] + t;
    if k <= |s| && k <= |t| {
      assert a[..k + 1] == [c] + s[..k] && b[..k + 1] == [c] + t[..k];
      assert s[..k] == a[..k + 1][1..] && t[..k] == b[..k + 1][1..];
    }
  }

  lemma {:induction false} StrCmpBefore(a: string, b: string)
    ensures StrCmp(a, b) < 0 <==> Before(a, b)
  {
    assert a[..0] == b[..0];
    if a != [] && b != [] && a[0] == b[0] {
      var s, t := a[1..], b[1..];
      assert a == [a[0]] + s && b == [a[0]] + t;
      StrCmpBefore(s, t);
      if Before(s, t) {
        var k: nat :| BeforeAt(s, t, k);
        BeforeLater(a[0], s, t, k);
      }
      if Before(a, b) {
        var k: nat :| BeforeAt(a, b, k);
        BeforeLater(a[0], s, t, k - 1);
      }
    } else if Before(a, b) {
      var k: nat :| BeforeAt(a, b, k);
    } else {
      assert !BeforeAt(a, b, 0);
    }
  }

  lemma {:induction false} StrCmpTurned(a: string, b: string)
    ensures StrCmp(b, a) == -StrCmp(a, b)
  {
    if a != [] && b != [] { StrCmpTurned(a[1..], b[1..]); }
  }

  /** Strings compare in the order of their first difference. */
  lemma StringsCompare(env: Env, l: Symbol, r: Symbol)
    requires l.typ == r.typ == Str
    ensures var s, t := env(l).str, env(r).str;
      && Eval(Cmp(Eq, l, r), env) == (if s == t then Y else N)
      && Eval(Cmp(Lt, l, r), env) == (if Before(s, t) then Y else N)
      && Eval(Cmp(Le, l, r), env) == (if Before(s, t) || s == t then Y else N)
      && Eval(Cmp(Gt, l, r), env) == (if Before(t, s) then Y else N)
      && Eval(Cmp(Ge, l, r), env) == (if Before(t, s) || s == t then Y else N)
  {
    var s, t := env(l).str, env(r).str;
    StrCmpZero(s, t);
    StrCmpBefore(s, t);
    StrCmpBefore(t, s);
    StrCmpTurned(s, t);
  }

  // ---- booleans and tristates

  /** Two logical symbols compare by their values. */
  lemma TristatesCompare(env: Env, rel: Rel, l: Symbol, r: Symbol)
    requires IsLogic(l.typ) && IsLogic(r.typ)
    ensures Eval(Cmp(rel, l, r), env) == if Relates(rel, env(l).tri, env(r).tri) then Y else N
  {
    forall v: Tri
      ensures (TriName(v) == "n" <==> v == N) && (TriName(v) == "m" <==> v == M) && (TriName(v) == "y" <==> v == Y)
    {
    }
  }

  /** Against y, m and n they compare as text, in which m comes before n. A relation between a value v and a
      constant c is as it should be for all relations exactly if v and c are not m and n or n and m. */
  lemma ConstantsCompareIff(env: Env, s: Symbol, c: Symbol)
    requires WellFormed(env) && IsLogic(s.typ) && c in {YES, MOD, NO}
    ensures (forall rel :: Eval(Cmp(rel, s, c), env) == if Relates(rel, env(s).tri, env(c).tri) then Y else N)
       <==> !MixesMN(env(s).tri, env(c).tri)
  {
    var v, t := env(s).tri, env(c).tri;
    ConstantText(env, s, c);
    forall rel
      ensures Eval(Cmp(rel, s, c), env) == if Relates(rel, Rank(v), Rank(t)) then Y else N
    {
    }
    if MixesMN(v, t) {
      assert Eval(Cmp(Lt, s, c), env) == if Relates(Lt, Rank(v), Rank(t)) then Y else N;
    } else {
      RanksAgree(v, t);
    }
  }

  /** The alphabetical order of the names. */
  function Rank(v: Tri): int { if v == M then 0 else if v == N then 1 else 2 }

  /** One is m and the other n. */
  predicate MixesMN(v: Tri, t: Tri) { (v == M && t == N) || (v == N && t == M) }

  lemma RanksAgree(v: Tri, t: Tri)
    requires !MixesMN(v, t)
    ensures forall rel :: Relates(rel, Rank(v), Rank(t)) <==> Relates(rel, v, t)
  {
  }

  lemma ConstantText(env: Env, s: Symbol, c: Symbol)
    requires WellFormed(env) && IsLogic(s.typ) && c in {YES, MOD, NO}
    ensures Compare(env, s, c) == Sign(Rank(env(s).tri) - Rank(env(c).tri))
  {
    assert ParseString("y", Unknown).NotNumber? && ParseString("m", Unknown).NotNumber?
        && ParseString("n", Unknown).NotNumber?;
  }

  /** a > n is false for a = m. */
  lemma GreaterThanNo(env: Env, a: Symbol)
    requires WellFormed(env) && a.typ == Tristate && env(a).tri == M
    ensures Eval(Cmp(Gt, a, NO), env) == N
  {
    ConstantText(env, a, NO);
  }
}
