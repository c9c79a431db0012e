/** Which texts of a .config file count as numbers. */
module ConfigNumbers {
  import opened KconfigExpr
  import opened ExprCompare
  import opened ConfigFile

  lemma {:induction false} DigitsNonNegative(s: string, base: nat, acc: nat)
    requires base == 10 || base == 16
    ensures Digits(s, base, acc) >= 0 <==> forall c <- s :: DigitOf(c) < base
    decreases |s|
  {
    if s != [] {
      assert s[0] in s && forall c <- s[1..] :: c in s;
      if DigitOf(s[0]) < base { DigitsNonNegative(s[1..], base, acc * base + DigitOf(s[0])); }
      if forall c <- s[1..] :: DigitOf(c) < base {
        assert forall c <- s :: c == s[0] || c in s[1..];
      }
    }
  }

  lemma DecimalDigit(c: char)
    ensures IsDigit(c) <==> DigitOf(c) < 10
    ensures IsHexDigit(c) <==> DigitOf(c) < 16
    ensures IsDigit(c) ==> 0 <= DigitOf(c) && c == Digit(DigitOf(c))
  {
  }

  /** A text is a valid hexadecimal number exactly if all of it is read as one. */
  lemma ValidHexIff(s: string)
    ensures ValidHex(s) <==> Magnitude(s, 16) >= 0
  {
    var t := if |s| >= 2 && s[0] == '0' && s[1] in "xX" then s[2..] else s;
    forall c: char ensures IsHexDigit(c) <==> DigitOf(c) < 16 {
      DecimalDigit(c);
    }
    DigitsNonNegative(t, 16, 0);
    DigitsNonNegative(s, 16, 0);
    if t == "" && s != "" { assert s[1] in s; }
  }

  lemma {:induction false} NumeralIsDigits(n: nat)
    ensures var s := Numeral(n, 10);
      (forall c <- s :: IsDigit(c)) && (s[0] == '0' ==> |s| == 1 && n == 0)
    decreases n
  {
    if n < 10 {
      DecimalDigit(Digit(n));
    } else {
      QuotientSmaller(n, 10);
      NumeralIsDigits(n / 10);
      DecimalDigit(Digit(n % 10));
    }
  }

  /** Digits without a leading zero are the numeral of their number. */
  lemma {:induction false} DigitsAreNumeral(t: string)
    requires t != "" && (t[0] == '0' ==> |t| == 1) && forall c <- t :: IsDigit(c)
    ensures Digits(t, 10, 0) >= 0 && Numeral(Digits(t, 10, 0), 10) == t
    decreases |t|
  {
    var init, c := t[..|t| - 1], t[|t| - 1];
    assert t == init + [c] && c in t && forall d <- init :: d in t;
    DecimalDigit(c);
    if init == "" {
      assert t == [c] && [c][1..] == [];
      assert Digits(t, 10, 0) == Digits([c][1..], 10, DigitOf(c)) == DigitOf(c);
    } else {
      DigitsAreNumeral(init);
      DigitsAppend(init, c, 10, 0);
      var n: nat := Digits(init, 10, 0);
      assert init[0] == t[0];
      LastDigit(n, DigitOf(c));
    }
  }

  lemma LastDigit(n: nat, d: nat)
    requires n > 0 && d < 10
    ensures Numeral(n * 10 + d, 10) == Numeral(n, 10) + [Digit(d)]
  {
    assert (n * 10 + d) / 10 == n && (n * 10 + d) % 10 == d;
  }

  /** A text is a valid integer exactly if it is the usual way to write one, or that with a minus sign. */
  lemma ValidIntIff(s: string)
    ensures ValidInt(s) <==> exists n: nat :: s == Numeral(n, 10) || s == "-" + Numeral(n, 10)
  {
    var t := if s != "" && s[0] == '-' then s[1..] else s;
    if ValidInt(s) {
      DigitsAreNumeral(t);
      assert s == t || s == "-" + t;
    }
    forall n: nat | s == Numeral(n, 10) || s == "-" + Numeral(n, 10)
      ensures ValidInt(s)
    {
      NumeralIsDigits(n);
      assert t == Numeral(n, 10);
    }
  }
}
