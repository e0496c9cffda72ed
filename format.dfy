/** Decimal formatting of a count, as `fmt.Sprintf("%v", n)` writes a
    non-negative `int`, and the reading back that shows the text means `n`. */
module Format {
  import opened Raster
  import opened GlyphTable

  /** The ASCII character of decimal digit `d`. */
  function DigitChar(d: nat): (c: byte)
    requires d < 10
    ensures IsDigit(c)
  {
    '0' as byte + d as byte
  }

  /** The number an ASCII digit stands for. */
  function DigitValue(c: byte): (d: nat)
    requires IsDigit(c)
    ensures d < 10 && DigitChar(d) == c
  {
    (c - '0' as byte) as nat
  }

  /** All characters of `s` are ASCII digits. */
  predicate AllDigits(s: seq<byte>) {
    forall i :: 0 <= i < |s| ==> IsDigit(s[i])
  }

  /** `s` is a base-10 numeral as `%v` writes one: digits only, at least one,
      no sign and no leading zero unless the number is 0 itself. */
  predicate Canonical(s: seq<byte>) {
    |s| >= 1 && AllDigits(s) && (|s| > 1 ==> s[0] != '0' as byte)
  }

  /** `fmt.Sprintf("%v", n)` for `n >= 0`: the base-10 digits of `n`, most
      significant first. */
  function Decimal(n: nat): (s: seq<byte>)
    ensures Canonical(s)
  {
    if n < 10 then [DigitChar(n)] else Decimal(n / 10) + [DigitChar(n % 10)]
  }

  /** The number a string of digits stands for in base 10. */
  function Value(s: seq<byte>): nat
    requires AllDigits(s)
  {
    if s == [] then 0 else 10 * Value(s[..|s| - 1]) + DigitValue(s[|s| - 1])
  }

  /** Reading the text back gives the count: the text is its decimal numeral. */
  lemma {:induction false} ValueOfDecimal(n: nat)
    ensures Value(Decimal(n)) == n
  {
    var s := Decimal(n);
    if n >= 10 {
      ValueOfDecimal(n / 10);
      assert s[..|s| - 1] == Decimal(n / 10);
    }
  }

  /** Distinct counts are written differently. */
  lemma DecimalInjective(a: nat, b: nat)
    ensures Decimal(a) == Decimal(b) ==> a == b
  {
    ValueOfDecimal(a);
    ValueOfDecimal(b);
  }

  /** A numeral of two or more digits with no leading zero stands for at
      least 10. */
  lemma {:induction false} ValueAtLeast(s: seq<byte>)
    requires Canonical(s)
    ensures |s| > 1 ==> Value(s) >= 10
  {
    if |s| > 1 {
      var p := s[..|s| - 1];
      if |p| > 1 {
        ValueAtLeast(p);
      } else {
        assert p == [s[0]];
        assert Value(p) == DigitValue(s[0]) >= 1;
      }
    }
  }

  /** Every numeral `%v` could have written is the one it writes for its own
      value: the two functions are inverse on canonical numerals. */
  lemma {:induction false} DecimalOfValue(s: seq<byte>)
    requires Canonical(s)
    ensures Decimal(Value(s)) == s
  {
    var n := Value(s);
    if |s| == 1 {
      assert s[..|s| - 1] == [];
      assert n == DigitValue(s[0]);
    } else {
      var p := s[..|s| - 1];
      ValueAtLeast(s);
      assert p[0] == s[0];
      if |p| > 1 {
        DecimalOfValue(p);
      } else {
        assert Value(p) == DigitValue(p[0]);
      }
      assert n / 10 == Value(p) && n % 10 == DigitValue(s[|s| - 1]);
      assert s == p + [s[|s| - 1]];
    }
  }

  /** Every character of a formatted count has a glyph in the table. */
  lemma DecimalDrawable(n: nat)
    ensures forall i :: 0 <= i < |Decimal(n)| ==> Decimal(n)[i] in Cs
  {
  }
}
