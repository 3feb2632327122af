/**
 * Decimal integer literals: Python's `int()` on a string (restricted to an
 * optional sign followed by decimal digits), the decimal rendering of an
 * integer (`f"{n}"`), and the thousands-separator normaliser that both
 * parsers of the repository implement, each with its own separator.
 */
module Numbers {
  import opened Wrappers

  predicate IsDigit(c: char) { '0' <= c <= '9' }

  function DigitValue(c: char): (d: nat)
    requires IsDigit(c)
    ensures d < 10
  {
    (c as int) - ('0' as int)
  }

  function DigitChar(d: nat): (c: char)
    requires d < 10
    ensures IsDigit(c) && DigitValue(c) == d
  {
    ('0' as int + d) as char
  }

  predicate AllDigits(s: string) { forall i :: 0 <= i < |s| ==> IsDigit(s[i]) }

  /** The value of a numeral, most significant digit first. */
  function DigitsValue(s: string): nat
    requires AllDigits(s)
  {
    if s == [] then 0 else 10 * DigitsValue(s[..|s| - 1]) + DigitValue(s[|s| - 1])
  }

  predicate IsSign(c: char) { c == '+' || c == '-' }

  /** What `int()` accepts here: an optional sign, then at least one decimal digit. */
  predicate IsIntLiteral(s: string)
  {
    if |s| > 0 && IsSign(s[0]) then |s| > 1 && AllDigits(s[1..]) else |s| > 0 && AllDigits(s)
  }

  /** Python's `int(s)`; `None` where `int` raises `ValueError`. */
  function ParseInt(s: string): Option<int>
  {
    if !IsIntLiteral(s) then None
    else if IsSign(s[0]) then
      var v: int := DigitsValue(s[1..]);
      Some(if s[0] == '-' then -v else v)
    else
      Some(DigitsValue(s))
  }

  /** The shortest decimal numeral of `n` (`str(n)` for a natural number). */
  function NatToString(n: nat): (s: string)
    ensures |s| > 0 && AllDigits(s)
    ensures |s| == 1 || s[0] != '0'
  {
    if n < 10 then [DigitChar(n)] else NatToString(n / 10) + [DigitChar(n % 10)]
  }

  /** `f"{i}"` for an integer. */
  function IntToString(i: int): string
  {
    if i < 0 then "-" + NatToString(-i) else NatToString(i)
  }

  /** `s.replace(c, "")`: every occurrence of `c` removed, the rest in order. */
  function RemoveAll(s: string, c: char): string
  {
    if s == [] then [] else (if s[0] == c then [] else [s[0]]) + RemoveAll(s[1..], c)
  }

  /** After the removal, no `c` is left. */
  lemma {:induction false} RemoveAllRemoves(s: string, c: char)
    ensures c !in RemoveAll(s, c)
  {
    if s != [] {
      RemoveAllRemoves(s[1..], c);
    }
  }

  /** Text without a `c` is left as it is. */
  lemma {:induction false} RemoveAllUnchanged(s: string, c: char)
    requires c !in s
    ensures RemoveAll(s, c) == s
  {
    if s != [] {
      assert c !in s[1..];
      RemoveAllUnchanged(s[1..], c);
      assert s == [s[0]] + s[1..];
    }
  }

  /**
   * The normaliser: drop every `sep`, parse the rest as an integer, and
   * give 0 where the parse fails.
   */
  function Normalize(s: string, sep: char): int
  {
    match ParseInt(RemoveAll(s, sep))
    case Some(n) => n
    case None => 0
  }

  /** Three digits of `k`, with leading zeros. */
  function ThreeDigits(k: nat): (s: string)
    requires k < 1000
    ensures |s| == 3 && AllDigits(s)
  {
    [DigitChar(k / 100), DigitChar(k / 10 % 10), DigitChar(k % 10)]
  }

  /** `n` written with `sep` between groups of three digits, as the statistics site prints numbers. */
  function FormatThousands(n: nat, sep: char): string
  {
    if n < 1000 then NatToString(n) else FormatThousands(n / 1000, sep) + [sep] + ThreeDigits(n % 1000)
  }

  /** A signed integer written with thousands separators. */
  function Grouped(n: int, sep: char): string
  {
    if n < 0 then "-" + FormatThousands(-n, sep) else FormatThousands(n, sep)
  }

  lemma {:induction false} NatToStringValue(n: nat)
    ensures DigitsValue(NatToString(n)) == n
  {
    if n >= 10 {
      NatToStringValue(n / 10);
      var s := NatToString(n);
      assert s[..|s| - 1] == NatToString(n / 10);
    }
  }

  /** `int(f"{n}") == n` for every integer. */
  lemma ParseIntRoundTrip(n: int)
    ensures ParseInt(IntToString(n)) == Some(n)
  {
    if n < 0 {
      var d := NatToString(-n);
      var s := "-" + d;
      assert s == IntToString(n);
      assert s[0] == '-' && s[1..] == d;
      NatToStringValue(-n);
      var v: int := DigitsValue(d);
      assert ParseInt(s) == Some(-v);
    } else {
      var d := NatToString(n);
      assert d == IntToString(n);
      assert !IsSign(d[0]);
      NatToStringValue(n);
      assert ParseInt(d) == Some(DigitsValue(d));
    }
  }

  /** Text in which no character is a digit is never an integer literal. */
  lemma ParseIntNeedsADigit(s: string)
    requires forall i :: 0 <= i < |s| ==> !IsDigit(s[i])
    ensures ParseInt(s) == None
  {
    if |s| > 1 {
      assert !IsDigit(s[1..][0]);
    }
  }

  lemma {:induction false} RemoveAllAppend(a: string, b: string, c: char)
    ensures RemoveAll(a + b, c) == RemoveAll(a, c) + RemoveAll(b, c)
  {
    if a == [] {
      assert a + b == b;
    } else {
      assert (a + b)[0] == a[0];
      assert (a + b)[1..] == a[1..] + b;
      RemoveAllAppend(a[1..], b, c);
    }
  }

  lemma {:induction false} RemoveAllKeepsNonDigits(s: string, c: char)
    requires forall i :: 0 <= i < |s| ==> !IsDigit(s[i])
    ensures forall i :: 0 <= i < |RemoveAll(s, c)| ==> !IsDigit(RemoveAll(s, c)[i])
  {
    if s != [] {
      RemoveAllKeepsNonDigits(s[1..], c);
    }
  }

  lemma DigitsValueThreeMore(x: string, t: string)
    requires AllDigits(x) && AllDigits(t) && |t| == 3
    ensures AllDigits(x + t)
    ensures DigitsValue(x + t) == 1000 * DigitsValue(x) + DigitsValue(t)
  {
    var y := x + t;
    assert y[..|y| - 1] == x + t[..2];
    assert (x + t[..2])[..|x| + 1] == x + t[..1];
    assert (x + t[..1])[..|x|] == x;
    assert t[..2][..1] == t[..1];
    assert t[..1][..0] == [];
    assert DigitsValue(x + t[..1]) == 10 * DigitsValue(x) + DigitValue(t[0]);
    assert DigitsValue(x + t[..2]) == 10 * DigitsValue(x + t[..1]) + DigitValue(t[1]);
    assert DigitsValue(y) == 10 * DigitsValue(x + t[..2]) + DigitValue(t[2]);
    assert DigitsValue(t[..1]) == DigitValue(t[0]);
    assert DigitsValue(t[..2]) == 10 * DigitValue(t[0]) + DigitValue(t[1]);
  }

  lemma ThreeDigitsValue(k: nat)
    requires k < 1000
    ensures DigitsValue(ThreeDigits(k)) == k
  {
    var t := ThreeDigits(k);
    assert t[..2][..1] == t[..1];
    assert t[..1][..0] == [];
    assert DigitsValue(t[..1]) == k / 100;
    assert DigitsValue(t[..2]) == 10 * (k / 100) + k / 10 % 10;
  }

  lemma RemoveAllOfDigits(s: string, sep: char)
    requires AllDigits(s) && !IsDigit(sep)
    ensures RemoveAll(s, sep) == s
  {
    assert sep !in s by {
      forall i | 0 <= i < |s| ensures s[i] != sep { assert IsDigit(s[i]); }
    }
    RemoveAllUnchanged(s, sep);
  }

  /** With all separators removed, a thousands-grouped numeral is the plain numeral of its value. */
  lemma {:induction false} FormatThousandsDigits(n: nat, sep: char)
    requires !IsDigit(sep)
    ensures var d := RemoveAll(FormatThousands(n, sep), sep);
      |d| > 0 && AllDigits(d) && DigitsValue(d) == n
  {
    if n < 1000 {
      RemoveAllOfDigits(NatToString(n), sep);
      NatToStringValue(n);
    } else {
      var x := FormatThousands(n / 1000, sep);
      var t := ThreeDigits(n % 1000);
      FormatThousandsDigits(n / 1000, sep);
      var dx := RemoveAll(x, sep);
      assert RemoveAll(FormatThousands(n, sep), sep) == dx + t by {
        RemoveAllOfDigits(t, sep);
        RemoveAllAppend(x + [sep], t, sep);
        RemoveAllAppend(x, [sep], sep);
        assert RemoveAll([sep], sep) == [];
      }
      DigitsValueThreeMore(dx, t);
      ThreeDigitsValue(n % 1000);
      assert DigitsValue(dx + t) == 1000 * (n / 1000) + n % 1000;
    }
  }

  /**
   * The normaliser inverts the site's number format: for every integer,
   * its thousands-grouped form normalises back to it, provided the
   * separator is neither a digit nor a sign.
   */
  lemma NormalizeGrouped(n: int, sep: char)
    requires !IsDigit(sep) && !IsSign(sep)
    ensures Normalize(Grouped(n, sep), sep) == n
  {
    var m := if n < 0 then -n else n;
    FormatThousandsDigits(m, sep);
    var d := RemoveAll(FormatThousands(m, sep), sep);
    if n < 0 {
      RemoveAllAppend("-", FormatThousands(m, sep), sep);
      assert RemoveAll("-", sep) == "-";
      assert RemoveAll(Grouped(n, sep), sep) == "-" + d;
      assert ("-" + d)[1..] == d;
    } else {
      assert !IsSign(d[0]);
    }
  }

  /** Separators are ignored wherever they stand: removing them first changes nothing. */
  lemma NormalizeIgnoresSeparators(s: string, sep: char)
    ensures Normalize(RemoveAll(s, sep), sep) == Normalize(s, sep)
  {
    RemoveAllRemoves(s, sep);
    RemoveAllUnchanged(RemoveAll(s, sep), sep);
  }

  /** Text without a single digit (`"-"`, `""`, `"nd"`) normalises to 0 rather than failing. */
  lemma NormalizeNonNumeric(s: string, sep: char)
    requires forall i :: 0 <= i < |s| ==> !IsDigit(s[i])
    ensures Normalize(s, sep) == 0
  {
    RemoveAllKeepsNonDigits(s, sep);
    ParseIntNeedsADigit(RemoveAll(s, sep));
  }
}
