// Decimal text: printing naturals, and reading them back the way the
// program's integer parser does.
module Decimal {
  import opened Wrappers

  predicate IsDigit(c: char) {
    '0' <= c <= '9'
  }

  predicate AllDigits(s: string) {
    forall i :: 0 <= i < |s| ==> IsDigit(s[i])
  }

  function Digit(d: nat): char
    requires d < 10
  {
    ('0' as int + d) as char
  }

  function Print(n: nat): (s: string)
    ensures s != [] && AllDigits(s)
  {
    if n < 10 then [Digit(n)] else Print(n / 10) + [Digit(n % 10)]
  }

  // Zero-padded to at least `width` characters.
  function Pad(n: nat, width: nat): string {
    var s := Print(n);
    seq(if |s| < width then width - |s| else 0, _ => '0') + s
  }

  function DigitsValue(s: string): nat
    requires AllDigits(s)
  {
    if s == [] then 0 else 10 * DigitsValue(s[..|s| - 1]) + (s[|s| - 1] as int - '0' as int)
  }

  // An unsigned integer parser: one optional plus sign, then at least one
  // digit and nothing else, and no value above `max`.
  function ParseUnsigned(s: string, max: nat): Option<nat> {
    var digits := if |s| > 0 && s[0] == '+' then s[1..] else s;
    if digits != [] && AllDigits(digits) && DigitsValue(digits) <= max then Some(DigitsValue(digits))
    else None
  }

  lemma {:induction false} PrintValue(n: nat)
    ensures DigitsValue(Print(n)) == n
  {
    var s := Print(n);
    if n >= 10 {
      PrintValue(n / 10);
      assert s[..|s| - 1] == Print(n / 10);
    } else {
      assert s[..|s| - 1] == [];
    }
  }

  lemma ParsePrint(n: nat, max: nat)
    ensures ParseUnsigned(Print(n), max) == if n <= max then Some(n) else None
  {
    PrintValue(n);
    assert IsDigit(Print(n)[0]);
  }

  lemma {:induction false} PrintLength(n: nat, width: nat)
    requires 1 <= width && n < Power10(width)
    ensures |Print(n)| <= width
  {
    if n >= 10 {
      assert Power10(0) == 1;
      PrintLength(n / 10, width - 1);
    }
  }

  function Power10(k: nat): nat {
    if k == 0 then 1 else 10 * Power10(k - 1)
  }

  lemma {:induction false} LeadingZeros(k: nat, s: string)
    requires AllDigits(s)
    ensures AllDigits(seq(k, _ => '0') + s)
    ensures DigitsValue(seq(k, _ => '0') + s) == DigitsValue(s)
    decreases k + |s|
  {
    var zeros := seq(k, _ => '0');
    var z := zeros + s;
    if s != [] {
      LeadingZeros(k, s[..|s| - 1]);
      assert z[..|z| - 1] == zeros + s[..|s| - 1];
    } else if k > 0 {
      LeadingZeros(k - 1, []);
      assert z[..|z| - 1] == seq(k - 1, _ => '0') + [];
    }
  }

  lemma {:induction false} PrintAtLeast(n: nat, width: nat)
    requires n >= Power10(width)
    ensures |Print(n)| > width
  {
    if width > 0 {
      PrintAtLeast(n / 10, width - 1);
    }
  }

  lemma PadAtLeast(n: nat, width: nat)
    requires n >= Power10(width)
    ensures |Pad(n, width)| > width
  {
    PrintAtLeast(n, width);
  }

  lemma PadRoundTrip(n: nat, width: nat)
    requires 1 <= width && n < Power10(width)
    ensures |Pad(n, width)| == width && AllDigits(Pad(n, width))
    ensures DigitsValue(Pad(n, width)) == n
  {
    PrintLength(n, width);
    PrintValue(n);
    var s := Print(n);
    LeadingZeros(width - |s|, s);
  }

  // ---------------------------------------------------------------------
  // The digits, and all texts of a number.
  // ---------------------------------------------------------------------

  // A number is printed as the digits of the decimal system, the last one last.
  lemma PrintIs(n: nat)
    ensures n < 10 ==> Print(n) == ["0123456789"[n]]
    ensures n >= 10 ==> Print(n) == Print(n / 10) + ["0123456789"[n % 10]]
  {
  }

  // Text of digits is its number with zeros in front.
  lemma {:induction false} DigitsArePrinted(s: string) returns (k: nat)
    requires AllDigits(s) && s != []
    ensures s == seq(k, _ => '0') + Print(DigitsValue(s))
  {
    var n := |s| - 1;
    var init, last := s[..n], s[n] as int - '0' as int;
    assert s[n] == Digit(last);
    if init == [] {
      assert s == [s[n]] && DigitsValue(s) == last;
      k := 0;
    } else {
      k := DigitsArePrinted(init);
      if DigitsValue(init) == 0 {
        assert s == seq(k, _ => '0') + ['0'] + [s[n]];
        k := k + 1;
        assert s == seq(k, _ => '0') + [s[n]];
      } else {
        assert DigitsValue(s) / 10 == DigitsValue(init) && DigitsValue(s) % 10 == last;
      }
    }
  }

  function ZeroPadded(zeros: nat, n: nat): string {
    seq(zeros, _ => '0') + Print(n)
  }

  // The texts read as a number: it printed, with any zeros and perhaps one
  // plus sign in front, and no larger than the limit.
  lemma ParseExactly(s: string, max: nat, n: nat)
    ensures ParseUnsigned(s, max) == Some(n)
       <==> n <= max && exists k: nat ::
              s == ZeroPadded(k, n) || s == ['+'] + ZeroPadded(k, n)
  {
    hide Print, DigitsValue, AllDigits;
    if ParseUnsigned(s, max) == Some(n) {
      var digits := if |s| > 0 && s[0] == '+' then s[1..] else s;
      var k := DigitsArePrinted(digits);
      assert s == ZeroPadded(k, n) || s == ['+'] + ZeroPadded(k, n);
    }
    forall k: nat | s == ZeroPadded(k, n) || s == ['+'] + ZeroPadded(k, n)
      ensures ParseUnsigned(s, max) == if n <= max then Some(n) else None
    {
      PaddedParses(k, n, max);
    }
  }

  lemma PaddedParses(k: nat, n: nat, max: nat)
    ensures ParseUnsigned(ZeroPadded(k, n), max) == if n <= max then Some(n) else None
    ensures ParseUnsigned(['+'] + ZeroPadded(k, n), max) == if n <= max then Some(n) else None
  {
    hide DigitsValue, Print;
    var text := ZeroPadded(k, n);
    LeadingZeros(k, Print(n));
    PrintValue(n);
    assert text[0] == if k > 0 then '0' else Print(n)[0];
    assert IsDigit(text[0]) && (['+'] + text)[1..] == text;
  }
}
