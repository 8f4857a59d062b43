/** Decimal text of non-negative integers, as JavaScript's `${n}` writes it, and its reader. */
module Decimal {
  import opened Wrappers

  predicate IsDigit(c: char) {
    '0' <= c <= '9'
  }

  function DigitChar(d: nat): (c: char)
    requires d < 10
    ensures IsDigit(c) && c as int - '0' as int == d
  {
    ('0' as int + d) as char
  }

  function DigitValue(c: char): nat
    requires IsDigit(c)
  {
    c as int - '0' as int
  }

  /** Canonical decimal text: digits only, no leading zero except for "0" itself. */
  predicate Canonical(s: string) {
    |s| > 0 && (forall i :: 0 <= i < |s| ==> IsDigit(s[i])) && (s[0] == '0' ==> |s| == 1)
  }

  function NatToString(n: nat): string
    decreases n
  {
    if n < 10 then [DigitChar(n)] else NatToString(n / 10) + [DigitChar(n % 10)]
  }

  /** The value of a non-empty run of digits; None for anything else. */
  function ParseDigits(s: string): Option<nat>
    decreases |s|
  {
    if |s| == 0 || !IsDigit(s[|s| - 1]) then None
    else if |s| == 1 then Some(DigitValue(s[0]))
    else match ParseDigits(s[..|s| - 1])
      case Some(v) => Some(10 * v + DigitValue(s[|s| - 1]))
      case None => None
  }

  /** NatToString writes canonical text. */
  lemma {:induction false} NatToStringCanonical(n: nat)
    ensures Canonical(NatToString(n))
    ensures n >= 10 ==> |NatToString(n)| >= 2
    decreases n
  {
    if n >= 10 {
      NatToStringCanonical(n / 10);
      var s := NatToString(n);
      assert s[..|s| - 1] == NatToString(n / 10);
      assert s[0] == NatToString(n / 10)[0];
    }
  }

  /** Reading the text back gives the number. */
  lemma {:induction false} ParseNatToString(n: nat)
    ensures ParseDigits(NatToString(n)) == Some(n)
    decreases n
  {
    if n >= 10 {
      ParseNatToString(n / 10);
      NatToStringCanonical(n / 10);
      var s := NatToString(n);
      assert s[..|s| - 1] == NatToString(n / 10);
    }
  }

  lemma {:induction false} ParseLeadingNonZero(s: string)
    requires Canonical(s) && |s| >= 2
    ensures ParseDigits(s).Some? && ParseDigits(s).value >= 10
    decreases |s|
  {
    var p := s[..|s| - 1];
    assert p[0] == s[0];
    if |p| >= 2 {
      ParseLeadingNonZero(p);
    } else {
      assert ParseDigits(p) == Some(DigitValue(p[0]));
    }
  }

  /** Every canonical text is the text of the number it denotes. */
  lemma {:induction false} NatToStringParse(s: string)
    requires Canonical(s)
    ensures ParseDigits(s).Some? && NatToString(ParseDigits(s).value) == s
    decreases |s|
  {
    if |s| >= 2 {
      var p := s[..|s| - 1];
      assert p[0] == s[0];
      ParseLeadingNonZero(s);
      if |p| >= 2 {
        ParseLeadingNonZero(p);
      }
      NatToStringParse(p);
      var v := ParseDigits(p).value;
      var d := DigitValue(s[|s| - 1]);
      assert v >= 1;
      assert (10 * v + d) / 10 == v && (10 * v + d) % 10 == d;
      assert s == p + [s[|s| - 1]];
    }
  }
}
