/**
 * `formatBytes` (src/app/page.tsx lines 118-122): a byte count as text with the
 * unit B below 1024, KB below 1048576 and MB otherwise.
 *
 * The KB and MB branches print `(bytes / D).toFixed(2)` for D = 1024 or 1048576.
 * Both divisors are powers of two, so for an integer byte count the quotient is
 * exact in binary floating point, and `toFixed(2)` prints the integer n nearest
 * to 100 * bytes / D (the larger one on a tie) with its last two digits after
 * the point. The model computes that n exactly.
 */
module ByteFormat {
  import opened Wrappers
  import opened Decimal

  datatype Unit = B | KB | MB

  const KiB: nat := 1024
  const MiB: nat := 1048576

  function UnitOf(bytes: nat): Unit {
    if bytes < KiB then B else if bytes < MiB then KB else MB
  }

  function Divisor(u: Unit): nat {
    match u
    case B => 1
    case KB => KiB
    case MB => MiB
  }

  function UnitName(u: Unit): string {
    match u
    case B => "B"
    case KB => "KB"
    case MB => "MB"
  }

  /** The integer n that `(num / den).toFixed(2)` shows as n / 100. */
  function Hundredths(num: nat, den: nat): nat
    requires den > 0
  {
    (200 * num + den) / (2 * den)
  }

  /** `toFixed(2)` of h / 100: the integer part, a point, two digits. */
  function Fixed2(h: nat): string {
    NatToString(h / 100) + "." + [DigitChar(h % 100 / 10), DigitChar(h % 10)]
  }

  function FormatBytes(bytes: nat): string {
    if bytes < KiB then NatToString(bytes) + " B"
    else if bytes < MiB then Fixed2(Hundredths(bytes, KiB)) + " KB"
    else Fixed2(Hundredths(bytes, MiB)) + " MB"
  }

  /** What a reader of the text learns: a number of hundredths and a unit. */
  datatype Reading = Reading(hundredths: nat, unit: Unit)

  function EndsWith(t: string, suffix: string): bool {
    |t| >= |suffix| && t[|t| - |suffix|..] == suffix
  }

  function ParseFixed2(t: string): Option<nat> {
    if |t| < 4 || t[|t| - 3] != '.' then None
    else match (ParseDigits(t[..|t| - 3]), ParseDigits(t[|t| - 2..]))
      case (Some(whole), Some(frac)) => Some(100 * whole + frac)
      case _ => None
  }

  /** Reads text of the forms "<n> B", "<n>.<dd> KB" and "<n>.<dd> MB". */
  function ParseSize(t: string): Option<Reading> {
    if EndsWith(t, " KB") then
      match ParseFixed2(t[..|t| - 3])
      case Some(h) => Some(Reading(h, KB))
      case None => None
    else if EndsWith(t, " MB") then
      match ParseFixed2(t[..|t| - 3])
      case Some(h) => Some(Reading(h, MB))
      case None => None
    else if EndsWith(t, " B") then
      match ParseDigits(t[..|t| - 2])
      case Some(n) => Some(Reading(100 * n, B))
      case None => None
    else None
  }

  /** The hundredths the text of `bytes` shows, in its unit. */
  function ShownHundredths(bytes: nat): nat {
    if bytes < KiB then 100 * bytes else Hundredths(bytes, Divisor(UnitOf(bytes)))
  }

  /** The unit thresholds, in both directions. */
  lemma UnitThresholds(bytes: nat)
    ensures UnitOf(bytes) == B <==> bytes < 1024
    ensures UnitOf(bytes) == KB <==> 1024 <= bytes < 1048576
    ensures UnitOf(bytes) == MB <==> 1048576 <= bytes
  {
  }

  /** Hundredths rounds to nearest, ties upward: its value is within half a hundredth. */
  lemma HundredthsNearest(num: nat, den: nat)
    requires den == KiB || den == MiB
    ensures var h := Hundredths(num, den);
      200 * num - den < 2 * den * h <= 200 * num + den
  {
  }

  lemma ParseFixed2OfFixed2(h: nat)
    ensures ParseFixed2(Fixed2(h)) == Some(h)
  {
    var w := NatToString(h / 100);
    var t := Fixed2(h);
    ParseNatToString(h / 100);
    assert t[..|t| - 3] == w;
    var two := [DigitChar(h % 100 / 10), DigitChar(h % 10)];
    assert t[|t| - 2..] == two;
    TwoDigits(h);
  }

  lemma TwoDigits(h: nat)
    ensures ParseDigits([DigitChar(h % 100 / 10), DigitChar(h % 10)]) == Some(h % 100)
  {
    var m := h % 100;
    assert h % 10 == m % 10;
    DigitPair(m / 10, m % 10);
  }

  lemma DigitPair(a: nat, b: nat)
    requires a < 10 && b < 10
    ensures ParseDigits([DigitChar(a), DigitChar(b)]) == Some(10 * a + b)
  {
    var two := [DigitChar(a), DigitChar(b)];
    assert two[..1] == [DigitChar(a)];
  }

  lemma DigitsNoSpaceOrDot(n: nat)
    ensures var s := NatToString(n); |s| > 0 && s[|s| - 1] != ' ' && s[|s| - 1] != '.'
  {
    NatToStringCanonical(n);
  }

  lemma ReadsWholeBytes(n: nat)
    ensures ParseSize(NatToString(n) + " B") == Some(Reading(100 * n, B))
  {
    var w := NatToString(n);
    var t := w + " B";
    DigitsNoSpaceOrDot(n);
    assert t[..|t| - 2] == w;
    assert t[|t| - 2..] == " B";
    assert |t| >= 3 ==> t[|t| - 3] == w[|w| - 1];
    assert !EndsWith(t, " KB") && !EndsWith(t, " MB");
    ParseNatToString(n);
  }

  lemma ReadsFixed(h: nat, u: Unit)
    requires u != B
    ensures ParseSize(Fixed2(h) + " " + UnitName(u)) == Some(Reading(h, u))
  {
    var f := Fixed2(h);
    var t := f + " " + UnitName(u);
    assert t[..|t| - 3] == f;
    assert t[|t| - 3..] == " " + UnitName(u);
    ParseFixed2OfFixed2(h);
    if u == KB {
      assert EndsWith(t, " KB");
    } else {
      assert t[|t| - 3..] == " MB" != " KB";
      assert EndsWith(t, " MB") && !EndsWith(t, " KB");
    }
  }

  /**
   * The text of a byte count reads back as its unit and the number it shows:
   * the count itself in B, and in KB or MB the nearest hundredth of the quotient.
   */
  lemma FormatBytesReads(bytes: nat)
    ensures ParseSize(FormatBytes(bytes)) == Some(Reading(ShownHundredths(bytes), UnitOf(bytes)))
  {
    if bytes < KiB {
      ReadsWholeBytes(bytes);
    } else {
      var u := UnitOf(bytes);
      assert FormatBytes(bytes) == Fixed2(Hundredths(bytes, Divisor(u))) + " " + UnitName(u);
      ReadsFixed(Hundredths(bytes, Divisor(u)), u);
    }
  }

  /**
   * What the text of a byte count means: read back, it shows the count in B below
   * 1024 and otherwise a value within half a hundredth of bytes / 1024 (KB) or
   * bytes / 1048576 (MB), rounding a tie upward.
   */
  lemma FormatBytesMeaning(bytes: nat)
    ensures var r := ParseSize(FormatBytes(bytes));
      r.Some? && r.value.unit == UnitOf(bytes) &&
      (bytes < 1024 ==> r.value.hundredths == 100 * bytes) &&
      (bytes >= 1024 ==>
        var d := Divisor(r.value.unit);
        200 * bytes - d < 2 * d * r.value.hundredths <= 200 * bytes + d)
  {
    FormatBytesReads(bytes);
    if bytes >= KiB {
      HundredthsNearest(bytes, Divisor(UnitOf(bytes)));
    }
  }

  lemma FormatBytesExampleB()
    ensures FormatBytes(500) == "500 B"
    ensures FormatBytes(0) == "0 B"
  {
    assert NatToString(5) == "5";
    assert NatToString(50) == "50";
    assert NatToString(500) == "500";
  }

  lemma FormatBytesExampleKB()
    ensures FormatBytes(2048) == "2.00 KB"
  {
    assert Hundredths(2048, KiB) == 200;
    assert NatToString(2) == "2";
  }

  lemma FormatBytesExampleMB()
    ensures FormatBytes(5242880) == "5.00 MB"
  {
    assert Hundredths(5242880, MiB) == 500;
    assert NatToString(5) == "5";
  }

  /** One byte short of a MiB is still KB, and shows as "1024.00 KB". */
  lemma FormatBytesTopOfKB()
    ensures FormatBytes(1048575) == "1024.00 KB"
  {
    assert Hundredths(1048575, KiB) == 102400;
    Text1024();
  }

  lemma Text1024()
    ensures NatToString(1024) == "1024"
  {
    assert NatToString(1) == "1";
    assert NatToString(10) == "10";
    assert NatToString(102) == "102";
  }
}
