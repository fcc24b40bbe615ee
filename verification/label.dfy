/**
 * The text of the count label, `$"{count} - Solutions"`: the count in
 * decimal followed by a fixed suffix.
 */
module Label {

  predicate IsDigit(c: char) {
    '0' <= c <= '9'
  }

  predicate AllDigits(s: string) {
    forall i :: 0 <= i < |s| ==> IsDigit(s[i])
  }

  function DigitChar(d: nat): (c: char)
    requires d < 10
    ensures IsDigit(c) && c as int - '0' as int == d
  {
    ('0' as int + d) as char
  }

  /** The decimal form of `n` as .NET formats an integer: digits only, no leading zero. */
  function Decimal(n: nat): (s: string)
    ensures s != [] && AllDigits(s)
    ensures |s| > 1 ==> s[0] != '0'
    decreases n
  {
    if n < 10 then [DigitChar(n)] else Decimal(n / 10) + [DigitChar(n % 10)]
  }

  /** The number a string of decimal digits stands for. */
  function DecimalValue(s: string): nat
    requires AllDigits(s)
  {
    if s == [] then 0 else DecimalValue(s[..|s| - 1]) * 10 + (s[|s| - 1] as int - '0' as int)
  }

  /** Reading back the decimal form of `n` gives `n`. */
  lemma {:induction false} DecimalRoundTrip(n: nat)
    ensures DecimalValue(Decimal(n)) == n
  {
    var s := Decimal(n);
    if n >= 10 {
      DecimalRoundTrip(n / 10);
      assert s[..|s| - 1] == Decimal(n / 10);
    }
  }

  const Suffix: string := " - Solutions"

  /** The label text for `count` visible solutions. */
  function CountLabel(count: nat): (text: string)
    ensures |text| > |Suffix| && text[|text| - |Suffix|..] == Suffix
    ensures AllDigits(text[..|text| - |Suffix|])
  {
    Decimal(count) + Suffix
  }

  /** Different counts give different labels: the label tells how many solutions are shown. */
  lemma CountLabelInjective(m: nat, n: nat)
    requires CountLabel(m) == CountLabel(n)
    ensures m == n
  {
    var a, b := CountLabel(m), CountLabel(n);
    assert Decimal(m) == a[..|a| - |Suffix|];
    assert Decimal(n) == b[..|b| - |Suffix|];
    DecimalRoundTrip(m);
    DecimalRoundTrip(n);
  }
}
