/** The two-digit section number shown above each slide's headline. */
module SectionNumber {
  import Sections

  predicate IsDigit(c: char) { '0' <= c <= '9' }

  predicate IsDigits(s: string) { forall i :: 0 <= i < |s| ==> IsDigit(s[i]) }

  function DigitChar(d: nat): (c: char)
    requires d < 10
    ensures IsDigit(c)
  {
    ('0' as int + d) as char
  }

  function DigitValue(c: char): (d: nat)
    requires IsDigit(c)
    ensures d < 10 && DigitChar(d) == c
  {
    c as int - '0' as int
  }

  /** String(n): decimal digits, no leading zero. */
  function Decimal(n: nat): (s: string)
    ensures |s| >= 1 && IsDigits(s)
    ensures |s| == 1 <==> n < 10
    ensures s[0] == '0' ==> n == 0
  {
    if n < 10 then [DigitChar(n)] else Decimal(n / 10) + [DigitChar(n % 10)]
  }

  /** Value of a string of decimal digits; leading zeros allowed. */
  function ParseDecimal(s: string): nat
    requires IsDigits(s)
  {
    if s == [] then 0 else ParseDecimal(s[..|s| - 1]) * 10 + DigitValue(s[|s| - 1])
  }

  lemma {:induction false} DecimalRoundTrip(n: nat)
    ensures ParseDecimal(Decimal(n)) == n
  {
    if n >= 10 {
      var s := Decimal(n);
      assert s[..|s| - 1] == Decimal(n / 10);
      DecimalRoundTrip(n / 10);
    }
  }

  /** A leading '0' does not change the value. */
  lemma {:induction false} LeadingZero(s: string)
    requires IsDigits(s)
    ensures IsDigits(['0'] + s) && ParseDecimal(['0'] + s) == ParseDecimal(s)
  {
    var t := ['0'] + s;
    if s != [] {
      assert t[..|t| - 1] == ['0'] + s[..|s| - 1];
      LeadingZero(s[..|s| - 1]);
    }
  }

  /** String.prototype.padStart(width, fill) with a one-character fill. */
  function PadStart(s: string, width: nat, fill: char): (r: string)
    ensures |r| == if |s| >= width then |s| else width
    ensures r[|r| - |s|..] == s
    ensures forall i :: 0 <= i < |r| - |s| ==> r[i] == fill
    decreases width - |s|
  {
    if |s| >= width then s else PadStart([fill] + s, width, fill)
  }

  /** String(idx + 1).padStart(2, '0') */
  function SectionLabel(idx: nat): (r: string)
    ensures |r| >= 2 && IsDigits(r)
  {
    PadStart(Decimal(idx + 1), 2, '0')
  }

  /** Numbers 1 to 9 get a leading '0'; from 10 on the label is the plain decimal. */
  lemma SectionLabelShape(idx: nat)
    ensures idx < 9 ==> SectionLabel(idx) == ['0', DigitChar(idx + 1)]
    ensures 9 <= idx ==> SectionLabel(idx) == Decimal(idx + 1)
  {
    var s := Decimal(idx + 1);
    if idx < 9 {
      assert s == [DigitChar(idx + 1)];
      assert PadStart(s, 2, '0') == PadStart(['0'] + s, 2, '0') == ['0'] + s;
    } else {
      assert |s| >= 2;
    }
  }

  /** The label reads back as the one-based section number. */
  lemma SectionLabelRoundTrip(idx: nat)
    ensures ParseDecimal(SectionLabel(idx)) == idx + 1
  {
    DecimalRoundTrip(idx + 1);
    SectionLabelShape(idx);
    if idx < 9 {
      LeadingZero(Decimal(idx + 1));
      assert SectionLabel(idx) == ['0'] + Decimal(idx + 1);
    }
  }

  /** Every section of the deck is numbered with exactly two digits, starting with '0'. */
  lemma DeckLabelsTwoDigits()
    ensures forall k :: 0 <= k < |Sections.Ids| ==> |SectionLabel(k)| == 2 && SectionLabel(k)[0] == '0'
  {
    forall k | 0 <= k < |Sections.Ids|
      ensures |SectionLabel(k)| == 2 && SectionLabel(k)[0] == '0'
    {
      SectionLabelShape(k);
    }
  }
}
