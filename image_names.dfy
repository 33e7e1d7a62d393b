/**
 * File names of saved images: the index formatted as `f"{index:04d}.jpg"`
 * (decimal, zero-padded to at least four digits, never truncated), and the
 * reading of such a name back into its index.
 */
module ImageNames {
  import opened Wrappers
  import opened Strings

  /** Minimum field width of the `04d` format. */
  const Width: nat := 4
  const Extension := ".jpg"

  predicate IsDigit(c: char)
  {
    '0' <= c <= '9'
  }

  predicate AllDigits(s: string)
  {
    forall i :: 0 <= i < |s| ==> IsDigit(s[i])
  }

  function DigitChar(d: nat): (c: char)
    requires d < 10
    ensures IsDigit(c)
  {
    ('0' as int + d) as char
  }

  function DigitValue(c: char): (d: nat)
    requires IsDigit(c)
    ensures d < 10
  {
    c as int - '0' as int
  }

  function Pow10(k: nat): (p: nat)
    ensures p >= 1
  {
    if k == 0 then 1 else 10 * Pow10(k - 1)
  }

  /** Decimal digits of `n`, most significant first, with no leading zero (a lone "0" for zero). */
  function Decimal(n: nat): (r: string)
    ensures 1 <= |r|
    ensures AllDigits(r)
    ensures r[0] == '0' ==> n == 0
    decreases n
  {
    if n < 10 then [DigitChar(n)] else Decimal(n / 10) + [DigitChar(n % 10)]
  }

  /** Value of a string of decimal digits read most significant first. */
  function DecimalValue(s: string): nat
    requires AllDigits(s)
  {
    if s == [] then 0 else 10 * DecimalValue(s[..|s| - 1]) + DigitValue(s[|s| - 1])
  }

  function Zeros(k: nat): (z: string)
    ensures |z| == k
    ensures forall i :: 0 <= i < k ==> z[i] == '0'
  {
    seq(k, _ => '0')
  }

  /** The `0` flag with field width `w`: pads on the left with zeros up to `w` characters, never truncates. */
  function ZeroPad(s: string, w: nat): string
  {
    if |s| < w then Zeros(w - |s|) + s else s
  }

  /** The name `f"{index:04d}.jpg"` under which the image with this index is saved. */
  function Filename(index: nat): (name: string)
    ensures |name| >= Width + |Extension|
    ensures EndsWith(name, Extension)
    ensures AllDigits(name[..|name| - |Extension|])
    ensures index < Pow10(Width) ==> |name| == Width + |Extension|
  {
    DecimalLength(index, Width);
    ZeroPad(Decimal(index), Width) + Extension
  }

  /** Reads a name of the form digits + ".jpg" back into the number the digits spell. */
  function ParseFilename(name: string): Option<nat>
  {
    if |name| > |Extension| && EndsWith(name, Extension) && AllDigits(name[..|name| - |Extension|])
    then Some(DecimalValue(name[..|name| - |Extension|]))
    else None
  }

  lemma {:induction false} DecimalLength(n: nat, k: nat)
    requires k >= 1
    ensures n < Pow10(k) ==> |Decimal(n)| <= k
    decreases n
  {
    if n >= 10 && n < Pow10(k) {
      assert k >= 2 && n / 10 < Pow10(k - 1);
      DecimalLength(n / 10, k - 1);
    }
  }

  lemma {:induction false} DecimalRoundTrip(n: nat)
    ensures DecimalValue(Decimal(n)) == n
    decreases n
  {
    if n >= 10 {
      var s := Decimal(n / 10);
      DecimalRoundTrip(n / 10);
      assert (s + [DigitChar(n % 10)])[..|s|] == s;
    }
  }

  lemma {:induction false} ZerosHaveNoValue(k: nat)
    ensures DecimalValue(Zeros(k)) == 0
  {
    if k > 0 {
      assert Zeros(k)[..k - 1] == Zeros(k - 1);
      ZerosHaveNoValue(k - 1);
    }
  }

  lemma {:induction false} LeadingZerosIgnored(k: nat, s: string)
    requires AllDigits(s)
    ensures AllDigits(Zeros(k) + s)
    ensures DecimalValue(Zeros(k) + s) == DecimalValue(s)
    decreases |s|
  {
    if s == [] {
      assert Zeros(k) + s == Zeros(k);
      ZerosHaveNoValue(k);
    } else {
      var t := Zeros(k) + s;
      assert t[..|t| - 1] == Zeros(k) + s[..|s| - 1];
      LeadingZerosIgnored(k, s[..|s| - 1]);
    }
  }

  /** Every index, including those past 9999 that widen the name, is read back from its file name. */
  lemma FilenameRoundTrip(index: nat)
    ensures ParseFilename(Filename(index)) == Some(index)
  {
    var d := Decimal(index);
    var padded := ZeroPad(d, Width);
    var name := Filename(index);
    assert name[..|name| - |Extension|] == padded;
    var k := if |d| < Width then Width - |d| else 0;
    assert padded == Zeros(k) + d;
    LeadingZerosIgnored(k, d);
    DecimalRoundTrip(index);
  }

  /** Distinct indices give distinct file names, so no save overwrites another of the same run. */
  lemma FilenameInjective(i: nat, j: nat)
    ensures Filename(i) == Filename(j) ==> i == j
  {
    FilenameRoundTrip(i);
    FilenameRoundTrip(j);
  }
}
