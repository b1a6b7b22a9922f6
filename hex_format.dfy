/** Python's `'%02X' % n` conversion (upper-case hexadecimal, zero-padded to
    width two) and the inverse reading of an upper-case hexadecimal string. */
module HexFormat {

  /** The upper-case hexadecimal digit for a value below sixteen. */
  function HexDigit(d: int): char
    requires 0 <= d < 16
  {
    "0123456789ABCDEF"[d]
  }

  predicate IsHexDigit(c: char) {
    ('0' <= c <= '9') || ('A' <= c <= 'F')
  }

  predicate AllHexDigits(s: string) {
    forall i :: 0 <= i < |s| ==> IsHexDigit(s[i])
  }

  /** The value of one upper-case hexadecimal digit. */
  function DigitValue(c: char): (v: int)
    requires IsHexDigit(c)
    ensures 0 <= v < 16
  {
    if c <= '9' then c as int - '0' as int else c as int - 'A' as int + 10
  }

  /** Digits of `n` in base sixteen, most significant first, no leading zero. */
  function HexDigits(n: nat): (r: string)
    ensures 1 <= |r| && IsHexDigit(r[0])
    decreases n
  {
    if n < 16 then DigitRoundTrip(n); [HexDigit(n)] else HexDigits(n / 16) + [HexDigit(n % 16)]
  }

  /** `'%02X' % n`: a non-negative value is padded with zeros to two digits;
      a negative one is written as a minus sign followed by its magnitude
      (the sign already fills the minimum width). The result is at least two
      characters wide and starts with `-` exactly for a negative value. */
  function Format02X(n: int): (s: string)
    ensures 2 <= |s|
    ensures s[0] == '-' <==> n < 0
  {
    if n >= 0 then
      var d := HexDigits(n);
      if |d| < 2 then "0" + d else d
    else
      "-" + HexDigits(-n)
  }

  /** Reads an upper-case hexadecimal string as a number. */
  function ParseHex(s: string): nat
    requires AllHexDigits(s)
  {
    if s == [] then 0 else ParseHex(s[..|s| - 1]) * 16 + DigitValue(s[|s| - 1])
  }

  lemma DigitRoundTrip(d: int)
    requires 0 <= d < 16
    ensures IsHexDigit(HexDigit(d)) && DigitValue(HexDigit(d)) == d
  {
  }

  lemma AllHexDigitsAppend(s: string, t: string)
    requires AllHexDigits(s) && AllHexDigits(t)
    ensures AllHexDigits(s + t)
  {
    forall i | 0 <= i < |s + t| ensures IsHexDigit((s + t)[i]) {
      if i >= |s| {
        assert (s + t)[i] == t[i - |s|];
      }
    }
  }

  /** Appending a digit multiplies the value read by sixteen and adds it. */
  lemma ParseHexSnoc(s: string, c: char)
    requires AllHexDigits(s) && IsHexDigit(c)
    ensures AllHexDigits(s + [c]) && ParseHex(s + [c]) == ParseHex(s) * 16 + DigitValue(c)
  {
    var t := s + [c];
    assert t[..|t| - 1] == s;
  }

  /** Reading back the digits of `n` gives `n`. */
  lemma {:induction false} HexDigitsRoundTrip(n: nat)
    ensures AllHexDigits(HexDigits(n)) && ParseHex(HexDigits(n)) == n
    decreases n
  {
    DigitRoundTrip(n % 16);
    if n >= 16 {
      var q, d := n / 16, n % 16;
      HexDigitsRoundTrip(q);
      ParseHexSnoc(HexDigits(q), HexDigit(d));
      assert HexDigits(n) == HexDigits(q) + [HexDigit(d)];
    }
  }

  /** A value below 256 needs at most two digits, and a larger one more. */
  lemma HexDigitsLength(n: nat)
    ensures 1 <= |HexDigits(n)|
    ensures n < 256 <==> |HexDigits(n)| <= 2
  {
    if n >= 16 {
      var q := n / 16;
      assert |HexDigits(n)| == |HexDigits(q)| + 1;
      if q >= 16 {
        assert |HexDigits(q)| == |HexDigits(q / 16)| + 1;
        assert n >= 256;
      } else {
        assert n < 256;
      }
    }
  }

  /** A leading zero does not change the value read. */
  lemma {:induction false} LeadingZero(s: string)
    requires AllHexDigits(s)
    ensures AllHexDigits("0" + s) && ParseHex("0" + s) == ParseHex(s)
    decreases |s|
  {
    if s != [] {
      var t := "0" + s;
      assert t[..|t| - 1] == "0" + s[..|s| - 1];
      LeadingZero(s[..|s| - 1]);
    }
  }

  /** A non-negative value always reads back, however many digits it needs. */
  lemma Format02XRoundTrip(n: nat)
    ensures AllHexDigits(Format02X(n)) && ParseHex(Format02X(n)) == n
    ensures |Format02X(n)| == 2 <==> n < 256
  {
    HexDigitsRoundTrip(n);
    HexDigitsLength(n);
    if |HexDigits(n)| < 2 {
      LeadingZero(HexDigits(n));
    }
  }

  lemma Format02XEnds()
    ensures Format02X(0) == "00" && Format02X(255) == "FF"
  {
    assert HexDigits(255) == HexDigits(15) + [HexDigit(15)];
  }
}
