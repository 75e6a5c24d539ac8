/** Hexadecimal digit strings: their value (as read by the AMD backend when
    it parses a vendor id) and the upper-case rendering used by the
    NVIDIA-legacy backend for PCI bus ids. */
module Hex {

  predicate IsHexDigit(c: char)
  {
    ('0' <= c <= '9') || ('a' <= c <= 'f') || ('A' <= c <= 'F')
  }

  predicate IsUpperHexDigit(c: char)
  {
    ('0' <= c <= '9') || ('A' <= c <= 'F')
  }

  predicate AllHex(s: string)
  {
    forall k :: 0 <= k < |s| ==> IsHexDigit(s[k])
  }

  function DigitValue(c: char): (d: nat)
    requires IsHexDigit(c)
    ensures d < 16
    ensures c == '0' <==> d == 0
  {
    if '0' <= c <= '9' then (c - '0') as nat
    else if 'a' <= c <= 'f' then (c - 'a') as nat + 10
    else (c - 'A') as nat + 10
  }

  /** The value of a string of hex digits, most significant digit first;
      either letter case is accepted. */
  function Value(s: string): nat
    requires AllHex(s)
  {
    if |s| == 0 then 0 else Value(s[..|s| - 1]) * 16 + DigitValue(s[|s| - 1])
  }

  /** The upper-case digit for a value below 16. */
  function UpperDigit(d: nat): (c: char)
    requires d < 16
    ensures IsUpperHexDigit(c) && IsHexDigit(c)
    ensures DigitValue(c) == d
  {
    if d < 10 then ('0' as int + d) as char else ('A' as int + d - 10) as char
  }

  /** The shortest upper-case hex rendering of v (at least one digit). */
  function Digits(v: nat): (s: string)
    ensures |s| >= 1
    ensures AllHex(s) && forall k :: 0 <= k < |s| ==> IsUpperHexDigit(s[k])
    ensures Value(s) == v
    ensures |s| > 1 ==> s[0] != '0'
    ensures v < 16 <==> |s| == 1
    decreases v
  {
    if v < 16 then [UpperDigit(v)]
    else
      var init := Digits(v / 16);
      var s := init + [UpperDigit(v % 16)];
      assert s[..|s| - 1] == init;
      s
  }

  function Zeros(n: nat): (z: string)
    ensures |z| == n
    ensures forall k :: 0 <= k < n ==> z[k] == '0'
  {
    seq(n, _ => '0')
  }

  /** Leading zeros do not change the value of a digit string. */
  lemma {:induction false} LeadingZeros(n: nat, s: string)
    requires AllHex(s)
    ensures AllHex(Zeros(n) + s)
    ensures Value(Zeros(n) + s) == Value(s)
    decreases |s|
  {
    var t := Zeros(n) + s;
    assert AllHex(t) by {
      forall k | 0 <= k < |t| ensures IsHexDigit(t[k]) {
        if k >= n { assert t[k] == s[k - n]; }
      }
    }
    if |s| == 0 {
      assert t == Zeros(n);
      ZerosValue(n);
    } else {
      var init := s[..|s| - 1];
      assert t[..|t| - 1] == Zeros(n) + init;
      LeadingZeros(n, init);
    }
  }

  lemma {:induction false} ZerosValue(n: nat)
    ensures AllHex(Zeros(n)) && Value(Zeros(n)) == 0
    decreases n
  {
    if n > 0 {
      assert Zeros(n)[..n - 1] == Zeros(n - 1);
      ZerosValue(n - 1);
    }
  }

  /** .NET's "X<width>" format: upper-case hex of v, padded on the left with
      zeros to at least `width` digits. */
  function Format(v: nat, width: nat): (s: string)
    ensures AllHex(s) && Value(s) == v
    ensures forall k :: 0 <= k < |s| ==> IsUpperHexDigit(s[k])
    ensures |s| == if width > |Digits(v)| then width else |Digits(v)|
    ensures |s| > width && |s| > 1 ==> s[0] != '0'
  {
    var d := Digits(v);
    if |d| < width then
      LeadingZeros(width - |d|, d);
      Zeros(width - |d|) + d
    else d
  }
}
