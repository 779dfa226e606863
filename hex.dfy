/** Hexadecimal text: the base-16 parse of std::stoull(str, nullptr, 16) as hash.cpp
    uses it, the unpadded lower-case output of `std::hex`, and the two-digits-per-byte
    rendering in which digests are stored. */
module Hex {
  import opened Words

  datatype ParseError = OutOfRange | InvalidArgument

  datatype Result<T> = Ok(value: T) | Err(error: ParseError)

  predicate IsHexDigit(c: char) {
    ('0' <= c <= '9') || ('a' <= c <= 'f') || ('A' <= c <= 'F')
  }

  predicate IsHexString(s: string) {
    forall i :: 0 <= i < |s| ==> IsHexDigit(s[i])
  }

  predicate IsLowerHexDigit(c: char) {
    ('0' <= c <= '9') || ('a' <= c <= 'f')
  }

  predicate IsLowerHexString(s: string) {
    forall i :: 0 <= i < |s| ==> IsLowerHexDigit(s[i])
  }

  function DigitValue(c: char): (v: nat)
    requires IsHexDigit(c)
    ensures v < 16
  {
    if '0' <= c <= '9' then c as int - '0' as int
    else if 'a' <= c <= 'f' then c as int - 'a' as int + 10
    else c as int - 'A' as int + 10
  }

  /** The lower-case digit that `std::hex` prints for v. */
  function LowerDigit(v: nat): (c: char)
    requires v < 16
    ensures IsLowerHexDigit(c) && DigitValue(c) == v
  {
    if v < 10 then ('0' as int + v) as char else ('a' as int + v - 10) as char
  }

  lemma LowerDigitOfValue(c: char)
    requires IsLowerHexDigit(c)
    ensures LowerDigit(DigitValue(c)) == c
  {
  }

  function Pow16(k: nat): (r: nat)
    ensures r >= 1
  {
    if k == 0 then 1 else 16 * Pow16(k - 1)
  }

  lemma {:induction false} Pow16IsPow256(k: nat)
    ensures Pow16(2 * k) == Pow256(k)
  {
    if k > 0 {
      Pow16IsPow256(k - 1);
      assert Pow16(2 * k) == 16 * (16 * Pow16(2 * (k - 1)));
    }
  }

  /** The number a string of hexadecimal digits denotes. */
  function HexValue(s: string): nat
    requires IsHexString(s)
  {
    if s == [] then 0 else HexValue(s[..|s| - 1]) * 16 + DigitValue(s[|s| - 1])
  }

  lemma {:induction false} HexValueBound(s: string)
    requires IsHexString(s)
    ensures HexValue(s) < Pow16(|s|)
  {
    if s != [] {
      HexValueBound(s[..|s| - 1]);
    }
  }

  /** A digit string without a leading 0 denotes a number that needs all its digits. */
  lemma {:induction false} HexValueLeadingDigit(s: string)
    requires IsHexString(s) && |s| > 0 && s[0] != '0'
    ensures HexValue(s) >= Pow16(|s| - 1)
  {
    if |s| > 1 {
      HexValueLeadingDigit(s[..|s| - 1]);
    }
  }

  /** Number of leading hexadecimal digits of s: the part stoull converts. */
  function HexPrefixLen(s: string): (k: nat)
    ensures k <= |s| && IsHexString(s[..k])
    ensures k < |s| ==> !IsHexDigit(s[k])
  {
    if s == [] || !IsHexDigit(s[0]) then 0
    else
      var k := 1 + HexPrefixLen(s[1..]);
      assert s[..k] == [s[0]] + s[1..][..k - 1];
      k
  }

  /** std::stoull(s, nullptr, 16): converts the leading hexadecimal digits; no digit
      throws std::invalid_argument, a value beyond 64 bits std::out_of_range. */
  function Stoull16(s: string): (r: Result<u64>)
    ensures r.Ok? ==> HexPrefixLen(s) > 0 && r.value == HexValue(s[..HexPrefixLen(s)])
    ensures (r == Err(InvalidArgument)) <==> HexPrefixLen(s) == 0
    ensures (r == Err(OutOfRange)) <==> HexPrefixLen(s) > 0 && HexValue(s[..HexPrefixLen(s)]) >= TWO_TO_THE_64
  {
    var k := HexPrefixLen(s);
    if k == 0 then Err(InvalidArgument)
    else
      var v := HexValue(s[..k]);
      if v < TWO_TO_THE_64 then Ok(v) else Err(OutOfRange)
  }

  /** stoull of a string of at most 16 hexadecimal digits never fails. */
  lemma Stoull16OfDigits(s: string)
    requires IsHexString(s) && 0 < |s| <= 16
    ensures HexValue(s) < TWO_TO_THE_64
    ensures Stoull16(s) == Ok(HexValue(s))
  {
    HexValueBound(s);
    Pow16Monotone(|s|, 16);
    Pow16IsPow256(8);
    assert s[..|s|] == s;
    HexPrefixLenOfDigits(s);
  }

  /** stoull stops at the first character that is not a hexadecimal digit: whatever
      follows it does not change the result. */
  lemma Stoull16StopsAtNonDigit(p: string, t: string)
    requires IsHexString(p) && (t == [] || !IsHexDigit(t[0]))
    ensures Stoull16(p + t) == Stoull16(p)
    ensures p == [] ==> Stoull16(p + t) == Err(InvalidArgument)
    ensures p != [] && HexValue(p) < TWO_TO_THE_64 ==> Stoull16(p + t) == Ok(HexValue(p))
  {
    HexPrefixLenOfPrefix(p, t);
    HexPrefixLenOfDigits(p);
    assert (p + t)[..|p|] == p;
    assert p[..|p|] == p;
  }

  lemma {:induction false} HexPrefixLenOfPrefix(p: string, t: string)
    requires IsHexString(p) && (t == [] || !IsHexDigit(t[0]))
    ensures HexPrefixLen(p + t) == |p|
  {
    if p == [] {
      assert p + t == t;
    } else {
      assert (p + t)[1..] == p[1..] + t;
      HexPrefixLenOfPrefix(p[1..], t);
    }
  }

  lemma {:induction false} HexPrefixLenOfDigits(s: string)
    requires IsHexString(s)
    ensures HexPrefixLen(s) == |s|
  {
    if s != [] {
      HexPrefixLenOfDigits(s[1..]);
    }
  }

  lemma {:induction false} Pow16Monotone(i: nat, j: nat)
    requires i <= j
    ensures Pow16(i) <= Pow16(j)
  {
    if i < j {
      Pow16Monotone(i, j - 1);
    }
  }

  /** `output << std::hex << v`: lower case, no leading zeros, "0" for zero. */
  function ToHex(v: nat): (s: string)
    ensures |s| > 0 && IsLowerHexString(s) && IsHexString(s)
    ensures HexValue(s) == v
    ensures s[0] == '0' ==> s == "0"
  {
    if v < 16 then [LowerDigit(v)]
    else
      var p := ToHex(v / 16);
      var s := p + [LowerDigit(v % 16)];
      assert s[..|s| - 1] == p;
      s
  }

  /** A value below 16^k prints in at most k digits (k >= 1, since 0 prints as "0"). */
  lemma {:induction false} ToHexLength(v: nat, k: nat)
    requires 1 <= k && v < Pow16(k)
    ensures |ToHex(v)| <= k
  {
    if v >= 16 {
      assert k >= 2;
      assert v / 16 < Pow16(k - 1);
      ToHexLength(v / 16, k - 1);
    }
  }

  /** Printing what was parsed gives the text back exactly when it is lower case
      and has no leading zero. */
  lemma {:induction false} ToHexOfHexValue(s: string)
    requires IsLowerHexString(s) && |s| > 0 && (s[0] != '0' || s == "0")
    ensures IsHexString(s) && ToHex(HexValue(s)) == s
  {
    var v := HexValue(s);
    if |s| == 1 {
      LowerDigitOfValue(s[0]);
    } else {
      var p := s[..|s| - 1];
      ToHexOfHexValue(p);
      HexValueLeadingDigit(s);
      Pow16Monotone(1, |s| - 1);
      assert v / 16 == HexValue(p) && v % 16 == DigitValue(s[|s| - 1]);
      LowerDigitOfValue(s[|s| - 1]);
    }
  }

  /** Two lower-case digits for one byte, as the digests are stored. */
  function HexByte(b: byte): (s: string)
    ensures |s| == 2 && IsLowerHexString(s) && IsHexString(s)
  {
    [LowerDigit(b / 16), LowerDigit(b % 16)]
  }

  function HexEncode(b: seq<byte>): (s: string)
    ensures |s| == 2 * |b| && IsLowerHexString(s) && IsHexString(s)
  {
    if b == [] then [] else HexEncode(b[..|b| - 1]) + HexByte(b[|b| - 1])
  }

  lemma {:induction false} HexEncodeAppend(a: seq<byte>, b: seq<byte>)
    ensures HexEncode(a + b) == HexEncode(a) + HexEncode(b)
  {
    if b != [] {
      assert (a + b)[..|a + b| - 1] == a + b[..|b| - 1];
      HexEncodeAppend(a, b[..|b| - 1]);
    } else {
      assert a + b == a;
    }
  }

  /** The stored text of a byte list denotes its big-endian value. */
  lemma {:induction false} HexValueOfEncode(b: seq<byte>)
    ensures HexValue(HexEncode(b)) == FromBE(b)
  {
    if b != [] {
      var p := HexEncode(b[..|b| - 1]);
      var hb := HexByte(b[|b| - 1]);
      var s := p + hb;
      HexValueOfEncode(b[..|b| - 1]);
      assert s[..|s| - 1][..|s| - 2] == p;
      assert s[..|s| - 1][|s| - 2] == hb[0];
      assert s[|s| - 1] == hb[1];
    }
  }
}
