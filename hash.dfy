/** The Hash value type of hash.h/hash.cpp: an MD5 digest held as two uint64_t
    words, its equality, its parse from stored hexadecimal text (storeHash), its
    printed form (operator<<) and the bucket function of the credential map
    (HashMapFunctor). The host is little-endian, which is what storeHash's byte
    swap assumes. */
module Digests {
  import opened Words
  import opened Hex

  /** uint64_t hash[2]. */
  datatype Hash = Hash(h0: u64, h1: u64)

  /** The 16 bytes MD5 writes. */
  type Digest16 = b: seq<byte> | |b| == 16 witness [0, 0, 0, 0, 0, 0, 0, 0, 0, 0, 0, 0, 0, 0, 0, 0]

  /** The MD5 primitive, which the model takes as a parameter. */
  type Md5 = string -> Digest16

  /** Hash(): both words zero. */
  const DefaultHash: Hash := Hash(0, 0)

  /** Hash(password): MD5 writes its 16 bytes over hash[0] and hash[1], which a
      little-endian host reads back least significant byte first. */
  function FromDigestBytes(d: Digest16): (h: Hash)
    ensures ToLE(h.h0, 8) == d[..8] && ToLE(h.h1, 8) == d[8..]
  {
    FromLEBound(d[..8]);
    FromLEBound(d[8..]);
    ToLEFromLE(d[..8]);
    ToLEFromLE(d[8..]);
    Hash(FromLE(d[..8]), FromLE(d[8..]))
  }

  function HashOf(md5: Md5, password: string): Hash {
    FromDigestBytes(md5(password))
  }

  /** operator==: word-wise, which for this value type is plain equality. */
  function Equal(a: Hash, b: Hash): (r: bool)
    ensures r <==> a == b
  {
    a.h0 == b.h0 && a.h1 == b.h1
  }

  lemma EqualIsEquivalence(a: Hash, b: Hash, c: Hash)
    ensures Equal(a, a)
    ensures Equal(a, b) ==> Equal(b, a)
    ensures Equal(a, b) && Equal(b, c) ==> Equal(a, c)
  {
  }

  /** Hash::storeHash: the first 16 characters and the rest are each parsed as
      base-16 numbers and byte-swapped. substr(16) throws std::out_of_range on a
      shorter input. */
  function StoreHash(passwordHash: string): Result<Hash> {
    if |passwordHash| < 16 then Err(OutOfRange)
    else
      match Stoull16(passwordHash[..16])
      case Err(e) => Err(e)
      case Ok(v0) =>
        match Stoull16(passwordHash[16..])
        case Err(e) => Err(e)
        case Ok(v1) => Ok(Hash(SwapBytes(v0), SwapBytes(v1)))
  }

  /** Every input of 16 or fewer characters fails: below 16 in substr, at 16 in
      stoull, which is handed an empty second half. */
  lemma StoreHashShortFails(s: string)
    requires |s| <= 16
    ensures |s| < 16 ==> StoreHash(s) == Err(OutOfRange)
    ensures |s| == 16 ==> StoreHash(s) == Err(InvalidArgument)
  {
    if |s| == 16 {
      assert s[..16] == s;
      var k := HexPrefixLen(s);
      if k > 0 {
        HexValueBound(s[..k]);
        Pow16Monotone(k, 16);
        Pow16IsPow256(8);
        assert Pow256(8) == TWO_TO_THE_64;
        assert Stoull16(s[..16]).Ok?;
      }
      var rest := s[16..];
      assert rest == [];
      assert HexPrefixLen(rest) == 0;
      assert Stoull16(rest) == Err(InvalidArgument);
    }
  }

  predicate IsStoredDigest(s: string) {
    |s| == 32 && IsHexString(s)
  }

  /** On 32 hexadecimal digits storeHash swaps the values of the two halves. */
  lemma StoreHashOfDigits(s: string)
    requires IsStoredDigest(s)
    ensures HexValue(s[..16]) < TWO_TO_THE_64 && HexValue(s[16..]) < TWO_TO_THE_64
    ensures StoreHash(s) == Ok(Hash(SwapBytes(HexValue(s[..16])), SwapBytes(HexValue(s[16..]))))
  {
    Stoull16OfDigits(s[..16]);
    Stoull16OfDigits(s[16..]);
  }

  /** Two stored digests compare equal exactly when their halves denote the same numbers. */
  lemma StoreHashEqualIff(s: string, t: string)
    requires IsStoredDigest(s) && IsStoredDigest(t)
    ensures StoreHash(s).Ok? && StoreHash(t).Ok?
    ensures Equal(StoreHash(s).value, StoreHash(t).value)
        <==> HexValue(s[..16]) == HexValue(t[..16]) && HexValue(s[16..]) == HexValue(t[16..])
  {
    StoreHashOfDigits(s);
    StoreHashOfDigits(t);
    SwapBytesInjective(HexValue(s[..16]), HexValue(t[..16]));
    SwapBytesInjective(HexValue(s[16..]), HexValue(t[16..]));
  }

  /** Parsing the stored text of an MD5 result gives the digest computed from the
      password: the byte swap turns the big-endian reading of the text into the
      little-endian reading of memory. */
  lemma StoreHashOfEncodedDigest(d: Digest16)
    ensures StoreHash(HexEncode(d)) == Ok(FromDigestBytes(d))
  {
    var s := HexEncode(d);
    assert d == d[..8] + d[8..];
    HexEncodeAppend(d[..8], d[8..]);
    assert s[..16] == HexEncode(d[..8]) && s[16..] == HexEncode(d[8..]);
    StoreHashOfDigits(s);
    HexValueOfEncode(d[..8]);
    HexValueOfEncode(d[8..]);
    SwapBytesOfBE(d[..8]);
    SwapBytesOfBE(d[8..]);
  }

  /** The digest of an all-zero record is the default-constructed Hash. */
  lemma StoreHashOfZeros()
    ensures StoreHash(seq(32, _ => '0')) == Ok(DefaultHash)
  {
    var d: Digest16 := seq(16, _ => 0);
    assert HexEncode(d) == seq(32, _ => '0') by {
      ZeroEncode(16);
    }
    StoreHashOfEncodedDigest(d);
    assert FromLE(d[..8]) == 0 && FromLE(d[8..]) == 0 by {
      assert d[..8] == seq(8, _ => 0) && d[8..] == seq(8, _ => 0);
      ZeroLE(8);
    }
  }

  lemma {:induction false} ZeroEncode(k: nat)
    ensures HexEncode(seq(k, _ => 0)) == seq(2 * k, _ => '0')
  {
    if k > 0 {
      ZeroEncode(k - 1);
      assert seq(k, _ => 0)[..k - 1] == seq(k - 1, _ => 0);
    }
  }

  lemma {:induction false} ZeroLE(k: nat)
    ensures FromLE(seq(k, _ => 0)) == 0
  {
    if k > 0 {
      ZeroLE(k - 1);
      assert seq(k, _ => 0)[1..] == seq(k - 1, _ => 0);
    }
  }

  /** operator<<: both words swapped back and printed with `std::hex`, unpadded. */
  function Format(h: Hash): string {
    ToHex(SwapBytes(h.h0)) + ToHex(SwapBytes(h.h1))
  }

  /** What operator<< prints for a parsed record is the two half values, in hexadecimal. */
  lemma FormatOfStoreHash(s: string)
    requires IsStoredDigest(s)
    ensures StoreHash(s).Ok?
    ensures Format(StoreHash(s).value) == ToHex(HexValue(s[..16])) + ToHex(HexValue(s[16..]))
  {
    StoreHashOfDigits(s);
    SwapBytesInvolution(HexValue(s[..16]));
    SwapBytesInvolution(HexValue(s[16..]));
  }

  /** The printed text is the stored text when it is lower case and neither half
      starts with 0. */
  lemma FormatRoundTrip(s: string)
    requires IsStoredDigest(s) && IsLowerHexString(s) && s[0] != '0' && s[16] != '0'
    ensures StoreHash(s).Ok? && Format(StoreHash(s).value) == s
  {
    FormatOfStoreHash(s);
    ToHexOfHexValue(s[..16]);
    ToHexOfHexValue(s[16..]);
    assert s == s[..16] + s[16..];
  }

  /** The printed text is the stored text exactly when it is lower case and neither
      half starts with 0: an upper-case digit is printed in lower case, and a
      leading 0 is not printed at all. */
  lemma FormatRoundTripIff(s: string)
    requires IsStoredDigest(s)
    ensures StoreHash(s).Ok?
    ensures Format(StoreHash(s).value) == s <==> IsLowerHexString(s) && s[0] != '0' && s[16] != '0'
  {
    FormatOfStoreHash(s);
    if IsLowerHexString(s) && s[0] != '0' && s[16] != '0' {
      FormatRoundTrip(s);
    }
    if Format(StoreHash(s).value) == s {
      var a, b := ToHex(HexValue(s[..16])), ToHex(HexValue(s[16..]));
      HexValueBound(s[..16]);
      HexValueBound(s[16..]);
      ToHexLength(HexValue(s[..16]), 16);
      ToHexLength(HexValue(s[16..]), 16);
      assert s == a + b;
      assert |a| == 16 && |b| == 16;
      assert s[0] == a[0] && s[16] == b[0];
      forall i | 0 <= i < |s| ensures IsLowerHexDigit(s[i]) {
        if i < 16 {
          assert s[i] == a[i];
        } else {
          assert s[i] == b[i - 16];
        }
      }
    }
  }

  /** Without padding the leading zeros of each half are lost. */
  lemma FormatDropsLeadingZeros()
    ensures StoreHash(seq(32, _ => '0')).Ok?
    ensures Format(StoreHash(seq(32, _ => '0')).value) == "00"
  {
    StoreHashOfZeros();
    SwapBytesInvolution(0);
    assert ToHex(0) == "0";
  }

  /** Exclusive or of two words, as the 64-bit size_t the functor returns. */
  function Xor64(a: u64, b: u64): bv64 {
    (a as bv64) ^ (b as bv64)
  }

  /** HashMapFunctor: h.hash[0] xor h.hash[1]. */
  function HashMapFunctor(h: Hash): bv64 {
    Xor64(h.h0, h.h1)
  }

  /** Equal digests land in the same bucket, the consistency the multimap needs. */
  lemma HashMapFunctorConsistent(a: Hash, b: Hash)
    requires Equal(a, b)
    ensures HashMapFunctor(a) == HashMapFunctor(b)
  {
  }

  /** The bucket ignores the order of the words and is 0 when they agree, so
      distinct digests share buckets and lookups rest on Equal alone. */
  lemma HashMapFunctorCollides(x: u64, y: u64)
    ensures HashMapFunctor(Hash(x, y)) == HashMapFunctor(Hash(y, x))
    ensures HashMapFunctor(Hash(x, x)) == 0
    ensures x != y ==> !Equal(Hash(x, y), Hash(y, x))
  {
  }
}
