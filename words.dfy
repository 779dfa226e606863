/** Machine words and bytes: the uint64_t halves of a digest, their little- and
    big-endian byte images, and the byte swap of hash.cpp (__builtin_bswap64). */
module Words {

  const TWO_TO_THE_64: nat := 0x1_0000_0000_0000_0000

  type byte = x: int | 0 <= x < 256
  type u64 = x: int | 0 <= x < TWO_TO_THE_64

  function Pow256(k: nat): (r: nat)
    ensures r >= 1
  {
    if k == 0 then 1 else 256 * Pow256(k - 1)
  }

  function Reverse<T>(s: seq<T>): (r: seq<T>)
    ensures |r| == |s|
    ensures forall i :: 0 <= i < |s| ==> r[i] == s[|s| - 1 - i]
  {
    if s == [] then [] else [s[|s| - 1]] + Reverse(s[..|s| - 1])
  }

  lemma ReverseReverse<T>(s: seq<T>)
    ensures Reverse(Reverse(s)) == s
  {
    var r := Reverse(Reverse(s));
    assert |r| == |s|;
    forall i | 0 <= i < |s| ensures r[i] == s[i] {
    }
  }

  /** Value of a byte list read least significant byte first (a little-endian load). */
  function FromLE(b: seq<byte>): nat {
    if b == [] then 0 else b[0] + 256 * FromLE(b[1..])
  }

  /** Value of a byte list read most significant byte first (a big-endian load). */
  function FromBE(b: seq<byte>): nat {
    if b == [] then 0 else FromBE(b[..|b| - 1]) * 256 + b[|b| - 1]
  }

  /** The k low-order bytes of x, least significant first (a little-endian store). */
  function ToLE(x: nat, k: nat): (r: seq<byte>)
    ensures |r| == k
  {
    if k == 0 then [] else [x % 256] + ToLE(x / 256, k - 1)
  }

  lemma {:induction false} FromLEBound(b: seq<byte>)
    ensures FromLE(b) < Pow256(|b|)
  {
    if b != [] {
      FromLEBound(b[1..]);
    }
  }

  lemma {:induction false} FromLEToLE(x: nat, k: nat)
    requires x < Pow256(k)
    ensures FromLE(ToLE(x, k)) == x
  {
    if k > 0 {
      FromLEToLE(x / 256, k - 1);
      assert ToLE(x, k)[1..] == ToLE(x / 256, k - 1);
    }
  }

  lemma {:induction false} ToLEFromLE(b: seq<byte>)
    ensures ToLE(FromLE(b), |b|) == b
  {
    if b != [] {
      ToLEFromLE(b[1..]);
      var x := FromLE(b);
      assert x % 256 == b[0] && x / 256 == FromLE(b[1..]);
    }
  }

  /** A big-endian load is a little-endian load of the reversed bytes. */
  lemma {:induction false} FromBEIsReversedLE(b: seq<byte>)
    ensures FromBE(b) == FromLE(Reverse(b))
  {
    if b != [] {
      FromBEIsReversedLE(b[..|b| - 1]);
      assert Reverse(b)[1..] == Reverse(b[..|b| - 1]);
    }
  }

  /** hash.cpp swapBytes: the 8 bytes of a 64-bit word in the opposite order. */
  function SwapBytes(x: u64): (r: u64)
    ensures ToLE(r, 8) == Reverse(ToLE(x, 8))
  {
    var b := Reverse(ToLE(x, 8));
    FromLEBound(b);
    ToLEFromLE(b);
    FromLE(b)
  }

  lemma SwapBytesInvolution(x: u64)
    ensures SwapBytes(SwapBytes(x)) == x
  {
    var y := SwapBytes(SwapBytes(x));
    assert ToLE(y, 8) == Reverse(Reverse(ToLE(x, 8)));
    ReverseReverse(ToLE(x, 8));
    FromLEToLE(x, 8);
    FromLEToLE(y, 8);
  }

  lemma SwapBytesInjective(x: u64, y: u64)
    ensures SwapBytes(x) == SwapBytes(y) <==> x == y
  {
    SwapBytesInvolution(x);
    SwapBytesInvolution(y);
  }

  /** Swapping a big-endian load of 8 bytes gives their little-endian load. */
  lemma SwapBytesOfBE(b: seq<byte>)
    requires |b| == 8
    ensures FromBE(b) < TWO_TO_THE_64 && FromLE(b) < TWO_TO_THE_64
    ensures SwapBytes(FromBE(b)) == FromLE(b)
  {
    FromBEIsReversedLE(b);
    FromLEBound(Reverse(b));
    FromLEBound(b);
    ToLEFromLE(Reverse(b));
    ReverseReverse(b);
  }
}
