/** Bytes and the numbers they stand for. */
module Bytes {
  type Byte = bv8

  /** The conversion of a small unsigned number to uint8_t, bit by bit. */
  function ToByte(n: nat): Byte
    requires n < 256
  {
    if n == 0 then 0
    else if n % 2 == 0 then ToByte(n / 2) << 1
    else (ToByte(n / 2) << 1) | 1
  }

  function FromByte(b: Byte): (n: nat)
    ensures n < 256
  {
    b as nat
  }

  lemma DoubleByte(x: Byte)
    requires x as nat < 128
    ensures (x << 1) as nat == 2 * (x as nat)
    ensures ((x << 1) | 1) as nat == 2 * (x as nat) + 1
  {
    assert x < 128;
  }

  lemma {:induction false} ByteRoundTrip(n: nat)
    requires n < 256
    ensures FromByte(ToByte(n)) == n
  {
    if n > 0 {
      ByteRoundTrip(n / 2);
      DoubleByte(ToByte(n / 2));
    }
  }

  lemma SplitNumber(n: nat)
    requires n < 0x10000
    ensures n / 256 % 256 == n / 256 < 256 && n / 256 * 256 + n % 256 == n
  {
  }

  /** A number below 2^16, high byte first. */
  lemma TwoBytes(n: nat)
    requires n < 0x10000
    ensures FromByte(ToByte(n / 256 % 256)) * 256 + FromByte(ToByte(n % 256)) == n
  {
    hide ToByte, FromByte;
    SplitNumber(n);
    ByteRoundTrip(n / 256 % 256);
    ByteRoundTrip(n % 256);
  }

  lemma FromByteInjective(x: Byte, y: Byte)
    requires FromByte(x) == FromByte(y)
    ensures x == y
  {
  }

  lemma ByteOfByte(b: Byte)
    ensures ToByte(FromByte(b)) == b
  {
    hide ToByte, FromByte;
    ByteRoundTrip(FromByte(b));
    FromByteInjective(ToByte(FromByte(b)), b);
  }

  /** A slice of an array whose first n bytes are p is the same slice of p. */
  lemma SliceOf(a: array<Byte>, p: seq<Byte>, i: nat, j: nat)
    requires |p| <= a.Length && a[..|p|] == p && i <= j <= |p|
    ensures a[i..j] == p[i..j]
  {
    forall k | 0 <= k < j - i ensures a[i..j][k] == p[i..j][k] {
      assert a[..|p|][i + k] == p[i + k];
    }
  }

  /** A slice of a prefix. */
  lemma PrefixSlice(p: seq<Byte>, n: nat, i: nat, j: nat)
    requires i <= j <= n <= |p|
    ensures p[..n][i..j] == p[i..j]
  {
  }

  /** memcpy between two buffers. */
  method Memcpy(dst: array<Byte>, at: nat, src: array<Byte>, from: nat, n: nat)
    requires dst != src && at + n <= dst.Length && from + n <= src.Length
    modifies dst
    ensures dst[..] == old(dst[..at]) + src[from..from + n] + old(dst[at + n..])
    ensures dst[..at + n] == old(dst[..at]) + src[from..from + n]
  {
    forall k | 0 <= k < n {
      dst[at + k] := src[from + k];
    }
  }
}
