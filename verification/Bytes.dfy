/** Byte buffers read and written as little-endian numbers. */
module Bytes {
  import opened Arith

  type byte = x: nat | x < 256

  /** The whole buffer as one little-endian number. */
  function LE(s: seq<byte>): nat {
    if s == [] then 0 else s[0] + 256 * LE(s[1..])
  }

  /** The `n` low bytes of a number, least significant first. */
  function ToLE(x: nat, n: nat): (s: seq<byte>)
    ensures |s| == n
  {
    if n == 0 then [] else [x % 256] + ToLE(x / 256, n - 1)
  }

  /** `memcpy` of at most `n` bytes from `at` into a zeroed register. */
  function ReadLE(s: seq<byte>, at: nat, n: nat): nat
    requires at <= |s|
  {
    LE(s[at..at + Min(n, |s| - at)])
  }

  function Zeros(n: nat): (s: seq<byte>)
    ensures |s| == n
    ensures forall i :: 0 <= i < n ==> s[i] == 0
  {
    seq(n, _ => 0)
  }

  lemma NibbleBits(x: int)
    ensures Mask(x, 4) == x % 16 && Shr(x, 4) == x / 16 && Shl(x, 4) == 16 * x
  {
    NibbleMask(x);
    assert Shr(x, 4) == Shr(x / 2, 3) == Shr(x / 4, 2) == Shr(x / 8, 1) == x / 16;
    assert Shl(x, 1) == 2 * x;
    assert Shl(x, 2) == 4 * x;
    assert Shl(x, 3) == 8 * x;
  }

  lemma NibbleMask(x: int)
    ensures Mask(x, 4) == x % 16
  {
    assert Mask(x / 8, 1) == x / 8 % 2;
    assert Mask(x / 4, 2) == x / 4 % 4 by {
      EvenOdd(x / 4, 2);
    }
    assert Mask(x / 2, 3) == x / 2 % 8 by {
      EvenOdd(x / 2, 4);
    }
    EvenOdd(x, 8);
  }

  lemma EvenOdd(x: int, m: nat)
    requires m > 0
    ensures x % (2 * m) == x % 2 + 2 * (x / 2 % m)
  {
    var q, r := x / 2 / m, x / 2 % m;
    MulAssoc(q, 2, m);
    DivModUnique(x, 2 * m, q, 2 * r + x % 2);
  }

  lemma TwoNibbles(x: nat)
    ensures x % 16 + 16 * (x / 16 % 16) == x % 256 && x / 16 / 16 == x / 256
  {
  }

  lemma ByteBits(x: nat)
    ensures Mask(x, 8) == x % 256 && Shr(x, 8) == x / 256
  {
    var n := 4;
    NibbleBits(x);
    NibbleBits(x / 16);
    NibbleBits(x / 16 % 16);
    TwoNibbles(x);
    MaskJoin(x, n, n);
    ShrShr(x, n, n);
  }

  lemma Shl8(x: nat, k: nat)
    ensures Shl(x, 8 * k + 8) == 256 * Shl(x, 8 * k)
  {
    var y := Shl(x, 8 * k);
    ShlShl(x, 8 * k, 8);
    ShlShl(y, 4, 4);
    NibbleBits(y);
    NibbleBits(16 * y);
  }

  lemma Pow2Byte(k: nat)
    ensures Pow2(8 * k + 8) == 256 * Pow2(8 * k)
  {
    Pow2Add(8 * k, 8);
    assert Pow2(8) == 256;
  }

  lemma {:induction false} LEBound(s: seq<byte>)
    ensures LE(s) < Pow2(8 * |s|)
  {
    if s != [] {
      LEBound(s[1..]);
      Pow2Byte(|s| - 1);
    }
  }

  lemma {:induction false} LESplit(s: seq<byte>, k: nat)
    requires k <= |s|
    ensures LE(s) == LE(s[..k]) + Shl(LE(s[k..]), 8 * k)
  {
    if k == 0 {
      assert s[..0] == [] && s[0..] == s;
    } else {
      LESplit(s[1..], k - 1);
      assert s[1..][..k - 1] == s[..k][1..];
      assert s[1..][k - 1..] == s[k..];
      Shl8(LE(s[k..]), k - 1);
    }
  }

  lemma LETail(s: seq<byte>, at: nat)
    requires at <= |s|
    ensures Shr(LE(s), 8 * at) == LE(s[at..]) && Mask(LE(s), 8 * at) == LE(s[..at])
  {
    LESplit(s, at);
    LEBound(s[..at]);
    Unjoin(LE(s[..at]), LE(s[at..]), 8 * at, LE(s));
  }

  /** A slice of the buffer is a field of its number. */
  lemma LESlice(s: seq<byte>, at: nat, n: nat)
    requires at + n <= |s|
    ensures LE(s[at..at + n]) == Bits(LE(s), 8 * at, 8 * n)
  {
    LETail(s, at);
    LETail(s[at..], n);
    assert s[at..][..n] == s[at..at + n];
  }

  /** A read that stops at the end of the buffer still sees the right field: what lies beyond is zero. */
  lemma ReadField(s: seq<byte>, at: nat, n: nat)
    requires at <= |s|
    ensures ReadLE(s, at, n) == Bits(LE(s), 8 * at, 8 * n)
  {
    if n <= |s| - at {
      ReadWithin(s, at, n);
    } else {
      ReadPastEnd(s, at, n);
    }
  }

  lemma ReadWithin(s: seq<byte>, at: nat, n: nat)
    requires at + n <= |s|
    ensures ReadLE(s, at, n) == Bits(LE(s), 8 * at, 8 * n)
  {
    assert Min(n, |s| - at) == n;
    LESlice(s, at, n);
  }

  lemma ReadPastEnd(s: seq<byte>, at: nat, n: nat)
    requires at <= |s| < at + n
    ensures ReadLE(s, at, n) == Bits(LE(s), 8 * at, 8 * n)
  {
    var tail := s[at..];
    assert s[at..|s|] == tail && ReadLE(s, at, n) == LE(tail);
    LETail(s, at);
    BoundedRead(tail, n);
  }

  lemma BoundedRead(t: seq<byte>, n: nat)
    requires |t| <= n
    ensures Mask(LE(t), 8 * n) == LE(t)
  {
    LEBound(t);
    Pow2Mono(8 * |t|, 8 * n);
    MaskSmall(LE(t), 8 * n);
  }

  lemma LEByte(s: seq<byte>, k: nat)
    requires k < |s|
    ensures Bits(LE(s), 8 * k, 8) == s[k]
  {
    LESlice(s, k, 1);
    assert s[k..k + 1] == [s[k]];
    assert LE([s[k]][1..]) == 0;
  }

  lemma LEUpdate(s: seq<byte>, k: nat, x: byte)
    requires k < |s|
    ensures LE(s[k := x]) + Shl(s[k], 8 * k) == LE(s) + Shl(x, 8 * k)
  {
    var t := s[k := x];
    LESplit(s, k);
    LESplit(t, k);
    assert t[..k] == s[..k];
    LEHead(s[k..]);
    LEHead(t[k..]);
    assert t[k..][1..] == s[k..][1..];
    var h := 256 * LE(s[k..][1..]);
    ShlAdd(x, h, 8 * k);
    ShlAdd(s[k], h, 8 * k);
  }

  lemma LEHead(s: seq<byte>)
    requires s != []
    ensures LE(s) == s[0] + 256 * LE(s[1..])
  {
  }

  lemma {:induction false} LEZeros(s: seq<byte>)
    requires forall i :: 0 <= i < |s| ==> s[i] == 0
    ensures LE(s) == 0
  {
    if s != [] {
      LEZeros(s[1..]);
    }
  }

  lemma {:induction false} LEOfToLE(x: nat, n: nat)
    ensures LE(ToLE(x, n)) == Mask(x, 8 * n)
  {
    if n > 0 {
      LEOfToLE(x / 256, n - 1);
      MaskByte(x, 8 * (n - 1));
      assert ToLE(x, n)[1..] == ToLE(x / 256, n - 1);
    }
  }

  lemma MaskByte(x: nat, w: nat)
    ensures Mask(x, 8 + w) == x % 256 + 256 * Mask(x / 256, w)
  {
    MaskJoin(x, 8, w);
    ByteBits(x);
    Shl8(Mask(x / 256, w), 0);
  }

  /** A number that fits its field is read back from the bytes it was written as. */
  lemma WriteRead(x: nat, n: nat)
    requires x < Pow2(8 * n)
    ensures LE(ToLE(x, n)) == x
  {
    LEOfToLE(x, n);
    MaskSmall(x, 8 * n);
  }

  /** The other direction: bytes survive being read as a number. */
  lemma {:induction false} ReadWrite(s: seq<byte>)
    ensures ToLE(LE(s), |s|) == s
  {
    if s != [] {
      ReadWrite(s[1..]);
      assert LE(s) / 256 == LE(s[1..]) && LE(s) % 256 == s[0];
    }
  }

  lemma WriteRead32(x: nat)
    requires x < TWO_32
    ensures LE(ToLE(x, 4)) == x
  {
    Pow2Width(32);
    WriteRead(x, 4);
  }

  /** The next multiple of 8. */
  function Align8(n: nat): nat { CeilDiv8(n) * 8 }

  lemma Align8Least(n: nat)
    ensures n <= Align8(n) < n + 8 && Align8(n) % 8 == 0
  {
  }

  lemma Middle(s: seq<byte>, a: seq<byte>, b: seq<byte>, c: seq<byte>)
    requires s == a + b + c
    ensures s[|a|..|a| + |b|] == b
  {
  }
}
