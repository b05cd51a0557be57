/** Bytes, and unsigned numbers stored in little-endian order. */
module Bytes {
  import opened Arithmetic

  newtype byte = x: int | 0 <= x < 256

  function Pow256(n: nat): (p: nat)
    ensures 0 < p
  {
    if n == 0 then 1 else 256 * Pow256(n - 1)
  }

  /** Four bytes hold the numbers below 2^32. */
  lemma WordSize()
    ensures Pow256(4) == WIDTH32
  {
    assert Pow256(1) == 256;
    assert Pow256(2) == 0x1_0000;
    assert Pow256(3) == 0x100_0000;
  }

  function Encode(width: nat, x: nat): (bs: seq<byte>)
    ensures |bs| == width
  {
    if width == 0 then [] else [(x % 256) as byte] + Encode(width - 1, x / 256)
  }

  /** Byte `i` holds the `i`-th digit to the base 256, the lowest first. */
  lemma {:induction false} EncodeIsLittleEndian(width: nat, x: nat, i: nat)
    requires i < width
    ensures Encode(width, x)[i] as nat == x / Pow256(i) % 256
  {
    if i > 0 {
      EncodeIsLittleEndian(width - 1, x / 256, i - 1);
      var p := Pow256(i - 1);
      DivTwice(x, 256, p);
    }
  }

  lemma DivTwice(x: nat, a: nat, b: nat)
    requires 0 < a && 0 < b
    ensures 0 < a * b && x / a / b == x / (a * b)
  {
    var q, r := x / a / b, x / a % b;
    assert 0 < a * b;
    assert x / a == q * b + r && x == (q * b + r) * a + x % a;
    assert (q * b + r) * a == q * (a * b) + r * a;
    MulGap(r, b, a);
    DivModUnique(x, a * b, q, r * a + x % a);
  }

  function Decode(bs: seq<byte>): nat {
    if bs == [] then 0 else bs[0] as nat + 256 * Decode(bs[1..])
  }

  lemma {:induction false} DecodeEncode(width: nat, x: nat)
    requires x < Pow256(width)
    ensures Decode(Encode(width, x)) == x
  {
    if width > 0 {
      DecodeEncode(width - 1, x / 256);
      assert Encode(width, x)[1..] == Encode(width - 1, x / 256);
    }
  }

  lemma {:induction false} EncodeDecode(bs: seq<byte>)
    ensures Decode(bs) < Pow256(|bs|)
    ensures Encode(|bs|, Decode(bs)) == bs
  {
    if bs != [] {
      EncodeDecode(bs[1..]);
      assert bs == [bs[0]] + bs[1..];
    }
  }

  /** `s` with its bytes from `a` on overwritten by `b`. */
  function Splice<T>(s: seq<T>, a: nat, b: seq<T>): (r: seq<T>)
    requires a + |b| <= |s|
    ensures |r| == |s|
  {
    s[..a] + b + s[a + |b|..]
  }

  lemma SpliceAt<T>(s: seq<T>, a: nat, b: seq<T>, x: nat)
    requires a + |b| <= |s| && x < |s|
    ensures Splice(s, a, b)[x] == if a <= x < a + |b| then b[x - a] else s[x]
  {
  }

  /** What a splice changes, and what it does not. */
  lemma Spliced<T>(s: seq<T>, a: nat, b: seq<T>)
    requires a + |b| <= |s|
    ensures Splice(s, a, b)[a..a + |b|] == b
    ensures forall lo: nat, hi: nat | lo <= hi <= a :: Splice(s, a, b)[lo..hi] == s[lo..hi]
    ensures Splice(s, a, b)[a + |b|..] == s[a + |b|..]
  {
    var r := Splice(s, a, b);
    forall lo: nat, hi: nat | lo <= hi <= a
      ensures r[lo..hi] == s[lo..hi]
    {
      assert r[..a] == s[..a];
      assert forall k | lo <= k < hi :: r[k] == s[k];
    }
  }

  /** Two consecutive pieces written one after the other are one piece. */
  lemma SpliceSplice<T>(s: seq<T>, a: nat, x: seq<T>, y: seq<T>)
    requires a + |x| + |y| <= |s|
    ensures Splice(Splice(s, a, x), a + |x|, y) == Splice(s, a, x + y)
  {
  }

  /** Memory with a one at a single address, and zeros everywhere else. */
  function OneAt(size: nat, at: nat): (m: seq<byte>)
    ensures |m| == size
  {
    seq(size, x => if x == at then 1 else 0)
  }
}
