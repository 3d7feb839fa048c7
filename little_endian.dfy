/** Little-endian conversions between byte strings and integers, as done by
    Python's `int.from_bytes(bs, byteorder="little", signed=...)` and
    `int.to_bytes(n, byteorder="little", signed=...)`. */
module LittleEndian {

  type byte = x: int | 0 <= x < 256

  /** 256^n, the number of distinct values an n-byte field holds. */
  function Pow256(n: nat): (p: nat)
    ensures p >= 1
    ensures n > 0 ==> p >= 256 && p % 2 == 0
  {
    if n == 0 then 1 else 256 * Pow256(n - 1)
  }

  /** The field sizes the archive uses. */
  lemma Pow256Values()
    ensures Pow256(1) == 0x100 && Pow256(2) == 0x1_0000 && Pow256(3) == 0x100_0000
    ensures Pow256(4) == 0x1_0000_0000 && Pow256(8) == 0x1_0000_0000_0000_0000
  {
    assert Pow256(1) == 0x100;
    assert Pow256(2) == 0x1_0000;
    assert Pow256(3) == 0x100_0000;
    assert Pow256(4) == 0x1_0000_0000;
  }

  /** Half of 256^n: the size of each signed half-range of an n-byte field. */
  function Half(n: nat): int
  {
    Pow256(n) / 2
  }

  /** Unsigned little-endian value of `bs`: the sum of bs[i] * 256^i. */
  function FromLE(bs: seq<byte>): (n: nat)
    ensures n < Pow256(|bs|)
  {
    if bs == [] then 0 else bs[0] + 256 * FromLE(bs[1..])
  }

  /** Two's-complement little-endian value of `bs`; the empty string reads as 0. */
  function FromLESigned(bs: seq<byte>): (i: int)
    ensures bs == [] ==> i == 0
    ensures bs != [] ==> -Half(|bs|) <= i < Half(|bs|)
    ensures i >= 0 <==> FromLE(bs) < Half(|bs|) || bs == []
  {
    var u := FromLE(bs);
    if bs != [] && u >= Half(|bs|) then u - Pow256(|bs|) else u
  }

  /** The n-byte little-endian image of an unsigned value that fits in n bytes. */
  function ToLE(v: nat, n: nat): (bs: seq<byte>)
    requires v < Pow256(n)
    ensures |bs| == n && FromLE(bs) == v
  {
    if n == 0 then [] else [v % 256] + ToLE(v / 256, n - 1)
  }

  /** The n-byte two's-complement little-endian image of a signed value. */
  function ToLESigned(v: int, n: nat): (bs: seq<byte>)
    requires 0 < n && -Half(n) <= v < Half(n)
    ensures |bs| == n && FromLESigned(bs) == v
  {
    ToLE(if v < 0 then v + Pow256(n) else v, n)
  }

  /** Encoding the value of a byte string gives back that byte string:
      an n-byte unsigned field has exactly one image per value. */
  lemma {:induction false} ToLEFromLE(bs: seq<byte>)
    ensures ToLE(FromLE(bs), |bs|) == bs
  {
    if bs != [] {
      ToLEFromLE(bs[1..]);
      var v := FromLE(bs);
      assert v % 256 == bs[0] && v / 256 == FromLE(bs[1..]);
    }
  }

  /** The same for the signed reading. */
  lemma ToLESignedFromLESigned(bs: seq<byte>)
    requires bs != []
    ensures ToLESigned(FromLESigned(bs), |bs|) == bs
  {
    ToLEFromLE(bs);
  }

  /** The value of a concatenation: the second part is shifted by the
      first part's width. */
  lemma {:induction false} FromLEAppend(a: seq<byte>, b: seq<byte>)
    ensures FromLE(a + b) == FromLE(a) + Pow256(|a|) * FromLE(b)
  {
    if a == [] {
      assert a + b == b;
    } else {
      assert (a + b)[1..] == a[1..] + b;
      FromLEAppend(a[1..], b);
      var p, x, y := Pow256(|a| - 1), FromLE(a[1..]), FromLE(b);
      assert Pow256(|a|) == 256 * p;
      MulByConstant(p, y);
    }
  }

  lemma MulByConstant(p: int, y: int)
    ensures (256 * p) * y == 256 * (p * y)
  {
  }
}
