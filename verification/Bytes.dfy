/** Bytes, and numbers written in a fixed number of bytes. */
module Bytes {
  type byte = x: int | 0 <= x < 256

  function Pow256(n: nat): nat {
    if n == 0 then 1 else 256 * Pow256(n - 1)
  }

  /** Little-endian. */
  function ToLE(x: nat, n: nat): (s: seq<byte>)
    ensures |s| == n
    decreases n
  {
    if n == 0 then [] else [x % 256] + ToLE(x / 256, n - 1)
  }

  function FromLE(s: seq<byte>): nat {
    if s == [] then 0 else s[0] + 256 * FromLE(s[1..])
  }

  lemma {:induction false} RoundTripLE(x: nat, n: nat)
    requires x < Pow256(n)
    ensures FromLE(ToLE(x, n)) == x
    decreases n
  {
    if n > 0 {
      RoundTripLE(x / 256, n - 1);
      assert ToLE(x, n)[1..] == ToLE(x / 256, n - 1);
    }
  }

  /** Big-endian. */
  function ToBE(x: nat, n: nat): (s: seq<byte>)
    ensures |s| == n
    decreases n
  {
    if n == 0 then [] else ToBE(x / 256, n - 1) + [x % 256]
  }

  function FromBE(s: seq<byte>): nat {
    if s == [] then 0 else 256 * FromBE(s[..|s| - 1]) + s[|s| - 1]
  }

  lemma {:induction false} RoundTripBE(x: nat, n: nat)
    requires x < Pow256(n)
    ensures FromBE(ToBE(x, n)) == x
    decreases n
  {
    if n > 0 {
      RoundTripBE(x / 256, n - 1);
      assert ToBE(x, n)[..n - 1] == ToBE(x / 256, n - 1);
    }
  }

  /** Which byte comes first: four bytes and the number they stand for, in either order. */
  lemma ByteOrder(a: byte, b: byte, c: byte, d: byte)
    ensures FromLE([a, b, c, d]) == a + 0x100 * b + 0x1_0000 * c + 0x100_0000 * d
    ensures FromBE([a, b, c, d]) == 0x100_0000 * a + 0x1_0000 * b + 0x100 * c + d
  {
    assert [a, b, c, d][1..] == [b, c, d] && [b, c, d][1..] == [c, d] && [c, d][1..] == [d];
    assert FromLE([d]) == d && FromLE([c, d]) == c + 0x100 * d;
    assert FromLE([b, c, d]) == b + 0x100 * FromLE([c, d]);
    assert [a, b, c, d][..3] == [a, b, c] && [a, b, c][..2] == [a, b] && [a, b][..1] == [a];
    assert FromBE([a]) == a && FromBE([a, b]) == 0x100 * a + b;
    assert FromBE([a, b, c]) == 0x100 * FromBE([a, b]) + c;
  }

  lemma BytesOfBE(a: byte, b: byte, c: byte, d: byte)
    ensures ToBE(0x100_0000 * a + 0x1_0000 * b + 0x100 * c + d, 4) == [a, b, c, d]
  {
    var x := 0x100_0000 * a + 0x1_0000 * b + 0x100 * c + d;
    assert x % 256 == d && x / 256 == 0x1_0000 * a + 0x100 * b + c;
    assert x / 256 % 256 == c && x / 256 / 256 == 0x100 * a + b;
    assert x / 256 / 256 % 256 == b && x / 256 / 256 / 256 == a;
    assert ToBE(a, 1) == ToBE(a / 256, 0) + [a];
    assert ToBE(0x100 * a + b, 2) == ToBE(a, 1) + [b];
    assert ToBE(0x1_0000 * a + 0x100 * b + c, 3) == ToBE(0x100 * a + b, 2) + [c];
  }

  /** Four bytes hold the 32-bit numbers. */
  lemma Word32(x: nat)
    requires x < 0x1_0000_0000
    ensures x < Pow256(4) && FromLE(ToLE(x, 4)) == x && FromBE(ToBE(x, 4)) == x
  {
    assert Pow256(1) == 256;
    assert Pow256(2) == 0x1_0000;
    assert Pow256(3) == 0x100_0000;
    assert Pow256(4) == 0x1_0000_0000;
    RoundTripLE(x, 4);
    RoundTripBE(x, 4);
  }
}
