/**
 * Little-endian unsigned integers over byte sequences: how x86 stores the
 * multi-byte fields of a descriptor, of the IDTR image and of a Mach-O file.
 */
module LittleEndian {
  import opened Global

  function Pow256(n: nat): (p: nat)
    ensures p > 0
  {
    if n == 0 then 1 else 256 * Pow256(n - 1)
  }

  lemma Pow256Values()
    ensures Pow256(1) == TWO_8
    ensures Pow256(2) == TWO_16
    ensures Pow256(4) == TWO_32
    ensures Pow256(8) == TWO_64
  {
    assert Pow256(2) == 256 * Pow256(1);
    assert Pow256(3) == 256 * Pow256(2);
    assert Pow256(4) == 256 * Pow256(3);
    assert Pow256(5) == 256 * Pow256(4);
    assert Pow256(6) == 256 * Pow256(5);
    assert Pow256(7) == 256 * Pow256(6);
    assert Pow256(8) == 256 * Pow256(7);
  }

  /** The unsigned value whose little-endian image is s. */
  function Decode(s: seq<uint8>): (v: nat)
    ensures v < Pow256(|s|)
  {
    if |s| == 0 then 0 else s[0] + 256 * Decode(s[1..])
  }

  /** The unsigned value of the n bytes of `bytes` that start at from. */
  function UIntAt(bytes: seq<uint8>, from: nat, n: nat): (v: nat)
    requires from + n <= |bytes|
    ensures v < Pow256(n)
  {
    Decode(bytes[from..from + n])
  }

  /** The n-byte little-endian image of v. */
  function Encode(v: nat, n: nat): (s: seq<uint8>)
    requires v < Pow256(n)
    ensures |s| == n
  {
    if n == 0 then [] else [v % 256] + Encode(v / 256, n - 1)
  }

  /** Zero is encoded as n zero bytes. */
  lemma {:induction false} EncodeZero(n: nat)
    ensures Encode(0, n) == seq(n, _ => 0)
  {
    if n > 0 {
      EncodeZero(n - 1);
      assert [0] + seq(n - 1, _ => 0) == seq(n, _ => 0);
    }
  }

  lemma {:induction false} DecodeEncode(v: nat, n: nat)
    requires v < Pow256(n)
    ensures Decode(Encode(v, n)) == v
  {
    if n > 0 {
      DecodeEncode(v / 256, n - 1);
      assert Encode(v, n)[1..] == Encode(v / 256, n - 1);
    }
  }

  lemma {:induction false} EncodeDecode(s: seq<uint8>)
    ensures Encode(Decode(s), |s|) == s
  {
    if |s| > 0 {
      EncodeDecode(s[1..]);
      assert (s[0] + 256 * Decode(s[1..])) / 256 == Decode(s[1..]);
    }
  }

  /** The value of a concatenation splits at the boundary. */
  lemma {:induction false} DecodeAppend(a: seq<uint8>, b: seq<uint8>)
    ensures Decode(a + b) == Decode(a) + Pow256(|a|) * Decode(b)
  {
    if |a| == 0 {
      assert a + b == b;
    } else {
      assert (a + b)[0] == a[0] && (a + b)[1..] == a[1..] + b;
      DecodeAppend(a[1..], b);
      Regroup(a[0], Decode(a[1..]), Pow256(|a| - 1), Decode(b));
    }
  }

  /** The arithmetic step of DecodeAppend. */
  lemma Regroup(h: int, rest: int, p: int, d: int)
    ensures h + 256 * (rest + p * d) == (h + 256 * rest) + (256 * p) * d
  {
  }
}
