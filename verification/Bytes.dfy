/** Octets and their little-endian reading. */
module Bytes {

  type byte = bv8

  type u16 = x: int | 0 <= x < 0x1_0000
  type u32 = x: int | 0 <= x < 0x1_0000_0000
  type u64 = x: int | 0 <= x < 0x1_0000_0000_0000_0000

  function Pow256(n: nat): (p: nat)
    ensures p >= 1
  {
    if n == 0 then 1 else 256 * Pow256(n - 1)
  }

  function Octet(n: nat): byte
    requires n < 256
  {
    n as byte
  }

  function OctetValue(b: byte): (n: nat)
    ensures n < 256
  {
    b as int
  }

  lemma {:induction false} OctetWithValue(n: nat) returns (b: byte)
    requires n < 256
    ensures OctetValue(b) == n
  {
    if n == 0 {
      b := 0;
    } else {
      b := OctetWithValue(n - 1);
      b := b + 1;
    }
  }

  lemma OctetUnique(b: byte)
    ensures Octet(OctetValue(b)) == b
  {
  }

  lemma OctetRoundTrip(n: nat)
    requires n < 256
    ensures OctetValue(Octet(n)) == n
  {
    var b := OctetWithValue(n);
    OctetUnique(b);
  }

  /** The `width` low-order octets of `n`, least significant first. */
  function ToLE(n: nat, width: nat): (s: seq<byte>)
    ensures |s| == width
  {
    if width == 0 then [] else [Octet(n % 256)] + ToLE(n / 256, width - 1)
  }

  function FromLE(s: seq<byte>): (n: nat)
    ensures n < Pow256(|s|)
  {
    if s == [] then 0 else OctetValue(s[0]) + 256 * FromLE(s[1..])
  }

  lemma {:induction false} LERoundTrip(n: nat, width: nat)
    requires n < Pow256(width)
    ensures FromLE(ToLE(n, width)) == n
  {
    hide Octet, OctetValue;
    if width > 0 {
      LERoundTrip(n / 256, width - 1);
      OctetRoundTrip(n % 256);
      assert ToLE(n, width)[1..] == ToLE(n / 256, width - 1);
    }
  }

  lemma LowAndRest(low: nat, rest: nat)
    requires low < 256
    ensures (low + 256 * rest) % 256 == low && (low + 256 * rest) / 256 == rest
  {
  }

  /** Reading and writing back is the identity too, so the encoding is a bijection. */
  lemma {:induction false} LEUnique(s: seq<byte>)
    ensures ToLE(FromLE(s), |s|) == s
  {
    hide Octet, OctetValue;
    if s != [] {
      var n, rest := OctetValue(s[0]), FromLE(s[1..]);
      LEUnique(s[1..]);
      OctetUnique(s[0]);
      LowAndRest(n, rest);
      assert ToLE(FromLE(s), |s|) == [Octet(n)] + ToLE(rest, |s| - 1);
      assert s == [s[0]] + s[1..];
    }
  }

  /** Four octets, least significant first. */
  lemma FourOctetValue(a: byte, b: byte, c: byte, d: byte)
    ensures FromLE([a, b, c, d])
         == OctetValue(a) + 0x100 * OctetValue(b) + 0x1_0000 * OctetValue(c) + 0x100_0000 * OctetValue(d)
  {
    hide OctetValue;
    assert [a, b, c, d][1..] == [b, c, d] && [b, c, d][1..] == [c, d] && [c, d][1..] == [d] && [d][1..] == [];
    assert FromLE([d]) == OctetValue(d);
    assert FromLE([c, d]) == OctetValue(c) + 0x100 * OctetValue(d);
    assert FromLE([b, c, d]) == OctetValue(b) + 0x100 * OctetValue(c) + 0x1_0000 * OctetValue(d);
  }
}
