/** The reflected CRC-32 of section 8 of RFC 1952: a bit-serial definition, the byte table
    that speeds it up, and the errors the checksum is bound to notice. */
module Crc32 {
  import opened Bytes

  const POLYNOMIAL: bv32 := 0xEDB8_8320

  // The proofs below treat these two as linear maps and hide how they are computed, which
  // keeps the bit-vector solver out of every inductive argument.
  function Xor(x: bv32, y: bv32): bv32 { x ^ y }

  /** One step of the shift register. */
  function BitStep(x: bv32): bv32 {
    if x & 1 == 1 then (x >> 1) ^ POLYNOMIAL else x >> 1
  }

  function BitSteps(x: bv32, n: nat): bv32
    decreases n
  {
    if n == 0 then x else BitSteps(BitStep(x), n - 1)
  }

  // ----- Bit-serial definition ------------------------------------------------------

  function BitValue(bit: bool): bv32 { if bit then 1 else 0 }

  /** One message bit goes into the register. */
  function Feed(state: bv32, bit: bool): bv32 { BitStep(Xor(state, BitValue(bit))) }

  /** The register after absorbing a stream of message bits, one at a time. */
  function Absorb(state: bv32, bits: seq<bool>): bv32
    decreases |bits|
  {
    if bits == [] then state else Absorb(Feed(state, bits[0]), bits[1..])
  }

  /** The `n` low-order bits of `w`, least significant first. */
  function LowBits(w: bv32, n: nat): (s: seq<bool>)
    ensures |s| == n
    decreases n
  {
    if n == 0 then [] else [w & 1 == 1] + LowBits(w >> 1, n - 1)
  }

  function OctetBits(b: byte): (s: seq<bool>) { LowBits(b as bv32, 8) }

  function MessageBits(data: seq<byte>): (s: seq<bool>)
    ensures |s| == 8 * |data|
  {
    if data == [] then [] else OctetBits(data[0]) + MessageBits(data[1..])
  }

  /** CRC-32 as the standard defines it, without a table. */
  function Crc(data: seq<byte>): bv32 {
    !Absorb(0xFFFF_FFFF, MessageBits(data))
  }

  // ----- Byte-at-a-time form ---------------------------------------------------------

  /** What the lookup table holds at index `i`. */
  function TableEntry(i: byte): bv32 { BitSteps(i as bv32, 8) }

  function TableIndex(state: bv32, b: byte): byte {
    (Xor(state, b as bv32) & 0xFF) as byte
  }

  /** One round of the table-driven loop. */
  function ByteStep(state: bv32, b: byte): bv32 {
    Xor(state >> 8, TableEntry(TableIndex(state, b)))
  }

  function ByteSteps(state: bv32, data: seq<byte>): bv32
    decreases |data|
  {
    if data == [] then state else ByteSteps(ByteStep(state, data[0]), data[1..])
  }

  lemma {:induction false} ByteStepsAppend(state: bv32, data: seq<byte>, b: byte)
    ensures ByteSteps(state, data + [b]) == ByteStep(ByteSteps(state, data), b)
    decreases |data|
  {
    hide ByteStep;
    if data == [] {
      assert data + [b] == [b];
      assert [b][1..] == [];
    } else {
      assert (data + [b])[1..] == data[1..] + [b];
      ByteStepsAppend(ByteStep(state, data[0]), data[1..], b);
    }
  }

  // ----- Bit-vector facts ------------------------------------------------------------

  lemma LowBitCases(x: bv32)
    ensures x & 1 == 0 || x & 1 == 1
  {
  }

  lemma XorLaws(x: bv32, y: bv32, z: bv32)
    ensures Xor(Xor(x, y), z) == Xor(x, Xor(y, z))
    ensures Xor(x, y) == Xor(y, x)
  {
  }

  lemma XorZero(x: bv32)
    ensures Xor(x, 0) == x && Xor(x, x) == 0
  {
  }

  lemma LinearOddOdd(x: bv32, y: bv32)
    requires x & 1 == 1 && y & 1 == 1
    ensures BitStep(Xor(x, y)) == Xor(BitStep(x), BitStep(y))
  {
    assert (x ^ y) & 1 == 0;
  }

  lemma LinearOddEven(x: bv32, y: bv32)
    requires x & 1 == 1 && y & 1 == 0
    ensures BitStep(Xor(x, y)) == Xor(BitStep(x), BitStep(y))
    ensures BitStep(Xor(y, x)) == Xor(BitStep(y), BitStep(x))
  {
  }

  lemma LinearEvenEven(x: bv32, y: bv32)
    requires x & 1 == 0 && y & 1 == 0
    ensures BitStep(Xor(x, y)) == Xor(BitStep(x), BitStep(y))
  {
  }

  lemma BitStepLinear(x: bv32, y: bv32)
    ensures BitStep(Xor(x, y)) == Xor(BitStep(x), BitStep(y))
  {
    hide BitStep, Xor;
    LowBitCases(x);
    LowBitCases(y);
    if x & 1 == 1 {
      if y & 1 == 1 { LinearOddOdd(x, y); } else { LinearOddEven(x, y); }
    } else {
      if y & 1 == 1 { LinearOddEven(y, x); } else { LinearEvenEven(x, y); }
    }
  }

  lemma {:induction false} BitStepsLinear(x: bv32, y: bv32, n: nat)
    ensures BitSteps(Xor(x, y), n) == Xor(BitSteps(x, n), BitSteps(y, n))
    decreases n
  {
    hide BitStep, Xor;
    if n > 0 {
      BitStepLinear(x, y);
      BitStepsLinear(BitStep(x), BitStep(y), n - 1);
    }
  }

  // ----- The table computes the bit-serial register ----------------------------------

  lemma ShiftDown(h: bv32)
    requires h & 0xFF == 0
    ensures BitStep(h) == h >> 1 && BitStep(h >> 1) == h >> 2
    ensures BitStep(h >> 2) == h >> 3 && BitStep(h >> 3) == h >> 4
    ensures BitStep(h >> 4) == h >> 5 && BitStep(h >> 5) == h >> 6
    ensures BitStep(h >> 6) == h >> 7 && BitStep(h >> 7) == h >> 8
  {
    assert h & 1 == 0 && (h >> 1) & 1 == 0 && (h >> 2) & 1 == 0 && (h >> 3) & 1 == 0;
    assert (h >> 4) & 1 == 0 && (h >> 5) & 1 == 0 && (h >> 6) & 1 == 0 && (h >> 7) & 1 == 0;
  }

  lemma SplitLowOctet(x: bv32)
    ensures x == Xor(x & 0xFFFF_FF00, x & 0xFF)
    ensures (x & 0xFFFF_FF00) & 0xFF == 0
    ensures (x & 0xFFFF_FF00) >> 8 == x >> 8
    ensures ((x & 0xFF) as byte) as bv32 == x & 0xFF
  {
  }

  lemma UnfoldEight(h: bv32)
    ensures BitSteps(h, 8)
         == BitStep(BitStep(BitStep(BitStep(BitStep(BitStep(BitStep(BitStep(h))))))))
  {
    hide BitStep;
    assert BitSteps(h, 8) == BitSteps(BitStep(BitStep(BitStep(BitStep(h)))), 4);
  }

  /** Eight register steps are one table lookup on the low octet and a shift of the rest. */
  lemma EightSteps(x: bv32)
    ensures BitSteps(x, 8) == Xor(x >> 8, TableEntry((x & 0xFF) as byte))
  {
    hide BitStep, Xor;
    var hi, lo := x & 0xFFFF_FF00, x & 0xFF;
    SplitLowOctet(x);
    BitStepsLinear(hi, lo, 8);
    ShiftDown(hi);
    UnfoldEight(hi);
  }

  function DropBits(w: bv32, n: nat): bv32
    decreases n
  {
    if n == 0 then w else DropBits(w >> 1, n - 1)
  }

  lemma SplitLowBit(w: bv32)
    ensures w == Xor(BitValue(w & 1 == 1), w & 0xFFFF_FFFE)
    ensures BitStep(w & 0xFFFF_FFFE) == w >> 1
  {
  }

  lemma FeedLowBit(state: bv32, w: bv32)
    ensures BitStep(Xor(state, w)) == Xor(Feed(state, w & 1 == 1), w >> 1)
  {
    hide BitStep, Xor, BitValue;
    var bit, rest := BitValue(w & 1 == 1), w & 0xFFFF_FFFE;
    SplitLowBit(w);
    XorLaws(state, bit, rest);
    BitStepLinear(Xor(state, bit), rest);
  }

  /** Absorbing bits one by one is stepping the register with the whole word folded in. */
  lemma {:induction false} AbsorbWord(state: bv32, w: bv32, n: nat)
    ensures Xor(Absorb(state, LowBits(w, n)), DropBits(w, n)) == BitSteps(Xor(state, w), n)
    decreases n
  {
    hide BitStep, Xor, Feed;
    if n > 0 {
      FeedLowBit(state, w);
      AbsorbWord(Feed(state, w & 1 == 1), w >> 1, n - 1);
      assert LowBits(w, n)[1..] == LowBits(w >> 1, n - 1);
    }
  }

  lemma OctetDropsToZero(b: byte)
    ensures DropBits(b as bv32, 8) == 0
  {
    var w := b as bv32;
    assert DropBits(w, 8) == DropBits(w >> 4, 4) by {
      assert DropBits(w, 8) == DropBits(w >> 1, 7);
      assert (w >> 1) >> 1 == w >> 2;
      assert (w >> 2) >> 1 == w >> 3;
      assert (w >> 3) >> 1 == w >> 4;
    }
    assert (w >> 4) >> 1 == w >> 5;
    assert (w >> 5) >> 1 == w >> 6;
    assert (w >> 6) >> 1 == w >> 7;
    assert (w >> 7) >> 1 == 0;
  }

  lemma ShiftOfXorOctet(state: bv32, b: byte)
    ensures Xor(state, b as bv32) >> 8 == state >> 8
  {
  }

  lemma ByteStepIsEightSteps(state: bv32, b: byte)
    ensures ByteStep(state, b) == BitSteps(Xor(state, b as bv32), 8)
  {
    hide BitStep, Xor, TableEntry;
    EightSteps(Xor(state, b as bv32));
    ShiftOfXorOctet(state, b);
  }

  lemma AbsorbOctet(state: bv32, b: byte)
    ensures Absorb(state, OctetBits(b)) == ByteStep(state, b)
  {
    hide Xor, LowBits, ByteStep, BitSteps, DropBits, Absorb;
    AbsorbWord(state, b as bv32, 8);
    OctetDropsToZero(b);
    XorZero(Absorb(state, OctetBits(b)));
    ByteStepIsEightSteps(state, b);
  }

  lemma {:induction false} AbsorbAppend(state: bv32, a: seq<bool>, b: seq<bool>)
    ensures Absorb(state, a + b) == Absorb(Absorb(state, a), b)
    decreases |a|
  {
    hide Feed;
    if a == [] {
      assert a + b == b;
    } else {
      assert (a + b)[1..] == a[1..] + b;
      AbsorbAppend(Feed(state, a[0]), a[1..], b);
    }
  }

  lemma {:induction false} TableRefinesBits(state: bv32, data: seq<byte>)
    ensures ByteSteps(state, data) == Absorb(state, MessageBits(data))
    decreases |data|
  {
    hide ByteStep, OctetBits;
    if data != [] {
      AbsorbOctet(state, data[0]);
      AbsorbAppend(state, OctetBits(data[0]), MessageBits(data[1..]));
      TableRefinesBits(ByteStep(state, data[0]), data[1..]);
    }
  }

  /** The table-driven checksum is the bit-serial one on every octet string. */
  lemma TableDrivenCrc(data: seq<byte>)
    ensures !ByteSteps(0xFFFF_FFFF, data) == Crc(data)
  {
    TableRefinesBits(0xFFFF_FFFF, data);
  }

  // ----- Burst errors ----------------------------------------------------------------

  function Difference(a: seq<bool>, b: seq<bool>): (d: seq<bool>)
    requires |a| == |b|
    ensures |d| == |a| && forall i :: 0 <= i < |a| ==> d[i] == (a[i] != b[i])
  {
    seq(|a|, i requires 0 <= i < |a| => a[i] != b[i])
  }

  lemma BitValueDifference(a: bool, b: bool)
    ensures Xor(BitValue(a), BitValue(b)) == BitValue(a != b)
  {
  }

  lemma XorShuffle(s: bv32, x: bv32, t: bv32, y: bv32)
    ensures Xor(Xor(s, x), Xor(t, y)) == Xor(Xor(s, t), Xor(x, y))
  {
    hide Xor;
    XorLaws(s, x, Xor(t, y));
    XorLaws(x, t, y);
    XorLaws(t, x, y);
    XorLaws(s, t, Xor(x, y));
  }

  lemma FeedDifference(s: bv32, t: bv32, a: bool, b: bool)
    ensures Xor(Feed(s, a), Feed(t, b)) == Feed(Xor(s, t), a != b)
  {
    hide BitStep, Xor, BitValue;
    var x, y := BitValue(a), BitValue(b);
    BitValueDifference(a, b);
    XorShuffle(s, x, t, y);
    BitStepLinear(Xor(s, x), Xor(t, y));
  }

  /** Two registers drift apart exactly as one register does on the difference of the streams. */
  lemma {:induction false} AbsorbDifference(s: bv32, t: bv32, a: seq<bool>, b: seq<bool>)
    requires |a| == |b|
    ensures Xor(Absorb(s, a), Absorb(t, b)) == Absorb(Xor(s, t), Difference(a, b))
    decreases |a|
  {
    hide Feed, Xor;
    if a != [] {
      FeedDifference(s, t, a[0], b[0]);
      AbsorbDifference(Feed(s, a[0]), Feed(t, b[0]), a[1..], b[1..]);
      assert Difference(a, b)[1..] == Difference(a[1..], b[1..]);
    }
  }

  predicate AllFalse(bits: seq<bool>) {
    forall i :: 0 <= i < |bits| ==> !bits[i]
  }

  lemma StepKeepsZeroness(x: bv32)
    ensures Feed(x, false) == 0 <==> x == 0
  {
  }

  lemma {:induction false} AbsorbZeros(state: bv32, bits: seq<bool>)
    requires AllFalse(bits)
    ensures Absorb(state, bits) == 0 <==> state == 0
    decreases |bits|
  {
    hide Feed;
    if bits != [] {
      StepKeepsZeroness(state);
      AbsorbZeros(Feed(state, false), bits[1..]);
    }
  }

  /** `floor` can be halved `n` times without losing a bit, and is still not zero. */
  predicate Halvable(floor: bv32, n: nat)
    decreases n
  {
    floor != 0 && (n == 0 || (floor & 1 == 0 && Halvable(floor >> 1, n - 1)))
  }

  predicate AtLeast(x: bv32, floor: bv32) { x >= floor }

  lemma XorKeepsFloor(x: bv32, bit: bool, floor: bv32)
    requires AtLeast(x, floor) && floor & 1 == 0
    ensures AtLeast(Xor(x, BitValue(bit)), floor)
  {
  }

  lemma ShiftKeepsFloor(x: bv32, floor: bv32)
    requires AtLeast(x, floor)
    ensures AtLeast(x >> 1, floor >> 1)
    ensures AtLeast((x >> 1) ^ POLYNOMIAL, floor >> 1)
  {
  }

  lemma StepKeepsFloor(x: bv32, bit: bool, floor: bv32)
    requires AtLeast(x, floor) && floor & 1 == 0
    ensures AtLeast(Feed(x, bit), floor >> 1)
  {
    hide Xor, AtLeast, BitValue;
    XorKeepsFloor(x, bit, floor);
    ShiftKeepsFloor(Xor(x, BitValue(bit)), floor);
  }

  lemma HalvableStep(floor: bv32, n: nat)
    requires Halvable(floor, n)
    ensures floor != 0
    ensures n > 0 ==> floor & 1 == 0 && Halvable(floor >> 1, n - 1)
  {
  }

  lemma AboveNonZero(x: bv32, floor: bv32)
    requires AtLeast(x, floor) && floor != 0
    ensures x != 0
  {
  }

  /** A register with a high bit set cannot be cleared in fewer steps than that bit is from
      the bottom, whatever is fed to it. */
  lemma {:induction false} HighBitSurvives(state: bv32, bits: seq<bool>, floor: bv32, n: nat)
    requires |bits| <= n && Halvable(floor, n) && AtLeast(state, floor)
    ensures Absorb(state, bits) != 0
    decreases |bits|
  {
    hide Feed, Halvable, AtLeast;
    HalvableStep(floor, n);
    if bits == [] {
      AboveNonZero(state, floor);
    } else {
      StepKeepsFloor(state, bits[0], floor);
      HighBitSurvives(Feed(state, bits[0]), bits[1..], floor >> 1, n - 1);
    }
  }

  lemma TopBitHalvable()
    ensures Halvable(0x8000_0000, 31)
  {
    assert Halvable(0x8000_0000 >> 24, 7);
    assert Halvable(0x8000_0000 >> 16, 15);
    assert Halvable(0x8000_0000 >> 8, 23);
  }

  lemma FirstDifferentBit(state: bv32)
    requires state == 0
    ensures Feed(state, true) == POLYNOMIAL
  {
  }

  /** A difference whose set bits all lie within 32 consecutive places never cancels. */
  lemma BurstNeverCancels(diff: seq<bool>, first: nat)
    requires first < |diff| && diff[first]
    requires forall i :: 0 <= i < |diff| && (i < first || i >= first + 32) ==> !diff[i]
    ensures Absorb(0, diff) != 0
  {
    var burstEnd := if first + 32 <= |diff| then first + 32 else |diff|;
    var before, burst, after := diff[..first], diff[first + 1..burstEnd], diff[burstEnd..];
    assert diff == before + ([diff[first]] + (burst + after));
    AbsorbAppend(0, before, [diff[first]] + (burst + after));
    AbsorbZeros(0, before);
    assert Absorb(0, diff) == Absorb(Feed(0, true), burst + after) by {
      assert ([diff[first]] + (burst + after))[1..] == burst + after;
    }
    FirstDifferentBit(0);
    AbsorbAppend(POLYNOMIAL, burst, after);
    TopBitHalvable();
    HighBitSurvives(POLYNOMIAL, burst, 0x8000_0000, 31);
    AbsorbZeros(Absorb(POLYNOMIAL, burst), after);
  }

  /** `a` and `b` agree on every message bit outside the 32 places from `from`. */
  predicate DifferInBurst(a: seq<byte>, b: seq<byte>, from: nat)
    requires |a| == |b|
  {
    forall i :: 0 <= i < 8 * |a| && (i < from || i >= from + 32) ==> MessageBits(a)[i] == MessageBits(b)[i]
  }

  lemma {:induction false} LowBitsInjective(v: bv32, w: bv32, n: nat)
    requires LowBits(v, n) == LowBits(w, n) && DropBits(v, n) == DropBits(w, n)
    ensures v == w
    decreases n
  {
    if n > 0 {
      assert LowBits(v, n)[0] == LowBits(w, n)[0];
      assert LowBits(v, n)[1..] == LowBits(v >> 1, n - 1);
      assert LowBits(w, n)[1..] == LowBits(w >> 1, n - 1);
      LowBitsInjective(v >> 1, w >> 1, n - 1);
      LowBitCases(v);
      LowBitCases(w);
    }
  }

  lemma OctetBitsInjective(a: byte, b: byte)
    requires OctetBits(a) == OctetBits(b)
    ensures a == b
  {
    hide LowBits, DropBits;
    OctetDropsToZero(a);
    OctetDropsToZero(b);
    LowBitsInjective(a as bv32, b as bv32, 8);
    assert (a as bv32) as byte == a && (b as bv32) as byte == b;
  }

  lemma {:induction false} MessageBitsInjective(a: seq<byte>, b: seq<byte>)
    requires |a| == |b| && MessageBits(a) == MessageBits(b)
    ensures a == b
    decreases |a|
  {
    hide OctetBits;
    if a != [] {
      assert OctetBits(a[0]) == MessageBits(a)[..8];
      assert OctetBits(b[0]) == MessageBits(b)[..8];
      OctetBitsInjective(a[0], b[0]);
      assert MessageBits(a)[8..] == MessageBits(a[1..]);
      assert MessageBits(b)[8..] == MessageBits(b[1..]);
      MessageBitsInjective(a[1..], b[1..]);
      assert a == [a[0]] + a[1..] && b == [b[0]] + b[1..];
    }
  }

  lemma FirstDifference(a: seq<bool>, b: seq<bool>) returns (k: nat)
    requires |a| == |b| && a != b
    ensures k < |a| && a[k] != b[k] && a[..k] == b[..k]
  {
    k := 0;
    while a[k] == b[k]
      invariant k < |a| && a[..k] == b[..k]
      decreases |a| - k
    {
      k := k + 1;
    }
  }

  lemma ComplementInjective(x: bv32, y: bv32)
    ensures !x == !y ==> x == y
  {
  }

  /** Every change confined to 32 consecutive message bits changes the checksum. */
  lemma BurstDetected(a: seq<byte>, b: seq<byte>, from: nat)
    requires |a| == |b| && a != b && DifferInBurst(a, b, from)
    ensures Crc(a) != Crc(b)
  {
    var x, y := MessageBits(a), MessageBits(b);
    if x == y { MessageBitsInjective(a, b); }
    var first := FirstDifference(x, y);
    var diff := Difference(x, y);
    forall i | 0 <= i < |diff| && (i < first || i >= first + 32) ensures !diff[i] {
      if i < first { assert x[i] == x[..first][i]; }
    }
    BurstNeverCancels(diff, first);
    AbsorbDifference(0xFFFF_FFFF, 0xFFFF_FFFF, x, y);
    XorZero(0xFFFF_FFFF);
    XorZero(Absorb(0xFFFF_FFFF, x));
    ComplementInjective(Absorb(0xFFFF_FFFF, x), Absorb(0xFFFF_FFFF, y));
  }

  lemma {:induction false} MessageBitAt(data: seq<byte>, i: nat)
    requires i < 8 * |data|
    ensures MessageBits(data)[i] == OctetBits(data[i / 8])[i % 8]
    decreases |data|
  {
    hide OctetBits;
    if i >= 8 {
      MessageBitAt(data[1..], i - 8);
      assert data[1..][(i - 8) / 8] == data[i / 8];
    }
  }

  /** In octets: a change confined to four consecutive octets is always noticed. */
  lemma FourOctetsDetected(a: seq<byte>, b: seq<byte>, from: nat)
    requires |a| == |b| && a != b
    requires forall i :: 0 <= i < |a| && (i < from || i >= from + 4) ==> a[i] == b[i]
    ensures Crc(a) != Crc(b)
  {
    forall i | 0 <= i < 8 * |a| && (i < 8 * from || i >= 8 * from + 32)
      ensures MessageBits(a)[i] == MessageBits(b)[i]
    {
      MessageBitAt(a, i);
      MessageBitAt(b, i);
      assert i / 8 < from || i / 8 >= from + 4;
    }
    BurstDetected(a, b, 8 * from);
  }

  // ----- Values that fix the polynomial ----------------------------------------------------

  function LowOctet(w: bv32): byte { (w & 0xFF) as byte }

  /** The four octets of a word, least significant first. */
  function WordOctets(w: bv32): seq<byte> {
    [LowOctet(w), LowOctet(DropBits(w, 8)), LowOctet(DropBits(w, 16)), LowOctet(DropBits(w, 24))]
  }

  lemma {:induction false} DropAll(w: bv32, m: nat, n: nat)
    ensures DropBits(w, m + n) == DropBits(DropBits(w, m), n)
    decreases m
  {
    if m > 0 { DropAll(w >> 1, m - 1, n); }
  }

  predicate Odd(w: bv32) { w & 1 == 1 }

  /** A mask of the `n` low bits, at least. */
  predicate Masks(m: bv32, n: nat)
    decreases n
  {
    n == 0 || (Odd(m) && Masks(m >> 1, n - 1))
  }

  function And(w: bv32, m: bv32): bv32 { w & m }

  lemma OddnessOfAnd(w: bv32, m: bv32)
    requires Odd(m)
    ensures Odd(And(w, m)) == Odd(w)
  {
  }

  lemma HalfOfAnd(w: bv32, m: bv32)
    ensures And(w >> 1, m >> 1) == And(w, m) >> 1
  {
  }

  /** Words that agree under a mask agree in the bits it covers. */
  lemma {:induction false} SameLowBits(v: bv32, w: bv32, m: bv32, n: nat)
    requires And(v, m) == And(w, m) && Masks(m, n)
    ensures LowBits(v, n) == LowBits(w, n)
    decreases n
  {
    hide And;
    if n > 0 {
      OddnessOfAnd(v, m);
      OddnessOfAnd(w, m);
      HalfOfAnd(v, m);
      HalfOfAnd(w, m);
      SameLowBits(v >> 1, w >> 1, m >> 1, n - 1);
    }
  }

  lemma OctetMask(w: bv32)
    ensures Masks(0xFF, 8) && And(w & 0xFF, 0xFF) == And(w, 0xFF)
  {
    assert Masks(0xFF >> 4, 4);
  }

  lemma OctetKept(w: bv32)
    ensures ((w & 0xFF) as byte) as bv32 == w & 0xFF
  {
  }

  lemma OctetOfWord(w: bv32)
    ensures OctetBits(LowOctet(w)) == LowBits(w, 8)
  {
    hide LowBits, Masks, And;
    OctetKept(w);
    OctetMask(w);
    SameLowBits(w & 0xFF, w, 0xFF, 8);
  }

  lemma {:induction false} LowBitsSplit(w: bv32, m: nat, n: nat)
    ensures LowBits(w, m + n) == LowBits(w, m) + LowBits(DropBits(w, m), n)
    decreases m
  {
    if m > 0 { LowBitsSplit(w >> 1, m - 1, n); }
  }

  lemma {:induction false} MessageBitsAppend(a: seq<byte>, b: seq<byte>)
    ensures MessageBits(a + b) == MessageBits(a) + MessageBits(b)
    decreases |a|
  {
    hide OctetBits;
    if a == [] {
      assert a + b == b;
    } else {
      assert (a + b)[1..] == a[1..] + b;
      MessageBitsAppend(a[1..], b);
    }
  }

  lemma OneOctet(data: seq<byte>)
    requires data != []
    ensures MessageBits(data) == OctetBits(data[0]) + MessageBits(data[1..])
  {
  }

  lemma FourOctets(a: byte, b: byte, c: byte, d: byte)
    ensures MessageBits([a, b, c, d]) == OctetBits(a) + (OctetBits(b) + (OctetBits(c) + OctetBits(d)))
  {
    hide OctetBits, MessageBits;
    OneOctet([a, b, c, d]);
    OneOctet([b, c, d]);
    OneOctet([c, d]);
    OneOctet([d]);
    assert [a, b, c, d][1..] == [b, c, d] && [b, c, d][1..] == [c, d] && [c, d][1..] == [d] && [d][1..] == [];
    assert MessageBits([]) == [];
  }

  /** One octet is taken off the word. */
  lemma TakeOctet(w: bv32, n: nat)
    ensures LowBits(w, 8 + n) == OctetBits(LowOctet(w)) + LowBits(DropBits(w, 8), n)
  {
    hide LowBits, DropBits, OctetBits;
    LowBitsSplit(w, 8, n);
    OctetOfWord(w);
  }

  lemma WordBits(w: bv32)
    ensures MessageBits(WordOctets(w)) == LowBits(w, 32)
  {
    hide LowBits, DropBits, OctetBits, MessageBits, LowOctet;
    var x, y, z := DropBits(w, 8), DropBits(w, 16), DropBits(w, 24);
    FourOctets(LowOctet(w), LowOctet(x), LowOctet(y), LowOctet(z));
    DropAll(w, 8, 8);
    DropAll(w, 16, 8);
    TakeOctet(w, 24);
    TakeOctet(x, 16);
    TakeOctet(y, 8);
    OctetOfWord(z);
  }

  lemma {:induction false} BitStepsAdd(x: bv32, m: nat, n: nat)
    ensures BitSteps(x, m + n) == BitSteps(BitSteps(x, m), n)
    decreases m
  {
    hide BitStep;
    if m > 0 { BitStepsAdd(BitStep(x), m - 1, n); }
  }

  lemma AtMostZero(w: bv32)
    requires AtLeast(0, w)
    ensures w == 0
  {
  }

  lemma {:induction false} DropsBelow(w: bv32, m: bv32, n: nat)
    requires AtLeast(m, w) && DropBits(m, n) == 0
    ensures DropBits(w, n) == 0
    decreases n
  {
    hide AtLeast;
    if n == 0 {
      AtMostZero(w);
    } else {
      ShiftKeepsFloor(m, w);
      DropsBelow(w >> 1, m >> 1, n - 1);
    }
  }

  lemma OnesAreMost(w: bv32)
    ensures AtLeast(0xFFFF_FFFF, w)
  {
  }

  lemma OnesDropToZero()
    ensures DropBits(0xFFFF_FFFF, 32) == 0
  {
    assert DropBits(0xFFFF_FFFF, 32) == DropBits(0x1FFF_FFFF, 29) == DropBits(0x03FF_FFFF, 26) == DropBits(0x007F_FFFF, 23);
    assert DropBits(0x007F_FFFF, 23) == DropBits(0x000F_FFFF, 20) == DropBits(0x0001_FFFF, 17) == DropBits(0x3FFF, 14);
    assert DropBits(0x3FFF, 14) == DropBits(0x07FF, 11) == DropBits(0xFF, 8) == DropBits(0x1F, 5) == DropBits(0x03, 2);
  }

  lemma WordDropsToZero(w: bv32)
    ensures DropBits(w, 32) == 0
  {
    hide DropBits;
    OnesDropToZero();
    OnesAreMost(w);
    DropsBelow(w, 0xFFFF_FFFF, 32);
  }

  lemma ResidueSteps1()
    ensures BitSteps(0xFFFF_FFFF, 8) == 0x2DFD_1072
  {
    UnfoldEight(0xFFFF_FFFF);
    assert BitStep(0xFFFF_FFFF) == 0x9247_7CDF && BitStep(0x9247_7CDF) == 0xA49B_3D4F && BitStep(0xA49B_3D4F) == 0xBFF5_1D87 && BitStep(0xBFF5_1D87) == 0xB242_0DE3;
    assert BitStep(0xB242_0DE3) == 0xB499_85D1 && BitStep(0xB499_85D1) == 0xB7F4_41C8 && BitStep(0xB7F4_41C8) == 0x5BFA_20E4 && BitStep(0x5BFA_20E4) == 0x2DFD_1072;
  }

  lemma ResidueSteps2()
    ensures BitSteps(0x2DFD_1072, 8) == 0xBE26_ED00
  {
    UnfoldEight(0x2DFD_1072);
    assert BitStep(0x2DFD_1072) == 0x16FE_8839 && BitStep(0x16FE_8839) == 0xE6C7_C73C && BitStep(0xE6C7_C73C) == 0x7363_E39E && BitStep(0x7363_E39E) == 0x39B1_F1CF;
    assert BitStep(0x39B1_F1CF) == 0xF160_7BC7 && BitStep(0xF160_7BC7) == 0x9508_BEC3 && BitStep(0x9508_BEC3) == 0xA73C_DC41 && BitStep(0xA73C_DC41) == 0xBE26_ED00;
  }

  lemma ResidueSteps3()
    ensures BitSteps(0xBE26_ED00, 8) == 0x00BE_26ED
  {
    UnfoldEight(0xBE26_ED00);
    assert BitStep(0xBE26_ED00) == 0x5F13_7680 && BitStep(0x5F13_7680) == 0x2F89_BB40 && BitStep(0x2F89_BB40) == 0x17C4_DDA0 && BitStep(0x17C4_DDA0) == 0x0BE2_6ED0;
    assert BitStep(0x0BE2_6ED0) == 0x05F1_3768 && BitStep(0x05F1_3768) == 0x02F8_9BB4 && BitStep(0x02F8_9BB4) == 0x017C_4DDA && BitStep(0x017C_4DDA) == 0x00BE_26ED;
  }

  lemma ResidueSteps4()
    ensures BitSteps(0x00BE_26ED, 8) == 0xDEBB_20E3
  {
    UnfoldEight(0x00BE_26ED);
    assert BitStep(0x00BE_26ED) == 0xEDE7_9056 && BitStep(0xEDE7_9056) == 0x76F3_C82B && BitStep(0x76F3_C82B) == 0xD6C1_6735 && BitStep(0xD6C1_6735) == 0x86D8_30BA;
    assert BitStep(0x86D8_30BA) == 0x436C_185D && BitStep(0x436C_185D) == 0xCC0E_8F0E && BitStep(0xCC0E_8F0E) == 0x6607_4787 && BitStep(0x6607_4787) == 0xDEBB_20E3;
  }

  lemma ComplementCancels(x: bv32)
    ensures Xor(x, !x) == 0xFFFF_FFFF
  {
  }

  /** The register after a message and its own checksum, least significant octet first, is the
      same for every message, and it is the value of this polynomial alone. */
  lemma Residue(data: seq<byte>)
    ensures Absorb(0xFFFF_FFFF, MessageBits(data + WordOctets(Crc(data)))) == 0xDEBB_20E3
  {
    hide LowBits, DropBits, MessageBits, BitSteps, Xor, WordOctets, Absorb;
    var state, w := Absorb(0xFFFF_FFFF, MessageBits(data)), Crc(data);
    MessageBitsAppend(data, WordOctets(w));
    AbsorbAppend(0xFFFF_FFFF, MessageBits(data), MessageBits(WordOctets(w)));
    WordBits(w);
    AbsorbWord(state, w, 32);
    WordDropsToZero(w);
    XorZero(Absorb(state, LowBits(w, 32)));
    ComplementCancels(state);
    BitStepsAdd(0xFFFF_FFFF, 8, 24);
    BitStepsAdd(0x2DFD_1072, 8, 16);
    BitStepsAdd(0xBE26_ED00, 8, 8);
    ResidueSteps1();
    ResidueSteps2();
    ResidueSteps3();
    ResidueSteps4();
  }

  /** The entry that shows the polynomial. */
  lemma TopEntry()
    ensures TableEntry(0x80) == 0xEDB8_8320
  {
    UnfoldEight(0x80);
    assert BitStep(0x0000_0080) == 0x0000_0040 && BitStep(0x0000_0040) == 0x0000_0020 && BitStep(0x0000_0020) == 0x0000_0010 && BitStep(0x0000_0010) == 0x0000_0008;
    assert BitStep(0x0000_0008) == 0x0000_0004 && BitStep(0x0000_0004) == 0x0000_0002 && BitStep(0x0000_0002) == 0x0000_0001 && BitStep(0x0000_0001) == 0xEDB8_8320;
  }

  lemma CheckOctet1()
    ensures ByteStep(0xFFFF_FFFF, 0x31) == 0x7C23_1048
  {
    ByteStepIsEightSteps(0xFFFF_FFFF, 0x31);
    assert Xor(0xFFFF_FFFF, 0x31) == 0xFFFF_FFCE;
    UnfoldEight(0xFFFF_FFCE);
    assert BitStep(0xFFFF_FFCE) == 0x7FFF_FFE7 && BitStep(0x7FFF_FFE7) == 0xD247_7CD3 && BitStep(0xD247_7CD3) == 0x849B_3D49 && BitStep(0x849B_3D49) == 0xAFF5_1D84;
    assert BitStep(0xAFF5_1D84) == 0x57FA_8EC2 && BitStep(0x57FA_8EC2) == 0x2BFD_4761 && BitStep(0x2BFD_4761) == 0xF846_2090 && BitStep(0xF846_2090) == 0x7C23_1048;
  }

  lemma CheckOctet2()
    ensures ByteStep(0x7C23_1048, 0x32) == 0xB0AC_BB32
  {
    ByteStepIsEightSteps(0x7C23_1048, 0x32);
    assert Xor(0x7C23_1048, 0x32) == 0x7C23_107A;
    UnfoldEight(0x7C23_107A);
    assert BitStep(0x7C23_107A) == 0x3E11_883D && BitStep(0x3E11_883D) == 0xF2B0_473E && BitStep(0xF2B0_473E) == 0x7958_239F && BitStep(0x7958_239F) == 0xD114_92EF;
    assert BitStep(0xD114_92EF) == 0x8532_CA57 && BitStep(0x8532_CA57) == 0xAF21_E60B && BitStep(0xAF21_E60B) == 0xBA28_7025 && BitStep(0xBA28_7025) == 0xB0AC_BB32;
  }

  lemma CheckOctet3()
    ensures ByteStep(0xB0AC_BB32, 0x33) == 0x77B7_9C2D
  {
    ByteStepIsEightSteps(0xB0AC_BB32, 0x33);
    assert Xor(0xB0AC_BB32, 0x33) == 0xB0AC_BB01;
    UnfoldEight(0xB0AC_BB01);
    assert BitStep(0xB0AC_BB01) == 0xB5EE_DEA0 && BitStep(0xB5EE_DEA0) == 0x5AF7_6F50 && BitStep(0x5AF7_6F50) == 0x2D7B_B7A8 && BitStep(0x2D7B_B7A8) == 0x16BD_DBD4;
    assert BitStep(0x16BD_DBD4) == 0x0B5E_EDEA && BitStep(0x0B5E_EDEA) == 0x05AF_76F5 && BitStep(0x05AF_76F5) == 0xEF6F_385A && BitStep(0xEF6F_385A) == 0x77B7_9C2D;
  }

  lemma CheckOctet4()
    ensures ByteStep(0x77B7_9C2D, 0x34) == 0x641C_1F5C
  {
    ByteStepIsEightSteps(0x77B7_9C2D, 0x34);
    assert Xor(0x77B7_9C2D, 0x34) == 0x77B7_9C19;
    UnfoldEight(0x77B7_9C19);
    assert BitStep(0x77B7_9C19) == 0xD663_4D2C && BitStep(0xD663_4D2C) == 0x6B31_A696 && BitStep(0x6B31_A696) == 0x3598_D34B && BitStep(0x3598_D34B) == 0xF774_EA85;
    assert BitStep(0xF774_EA85) == 0x9602_F662 && BitStep(0x9602_F662) == 0x4B01_7B31 && BitStep(0x4B01_7B31) == 0xC838_3EB8 && BitStep(0xC838_3EB8) == 0x641C_1F5C;
  }

  lemma CheckOctet5()
    ensures ByteStep(0x641C_1F5C, 0x35) == 0x340A_C5E3
  {
    ByteStepIsEightSteps(0x641C_1F5C, 0x35);
    assert Xor(0x641C_1F5C, 0x35) == 0x641C_1F69;
    UnfoldEight(0x641C_1F69);
    assert BitStep(0x641C_1F69) == 0xDFB6_8C94 && BitStep(0xDFB6_8C94) == 0x6FDB_464A && BitStep(0x6FDB_464A) == 0x37ED_A325 && BitStep(0x37ED_A325) == 0xF64E_52B2;
    assert BitStep(0xF64E_52B2) == 0x7B27_2959 && BitStep(0x7B27_2959) == 0xD02B_178C && BitStep(0xD02B_178C) == 0x6815_8BC6 && BitStep(0x6815_8BC6) == 0x340A_C5E3;
  }

  lemma CheckOctet6()
    ensures ByteStep(0x340A_C5E3, 0x36) == 0xF68D_2C9E
  {
    ByteStepIsEightSteps(0x340A_C5E3, 0x36);
    assert Xor(0x340A_C5E3, 0x36) == 0x340A_C5D5;
    UnfoldEight(0x340A_C5D5);
    assert BitStep(0x340A_C5D5) == 0xF7BD_E1CA && BitStep(0xF7BD_E1CA) == 0x7BDE_F0E5 && BitStep(0x7BDE_F0E5) == 0xD057_FB52 && BitStep(0xD057_FB52) == 0x682B_FDA9;
    assert BitStep(0x682B_FDA9) == 0xD9AD_7DF4 && BitStep(0xD9AD_7DF4) == 0x6CD6_BEFA && BitStep(0x6CD6_BEFA) == 0x366B_5F7D && BitStep(0x366B_5F7D) == 0xF68D_2C9E;
  }

  lemma CheckOctet7()
    ensures ByteStep(0xF68D_2C9E, 0x37) == 0xAFFC_9660
  {
    ByteStepIsEightSteps(0xF68D_2C9E, 0x37);
    assert Xor(0xF68D_2C9E, 0x37) == 0xF68D_2CA9;
    UnfoldEight(0xF68D_2CA9);
    assert BitStep(0xF68D_2CA9) == 0x96FE_1574 && BitStep(0x96FE_1574) == 0x4B7F_0ABA && BitStep(0x4B7F_0ABA) == 0x25BF_855D && BitStep(0x25BF_855D) == 0xFF67_418E;
    assert BitStep(0xFF67_418E) == 0x7FB3_A0C7 && BitStep(0x7FB3_A0C7) == 0xD261_5343 && BitStep(0xD261_5343) == 0x8488_2A81 && BitStep(0x8488_2A81) == 0xAFFC_9660;
  }

  lemma CheckOctet8()
    ensures ByteStep(0xAFFC_9660, 0x38) == 0x651F_2550
  {
    ByteStepIsEightSteps(0xAFFC_9660, 0x38);
    assert Xor(0xAFFC_9660, 0x38) == 0xAFFC_9658;
    UnfoldEight(0xAFFC_9658);
    assert BitStep(0xAFFC_9658) == 0x57FE_4B2C && BitStep(0x57FE_4B2C) == 0x2BFF_2596 && BitStep(0x2BFF_2596) == 0x15FF_92CB && BitStep(0x15FF_92CB) == 0xE747_4A45;
    assert BitStep(0xE747_4A45) == 0x9E1B_2602 && BitStep(0x9E1B_2602) == 0x4F0D_9301 && BitStep(0x4F0D_9301) == 0xCA3E_4AA0 && BitStep(0xCA3E_4AA0) == 0x651F_2550;
  }

  lemma CheckOctet9()
    ensures ByteStep(0x651F_2550, 0x39) == 0x340B_C6D9
  {
    ByteStepIsEightSteps(0x651F_2550, 0x39);
    assert Xor(0x651F_2550, 0x39) == 0x651F_2569;
    UnfoldEight(0x651F_2569);
    assert BitStep(0x651F_2569) == 0xDF37_1194 && BitStep(0xDF37_1194) == 0x6F9B_88CA && BitStep(0x6F9B_88CA) == 0x37CD_C465 && BitStep(0x37CD_C465) == 0xF65E_6112;
    assert BitStep(0xF65E_6112) == 0x7B2F_3089 && BitStep(0x7B2F_3089) == 0xD02F_1B64 && BitStep(0xD02F_1B64) == 0x6817_8DB2 && BitStep(0x6817_8DB2) == 0x340B_C6D9;
  }

  const CHECK: seq<byte> := [0x31, 0x32, 0x33, 0x34, 0x35, 0x36, 0x37, 0x38, 0x39]

  /** The check value by which this checksum is known, that of the digits one to nine. */
  lemma CheckValue()
    ensures Crc(CHECK) == 0xCBF4_3926
  {
    hide ByteStep, MessageBits, Absorb;
    assert CHECK[1..] == [0x32, 0x33, 0x34, 0x35, 0x36, 0x37, 0x38, 0x39];
    assert CHECK[1..][1..] == [0x33, 0x34, 0x35, 0x36, 0x37, 0x38, 0x39];
    ghost var tail: seq<byte> := [0x35, 0x36, 0x37, 0x38, 0x39];
    assert CHECK[1..][1..][1..][1..] == tail;
    CheckOctet1();
    CheckOctet2();
    CheckOctet3();
    CheckOctet4();
    CheckOctet5();
    CheckOctet6();
    CheckOctet7();
    CheckOctet8();
    CheckOctet9();
    assert ByteSteps(0xFFFF_FFFF, CHECK) == ByteSteps(0x641C_1F5C, tail);
    assert tail[1..][1..] == [0x37, 0x38, 0x39] && tail[1..][1..][1..][1..][1..] == [];
    assert ByteSteps(0x641C_1F5C, tail) == 0x340B_C6D9;
    TableRefinesBits(0xFFFF_FFFF, CHECK);
  }
}
