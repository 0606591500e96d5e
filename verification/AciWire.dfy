/** One exchange with the nRF8001 over SPI. The device shifts octets least significant bit
    first and the host most significant bit first, so the host mirrors every octet in place. */
module AciWire {
  import opened Bytes
  import opened AciSetup

  const BUFFER_SIZE := 40

  // ----- One octet -------------------------------------------------------------------------

  /** The octet read from the other end. */
  function Mirror(b: byte): byte {
    ((b & 0x01) << 7) | ((b & 0x02) << 5) | ((b & 0x04) << 3) | ((b & 0x08) << 1)
    | ((b & 0x10) >> 1) | ((b & 0x20) >> 3) | ((b & 0x40) >> 5) | ((b & 0x80) >> 7)
  }

  lemma MirrorTwice(b: byte)
    ensures Mirror(Mirror(b)) == b
  {
  }

  /** 0x01 << i and 0x80 >> i. */
  function FromLow(i: nat): byte { if i == 0 then 0x01 else FromLow(i - 1) << 1 }

  function FromHigh(i: nat): byte { if i == 0 then 0x80 else FromHigh(i - 1) >> 1 }

  /** The bits at the top that the first `i` turns of the loop have settled. */
  function Settled(i: nat): byte { if i == 0 then 0 else Settled(i - 1) | FromHigh(i - 1) }

  lemma Masks()
    ensures FromLow(0) == 0x01 && FromLow(1) == 0x02 && FromLow(2) == 0x04 && FromLow(3) == 0x08
    ensures FromLow(4) == 0x10 && FromLow(5) == 0x20 && FromLow(6) == 0x40 && FromLow(7) == 0x80
    ensures FromHigh(0) == 0x80 && FromHigh(1) == 0x40 && FromHigh(2) == 0x20 && FromHigh(3) == 0x10
    ensures FromHigh(4) == 0x08 && FromHigh(5) == 0x04 && FromHigh(6) == 0x02 && FromHigh(7) == 0x01
    ensures Settled(0) == 0 && Settled(1) == 0x80 && Settled(2) == 0xC0 && Settled(3) == 0xE0
    ensures Settled(4) == 0xF0 && Settled(5) == 0xF8 && Settled(6) == 0xFC && Settled(7) == 0xFE && Settled(8) == 0xFF
  {
  }

  /** Bit `i` from the bottom decides bit `i` from the top. */
  lemma MirrorBit(b: byte, i: nat)
    requires i < 8
    ensures Mirror(b) & FromHigh(i) == if b & FromLow(i) != 0 then FromHigh(i) else 0
  {
    Masks();
    if i < 4 {
      if i < 2 { if i == 0 { } else { } } else { if i == 2 { } else { } }
    } else {
      if i < 6 { if i == 4 { } else { } } else { if i == 6 { } else { } }
    }
  }

  // The loop is followed through these, which its proof does not look into.
  predicate Has(b: byte, i: nat) { b & FromLow(i) != 0 }

  function With(b: byte, i: nat): byte { b | FromHigh(i) }

  function Top(b: byte, i: nat): byte { b & Settled(i) }

  lemma Distribute(m: byte, s: byte, h: byte)
    ensures m & (s | h) == (m & s) | (m & h)
    ensures (m & s) | 0 == m & s
  {
  }

  /** One more turn settles one more bit. */
  lemma OneTurn(b: byte, i: nat)
    requires i < 8
    ensures Top(Mirror(b), i + 1) == if Has(b, i) then With(Top(Mirror(b), i), i) else Top(Mirror(b), i)
  {
    hide Mirror, FromLow, FromHigh;
    MirrorBit(b, i);
    Distribute(Mirror(b), Settled(i), FromHigh(i));
  }

  lemma FirstAndLast(b: byte)
    ensures Top(b, 0) == 0 && Top(b, 8) == b
  {
    Masks();
  }

  method ByteM2L(b: byte) returns (res: byte)
    ensures res == Mirror(b)
  {
    hide Mirror, Has, With, Top;
    FirstAndLast(Mirror(b));
    res := 0;
    for i := 0 to 8
      invariant res == Top(Mirror(b), i)
    {
      OneTurn(b, i);
      if Has(b, i) {
        res := With(res, i);
      }
    }
  }

  // ----- One exchange ----------------------------------------------------------------------

  function MirrorAll(s: seq<byte>): (t: seq<byte>)
    ensures |t| == |s| && forall i {:trigger t[i]} :: 0 <= i < |s| ==> t[i] == Mirror(s[i])
  {
    seq(|s|, i requires 0 <= i < |s| => Mirror(s[i]))
  }

  /** The transmit buffer after an exchange, and the octets that went over the wire. */
  function Sent(tx: seq<byte>, len: nat): (t: seq<byte>)
    requires len <= |tx|
    ensures |t| == |tx|
  {
    MirrorAll(tx[..len]) + tx[len..]
  }

  /** The octet that says how long the event is, once it can be read. */
  function EventLength(wire: seq<byte>): nat
    requires |wire| >= 2
  {
    OctetValue(Mirror(wire[1]))
  }

  /** What the receive buffer holds for the octets that came over the wire: the first octet as
      it came, the event read the right way round, and nothing of what follows it. */
  function Received(wire: seq<byte>): (rx: seq<byte>)
    requires |wire| <= BUFFER_SIZE
    ensures |rx| == BUFFER_SIZE
  {
    seq(BUFFER_SIZE, i requires 0 <= i < BUFFER_SIZE =>
      if i >= |wire| then 0
      else if i == 0 then wire[i]
      else if i <= EventLength(wire) + 1 then Mirror(wire[i])
      else 0)
  }

  class Spi {
    const tx: array<byte>
    const rx: array<byte>

    ghost predicate Valid()
    {
      tx.Length == BUFFER_SIZE && rx.Length == BUFFER_SIZE && tx != rx
    }

    constructor ()
      ensures Valid() && fresh(tx) && fresh(rx)
      ensures forall i :: 0 <= i < BUFFER_SIZE ==> tx[i] == 0 && rx[i] == 0
    {
      tx := new byte[BUFFER_SIZE](_ => 0);
      rx := new byte[BUFFER_SIZE](_ => 0);
    }

    method MirrorTx(len: nat)
      requires Valid() && len <= BUFFER_SIZE
      modifies tx
      ensures tx[..] == Sent(old(tx[..]), len)
    {
      hide Mirror;
      for i := 0 to len
        invariant forall k :: 0 <= k < BUFFER_SIZE ==> tx[k] == if k < i then Mirror(old(tx[k])) else old(tx[k])
      {
        var b := ByteM2L(tx[i]);
        tx[i] := b;
      }
    }

    /** The bound of the loop is an octet that the first turn of the loop mirrors. */
    method MirrorRx(len: nat)
      requires Valid() && len <= BUFFER_SIZE
      requires forall k :: len <= k < BUFFER_SIZE ==> rx[k] == 0
      modifies rx
      ensures rx[..] == Received(old(rx[..len]))
    {
      hide Mirror, OctetValue;
      ghost var wire := rx[..len];
      for i := 1 to if len == 0 then 1 else len
        invariant rx[1] == if i == 1 then old(rx[1]) else Mirror(old(rx[1]))
        invariant forall k :: 0 <= k < BUFFER_SIZE ==>
                    rx[k] == if k < 1 || k >= i then old(rx[k]) else if k <= EventLength(wire) + 1 then Mirror(old(rx[k])) else 0
      {
        if i <= OctetValue(rx[1]) + 1 {
          var b := ByteM2L(rx[i]);
          rx[i] := b;
        } else {
          rx[i] := 0;
        }
      }
    }

    /** `wire` is what the device puts on the wire while the host clocks out `len` octets. */
    method Transfer(len: nat, wire: seq<byte>)
      requires Valid() && len <= BUFFER_SIZE && |wire| == len
      modifies tx, rx
      ensures tx[..] == Sent(old(tx[..]), len)
      ensures rx[..] == Received(wire)
    {
      hide Sent, Received;
      MirrorTx(len);
      for i := 0 to BUFFER_SIZE
        invariant tx[..] == Sent(old(tx[..]), len)
        invariant forall k :: 0 <= k < i ==> rx[k] == if k < len then wire[k] else 0
      {
        rx[i] := if i < len then wire[i] else 0;
      }
      assert rx[..len] == wire;
      MirrorRx(len);
    }
  }

  // ----- What the two sides make of it -----------------------------------------------------

  /** The device, which reads from the other end, sees the message the host meant. */
  lemma MessageArrives(tx: seq<byte>, len: nat)
    requires len <= |tx|
    ensures MirrorAll(Sent(tx, len)[..len]) == tx[..len]
  {
    hide Mirror;
    forall i | 0 <= i < len ensures MirrorAll(Sent(tx, len)[..len])[i] == tx[i] { MirrorTwice(tx[i]); }
  }

  /** An event that the device sends after its status octet is received as far as the exchange
      reaches, and what the device sends after the event is blanked out. */
  lemma EventArrives(status: byte, event: seq<byte>, rest: seq<byte>, len: nat)
    requires event != [] && OctetValue(event[0]) + 1 == |event|
    requires 2 <= len <= BUFFER_SIZE && len <= 1 + |event| + |rest|
    ensures var rx := Received(([status] + MirrorAll(event) + rest)[..len]);
            var n := if |event| < len then |event| else len - 1;
            && rx[0] == status && rx[1..1 + n] == event[..n]
            && forall i :: 1 + n <= i < BUFFER_SIZE ==> rx[i] == 0
  {
    hide Mirror, OctetValue;
    var wire := ([status] + MirrorAll(event) + rest)[..len];
    var n := if |event| < len then |event| else len - 1;
    MirrorTwice(event[0]);
    assert wire[1] == Mirror(event[0]);
    forall i | 1 <= i < 1 + n ensures Received(wire)[i] == event[i - 1] {
      MirrorTwice(event[i - 1]);
      assert wire[i] == Mirror(event[i - 1]);
    }
    assert Received(wire)[1..1 + n] == event[..n];
  }

  const EVENT_TRANSFER := 32

  /** The setup dialogue reads opcode and status at fixed places of the receive buffer. They
      are the device's as far as the event has them, and zero beyond its end. */
  lemma ReplyIsRead(status: byte, event: seq<byte>, rest: seq<byte>)
    requires event != [] && OctetValue(event[0]) + 1 == |event|
    requires 1 + |event| + |rest| >= EVENT_TRANSFER
    ensures var rx := Received(([status] + MirrorAll(event) + rest)[..EVENT_TRANSFER]);
            && rx[2] == (if |event| >= 2 then event[1] else 0)
            && rx[4] == (if |event| >= 4 then event[3] else 0)
  {
    hide Mirror, OctetValue, Received;
    EventArrives(status, event, rest, EVENT_TRANSFER);
    var rx := Received(([status] + MirrorAll(event) + rest)[..EVENT_TRANSFER]);
    var n := if |event| < EVENT_TRANSFER then |event| else EVENT_TRANSFER - 1;
    if |event| >= 2 { assert rx[2] == rx[1..1 + n][1] == event[..n][1]; }
    if |event| >= 4 { assert rx[4] == rx[1..1 + n][3] == event[..n][3]; }
  }

  lemma TwoIsTwo()
    ensures OctetValue(2) == 2
  {
  }

  /** A command response without a status is taken for one that reports success, which is zero,
      and makes the setup dialogue go on. */
  lemma MissingStatus(status: byte, cmd: byte, rest: seq<byte>)
    requires 4 + |rest| >= EVENT_TRANSFER
    ensures var rx := Received(([status] + MirrorAll([2, ACI_EVT_CMD_RSP, cmd]) + rest)[..EVENT_TRANSFER]);
            rx[4] == ACI_STATUS_SUCCESS && Encouraging(Reply(0, rx[2], rx[4]))
  {
    TwoIsTwo();
    ReplyIsRead(status, [2, ACI_EVT_CMD_RSP, cmd], rest);
  }

  /** The transmit buffer is not cleared between two exchanges: the second one mirrors what the
      first has mirrored already, so a message goes out again the wrong way round, followed by
      what lies behind it in the buffer. */
  lemma SecondExchange(tx: seq<byte>, len: nat, next: nat)
    requires len <= next <= |tx|
    ensures Sent(Sent(tx, len), next)[..next] == tx[..len] + MirrorAll(tx[len..next])
  {
    hide Mirror;
    var once := Sent(tx, len);
    forall i | 0 <= i < next ensures Sent(once, next)[i] == if i < len then tx[i] else Mirror(tx[i]) {
      if i < len { MirrorTwice(tx[i]); }
    }
  }
}
