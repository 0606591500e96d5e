/** The radio frames that carry the transfer: from a payload and a command through the
    transmit FIFO, over the air, and out of the receive FIFO again. */
module BeeCodec {
  import opened Bytes
  import opened Wrappers
  import opened BeeTransfer

  const HEADER_LENGTH := 11
  const DATA_LENGTH := 100
  const FIFO_SIZE := 128
  const TX_NORMAL_FIFO := 0
  const RX_FIFO := 0x300
  const RAM_SIZE := 1024

  // ----- Long addresses --------------------------------------------------------------------

  /** The two address bytes of a long access: seven bits, then three bits and the direction. */
  function AddressHigh(address: bv16): byte {
    (((address >> 3) & 0xFF) as byte & 0x7F) | 0x80
  }

  function AddressLow(address: bv16, write: bool): byte {
    (((address << 5) & 0xFF) as byte & 0xE0) | (if write then 0x10 else 0)
  }

  /** How the radio reads them. */
  function SelectedCell(high: byte, low: byte): bv16 {
    (((high & 0x7F) as bv16) << 3) | ((low >> 5) as bv16)
  }

  /** Every cell of the 10-bit space is reached, for reading and for writing, and the radio
      can tell the two apart. */
  lemma CellReached(address: bv16, write: bool)
    requires address < 1024
    ensures SelectedCell(AddressHigh(address), AddressLow(address, write)) == address
    ensures AddressHigh(address) & 0x80 == 0x80
    ensures (AddressLow(address, write) & 0x10 == 0x10) <==> write
  {
  }

  lemma WordUnique(a: bv16, n: nat)
    requires n < 0x1_0000 && a as int == n
    ensures n as bv16 == a
  {
  }

  lemma {:induction false} WordWithValue(n: nat) returns (a: bv16)
    requires n < RAM_SIZE
    ensures a as int == n && a < 1024
    decreases n
  {
    if n == 0 {
      a := 0;
    } else {
      a := WordWithValue(n - 1);
      a := a + 1;
    }
  }

  /** The number the two bytes select, for an address given as a number. */
  lemma CellNumber(address: nat, write: bool)
    requires address < RAM_SIZE
    ensures var a := address as bv16;
            SelectedCell(AddressHigh(a), AddressLow(a, write)) as int == address
  {
    var a := WordWithValue(address);
    WordUnique(a, address);
    CellReached(a, write);
  }

  class Radio {
    const ram: array<byte>

    ghost predicate Valid() { ram.Length == RAM_SIZE }

    constructor ()
      ensures Valid() && fresh(ram)
    {
      ram := new byte[RAM_SIZE](_ => 0);
    }

    method WriteLong(address: nat, data: byte)
      requires Valid() && address < RAM_SIZE
      modifies ram
      ensures ram[..] == old(ram[..])[address := data]
    {
      hide AddressHigh, AddressLow, SelectedCell;
      var a := address as bv16;
      CellNumber(address, true);
      ram[SelectedCell(AddressHigh(a), AddressLow(a, true)) as int] := data;
    }

    method ReadLong(address: nat) returns (data: byte)
      requires Valid() && address < RAM_SIZE
      ensures data == ram[address]
    {
      hide AddressHigh, AddressLow, SelectedCell;
      var a := address as bv16;
      CellNumber(address, false);
      data := ram[SelectedCell(AddressHigh(a), AddressLow(a, false)) as int];
    }
  }

  // ----- Frames ----------------------------------------------------------------------------

  /** The eight address bytes of the header: destination network and node, source network and
      node, in the order in which the program writes them. */
  type Addresses = a: seq<byte> | |a| == 8 witness [0, 0, 0, 0, 0, 0, 0, 0]

  /** What the transmit FIFO holds: header length, frame length, header, payload. */
  function TxFrame(cmd: byte, addresses: Addresses, payload: seq<byte>): (s: seq<byte>)
    requires |payload| <= DATA_LENGTH
    ensures |s| == HEADER_LENGTH + 2 + |payload|
  {
    [Octet(HEADER_LENGTH), Octet(HEADER_LENGTH + |payload|), 0x01, 0x88, cmd] + addresses + payload
  }

  /** What the receiving radio makes of it: the header length is dropped, the frame length
      grows by the two check bytes, and check bytes and signal figures follow. */
  predicate OnAir(tx: seq<byte>, rx: seq<byte>)
    requires |tx| >= 2
  {
    var length := OctetValue(tx[1]);
    && |tx| >= 2 + length && length + 2 < 256 && |rx| == FIFO_SIZE && length + 5 <= FIFO_SIZE
    && rx[0] == Octet(length + 2)
    && rx[1..1 + length] == tx[2..2 + length]
  }

  lemma TxFrameCells(cmd: byte, addresses: Addresses, payload: seq<byte>)
    requires |payload| <= DATA_LENGTH
    ensures var frame := TxFrame(cmd, addresses, payload);
            && |frame| == 13 + |payload| && frame[0] == Octet(11) && frame[1] == Octet(11 + |payload|)
            && frame[2] == 0x01 && frame[3] == 0x88 && frame[4] == cmd
            && (forall i {:trigger addresses[i]} :: 0 <= i < 8 ==> frame[5 + i] == addresses[i])
            && (forall i {:trigger payload[i]} :: 0 <= i < |payload| ==> frame[13 + i] == payload[i])
  {
    hide Octet;
  }

  /** Builds the frame in the static buffer. */
  method FillTxBuffer(data: array<byte>, cmd: byte, addresses: Addresses, payload: seq<byte>)
    requires data.Length == DATA_LENGTH + HEADER_LENGTH + 2 && |payload| <= DATA_LENGTH
    modifies data
    ensures data[..HEADER_LENGTH + 2 + |payload|] == TxFrame(cmd, addresses, payload)
  {
    hide Octet, TxFrame;
    ghost var frame := TxFrame(cmd, addresses, payload);
    TxFrameCells(cmd, addresses, payload);
    data[0] := Octet(HEADER_LENGTH);
    data[1] := Octet(HEADER_LENGTH + |payload|);
    data[2] := 0x01;
    data[3] := 0x88;
    data[4] := cmd;
    for i := 0 to 8
      invariant forall k :: 0 <= k < 5 + i ==> data[k] == frame[k]
    {
      data[5 + i] := addresses[i];
    }
    for i := 0 to |payload|
      invariant forall k :: 0 <= k < 13 + i ==> data[k] == frame[k]
    {
      data[13 + i] := payload[i];
    }
  }

  method WriteTxNormalFifo(radio: Radio, cmd: byte, addresses: Addresses, payload: seq<byte>)
    requires radio.Valid() && |payload| <= DATA_LENGTH
    modifies radio.ram
    ensures radio.ram[..HEADER_LENGTH + 2 + |payload|] == TxFrame(cmd, addresses, payload)
  {
    hide TxFrame;
    var data := new byte[DATA_LENGTH + HEADER_LENGTH + 2](_ => 0);
    FillTxBuffer(data, cmd, addresses, payload);
    ghost var frame := TxFrame(cmd, addresses, payload);
    for i := 0 to HEADER_LENGTH + |payload| + 2
      invariant data[..|frame|] == frame
      invariant radio.ram[..i] == frame[..i]
    {
      assert data[i] == data[..|frame|][i];
      radio.WriteLong(TX_NORMAL_FIFO + i, data[i]);
    }
  }

  /** What reading the receive FIFO leaves in the program's variables. */
  datatype Received = Received(payload: seq<byte>, seqNumber: byte, rxSize: nat)

  const MIN_FRAME := HEADER_LENGTH + 2
  const MAX_FRAME := HEADER_LENGTH + DATA_LENGTH + 2

  /** What the reader makes of a receive FIFO. A frame length that the static buffer has no
      room for, or that is shorter than header and check bytes, makes it write or copy past
      the end of its buffers: there is nothing to be said then. */
  function ReceivedFrom(rx: seq<byte>): (r: Option<Received>)
    requires |rx| == FIFO_SIZE
    ensures r.Some? <==> MIN_FRAME <= OctetValue(rx[0]) <= MAX_FRAME
  {
    var size := OctetValue(rx[0]);
    if size < MIN_FRAME || size > MAX_FRAME then None
    else Some(Received(rx[1 + HEADER_LENGTH..size - 1], rx[3], size))
  }

  /** Reads the whole FIFO. How much of it belongs to the frame is only known once the first
      cell has been read, which is also the first turn of the loop: its bound moves then. */
  method ReadRxFifo(radio: Radio) returns (r: Option<Received>)
    requires radio.Valid()
    ensures r == ReceivedFrom(radio.ram[RX_FIFO..RX_FIFO + FIFO_SIZE]) == ReceivedFrom(radio.ram[0x300..0x380])
  {
    hide Octet, OctetValue;
    var data := new byte[MAX_FRAME + 3](_ => 0);
    data[0] := Octet(MAX_FRAME);
    OctetRoundTrip(MAX_FRAME);
    ghost var rx := radio.ram[RX_FIFO..RX_FIFO + FIFO_SIZE];
    ghost var size := OctetValue(rx[0]);
    for i := 0 to FIFO_SIZE
      invariant OctetValue(data[0]) == if i == 0 then MAX_FRAME else size
      invariant i > data.Length ==> size <= MAX_FRAME
      invariant forall k :: 0 <= k < i && k < data.Length && (k == 0 || k < size + 3) ==> data[k] == rx[k]
    {
      if i < 1 + OctetValue(data[0]) + 1 + 1 {
        if i >= data.Length { return None; }
        var cell := radio.ReadLong(RX_FIFO + i);
        assert cell == rx[i];
        data[i] := cell;
      } else {
        var lostData := radio.ReadLong(RX_FIFO + i);
      }
    }
    var rxSize := OctetValue(data[0]);
    if rxSize < MIN_FRAME { return None; }
    var payload := data[HEADER_LENGTH + 1..HEADER_LENGTH + 1 + (rxSize - HEADER_LENGTH - 2)];
    assert payload == rx[1 + HEADER_LENGTH..size - 1];
    return Some(Received(payload, data[3], rxSize));
  }

  /** Payload, command and size survive the trip for every payload that fits. */
  lemma FrameRoundTrip(cmd: byte, addresses: Addresses, payload: seq<byte>, rx: seq<byte>)
    requires |payload| <= DATA_LENGTH && OnAir(TxFrame(cmd, addresses, payload), rx)
    ensures ReceivedFrom(rx) == Some(Received(payload, cmd, |payload| + HEADER_LENGTH + 2))
  {
    hide Octet, OctetValue;
    var tx := TxFrame(cmd, addresses, payload);
    var length := HEADER_LENGTH + |payload|;
    OctetRoundTrip(length);
    OctetRoundTrip(length + 2);
    assert rx[3] == rx[1..1 + length][2] == tx[2..2 + length][2] == tx[4];
    assert rx[12..1 + length] == rx[1..1 + length][11..] == tx[2..2 + length][11..] == tx[13..2 + length] == payload;
  }

  /** The received layout, cell by cell. */
  lemma OnAirCells(tx: seq<byte>, rx: seq<byte>)
    requires |tx| >= 2 && |tx| == 2 + OctetValue(tx[1]) && OctetValue(tx[1]) + 5 <= FIFO_SIZE == |rx|
    requires rx[0] == Octet(OctetValue(tx[1]) + 2)
    requires forall k {:trigger tx[k]} :: 2 <= k < |tx| ==> rx[k - 1] == tx[k]
    ensures OnAir(tx, rx)
  {
    hide Octet, OctetValue;
    var length := OctetValue(tx[1]);
    var x, y := rx[1..1 + length], tx[2..2 + length];
    forall k | 0 <= k < length ensures x[k] == y[k] {
      assert y[k] == tx[k + 2];
    }
    assert x == y;
  }

  /** Stands for the air: the receiver's FIFO gets the sender's frame, laid out anew. */
  method Carry(sender: Radio, receiver: Radio, ghost frame: seq<byte>)
    requires sender.Valid() && receiver.Valid() && sender != receiver && sender.ram != receiver.ram
    requires 2 <= |frame| <= FIFO_SIZE && sender.ram[..|frame|] == frame
    requires |frame| == 2 + OctetValue(frame[1]) && OctetValue(frame[1]) + 5 <= FIFO_SIZE
    modifies receiver.ram
    ensures OnAir(frame, receiver.ram[RX_FIFO..RX_FIFO + FIFO_SIZE])
  {
    hide Octet, OctetValue, OnAir;
    assert forall k {:trigger frame[k]} :: 0 <= k < |frame| ==> sender.ram[k] == frame[k];
    var length := OctetValue(sender.ram[1]);
    receiver.ram[RX_FIFO] := Octet(length + 2);
    for i := 2 to length + 2
      invariant receiver.ram[RX_FIFO] == Octet(length + 2)
      invariant forall k {:trigger frame[k]} :: 2 <= k < i ==> receiver.ram[RX_FIFO + k - 1] == frame[k]
    {
      receiver.ram[RX_FIFO + i - 1] := sender.ram[i];
    }
    ghost var rx := receiver.ram[RX_FIFO..RX_FIFO + FIFO_SIZE];
    assert forall k {:trigger frame[k]} :: 2 <= k < |frame| ==> rx[k - 1] == receiver.ram[RX_FIFO + k - 1];
    OnAirCells(frame, rx);
  }

  /** From one node to the other: whatever is sent is what is read. */
  method Exchange(sender: Radio, receiver: Radio, cmd: byte, addresses: Addresses, payload: seq<byte>) returns (r: Option<Received>)
    requires sender.Valid() && receiver.Valid() && sender != receiver && sender.ram != receiver.ram
    requires |payload| <= DATA_LENGTH
    modifies sender.ram, receiver.ram
    ensures r == Some(Received(payload, cmd, |payload| + HEADER_LENGTH + 2))
  {
    hide Octet, OctetValue, OnAir, ReceivedFrom;
    WriteTxNormalFifo(sender, cmd, addresses, payload);
    OctetRoundTrip(HEADER_LENGTH + |payload|);
    ghost var frame := TxFrame(cmd, addresses, payload);
    Carry(sender, receiver, frame);
    FrameRoundTrip(cmd, addresses, payload, receiver.ram[RX_FIFO..RX_FIFO + FIFO_SIZE]);
    r := ReadRxFifo(receiver);
  }

  // ----- Messages --------------------------------------------------------------------------

  const SEQ_DATA: byte := 0x0A
  const SEQ_REQ: byte := 0x0B
  const SEQ_INFO: byte := 0x0C
  const SEQ_START: byte := 0x0D
  const SEQ_END: byte := 0x0E

  function ReplyCommand(m: Reply): byte {
    match m case Info(_, _) => SEQ_INFO case Data(_) => SEQ_DATA case End(_) => SEQ_END
  }

  function ParseReply(cmd: byte, payload: seq<byte>): Option<Reply> {
    if cmd == SEQ_INFO && |payload| >= 5 && 5 + OctetValue(payload[4]) <= |payload| then
      Some(Info(FromLE(payload[..4]), payload[5..5 + OctetValue(payload[4])]))
    else if cmd == SEQ_DATA then Some(Data(payload))
    else if cmd == SEQ_END && |payload| >= 1 then Some(End(payload[0]))
    else None
  }

  /** What is left of a reply on its way: the name up to the length announced. */
  function AsAnnounced(m: Reply): Reply {
    if m.Info? then Info(m.size, Announced(m.name)) else m
  }

  /** Every reply that fits a frame arrives as the reply that was sent. */
  lemma ReplyRoundTrip(m: Reply, addresses: Addresses, rx: seq<byte>)
    requires m.Info? ==> m.size < 0x1_0000_0000
    requires |ReplyPayload(m)| <= DATA_LENGTH
    requires OnAir(TxFrame(ReplyCommand(m), addresses, ReplyPayload(m)), rx)
    ensures ReceivedFrom(rx).Some? && ParseReply(ReceivedFrom(rx).value.seqNumber, ReceivedFrom(rx).value.payload) == Some(AsAnnounced(m))
  {
    hide Octet, OctetValue, ToLE, FromLE, ReceivedFrom;
    var payload := ReplyPayload(m);
    FrameRoundTrip(ReplyCommand(m), addresses, payload, rx);
    if m.Info? {
      var name := Announced(m.name);
      OctetRoundTrip(|name|);
      assert Pow256(4) == 0x1_0000_0000;
      LERoundTrip(m.size, 4);
      assert payload[..4] == ToLE(m.size, 4) && payload[4] == Octet(|name|) && payload[5..5 + |name|] == name;
    }
  }

  function RequestCommand(m: Request): byte {
    match m case Req => SEQ_REQ case Start => SEQ_START
  }

  function ParseRequest(cmd: byte): Option<Request> {
    if cmd == SEQ_REQ then Some(Req) else if cmd == SEQ_START then Some(Start) else None
  }

  /** A request is its command; the one byte it carries says nothing. */
  lemma RequestRoundTrip(m: Request, spare: byte, addresses: Addresses, rx: seq<byte>)
    requires OnAir(TxFrame(RequestCommand(m), addresses, [spare]), rx)
    ensures ReceivedFrom(rx).Some? && ParseRequest(ReceivedFrom(rx).value.seqNumber) == Some(m)
  {
    hide ReceivedFrom, TxFrame, OnAir;
    FrameRoundTrip(RequestCommand(m), addresses, [spare], rx);
  }

  /** The messages in octets: the commands 0x0A to 0x0E, and an announcement of four octets of
      size, least significant first, one of length, and the name. */
  lemma MessageOctets(m: Reply)
    ensures RequestCommand(Req) == 0x0B && RequestCommand(Start) == 0x0D
    ensures ReplyCommand(m) == match m case Info(_, _) => 0x0C case Data(_) => 0x0A case End(_) => 0x0E
    ensures m.Info? && m.size < 0x1_0000_0000 && |m.name| < 256 ==>
              var s := ReplyPayload(m);
              && |s| == 5 + |m.name| && s[4] == Octet(|m.name|) && s[5..] == m.name
              && OctetValue(s[0]) + 0x100 * OctetValue(s[1]) + 0x1_0000 * OctetValue(s[2]) + 0x100_0000 * OctetValue(s[3]) == m.size
    ensures m.Data? ==> ReplyPayload(m) == m.payload
    ensures m.End? ==> ReplyPayload(m) == [m.filler]
  {
    hide Octet, OctetValue, FromLE, ToLE;
    if m.Info? && m.size < 0x1_0000_0000 && |m.name| < 256 {
      var size := ToLE(m.size, 4);
      assert Pow256(4) == 0x1_0000_0000;
      LERoundTrip(m.size, 4);
      assert size == [size[0], size[1], size[2], size[3]];
      FourOctetValue(size[0], size[1], size[2], size[3]);
      assert ReplyPayload(m)[..4] == size;
    }
  }

  // ----- Runs over the air -----------------------------------------------------------------

  /** The message in flight, as one node sends it and the air delivers it. */
  ghost predicate Flies(channel: Channel, spare: byte, addresses: Addresses, rx: seq<byte>)
    requires channel.Down? ==> |ReplyPayload(channel.reply)| <= DATA_LENGTH
  {
    match channel
    case Empty => false
    case Up(m) => OnAir(TxFrame(RequestCommand(m), addresses, [spare]), rx)
    case Down(m) => OnAir(TxFrame(ReplyCommand(m), addresses, ReplyPayload(m)), rx)
  }

  /** What the node it is meant for takes it for. */
  function Heard(channel: Channel, rx: seq<byte>): Channel
    requires |rx| == FIFO_SIZE
  {
    var r := ReceivedFrom(rx);
    if r == None || channel == Empty then Empty
    else if channel.Up? then
      match ParseRequest(r.value.seqNumber) case None => Empty case Some(m) => Up(m)
    else
      match ParseReply(r.value.seqNumber, r.value.payload) case None => Empty case Some(m) => Down(m)
  }

  lemma ReplyFits(advance: Advance, x: Job, events: seq<Event>)
    ensures var channel := Run(advance, StartOf(x), events).channel;
            channel.Down? ==> |ReplyPayload(channel.reply)| <= DATA_LENGTH && AsAnnounced(channel.reply) == channel.reply
                              && (channel.reply.Info? ==> channel.reply.size < 0x1_0000_0000)
  {
    hide Announced, LastFrame, Offset, FramesOf, Fits, ClientAt, Fresh;
    RunStaysAt(advance, x, events);
    var s := Run(advance, StartOf(x), events);
    if s.channel.Down? && s.channel.reply.Info? {
      AnnouncedOnce(x.name);
    } else if s.channel.Down? && s.channel.reply.Data? {
      OffsetFacts(|x.file|, |s.frames|);
    }
  }

  /** In every state of every run, the message in flight fits a frame, and for whatever bytes
      the air adds to it the other node hears exactly that message: the transfer over frames is
      the transfer over messages. */
  lemma MessageCrosses(advance: Advance, x: Job, events: seq<Event>, spare: byte, addresses: Addresses, rx: seq<byte>)
    ensures var channel := Run(advance, StartOf(x), events).channel;
            && (channel.Down? ==> |ReplyPayload(channel.reply)| <= DATA_LENGTH)
            && (Flies(channel, spare, addresses, rx) ==> |rx| == FIFO_SIZE && Heard(channel, rx) == channel)
  {
    hide Run, ReplyPayload, TxFrame, ReceivedFrom, ParseReply;
    ReplyFits(advance, x, events);
    var channel := Run(advance, StartOf(x), events).channel;
    if Flies(channel, spare, addresses, rx) {
      match channel
      case Up(m) => RequestRoundTrip(m, spare, addresses, rx);
      case Down(m) => ReplyRoundTrip(m, addresses, rx);
    }
  }
}
