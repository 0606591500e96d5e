/** The file transfer between two bee nodes: a client that asks and a server that answers,
    one message in flight at a time. */
module BeeTransfer {
  import opened Bytes
  import opened Wrappers

  const MAX_TX := 100
  const SPARE := 32
  const NAME_SIZE := 30
  const INT_WRAP := 0x8000_0000

  datatype Request = Req | Start

  // The last message carries one byte of filler.
  datatype Reply = Info(size: nat, name: seq<byte>) | Data(payload: seq<byte>) | End(filler: byte)

  /** What is announced of a name: its length is kept in one byte. */
  function Announced(name: seq<byte>): (s: seq<byte>)
    ensures |s| < 256 && (|name| < 256 ==> s == name)
  {
    name[..|name| % 256]
  }

  /** The bytes a reply carries: the size as four bytes and the name with its length, the file
      bytes, or the filler. */
  function ReplyPayload(m: Reply): seq<byte> {
    match m
    case Info(size, name) => ToLE(size, 4) + [Octet(|name| % 256)] + Announced(name)
    case Data(payload) => payload
    case End(filler) => [filler]
  }

  datatype Channel = Empty | Up(request: Request) | Down(reply: Reply)

  // ----- Server ----------------------------------------------------------------------------

  /** After a write outside an array or an allocated block, or a sum that the program's integers
      cannot hold, nothing is known: that is `Overrun`. */
  datatype Status = Running | Saved | GaveUp | Overrun

  datatype Server = Server(file: seq<byte>, name: seq<byte>, filler: byte, sendSize: nat, status: Status)

  /** A block for this many bytes can be asked for. */
  predicate CanAllocate(size: nat) { size + SPARE < INT_WRAP }

  /** A server that has read its arguments and its file. The name is copied as it stands, without
      a terminator. */
  function ServerOf(file: seq<byte>, name: seq<byte>, filler: byte): Server {
    Server(file, Announced(name), filler, 0,
           if |Announced(name)| <= NAME_SIZE && CanAllocate(|file|) then Running else Overrun)
  }

  function Min(a: nat, b: nat): nat { if a < b then a else b }

  function ServerStep(s: Server, m: Request): (Server, Option<Reply>) {
    if s.status == Overrun then (s, None) else
    match m
    case Req => (s.(sendSize := 0), Some(Info(|s.file|, s.name)))
    case Start =>
      if s.sendSize < |s.file| then
        var end := s.sendSize + Min(|s.file| - s.sendSize, MAX_TX);
        (s.(sendSize := end), Some(Data(s.file[s.sendSize..end])))
      else (s.(sendSize := 0), Some(End(s.filler)))
  }

  // ----- Client ----------------------------------------------------------------------------

  /** How far the write cursor moves after a data frame: by everything received so far, as
      the program has it, or by the frame just received, as the protocol needs it. */
  datatype Advance = Cumulative | PerFrame

  /** Files by name; a byte that was never written is none. */
  type Disk = map<seq<byte>, seq<Option<byte>>>

  /** `block` is the size of the file buffer and `buffer` holds those of its cells that have
      been written. Before the size is known there is no file buffer and what arrives goes to
      a scratch area. */
  datatype Client = Client(fileSize: nat, recvSize: nat, fileName: seq<byte>, block: nat, cursor: Option<nat>,
                           buffer: map<nat, byte>, tries: nat, status: Status, disk: Disk)

  function Fresh(disk: Disk): Client { Client(0, 0, [], 0, None, map[], 0, Running, disk) }

  function Store(buffer: map<nat, byte>, at: nat, bytes: seq<byte>): (b: map<nat, byte>)
    ensures forall x :: x in b <==> x in buffer || at <= x < at + |bytes|
    ensures forall x :: x in b ==> b[x] == if at <= x < at + |bytes| then bytes[x - at] else buffer[x]
    decreases |bytes|
  {
    if bytes == [] then buffer
    else
      var n := |bytes| - 1;
      Store(buffer, at, bytes[..n])[at + n := bytes[n]]
  }

  /** Every payload lands at the cursor, or in the scratch area, before anybody looks at the
      message type. */
  function Receive(c: Client, payload: seq<byte>): Client {
    if c.cursor == None then
      if |payload| > MAX_TX then c.(status := Overrun) else c
    else if payload == [] then c
    else if c.cursor.value + |payload| > c.block then c.(status := Overrun)
    else c.(buffer := Store(c.buffer, c.cursor.value, payload))
  }

  /** The first `n` cells of the buffer. */
  function Cells(buffer: map<nat, byte>, n: nat): (s: seq<Option<byte>>)
    ensures |s| == n && forall i :: 0 <= i < n ==> s[i] == if i in buffer then Some(buffer[i]) else None
  {
    seq(n, i requires 0 <= i < n => if i in buffer then Some(buffer[i]) else None)
  }

  /** The file of this name begins with what is written; an old file is not cut off first. */
  function SaveTo(disk: Disk, name: seq<byte>, content: seq<Option<byte>>): Disk {
    disk[name := content + if name in disk && |disk[name]| > |content| then disk[name][|content|..] else []]
  }

  /** Where a payload may go, and that it changes nothing else. */
  lemma ReceiveExact(c: Client, payload: seq<byte>)
    requires c.status == Running
    ensures Receive(c, payload).status == Overrun <==>
              if c.cursor == None then |payload| > 100 else payload != [] && c.cursor.value + |payload| > c.block
    ensures Receive(c, payload).status != Overrun ==>
              var after, at := Receive(c, payload).buffer, if c.cursor == None then c.block else c.cursor.value;
              && Receive(c, payload) == c.(buffer := after) && (c.cursor == None ==> after == c.buffer)
              && (c.cursor.Some? ==>
                    && (forall x :: x in after <==> x in c.buffer || at <= x < at + |payload|)
                    && forall x :: x in after ==> after[x] == if at <= x < at + |payload| then payload[x - at] else c.buffer[x])
  {
  }

  function ClientStep(advance: Advance, c: Client, m: Reply): (Client, Option<Request>) {
    var r := Receive(c, ReplyPayload(m));
    if r.status == Overrun then (r, None) else
    match m
    case Info(size, name) =>
      if |Announced(name)| >= NAME_SIZE || !CanAllocate(size) then (r.(status := Overrun), None)
      else (r.(fileSize := size, recvSize := 0, fileName := Announced(name), block := size + SPARE,
               cursor := Some(0), buffer := map[]), Some(Start))
    case Data(payload) =>
      var received := c.recvSize + |payload|;
      var moved := if advance.Cumulative? then received else |payload|;
      (r.(recvSize := received, cursor := if r.cursor == None then None else Some(r.cursor.value + moved)), Some(Start))
    case End(filler) =>
      if c.fileSize == c.recvSize then
        (r.(cursor := None, status := Saved, disk := SaveTo(r.disk, r.fileName, Cells(r.buffer, r.fileSize))), None)
      else if c.tries + 1 > 3 then (r.(tries := c.tries + 1), Some(Req))
      else (r.(tries := c.tries + 1, status := GaveUp), None)
  }

  /** The first `fileSize` cells of the buffer are what is saved; that is `file` only if each of
      them was written, with the right byte. */
  predicate Holds(c: Client, file: seq<byte>) {
    c.fileSize == |file| && forall i :: 0 <= i < |file| ==> i in c.buffer && c.buffer[i] == file[i]
  }

  // ----- The two together --------------------------------------------------------------------

  /** `frames` records the data frames the client has taken, in order; `sent` counts messages. */
  datatype System = System(server: Server, client: Client, channel: Channel, frames: seq<seq<byte>>, sent: nat)

  datatype Event = Deliver | Drop

  /** What is to be transferred: the file, the name it has without its path, the filler byte, how
      far the server got with an earlier client, and what this client has on disk before. */
  datatype Job = Job(file: seq<byte>, name: seq<byte>, filler: byte, left: nat, disk: Disk)

  /** The client has asked. A server that has overrun is past answering, and the transfer over
      before it has begun. */
  function StartOf(x: Job): System {
    var server := ServerOf(x.file, x.name, x.filler).(sendSize := x.left);
    if server.status == Overrun then System(server, Fresh(x.disk), Empty, [], 0)
    else System(server, Fresh(x.disk), Up(Req), [], 1)
  }

  function Next(advance: Advance, s: System, e: Event): System
    requires s.channel != Empty
  {
    if e == Drop then s.(channel := Empty) else
    match s.channel
    case Up(m) =>
      var (server, reply) := ServerStep(s.server, m);
      s.(server := server,
         channel := if reply == None then Empty else Down(reply.value),
         sent := if reply == None then s.sent else s.sent + 1)
    case Down(m) =>
      var (client, request) := ClientStep(advance, s.client, m);
      s.(client := client,
         channel := if request == None then Empty else Up(request.value),
         frames := if m.Data? && client.status != Overrun then s.frames + [m.payload] else s.frames,
         sent := if request == None then s.sent else s.sent + 1)
  }

  /** The system after a run of events; it stays put once nothing is in flight. */
  function Run(advance: Advance, start: System, events: seq<Event>): System
    decreases |events|
  {
    if events == [] then start else
    var s := Run(advance, start, events[..|events| - 1]);
    if s.channel == Empty then s else Next(advance, s, events[|events| - 1])
  }

  // ----- What has arrived after k frames -------------------------------------------------------

  function FramesOf(size: nat): nat { (size + MAX_TX - 1) / MAX_TX }

  function Offset(size: nat, k: nat): nat { Min(MAX_TX * k, size) }

  function Chunk(file: seq<byte>, k: nat): (s: seq<byte>)
    ensures |s| == Offset(|file|, k + 1) - Offset(|file|, k)
  {
    file[Offset(|file|, k)..Offset(|file|, k + 1)]
  }

  function Chunks(file: seq<byte>, k: nat): (s: seq<seq<byte>>)
    ensures |s| == k && forall i :: 0 <= i < k ==> s[i] == Chunk(file, i)
  {
    seq(k, i requires 0 <= i < k => Chunk(file, i))
  }

  function Cursor(advance: Advance, size: nat, k: nat): nat
    decreases k
  {
    if k == 0 then 0
    else Cursor(advance, size, k - 1)
         + if advance.Cumulative? then Offset(size, k) else Offset(size, k) - Offset(size, k - 1)
  }

  function Layout(advance: Advance, file: seq<byte>, k: nat): map<nat, byte>
    decreases k
  {
    if k == 0 then map[]
    else Store(Layout(advance, file, k - 1), Cursor(advance, |file|, k - 1), Chunk(file, k - 1))
  }

  /** The bytes that arrive once `k` frames have been taken: the next frame, or the filler. */
  function Arriving(size: nat, k: nat): nat {
    if k < FramesOf(size) then Min(size - Offset(size, k), MAX_TX) else 1
  }

  /** They stay inside the block. */
  predicate Fits(advance: Advance, size: nat, k: nat) {
    Cursor(advance, size, k) + Arriving(size, k) <= size + SPARE
  }

  /** The server has room for the name and the file. */
  predicate Serves(x: Job) { |Announced(x.name)| <= NAME_SIZE && CanAllocate(|x.file|) }

  /** The client has room for the name and its terminator. */
  predicate NameFits(x: Job) { |Announced(x.name)| < NAME_SIZE }

  /** The client after `k` data frames of this file. */
  function ClientAt(advance: Advance, x: Job, k: nat): Client {
    Client(|x.file|, Offset(|x.file|, k), Announced(x.name), |x.file| + SPARE, Some(Cursor(advance, |x.file|, k)),
           Layout(advance, x.file, k), 0, Running, x.disk)
  }

  /** What the client has in its buffer at the end. */
  function LastLayout(advance: Advance, file: seq<byte>, filler: byte): map<nat, byte> {
    Store(Layout(advance, file, FramesOf(|file|)), Cursor(advance, |file|, FramesOf(|file|)), [filler])
  }

  /** The client once the end message has been taken. */
  function ClientDone(advance: Advance, x: Job): Client {
    var buffer := LastLayout(advance, x.file, x.filler);
    Client(|x.file|, |x.file|, Announced(x.name), |x.file| + SPARE, None, buffer, 0, Saved,
           SaveTo(x.disk, Announced(x.name), Cells(buffer, |x.file|)))
  }

  /** How many frames are taken before the transfer is over: all of them, or as many as come
      before the first write outside the block. */
  function LastFrame(advance: Advance, size: nat, from: nat): (k: nat)
    ensures from <= FramesOf(size) ==> from <= k <= FramesOf(size)
    ensures forall j :: from <= j < k ==> Fits(advance, size, j)
    ensures k < FramesOf(size) ==> !Fits(advance, size, k)
    decreases FramesOf(size) - from
  {
    if from >= FramesOf(size) || !Fits(advance, size, from) then from else LastFrame(advance, size, from + 1)
  }

  /** Where a run can be. `sent` is the number of messages that gets it there. */
  predicate At(advance: Advance, x: Job, s: System) {
    var k := |s.frames|;
    if !Serves(x) then s == StartOf(x) else
    && s.server == ServerOf(x.file, x.name, x.filler).(sendSize := s.server.sendSize)
    && s.frames == Chunks(x.file, k) && k <= LastFrame(advance, |x.file|, 0)
    && match s.channel
       case Up(Req) => s.client == Fresh(x.disk) && k == 0 && s.sent == 1
       case Down(Info(size, n)) =>
         s.client == Fresh(x.disk) && k == 0 && size == |x.file| && n == Announced(x.name) && s.server.sendSize == 0 && s.sent == 2
       case Up(Start) =>
         NameFits(x) && s.client == ClientAt(advance, x, k) && s.server.sendSize == s.client.recvSize && s.sent == 2 * k + 3
       case Down(Data(p)) =>
         NameFits(x) && s.client == ClientAt(advance, x, k) && k < FramesOf(|x.file|) && p == Chunk(x.file, k)
         && s.server.sendSize == s.client.recvSize + |p| && s.sent == 2 * k + 4
       case Down(End(f)) =>
         NameFits(x) && s.client == ClientAt(advance, x, k) && k == FramesOf(|x.file|) && f == x.filler && s.server.sendSize == 0 && s.sent == 2 * k + 4
       case Empty =>
         match s.client.status
         case Saved =>
           NameFits(x) && s.client == ClientDone(advance, x) && k == FramesOf(|x.file|) && s.sent == 2 * k + 4
           && Fits(advance, |x.file|, k)
         case Overrun =>
           if NameFits(x) then
             s.client == ClientAt(advance, x, k).(status := Overrun) && k == LastFrame(advance, |x.file|, 0)
             && s.sent == 2 * k + 4 && !Fits(advance, |x.file|, k)
           else s.client == Fresh(x.disk).(status := Overrun) && k == 0 && s.sent == 2
         case _ => (s.client == Fresh(x.disk) && k == 0) || s.client == ClientAt(advance, x, k)
  }

  lemma OffsetFacts(size: nat, k: nat)
    ensures Offset(size, k) < size <==> k < FramesOf(size)
    ensures Offset(size, k + 1) == Offset(size, k) + Min(size - Offset(size, k), MAX_TX)
    ensures Offset(size, 0) == 0 && Offset(size, k) <= size
    ensures k < FramesOf(size) ==> Arriving(size, k) == Offset(size, k + 1) - Offset(size, k) > 0
  {
  }

  lemma DeliverStart(advance: Advance, x: Job, s: System)
    requires At(advance, x, s) && s.channel == Up(Start)
    ensures At(advance, x, Next(advance, s, Deliver))
  {
    hide FramesOf, Offset, Min, Store, Cursor, Layout, Chunks, LastFrame, Fits, Arriving, LastLayout;
    var k := |s.frames|;
    OffsetFacts(|x.file|, k);
    if k < FramesOf(|x.file|) {
      assert ServerStep(s.server, Start) == (s.server.(sendSize := Offset(|x.file|, k + 1)), Some(Data(Chunk(x.file, k))));
    } else {
      assert ServerStep(s.server, Start) == (s.server.(sendSize := 0), Some(End(x.filler)));
    }
  }

  /** Taking one more frame, if it fits, brings the client from one place to the next. */
  lemma TakeFrame(advance: Advance, x: Job, k: nat)
    requires k < FramesOf(|x.file|)
    ensures ClientStep(advance, ClientAt(advance, x, k), Data(Chunk(x.file, k)))
         == if Fits(advance, |x.file|, k) then (ClientAt(advance, x, k + 1), Some(Start))
            else (ClientAt(advance, x, k).(status := Overrun), None)
  {
    hide FramesOf, Offset, Min, Store, Arriving;
    OffsetFacts(|x.file|, k);
  }

  lemma OneMoreFrame(advance: Advance, size: nat, k: nat)
    requires k <= LastFrame(advance, size, 0) && k < FramesOf(size)
    ensures if Fits(advance, size, k) then k + 1 <= LastFrame(advance, size, 0) else k == LastFrame(advance, size, 0)
  {
    hide Fits, FramesOf;
  }

  lemma DeliverData(advance: Advance, x: Job, s: System)
    requires At(advance, x, s) && s.channel.Down? && s.channel.reply.Data?
    ensures At(advance, x, Next(advance, s, Deliver))
  {
    hide FramesOf, Offset, Min, Store, Chunk, Cursor, Layout, LastFrame, Fits, Arriving, ClientStep, LastLayout;
    var k := |s.frames|;
    assert Chunks(x.file, k + 1) == Chunks(x.file, k) + [Chunk(x.file, k)];
    TakeFrame(advance, x, k);
    OneMoreFrame(advance, |x.file|, k);
    OffsetFacts(|x.file|, k);
  }

  /** Taking the end message, if the filler fits, saves the file under the announced name. */
  lemma TakeEnd(advance: Advance, x: Job)
    ensures ClientStep(advance, ClientAt(advance, x, FramesOf(|x.file|)), End(x.filler))
         == if Fits(advance, |x.file|, FramesOf(|x.file|)) then (ClientDone(advance, x), None)
            else (ClientAt(advance, x, FramesOf(|x.file|)).(status := Overrun), None)
  {
    hide FramesOf, Offset, Min, Store, Cursor, Layout, SaveTo, Cells;
    OffsetFacts(|x.file|, FramesOf(|x.file|));
  }

  lemma DeliverEnd(advance: Advance, x: Job, s: System)
    requires At(advance, x, s) && s.channel.Down? && s.channel.reply.End?
    ensures At(advance, x, Next(advance, s, Deliver))
    ensures Next(advance, s, Deliver).channel == Empty && Next(advance, s, Deliver).client.status in {Saved, Overrun}
  {
    hide FramesOf, Offset, Min, Store, Chunk, Chunks, Cursor, Layout, LastFrame, Fits, Arriving, ClientStep, LastLayout, SaveTo, Cells;
    TakeEnd(advance, x);
  }

  lemma InfoFitsScratch(x: Job, size: nat)
    requires |Announced(x.name)| <= NAME_SIZE
    ensures |ReplyPayload(Info(size, Announced(x.name)))| <= MAX_TX
  {
  }

  lemma AnnouncedOnce(name: seq<byte>)
    ensures Announced(Announced(name)) == Announced(name)
  {
  }

  /** Taking the announcement: the client sets itself up, or has no room for the name. */
  lemma TakeInfo(advance: Advance, x: Job)
    requires Serves(x)
    ensures ClientStep(advance, Fresh(x.disk), Info(|x.file|, Announced(x.name)))
         == if NameFits(x) then (ClientAt(advance, x, 0), Some(Start)) else (Fresh(x.disk).(status := Overrun), None)
  {
    hide FramesOf, Chunk, LastFrame, ReplyPayload, Announced;
    InfoFitsScratch(x, |x.file|);
    AnnouncedOnce(x.name);
    OffsetFacts(|x.file|, 0);
  }

  lemma DeliverInfo(advance: Advance, x: Job, s: System)
    requires At(advance, x, s) && s.channel.Down? && s.channel.reply.Info?
    ensures At(advance, x, Next(advance, s, Deliver))
    ensures !NameFits(x) ==> Next(advance, s, Deliver).channel == Empty && Next(advance, s, Deliver).client.status == Overrun
  {
    hide FramesOf, Min, Store, Chunk, LastFrame, ClientStep, Announced, LastLayout, Cursor, Layout, Fits;
    TakeInfo(advance, x);
    OffsetFacts(|x.file|, 0);
  }

  lemma DeliverReq(advance: Advance, x: Job, s: System)
    requires At(advance, x, s) && s.channel == Up(Req)
    ensures At(advance, x, Next(advance, s, Deliver))
  {
    hide FramesOf, Offset, Min, Store, Chunk, LastFrame, Announced, LastLayout, Cursor, Layout, Fits;
  }

  lemma DeliverKeepsAt(advance: Advance, x: Job, s: System)
    requires At(advance, x, s) && s.channel != Empty
    ensures At(advance, x, Next(advance, s, Deliver))
  {
    hide At, Next;
    match s.channel
    case Up(Req) => DeliverReq(advance, x, s);
    case Up(Start) => DeliverStart(advance, x, s);
    case Down(Info(_, _)) => DeliverInfo(advance, x, s);
    case Down(Data(_)) => DeliverData(advance, x, s);
    case Down(End(_)) => DeliverEnd(advance, x, s);
  }

  lemma StartIsAt(advance: Advance, x: Job)
    ensures At(advance, x, StartOf(x))
  {
    hide Fits, FramesOf;
  }

  lemma DropKeepsAt(advance: Advance, x: Job, s: System)
    requires At(advance, x, s) && s.channel != Empty
    ensures At(advance, x, Next(advance, s, Drop)) && Next(advance, s, Drop).channel == Empty
    ensures Next(advance, s, Drop).client.status == Running
  {
    hide FramesOf, Chunks, Layout, Cursor, Offset, LastFrame, Announced, LastLayout, Fits;
  }

  /** Every state of every run, whatever is lost on the way, is one of the expected ones. */
  lemma {:induction false} RunStaysAt(advance: Advance, x: Job, events: seq<Event>)
    ensures At(advance, x, Run(advance, StartOf(x), events))
    decreases |events|
  {
    hide At;
    if events == [] {
      StartIsAt(advance, x);
    } else {
      var before, e := events[..|events| - 1], events[|events| - 1];
      RunStaysAt(advance, x, before);
      var s := Run(advance, StartOf(x), before);
      if s.channel != Empty {
        if e == Deliver { DeliverKeepsAt(advance, x, s); } else { DropKeepsAt(advance, x, s); }
      }
    }
  }

  // ----- The write cursor and the block ----------------------------------------------------------

  lemma {:induction false} PerFrameCursor(size: nat, k: nat)
    ensures Cursor(PerFrame, size, k) == Offset(size, k)
    decreases k
  {
    if k > 0 { PerFrameCursor(size, k - 1); }
  }

  /** After `k` full frames the program's cursor is at 50 k (k + 1), not at 100 k. */
  lemma {:induction false} CumulativeCursor(size: nat, k: nat)
    requires MAX_TX * k <= size
    ensures Cursor(Cumulative, size, k) == 50 * k * (k + 1)
    decreases k
  {
    if k > 0 {
      CumulativeCursor(size, k - 1);
      assert 50 * k * (k + 1) == 50 * (k - 1) * k + 100 * k;
    }
  }

  /** A cursor that moves by the frame never leaves the block. */
  lemma PerFrameFits(size: nat, k: nat)
    requires k <= FramesOf(size)
    ensures Fits(PerFrame, size, k)
  {
    hide FramesOf, Offset, Cursor, Min;
    PerFrameCursor(size, k);
    OffsetFacts(size, k);
    OffsetFacts(size, k + 1);
  }

  lemma {:induction false} CursorIsFar(size: nat, k: nat)
    requires size > MAX_TX && k >= 2
    ensures Cursor(Cumulative, size, k) >= MAX_TX + Offset(size, k)
    decreases k
  {
    if k == 2 {
      assert Cursor(Cumulative, size, 1) == MAX_TX;
    } else {
      CursorIsFar(size, k - 1);
    }
  }

  lemma FewFrames(size: nat)
    ensures size <= MAX_TX <==> FramesOf(size) <= 1
    ensures size == 0 <==> FramesOf(size) == 0
  {
  }

  lemma OneFrameFits(size: nat, k: nat)
    requires size <= MAX_TX && k <= FramesOf(size)
    ensures Fits(Cumulative, size, k)
  {
    FewFrames(size);
    assert Cursor(Cumulative, size, 0) == 0;
    if k == 1 { assert Cursor(Cumulative, size, 1) == size; }
  }

  /** At the latest the filler of the end message leaves the block. */
  lemma FillerOverruns(size: nat)
    requires size > MAX_TX
    ensures !Fits(Cumulative, size, FramesOf(size))
  {
    hide FramesOf, Offset, Cursor;
    var k := FramesOf(size);
    FewFrames(size);
    CursorIsFar(size, k);
    OffsetFacts(size, k);
  }

  /** Nothing is written outside the block if and only if the cursor moves by the frame or the
      file fits in one frame. */
  lemma BlockExact(advance: Advance, size: nat)
    ensures LastFrame(advance, size, 0) == FramesOf(size) && Fits(advance, size, FramesOf(size))
            <==> advance == PerFrame || size <= MAX_TX
    ensures !Fits(advance, size, LastFrame(advance, size, 0)) <==> advance == Cumulative && size > MAX_TX
  {
    hide FramesOf, Fits;
    var last := LastFrame(advance, size, 0);
    if advance == PerFrame {
      PerFrameFits(size, last);
    } else if size <= MAX_TX {
      OneFrameFits(size, last);
    } else {
      FillerOverruns(size);
    }
  }

  // ----- What has been written -------------------------------------------------------------------

  predicate Covers(file: seq<byte>, upTo: nat, buffer: map<nat, byte>) {
    upTo <= |file| && forall i :: 0 <= i < upTo ==> i in buffer && buffer[i] == file[i]
  }

  lemma StoreExtends(file: seq<byte>, at: nat, bytes: seq<byte>, buffer: map<nat, byte>)
    requires Covers(file, at, buffer) && at + |bytes| <= |file| && bytes == file[at..at + |bytes|]
    ensures Covers(file, at + |bytes|, Store(buffer, at, bytes))
  {
    hide Store;
  }

  lemma NothingToCover(file: seq<byte>)
    ensures Covers(file, 0, map[])
  {
  }

  lemma ChunkIs(file: seq<byte>, k: nat)
    ensures var at, n := Offset(|file|, k), |Chunk(file, k)|;
            at + n == Offset(|file|, k + 1) && Chunk(file, k) == file[at..at + n]
  {
  }

  /** As long as the cursor keeps step with what has been received, nothing is missing. */
  lemma {:induction false} AlignedLayout(advance: Advance, file: seq<byte>, k: nat)
    requires forall j :: 0 <= j < k ==> Cursor(advance, |file|, j) == Offset(|file|, j)
    ensures Covers(file, Offset(|file|, k), Layout(advance, file, k))
    decreases k
  {
    hide Covers, Store, Cursor, FramesOf, Offset, Min, Chunk;
    OffsetFacts(|file|, 0);
    if k > 0 {
      ghost var at, bytes := Offset(|file|, k - 1), Chunk(file, k - 1);
      AlignedLayout(advance, file, k - 1);
      assert Cursor(advance, |file|, k - 1) == at;
      OffsetFacts(|file|, k);
      assert bytes == file[at..at + |bytes|] && at + |bytes| == Offset(|file|, k) by { ChunkIs(file, k - 1); }
      StoreExtends(file, at, bytes, Layout(advance, file, k - 1));
    } else {
      assert Covers(file, 0, map[]) by { NothingToCover(file); }
    }
  }

  /** A client that keeps step all the way ends up with the file. */
  lemma AlignedHolds(advance: Advance, file: seq<byte>, filler: byte)
    requires forall j :: 0 <= j < FramesOf(|file|) ==> Cursor(advance, |file|, j) == Offset(|file|, j)
    requires Cursor(advance, |file|, FramesOf(|file|)) >= |file|
    ensures Covers(file, |file|, LastLayout(advance, file, filler))
  {
    hide FramesOf, Offset, Cursor, Layout, Store;
    AlignedLayout(advance, file, FramesOf(|file|));
    OffsetFacts(|file|, FramesOf(|file|));
  }

  /** With a cursor that moves by the frame, the client ends up with the file, whatever its
      size, and never writes outside its block. */
  lemma PerFrameHolds(file: seq<byte>, filler: byte)
    ensures Covers(file, |file|, LastLayout(PerFrame, file, filler))
    ensures forall k :: 0 <= k <= FramesOf(|file|) ==> Fits(PerFrame, |file|, k)
  {
    hide FramesOf, Offset, Cursor, Fits, Covers, LastLayout;
    var n := FramesOf(|file|);
    forall j | 0 <= j <= n ensures Cursor(PerFrame, |file|, j) == Offset(|file|, j) && Fits(PerFrame, |file|, j) {
      PerFrameCursor(|file|, j);
      PerFrameFits(|file|, j);
    }
    OffsetFacts(|file|, n);
    AlignedHolds(PerFrame, file, filler);
  }

  lemma OneFrameCursor(size: nat)
    requires size <= MAX_TX
    ensures Cursor(Cumulative, size, FramesOf(size)) == size
    ensures forall j :: 0 <= j < FramesOf(size) ==> Cursor(Cumulative, size, j) == Offset(size, j)
  {
    FewFrames(size);
    assert Cursor(Cumulative, size, 0) == 0 && Cursor(Cumulative, size, 1) == size;
  }

  /** With the program's cursor, which moves by everything received so far, the client ends up
      with the file inside its block if and only if the file fits in one frame. */
  lemma CumulativeHolds(file: seq<byte>, filler: byte)
    ensures Covers(file, |file|, LastLayout(Cumulative, file, filler))
            && (forall k :: 0 <= k <= FramesOf(|file|) ==> Fits(Cumulative, |file|, k))
            <==> |file| <= MAX_TX
  {
    hide FramesOf, Offset, Cursor, Fits, Covers, LastLayout;
    var n := FramesOf(|file|);
    if |file| <= MAX_TX {
      forall k | 0 <= k <= n ensures Fits(Cumulative, |file|, k) { OneFrameFits(|file|, k); }
      OneFrameCursor(|file|);
      AlignedHolds(Cumulative, file, filler);
    } else {
      FillerOverruns(|file|);
    }
  }

  // ----- The block aside -------------------------------------------------------------------------

  /** Past two frames the cumulative cursor has jumped over cell 200 for good. */
  lemma {:induction false} CursorJumps(size: nat, k: nat)
    requires size > 2 * MAX_TX && k >= 2
    ensures Cursor(Cumulative, size, k) >= 300
    decreases k
  {
    if k == 2 {
      assert Cursor(Cumulative, size, 1) == 100;
    } else {
      CursorJumps(size, k - 1);
    }
  }

  lemma {:induction false} Cell200Unwritten(file: seq<byte>, k: nat)
    requires |file| > 2 * MAX_TX
    ensures 200 !in Layout(Cumulative, file, k)
    decreases k
  {
    if k > 0 {
      Cell200Unwritten(file, k - 1);
      if k - 1 >= 2 {
        CursorJumps(|file|, k - 1);
      } else {
        assert Cursor(Cumulative, |file|, 0) == 0 && Cursor(Cumulative, |file|, 1) == 100;
      }
    }
  }

  lemma TwoFrameCursor(size: nat)
    requires size <= 2 * MAX_TX
    ensures Cursor(Cumulative, size, FramesOf(size)) >= size
    ensures forall j :: 0 <= j < FramesOf(size) ==> Cursor(Cumulative, size, j) == Offset(size, j)
  {
    assert Cursor(Cumulative, size, 0) == 0;
    assert Cursor(Cumulative, size, 1) == Offset(size, 1);
    OffsetFacts(size, FramesOf(size));
  }

  lemma ManyFrames(size: nat)
    requires size > 2 * MAX_TX
    ensures FramesOf(size) >= 3
  {
  }

  /** Even in a block without an end, the program's cursor would leave gaps in every file of
      more than two frames, and in no other. */
  lemma GapsExact(file: seq<byte>, filler: byte)
    ensures Covers(file, |file|, LastLayout(Cumulative, file, filler)) <==> |file| <= 2 * MAX_TX
  {
    hide FramesOf, Offset, Cursor, Layout, Store;
    if |file| <= 2 * MAX_TX {
      TwoFrameCursor(|file|);
      AlignedHolds(Cumulative, file, filler);
    } else {
      ManyFrames(|file|);
      Cell200Unwritten(file, FramesOf(|file|));
      CursorJumps(|file|, FramesOf(|file|));
    }
  }

  // ----- Main results --------------------------------------------------------------------------

  function Concat(s: seq<seq<byte>>): seq<byte>
    decreases |s|
  {
    if s == [] then [] else Concat(s[..|s| - 1]) + s[|s| - 1]
  }

  /** The chunks put together are the file. */
  lemma {:induction false} ChunksMakeFile(file: seq<byte>, k: nat)
    ensures Offset(|file|, k) <= |file| && Concat(Chunks(file, k)) == file[..Offset(|file|, k)]
    decreases k
  {
    if k > 0 {
      ChunksMakeFile(file, k - 1);
      assert Chunks(file, k)[..k - 1] == Chunks(file, k - 1);
    }
  }

  lemma AllChunks(file: seq<byte>)
    ensures Concat(Chunks(file, FramesOf(|file|))) == file
  {
    ChunksMakeFile(file, FramesOf(|file|));
    OffsetFacts(|file|, FramesOf(|file|));
    assert file[..|file|] == file;
  }

  function Deliveries(n: nat): (es: seq<Event>)
    ensures |es| == n
  {
    seq(n, _ => Deliver)
  }

  /** The messages of a transfer that nothing is lost of. */
  function MessagesOf(advance: Advance, x: Job): nat {
    if !Serves(x) then 0 else if !NameFits(x) then 2 else 2 * LastFrame(advance, |x.file|, 0) + 4
  }

  /** The transfer has come to its end, good or bad. */
  predicate Over(s: System) { s.client.status == Saved || s.client.status == Overrun || s.server.status == Overrun }

  lemma MessagesSoFar(advance: Advance, x: Job, s: System)
    requires At(advance, x, s)
    ensures s.channel != Empty ==> 0 < s.sent <= MessagesOf(advance, x) && !Over(s)
    ensures s.channel == Empty && Over(s) ==> s.sent == MessagesOf(advance, x)
  {
    hide FramesOf, Offset, Chunks, Layout, Cursor, Store, Fits, Announced, LastLayout;
  }

  /** A delivery that nothing answers is the last one. */
  lemma EmptyIsOver(advance: Advance, x: Job, s: System)
    requires At(advance, x, s) && s.channel != Empty
    ensures Next(advance, s, Deliver).channel == Empty ==> Over(Next(advance, s, Deliver))
  {
    hide FramesOf, Offset, Chunks, Layout, Cursor, Store, Fits, Announced, LastLayout, ClientStep, LastFrame, Chunk;
    match s.channel
    case Up(_) =>
    case Down(Info(_, _)) => TakeInfo(advance, x);
    case Down(Data(_)) => TakeFrame(advance, x, |s.frames|);
    case Down(End(_)) => TakeEnd(advance, x);
  }

  lemma DeliveryProgress(advance: Advance, x: Job, s: System)
    requires At(advance, x, s) && s.channel != Empty
    ensures s.sent <= MessagesOf(advance, x)
    ensures var t := Next(advance, s, Deliver);
            if t.channel == Empty then Over(t) && t.sent == s.sent == MessagesOf(advance, x)
            else t.sent == s.sent + 1 <= MessagesOf(advance, x)
  {
    hide At, MessagesOf, ClientStep, ReplyPayload, Receive, Announced, Fresh, ClientAt, ClientDone;
    var t := Next(advance, s, Deliver);
    DeliverKeepsAt(advance, x, s);
    MessagesSoFar(advance, x, s);
    MessagesSoFar(advance, x, t);
    EmptyIsOver(advance, x, s);
  }

  lemma FirstMessage(advance: Advance, x: Job)
    ensures if Serves(x) then StartOf(x).channel != Empty && StartOf(x).sent == 1 <= MessagesOf(advance, x)
            else StartOf(x).channel == Empty && Over(StartOf(x)) && StartOf(x).sent == 0 == MessagesOf(advance, x)
  {
    hide LastFrame, Announced;
  }

  /** With nothing lost, every delivery but the last puts one more message in the air. */
  lemma {:induction false} LosslessProgress(advance: Advance, x: Job, n: nat)
    ensures var s := Run(advance, StartOf(x), Deliveries(n));
            if n < MessagesOf(advance, x) then s.channel != Empty && s.sent == n + 1
            else s.channel == Empty && Over(s) && s.sent == MessagesOf(advance, x)
    decreases n
  {
    hide At, Next, MessagesOf, Serves, ServerOf;
    if n > 0 {
      LosslessProgress(advance, x, n - 1);
      assert Deliveries(n)[..n - 1] == Deliveries(n - 1);
      var before := Run(advance, StartOf(x), Deliveries(n - 1));
      RunStaysAt(advance, x, Deliveries(n - 1));
      if before.channel != Empty { DeliveryProgress(advance, x, before); }
    } else {
      FirstMessage(advance, x);
    }
  }

  lemma {:induction false} StaysPut(advance: Advance, start: System, events: seq<Event>, n: nat)
    requires n <= |events| && Run(advance, start, events[..n]).channel == Empty
    ensures Run(advance, start, events) == Run(advance, start, events[..n])
    decreases |events|
  {
    hide Next;
    if n < |events| {
      assert events[..|events| - 1][..n] == events[..n];
      StaysPut(advance, start, events[..|events| - 1], n);
    } else {
      assert events[..n] == events;
    }
  }

  lemma FirstDrop(events: seq<Event>) returns (i: nat)
    ensures i <= |events| && events[..i] == Deliveries(i)
    ensures i < |events| ==> events[i] == Drop
  {
    i := 0;
    while i < |events| && events[i] == Deliver
      invariant i <= |events| && events[..i] == Deliveries(i)
    {
      i := i + 1;
    }
  }

  lemma DropKeepsServer(advance: Advance, s: System)
    requires s.channel != Empty
    ensures Next(advance, s, Drop) == s.(channel := Empty)
  {
  }

  /** Whatever is lost and when: the transfer gets to its end if and only if none of the
      messages it takes was. */
  lemma CompletionExact(advance: Advance, x: Job, events: seq<Event>)
    ensures Over(Run(advance, StartOf(x), events)) <==>
              |events| >= MessagesOf(advance, x) && forall i :: 0 <= i < MessagesOf(advance, x) ==> events[i] == Deliver
  {
    hide At, Next, MessagesOf, StartOf;
    var start, n := StartOf(x), MessagesOf(advance, x);
    var i := FirstDrop(events);
    LosslessProgress(advance, x, i);
    RunStaysAt(advance, x, events[..i]);
    var s := Run(advance, start, events[..i]);
    MessagesSoFar(advance, x, s);
    if i >= n {
      StaysPut(advance, start, events, i);
      forall j | 0 <= j < n ensures events[j] == Deliver { assert events[j] == events[..i][j]; }
    } else if i < |events| {
      DropKeepsAt(advance, x, s);
      DropKeepsServer(advance, s);
      assert events[..i + 1][..i] == events[..i];
      StaysPut(advance, start, events, i + 1);
    } else {
      assert events[..i] == events;
    }
  }

  /** What has to hold for the file to arrive: the name leaves room for its terminator, the block
      can be asked for, and the cursor moves by the frame or the file fits in one. */
  predicate Good(advance: Advance, x: Job) {
    NameFits(x) && CanAllocate(|x.file|) && (advance == PerFrame || |x.file| <= MAX_TX)
  }

  function AllSome(file: seq<byte>): (s: seq<Option<byte>>)
    ensures |s| == |file| && forall i :: 0 <= i < |file| ==> s[i] == Some(file[i])
  {
    seq(|file|, i requires 0 <= i < |file| => Some(file[i]))
  }

  /** A buffer that covers the file is saved as the file. */
  lemma CoveredIsSaved(file: seq<byte>, buffer: map<nat, byte>)
    requires Covers(file, |file|, buffer)
    ensures Cells(buffer, |file|) == AllSome(file)
  {
  }

  lemma DoneHolds(advance: Advance, x: Job)
    requires advance == PerFrame || |x.file| <= MAX_TX
    ensures var c := ClientDone(advance, x);
            Holds(c, x.file) && c.disk == SaveTo(x.disk, Announced(x.name), AllSome(x.file))
  {
    hide Cells, SaveTo, LastLayout, Announced, Store;
    if advance == PerFrame { PerFrameHolds(x.file, x.filler); } else { CumulativeHolds(x.file, x.filler); }
    CoveredIsSaved(x.file, LastLayout(advance, x.file, x.filler));
  }

  lemma NoFrames(file: seq<byte>)
    ensures Chunks(file, 0) == []
  {
  }

  lemma LastFrameBound(advance: Advance, size: nat)
    ensures LastFrame(advance, size, 0) <= FramesOf(size)
  {
  }

  /** Whatever is lost: at no point does the client give up, nothing is ever received twice
      or out of order, the two counters differ by what is in flight, and the client saves a
      file only after taking exactly the chunks of the file, and then it saves the file, under
      the announced name, and touches nothing else on its disk. The only other ends are those
      of a name, a size or a cursor there is no room for. */
  lemma TransferSafety(advance: Advance, x: Job, events: seq<Event>)
    ensures var s := Run(advance, StartOf(x), events);
            && s.client.status != GaveUp && s.client.tries == 0
            && s.frames == Chunks(x.file, |s.frames|) && |s.frames| <= FramesOf(|x.file|)
            && (s.client.status == Saved ==> s.frames == Chunks(x.file, FramesOf(|x.file|)) && s.client.recvSize == s.client.fileSize == |x.file|)
            && (s.client.status == Saved ==> Good(advance, x) && Holds(s.client, x.file) && s.client.fileName == Announced(x.name))
            && s.client.disk == (if s.client.status == Saved then SaveTo(x.disk, Announced(x.name), AllSome(x.file)) else x.disk)
            && (s.client.status == Overrun || s.server.status == Overrun ==> !Good(advance, x))
            && (s.channel == Up(Start) ==> s.client.recvSize == s.server.sendSize)
            && (s.channel.Down? && s.channel.reply.Data? ==> s.client.recvSize + |s.channel.reply.payload| == s.server.sendSize)
            && (s.channel.Down? && !s.channel.reply.Data? ==> s.server.sendSize == 0)
  {
    hide FramesOf, Offset, Chunks, Layout, Cursor, Store, Fits, LastFrame, Announced, LastLayout, SaveTo, Cells, AllSome, Holds;
    RunStaysAt(advance, x, events);
    BlockExact(advance, |x.file|);
    NoFrames(x.file);
    LastFrameBound(advance, |x.file|);
    if advance == PerFrame || |x.file| <= MAX_TX { DoneHolds(advance, x); }
  }

  lemma ShortName(x: Job)
    ensures NameFits(x) ==> Serves(x) || !CanAllocate(|x.file|)
  {
  }

  /** Putting it together: if none of the messages is lost, the client saves the file sent under
      the announced name, after exactly 2 ceil(N / 100) + 4 messages, if and only if name and size have
      room and the cursor moves by the frame or the file fits in one frame. Otherwise one of the
      two programs writes outside an array or a block. */
  lemma LosslessTransfer(x: Job, advance: Advance)
    ensures var s := Run(advance, StartOf(x), Deliveries(MessagesOf(advance, x)));
            && s.channel == Empty && s.sent == MessagesOf(advance, x)
            && (s.client.status == Saved <==> Good(advance, x))
            && (s.client.status == Saved <==>
                  |Announced(x.name)| <= 29 && |x.file| <= 0x7FFF_FFDF && (advance == PerFrame || |x.file| <= 100))
            && (s.client.status == Saved ==> s.client.fileName == Announced(x.name)
                                             && s.client.disk == SaveTo(x.disk, Announced(x.name), AllSome(x.file)))
            && (s.client.status == Saved ==> s.sent == 2 * FramesOf(|x.file|) + 4)
            && (s.client.status == Overrun || s.server.status == Overrun <==> !Good(advance, x))
  {
    hide FramesOf, Offset, Chunks, Layout, Cursor, Store, Fits, LastFrame, LastLayout, SaveTo, Cells, AllSome, Holds, At, Run;
    var n := MessagesOf(advance, x);
    LosslessProgress(advance, x, n);
    TransferSafety(advance, x, Deliveries(n));
    BlockExact(advance, |x.file|);
    ShortName(x);
  }

  // ----- A client against any server ------------------------------------------------------------

  /** The client after any replies whatever, as long as it runs. */
  function Hear(advance: Advance, c: Client, replies: seq<Reply>): Client
    decreases |replies|
  {
    if replies == [] then c else
    var before := Hear(advance, c, replies[..|replies| - 1]);
    if before.status != Running then before else ClientStep(advance, before, replies[|replies| - 1]).0
  }

  /** The client never asks for the file again: the first end message whose size does not match
      makes it exit, so it has not counted to four by the time it would. */
  lemma {:induction false} NeverAsksAgain(advance: Advance, disk: Disk, replies: seq<Reply>, m: Reply)
    ensures var c := Hear(advance, Fresh(disk), replies);
            && (c.status == Running ==> c.tries == 0 && ClientStep(advance, c, m).1 != Some(Req))
            && (c.status == Running && m.End? && ClientStep(advance, c, m).0.status != Overrun ==>
                  ClientStep(advance, c, m).0.status == (if c.fileSize == c.recvSize then Saved else GaveUp))
    decreases |replies|
  {
    hide Store, ReplyPayload, Announced, SaveTo, Cells;
    if replies != [] {
      NeverAsksAgain(advance, disk, replies[..|replies| - 1], replies[|replies| - 1]);
    }
  }

  // ----- Single inputs -------------------------------------------------------------------------

  /** A file of 150 bytes: both frames go in, and the eighth message writes its filler to cell
      250 of a block of 182. */
  lemma FileOf150(x: Job)
    requires |x.file| == 150 && |x.name| < NAME_SIZE
    ensures var s := Run(Cumulative, StartOf(x), Deliveries(8));
            s.client.status == Overrun && |s.frames| == 2 && s.client.cursor == Some(250) && s.client.block == 182
  {
    hide Run, Layout, Chunks, Store;
    assert Cursor(Cumulative, 150, 0) == 0 && Cursor(Cumulative, 150, 1) == 100 && Cursor(Cumulative, 150, 2) == 250;
    assert FramesOf(150) == 2;
    assert LastFrame(Cumulative, 150, 2) == 2 && LastFrame(Cumulative, 150, 1) == 2;
    assert LastFrame(Cumulative, 150, 0) == 2;
    assert Announced(x.name) == x.name;
    LosslessTransfer(x, Cumulative);
    RunStaysAt(Cumulative, x, Deliveries(8));
  }

  /** A name of 30 bytes and a file of 50: the server has room for the name, the client has none
      for its terminator, whichever way the cursor moves. */
  lemma NameOf30(advance: Advance, x: Job)
    requires |x.file| == 50 && |x.name| == 30
    ensures var s := Run(advance, StartOf(x), Deliveries(2));
            s.server.status == Running && s.client.status == Overrun && s.client.disk == x.disk
  {
    hide Run, LastFrame;
    assert Announced(x.name) == x.name;
    LosslessTransfer(x, advance);
    TransferSafety(advance, x, Deliveries(2));
    RunStaysAt(advance, x, Deliveries(2));
  }

  /** A name of one byte more is too long for the server. */
  lemma NameOf31(x: Job)
    requires |x.name| == 31
    ensures StartOf(x).server.status == Overrun
  {
    assert Announced(x.name) == x.name;
  }

  // ----- What is on the disk -------------------------------------------------------------------

  /** What saving does, byte by byte: what is written comes first, the rest of a longer old file
      of that name stays behind it, and no other file appears or changes. */
  lemma SaveToExact(disk: Disk, name: seq<byte>, content: seq<Option<byte>>)
    ensures var after := SaveTo(disk, name, content);
            && after.Keys == disk.Keys + {name}
            && (forall other :: other in disk && other != name ==> after[other] == disk[other])
            && |after[name]| == (if name in disk && |disk[name]| > |content| then |disk[name]| else |content|)
            && forall i :: 0 <= i < |after[name]| ==>
                 after[name][i] == if i < |content| then content[i] else disk[name][i]
  {
  }

  /** The old file of that name is written over but not cut off: what is there in the end is the
      file sent if and only if the old one was no longer. */
  lemma SavedFileExact(disk: Disk, name: seq<byte>, file: seq<byte>)
    ensures SaveTo(disk, name, AllSome(file))[name] == AllSome(file) <==> name !in disk || |disk[name]| <= |file|
    ensures forall other :: other in disk && other != name ==>
              other in SaveTo(disk, name, AllSome(file)) && SaveTo(disk, name, AllSome(file))[other] == disk[other]
  {
    hide AllSome;
    var content := AllSome(file);
    if name in disk && |disk[name]| > |file| {
      assert |SaveTo(disk, name, content)[name]| == |disk[name]|;
    }
  }
}
