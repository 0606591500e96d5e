/** The two programs that take part in the transfer, as they update their variables. */
module BeeNode {
  import opened Bytes
  import opened Wrappers
  import opened BeeTransfer

  class BeeServer {
    const fileBuffer: array<byte>
    const fileName: array<byte>
    const filler: byte
    var nameLen: nat
    var sendSize: nat
    var status: Status

    ghost predicate Valid()
      reads this
    {
      fileName.Length == NAME_SIZE && (status != Overrun ==> nameLen <= NAME_SIZE)
    }

    /** What can be told of a server whose name went where it belongs. */
    ghost function State(): Server
      reads this, fileBuffer, fileName
      requires Valid() && status != Overrun
    {
      Server(fileBuffer[..], fileName[..nameLen], filler, sendSize, status)
    }

    /** Reads the arguments and the file. The length of the name is cut to one byte. */
    constructor (file: seq<byte>, name: seq<byte>, filler: byte)
      ensures Valid() && status == ServerOf(file, name, filler).status
      ensures status != Overrun ==> State() == ServerOf(file, name, filler)
    {
      hide CanAllocate;
      fileBuffer := new byte[|file|](i requires 0 <= i < |file| => file[i]);
      fileName := new byte[NAME_SIZE](_ => 0);
      this.filler := filler;
      nameLen, sendSize, status := |name| % 256, 0, Running;
      new;
      assert fileBuffer[..] == file;
      if nameLen > NAME_SIZE || !CanAllocate(|file|) {
        status := Overrun;
      } else {
        for i := 0 to nameLen
          modifies fileName
          invariant fileName[..i] == name[..i]
        {
          fileName[i] := name[i];
        }
      }
    }

    /** The next frame of the file, or the end message once all has been sent. */
    method SendFile() returns (reply: Reply)
      requires Valid() && status != Overrun
      modifies this`sendSize
      ensures Valid() && status != Overrun && (State(), Some(reply)) == ServerStep(old(State()), Start)
    {
      if sendSize < fileBuffer.Length {
        var remainSize := fileBuffer.Length - sendSize;
        if remainSize >= MAX_TX {
          reply := Data(fileBuffer[sendSize..sendSize + MAX_TX]);
          sendSize := sendSize + MAX_TX;
        } else {
          reply := Data(fileBuffer[sendSize..sendSize + remainSize]);
          sendSize := sendSize + remainSize;
        }
      } else {
        sendSize := 0;
        reply := End(filler);
      }
    }

    method OnRequest(m: Request) returns (reply: Reply)
      requires Valid() && status != Overrun
      modifies this`sendSize
      ensures Valid() && status != Overrun && (State(), Some(reply)) == ServerStep(old(State()), m)
    {
      if m == Req {
        sendSize := 0;
        reply := Info(fileBuffer.Length, fileName[..nameLen]);
      } else {
        reply := SendFile();
      }
    }
  }

  lemma NothingStored(buffer: map<nat, byte>, at: nat)
    ensures Store(buffer, at, []) == buffer
  {
  }

  lemma StoreOneMore(buffer: map<nat, byte>, at: nat, bytes: seq<byte>, i: nat)
    requires i < |bytes|
    ensures Store(buffer, at, bytes[..i + 1]) == Store(buffer, at, bytes[..i])[at + i := bytes[i]]
  {
    assert bytes[..i + 1][..i] == bytes[..i];
  }

  class BeeClient {
    const fileName: array<byte>
    // The allocated block; a cell that was never written holds anything.
    var fileBuffer: array<Option<byte>>
    var nameLen: nat
    var fileSize: nat
    var recvSize: nat
    var cursor: Option<nat>
    var tries: nat
    var status: Status
    var disk: Disk

    ghost predicate Valid()
      reads this
    {
      && fileName.Length == NAME_SIZE && nameLen < NAME_SIZE
      && fileName as object != fileBuffer as object
    }

    ghost function Written(): (buffer: map<nat, byte>)
      reads this, fileBuffer
      ensures forall x :: x in buffer <==> 0 <= x < fileBuffer.Length && fileBuffer[x].Some?
      ensures forall x :: x in buffer ==> fileBuffer[x] == Some(buffer[x])
    {
      map x: nat | x < fileBuffer.Length && fileBuffer[x].Some? :: fileBuffer[x].value
    }

    ghost function State(): Client
      reads this, fileBuffer, fileName
      requires Valid()
    {
      Client(fileSize, recvSize, fileName[..nameLen], fileBuffer.Length, cursor, Written(), tries, status, disk)
    }

    constructor (disk: Disk)
      ensures Valid() && State() == BeeTransfer.Fresh(disk) && fresh(fileBuffer) && fresh(fileName)
    {
      fileName := new byte[NAME_SIZE](_ => 0);
      nameLen, fileSize, recvSize, cursor, tries, status := 0, 0, 0, None, 0, Running;
      fileBuffer := new Option<byte>[0];
      this.disk := disk;
      new;
      assert Written() == map[];
    }

    method CopyPayload(at: nat, payload: seq<byte>)
      requires at + |payload| <= fileBuffer.Length
      modifies fileBuffer
      ensures Written() == Store(old(Written()), at, payload)
    {
      hide Store;
      NothingStored(Written(), at);
      for i := 0 to |payload|
        invariant Written() == Store(old(Written()), at, payload[..i])
      {
        StoreOneMore(old(Written()), at, payload, i);
        ghost var before := Written();
        fileBuffer[at + i] := Some(payload[i]);
        assert Written() == before[at + i := payload[i]];
      }
      assert payload[..|payload|] == payload;
    }

    /** Copies a received payload to wherever the buffer pointer points: the scratch area, of
        which nothing is kept, or the file buffer. */
    method ReadRxFifo(payload: seq<byte>)
      requires Valid()
      modifies this`status, fileBuffer
      ensures Valid() && State() == Receive(old(State()), payload)
      ensures status != Overrun ==> status == old(status)
    {
      hide Store;
      if cursor == None {
        if |payload| > MAX_TX { status := Overrun; }
        assert Written() == old(Written());
      } else if payload != [] {
        var at := cursor.value;
        if at + |payload| > fileBuffer.Length {
          status := Overrun;
          assert Written() == old(Written());
          return;
        }
        ghost var name := fileName[..nameLen];
        CopyPayload(at, payload);
        assert fileName[..nameLen] == name;
      } else {
        assert Written() == old(Written());
      }
    }

    /** Copies the announced name and puts the terminator behind it. */
    method CopyName(name: seq<byte>)
      requires Valid() && |name| < NAME_SIZE
      modifies this`nameLen, fileName
      ensures Valid() && fileName[..nameLen] == name
    {
      for i := 0 to |name|
        invariant fileName[..i] == name[..i]
      {
        fileName[i] := name[i];
      }
      fileName[|name|] := 0;
      nameLen := |name|;
    }

    /** Takes the announcement and allocates the file buffer. */
    method OnInfo(size: nat, name: seq<byte>) returns (request: Option<Request>)
      requires Valid() && status != Overrun
      modifies this, fileName
      ensures Valid() && (fileBuffer == old(fileBuffer) || fresh(fileBuffer))
      ensures (State(), request) ==
                var c := old(State());
                if |Announced(name)| >= NAME_SIZE || !CanAllocate(size) then (c.(status := Overrun), None)
                else (c.(fileSize := size, recvSize := 0, fileName := Announced(name), block := size + SPARE,
                         cursor := Some(0), buffer := map[]), Some(Start))
    {
      hide CanAllocate;
      if |Announced(name)| >= NAME_SIZE || !CanAllocate(size) {
        status := Overrun;
        assert Written() == old(Written());
        return None;
      }
      CopyName(Announced(name));
      fileSize := size;
      fileBuffer := new Option<byte>[size + SPARE](_ => None);
      recvSize := 0;
      cursor := Some(0);
      request := Some(Start);
      assert Written() == map[];
    }

    /** Writes the first cells of the buffer to the file of the announced name. */
    method RecvFile()
      requires Valid()
      modifies this`disk
      ensures Valid() && disk == SaveTo(old(disk), fileName[..nameLen], Cells(old(Written()), fileSize))
    {
      var content: seq<Option<byte>> := [];
      for i := 0 to fileSize
        modifies {}
        invariant |content| == i && forall k :: 0 <= k < i ==> content[k] == if k < fileBuffer.Length then fileBuffer[k] else None
      {
        content := content + [if i < fileBuffer.Length then fileBuffer[i] else None];
      }
      assert content == Cells(Written(), fileSize);
      var name := fileName[..nameLen];
      var tail := if name in disk && |disk[name]| > fileSize then disk[name][fileSize..] else [];
      disk := disk[name := content + tail];
    }

    /** One turn of the receive switch. The cursor is advanced by the running total. */
    method OnReply(m: Reply) returns (request: Option<Request>)
      requires Valid()
      modifies this, fileBuffer, fileName
      ensures Valid() && (State(), request) == ClientStep(Cumulative, old(State()), m)
      ensures fileBuffer == old(fileBuffer) || fresh(fileBuffer)
    {
      hide Store, ReplyPayload, Announced, CanAllocate, SaveTo, Cells;
      ReadRxFifo(ReplyPayload(m));
      if status == Overrun { return None; }
      ghost var cells, name := Written(), fileName[..nameLen];
      match m
      case Info(size, name) =>
        request := OnInfo(size, name);
      case Data(payload) =>
        recvSize := recvSize + |payload|;
        if cursor.Some? { cursor := Some(cursor.value + recvSize); }
        request := Some(Start);
        assert Written() == cells && fileName[..nameLen] == name;
      case End(filler) =>
        if fileSize == recvSize {
          cursor := None;
          assert Written() == cells;
          RecvFile();
          status := Saved;
          request := None;
        } else {
          tries := tries + 1;
          if tries > 3 {
            request := Some(Req);
          } else {
            status := GaveUp;
            request := None;
          }
        }
        assert Written() == cells && fileName[..nameLen] == name;
    }
  }
}
