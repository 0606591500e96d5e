/** The BPF program that records the tag in front of the packet and strips it in place. */
module XdpMeta {
  import opened Bytes
  import opened Wrappers
  import opened DsaTag

  const META_SIZE := 4
  const FLAG_TAG_STRIPPED: byte := 1
  const FLAG_VALID: byte := 2
  const FRAME_SIZE := 4096

  datatype Meta = Meta(srcPort: byte, switchId: byte, ipv: byte, flags: byte)

  function MetaBytes(m: Meta): (s: seq<byte>)
    ensures |s| == META_SIZE
  {
    [m.srcPort, m.switchId, m.ipv, m.flags]
  }

  function MetaOf(tag: Tag, flags: byte): Meta { Meta(tag.port, tag.switchId, tag.ipv, flags) }

  /** The frame without the tag that follows the two addresses. */
  function StripTag(frame: seq<byte>): (s: seq<byte>)
    requires |frame| >= 16
  {
    frame[..12] + frame[16..]
  }

  /** What became of a frame: the verdict, the bytes passed on and the record in front of them. */
  datatype Outcome = Outcome(action: Action, frame: seq<byte>, record: Option<Meta>)

  /** A frame the program does not take, or has no metadata room for, is passed on as it came.
      From 18 bytes on the tag is removed. A tagged frame of 16 or 17 bytes is passed on too,
      but only after its addresses have been copied over the tag. */
  function MetaOutcome(frame: seq<byte>, room: bool, bound: bool): Outcome {
    match Classify(frame)
    case None => Outcome(Pass, frame, None)
    case Some(tag) =>
      if !room then Outcome(Pass, frame, None)
      else if |frame| >= 18 then
        Outcome(if bound then Redirect else Pass, StripTag(frame), Some(MetaOf(tag, FLAG_VALID | FLAG_TAG_STRIPPED)))
      else
        Outcome(Pass, frame[..4] + frame[..12] + frame[16..], Some(MetaOf(tag, FLAG_VALID)))
  }

  /** The outcome on the octets of the frame: which frames are taken, what is left of them, and
      the four octets of the record, whose flags are 3 for a stripped frame. */
  lemma MetaOutcomeExact(frame: seq<byte>, room: bool, bound: bool)
    ensures !TakenFrame(frame) || !room ==> MetaOutcome(frame, room, bound) == Outcome(Pass, frame, None)
    ensures TakenFrame(frame) && room && |frame| >= 18 ==>
              var o := MetaOutcome(frame, room, bound);
              && o.action == (if bound then Redirect else Pass) && o.frame == frame[..12] + frame[16..]
              && o.record.Some? && MetaBytes(o.record.value) == [SourcePort(frame), SwitchId(frame), Priority(frame), 3]
    ensures TakenFrame(frame) && room && |frame| < 18 ==>
              var o := MetaOutcome(frame, room, bound);
              && o.action == Pass && o.frame == frame[..4] + frame[..12] + frame[16..]
              && o.record.Some? && MetaBytes(o.record.value) == [SourcePort(frame), SwitchId(frame), Priority(frame), 2]
  {
    hide Classify, TakenFrame, SourcePort, SwitchId, Priority;
    ClassifyExact(frame);
  }

  lemma ClassifiedLength(frame: seq<byte>)
    requires Classify(frame).Some?
    ensures |frame| >= 16
  {
  }

  /** Passing a frame on does not always leave it alone. It does exactly when the frame was not
      taken or had no room, or is a runt whose bytes repeat with period four. */
  lemma PassKeepsFrame(frame: seq<byte>, room: bool, bound: bool)
    requires MetaOutcome(frame, room, bound).action == Pass
    ensures MetaOutcome(frame, room, bound).frame == frame <==>
              Classify(frame) == None || !room || (|frame| < 18 && frame[4..16] == frame[..12])
  {
    hide Classify;
    if Classify(frame).Some? {
      ClassifiedLength(frame);
      var moved := frame[..4] + frame[..12] + frame[16..];
      assert moved[4..16] == frame[..12];
      assert frame == frame[..4] + frame[4..16] + frame[16..];
    }
  }

  /** A runt that is passed on damaged. */
  lemma RuntIsDamaged()
    ensures var runt := [0x02, 0, 0, 0, 0, 1, 0x02, 0, 0, 0, 0, 2, 0x81, 0x00, 0x0C, 0x01];
            MetaOutcome(runt, true, true).action == Pass && MetaOutcome(runt, true, true).frame != runt
  {
    var runt: seq<byte> := [0x02, 0, 0, 0, 0, 1, 0x02, 0, 0, 0, 0, 2, 0x81, 0x00, 0x0C, 0x01];
    assert Be16(runt[12], runt[13]) == 0x8100 && Be16(runt[14], runt[15]) == 0x0C01;
    assert Be16(runt[0], runt[1]) == 0x0200;
    PassKeepsFrame(runt, true, true);
    assert runt[4..16][0] != runt[..12][0];
  }

  /** Where the consumer finds the record of a packet at `addr`: just in front of it, unless
      that would leave the UMEM frame. */
  function GetMeta(addr: nat): Option<nat> {
    var frameBase := addr - addr % FRAME_SIZE;
    if addr < frameBase + META_SIZE then None else Some(addr - META_SIZE)
  }

  /** Nothing is found for a packet in the first four bytes of its UMEM frame. */
  lemma GetMetaExact(addr: nat)
    ensures GetMeta(addr) == None <==> addr % 4096 < 4
    ensures GetMeta(addr).Some? ==> GetMeta(addr) == Some(addr - 4)
  {
  }

  function MetaAt(memory: seq<byte>, at: nat): Meta
    requires at + META_SIZE <= |memory|
  {
    Meta(memory[at], memory[at + 1], memory[at + 2], memory[at + 3])
  }

  function Blit(memory: seq<byte>, at: nat, s: seq<byte>): (t: seq<byte>)
    requires at + |s| <= |memory|
    ensures |t| == |memory|
    ensures forall k {:trigger t[k]} :: 0 <= k < |t| ==> t[k] == if at <= k < at + |s| then s[k - at] else memory[k]
  {
    memory[..at] + s + memory[at + |s|..]
  }

  /** A move to higher addresses, last byte first because the ranges may overlap. */
  method MoveUp(memory: array<byte>, from: nat, size: nat, delta: nat)
    requires from + size + delta <= memory.Length
    modifies memory
    ensures memory[..] == Blit(old(memory[..]), from + delta, old(memory[from..from + size]))
  {
    for i := size downto 0
      invariant forall k :: 0 <= k < memory.Length ==>
                  memory[k] == if from + delta + i <= k < from + delta + size then old(memory[k - delta]) else old(memory[k])
    {
      memory[from + delta + i] := memory[from + i];
    }
  }

  /** The memory once the record is in place and the addresses have been moved over the tag. */
  function Marked(memory: seq<byte>, data: nat, m: Meta): (t: seq<byte>)
    requires META_SIZE <= data && data + 16 <= |memory|
    ensures |t| == |memory|
    ensures forall k {:trigger t[k]} :: 0 <= k < |t| ==>
              t[k] == if data - META_SIZE <= k < data then MetaBytes(m)[k - (data - META_SIZE)]
                      else if data + TAG_LEN <= k < data + 16 then memory[k - TAG_LEN] else memory[k]
  {
    hide Blit, MetaBytes;
    var recorded := Blit(memory, data - META_SIZE, MetaBytes(m));
    Blit(recorded, data + TAG_LEN, recorded[data..data + 12])
  }

  /** The memory once the head has been moved past the tag and the record brought along. */
  function Stripped(memory: seq<byte>, data: nat, m: Meta): (t: seq<byte>)
    requires META_SIZE <= data && data + 16 <= |memory|
    ensures |t| == |memory|
    ensures forall k {:trigger t[k]} :: 0 <= k < |t| && (k < data - META_SIZE || data <= k) ==>
              t[k] == if data <= k < data + TAG_LEN then MetaBytes(m)[k - data]
                      else if data + TAG_LEN <= k < data + 16 then memory[k - TAG_LEN] else memory[k]
  {
    hide Blit, Marked, MetaBytes;
    var marked := Marked(memory, data, m);
    Blit(marked, data, marked[data - META_SIZE..data])
  }

  lemma MarkedIs(memory: seq<byte>, data: nat, m: Meta)
    requires META_SIZE <= data && data + 16 <= |memory|
    ensures var recorded := Blit(memory, data - META_SIZE, MetaBytes(m));
            Blit(recorded, data + TAG_LEN, recorded[data..data + 12]) == Marked(memory, data, m)
  {
  }

  lemma StrippedIs(memory: seq<byte>, data: nat, m: Meta)
    requires META_SIZE <= data && data + 16 <= |memory|
    ensures var marked := Marked(memory, data, m);
            Blit(marked, data, marked[data - META_SIZE..data]) == Stripped(memory, data, m)
  {
  }

  lemma MarkedParts(memory: seq<byte>, data: nat, dataEnd: nat, m: Meta)
    requires META_SIZE <= data && data + 16 <= dataEnd <= |memory|
    ensures var t, frame := Marked(memory, data, m), memory[data..dataEnd];
            && t[data - META_SIZE..data] == MetaBytes(m)
            && t[data..dataEnd] == frame[..4] + frame[..12] + frame[16..]
  {
    hide Marked, MetaBytes;
    var t, frame := Marked(memory, data, m), memory[data..dataEnd];
    assert t[data..data + 4] == frame[..4];
    assert t[data + 4..data + 16] == frame[..12];
    assert t[data + 16..dataEnd] == frame[16..];
    assert t[data..dataEnd] == t[data..data + 4] + t[data + 4..data + 16] + t[data + 16..dataEnd];
  }

  lemma StrippedParts(memory: seq<byte>, data: nat, dataEnd: nat, m: Meta)
    requires META_SIZE <= data && data + 16 <= dataEnd <= |memory|
    ensures var t := Stripped(memory, data, m);
            && t[data..data + TAG_LEN] == MetaBytes(m)
            && t[data + TAG_LEN..dataEnd] == StripTag(memory[data..dataEnd])
  {
    hide Stripped, MetaBytes;
    var t, frame := Stripped(memory, data, m), memory[data..dataEnd];
    assert t[data + 4..data + 16] == frame[..12];
    assert t[data + 16..dataEnd] == frame[16..];
    assert t[data + 4..dataEnd] == t[data + 4..data + 16] + t[data + 16..dataEnd];
  }

  /** A packet buffer and the three offsets of the XDP context. The two helpers state what the
      kernel promises about them. */
  class XdpBuffer {
    const memory: array<byte>
    const headroomEnd: nat
    var dataMeta: nat
    var data: nat
    var dataEnd: nat

    ghost predicate Valid()
      reads this
    {
      headroomEnd <= dataMeta <= data <= dataEnd <= memory.Length
    }

    ghost function Frame(): (s: seq<byte>)
      reads this, memory
      requires Valid()
      ensures |s| == dataEnd - data
    {
      memory[data..dataEnd]
    }

    ghost function Record(): (s: seq<byte>)
      reads this, memory
      requires Valid()
      ensures |s| == data - dataMeta
    {
      memory[dataMeta..data]
    }

    /** bpf_xdp_adjust_meta with a negative delta: the bytes just before the packet become
        metadata, if there is headroom for them. */
    method AdjustMeta(size: nat) returns (ok: bool)
      requires Valid()
      modifies this`dataMeta
      ensures Valid()
      ensures ok <==> old(dataMeta) >= headroomEnd + size
      ensures dataMeta == if ok then old(dataMeta) - size else old(dataMeta)
    {
      ok := dataMeta >= headroomEnd + size;
      if ok { dataMeta := dataMeta - size; }
    }

    /** bpf_xdp_adjust_head with a positive delta: fails if no Ethernet header would remain,
        and otherwise takes the metadata along. */
    method AdjustHead(delta: nat) returns (ok: bool)
      requires Valid()
      modifies this`data, this`dataMeta, memory
      ensures Valid()
      ensures ok <==> old(data) + delta + ETH_HLEN <= dataEnd
      ensures !ok ==> data == old(data) && dataMeta == old(dataMeta) && memory[..] == old(memory[..])
      ensures ok ==> data == old(data) + delta && dataMeta == old(dataMeta) + delta
      ensures ok ==> memory[..] == Blit(old(memory[..]), dataMeta, old(Record()))
    {
      ok := data + delta + ETH_HLEN <= dataEnd;
      if ok {
        MoveUp(memory, dataMeta, data - dataMeta, delta);
        data := data + delta;
        dataMeta := dataMeta + delta;
      }
    }

    method SetStripped()
      requires Valid() && dataMeta + META_SIZE == data
      modifies memory
      ensures Frame() == old(Frame())
      ensures Record() == old(Record())[3 := old(Record())[3] | FLAG_TAG_STRIPPED]
      ensures forall k :: 0 <= k < memory.Length && (k < dataMeta || k >= dataEnd) ==> memory[k] == old(memory[k])
    {
      memory[dataMeta + 3] := memory[dataMeta + 3] | FLAG_TAG_STRIPPED;
    }

    method WriteMeta(m: Meta)
      requires Valid() && dataMeta + META_SIZE == data
      modifies memory
      ensures memory[..] == Blit(old(memory[..]), dataMeta, MetaBytes(m))
    {
      memory[dataMeta] := m.srcPort;
      memory[dataMeta + 1] := m.switchId;
      memory[dataMeta + 2] := m.ipv;
      memory[dataMeta + 3] := m.flags;
    }

    /** Fills in the record, moves the addresses over the tag and asks for the head to be
        moved past what is now duplicated. */
    method RecordAndStrip(m: Meta) returns (stripped: bool)
      requires Valid() && dataMeta + META_SIZE == data && data + 16 <= dataEnd
      modifies this`data, this`dataMeta, memory
      ensures Valid() && dataMeta + META_SIZE == data
      ensures stripped <==> old(data) + 18 <= dataEnd
      ensures data == old(data) + (if stripped then TAG_LEN else 0)
      ensures Record() == MetaBytes(m)
      ensures Frame() == var frame := old(Frame()); if stripped then StripTag(frame) else frame[..4] + frame[..12] + frame[16..]
      ensures forall k :: 0 <= k < memory.Length && (k < old(dataMeta) || k >= dataEnd) ==> memory[k] == old(memory[k])
    {
      hide Blit, StripTag, Marked, Stripped;
      ghost var before, start := memory[..], data;
      WriteMeta(m);
      ghost var recorded := memory[..];
      assert memory[data..data + 12] == recorded[data..data + 12];
      MoveUp(memory, data, 12, TAG_LEN);
      ghost var marked := memory[..];
      assert marked == Marked(before, start, m) by { MarkedIs(before, start, m); }
      assert Record() == marked[start - META_SIZE..start];
      stripped := AdjustHead(TAG_LEN);
      ghost var after := memory[..];
      assert after == if stripped then Stripped(before, start, m) else marked by { StrippedIs(before, start, m); }
      MarkedParts(before, start, dataEnd, m);
      StrippedParts(before, start, dataEnd, m);
      assert Record() == after[dataMeta..data] && Frame() == after[data..dataEnd];
      forall k | 0 <= k < memory.Length && (k < start - META_SIZE || k >= dataEnd) ensures memory[k] == before[k] {
      }
    }

    method XdpDsaMeta(bound: bool) returns (action: Action)
      requires Valid() && dataMeta == data
      modifies this`data, this`dataMeta, memory
      ensures Valid()
      ensures var r := MetaOutcome(old(Frame()), old(data) >= headroomEnd + META_SIZE, bound);
              && action == r.action && Frame() == r.frame
              && Record() == (match r.record case None => [] case Some(m) => MetaBytes(m))
      ensures old(TakenFrame(Frame()) && data >= headroomEnd + META_SIZE && |Frame()| >= 18) ==>
                Record() == old([SourcePort(Frame()), SwitchId(Frame()), Priority(Frame()), 3])
      ensures forall k :: 0 <= k < memory.Length && (k + META_SIZE < old(data) || k >= dataEnd) ==> memory[k] == old(memory[k])
    {
      hide Classify, StripTag, TakenFrame, SourcePort, SwitchId, Priority;
      assert memory[data..dataEnd] == Frame();
      MetaOutcomeExact(Frame(), data >= headroomEnd + META_SIZE, bound);
      var taken := Classify(memory[data..dataEnd]);
      if taken == None { return Pass; }
      ClassifiedLength(Frame());
      var ok := AdjustMeta(META_SIZE);
      if !ok { return Pass; }
      var stripped := RecordAndStrip(MetaOf(taken.value, FLAG_VALID));
      if !stripped { return Pass; }
      SetStripped();
      return if bound then Redirect else Pass;
    }
  }

  lemma InFrame(frameBase: nat, offset: nat)
    requires frameBase % FRAME_SIZE == 0 && offset < FRAME_SIZE
    ensures (frameBase + offset) % FRAME_SIZE == offset
  {
    assert frameBase == FRAME_SIZE * (frameBase / FRAME_SIZE);
  }

  lemma RecordParts(memory: seq<byte>, at: nat, m: Meta)
    requires at + META_SIZE <= |memory| && memory[at..at + META_SIZE] == MetaBytes(m)
    ensures MetaAt(memory, at) == m
  {
    var s := memory[at..at + META_SIZE];
    assert s[0] == memory[at] && s[1] == memory[at + 1] && s[2] == memory[at + 2] && s[3] == memory[at + 3];
    assert s[0] == m.srcPort && s[1] == m.switchId && s[2] == m.ipv && s[3] == m.flags;
  }

  /** The consumer looks exactly where the program left the record: for a packet held inside
      one UMEM frame, the record is found, and in the same frame. */
  lemma RecordIsFound(memory: seq<byte>, frameBase: nat, data: nat, dataEnd: nat, m: Meta)
    requires frameBase % FRAME_SIZE == 0
    requires frameBase + META_SIZE <= data < dataEnd <= frameBase + FRAME_SIZE && dataEnd <= |memory|
    requires memory[data - META_SIZE..data] == MetaBytes(m)
    ensures GetMeta(data) == Some(data - META_SIZE)
    ensures MetaAt(memory, data - META_SIZE) == m
    ensures frameBase <= data - META_SIZE
  {
    InFrame(frameBase, data - frameBase);
    RecordParts(memory, data - META_SIZE, m);
  }
}
