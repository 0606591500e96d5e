/** The receive loop of both AF_XDP applications: take a batch of descriptors, account for
    each packet, and give its buffer back to the kernel. */
module XdpReceiver {
  import opened Bytes
  import opened Wrappers
  import opened DsaTag
  import opened XdpMeta
  import opened XdpAccounting
  import opened XskRing
  import opened Seqs

  const RX_BATCH_SIZE := 64
  const FILL_RING_SIZE := RING_SIZE
  const NUM_FRAMES := 4096

  datatype Desc = Desc(addr: u64, len: u32)

  function AddrOf(d: Desc): u64 { d.addr }

  function InitialFill(): (s: seq<u64>)
    ensures |s| == FILL_RING_SIZE && forall i :: 0 <= i < |s| ==> s[i] == i * FRAME_SIZE
  {
    seq(FILL_RING_SIZE, i requires 0 <= i < FILL_RING_SIZE => i * FRAME_SIZE)
  }

  predicate InMemory(memory: seq<byte>, d: Desc) {
    d.addr + d.len <= |memory|
  }

  /** What a descriptor stands for: the bytes it names and the record in front of them. */
  function PacketAt(memory: seq<byte>, d: Desc): Packet
    requires InMemory(memory, d)
  {
    Packet(match GetMeta(d.addr) case None => None case Some(at) => Some(MetaAt(memory, at)),
           memory[d.addr..d.addr + d.len])
  }

  function PacketsAt(memory: seq<byte>, ds: seq<Desc>): (ps: seq<Packet>)
    requires forall i :: 0 <= i < |ds| ==> InMemory(memory, ds[i])
    ensures |ps| == |ds| && forall i :: 0 <= i < |ds| ==> ps[i] == PacketAt(memory, ds[i])
  {
    seq(|ds|, i requires 0 <= i < |ds| => PacketAt(memory, ds[i]))
  }

  /** A packet that a program left at `d`, record and all, is the packet the application sees. */
  lemma PlacedPacketIsSeen(memory: seq<byte>, frameBase: nat, d: Desc, m: Meta, frame: seq<byte>)
    requires InMemory(memory, d) && frame != [] && frameBase % FRAME_SIZE == 0
    requires frameBase + META_SIZE <= d.addr && d.addr + d.len <= frameBase + FRAME_SIZE
    requires memory[d.addr - META_SIZE..d.addr] == MetaBytes(m) && memory[d.addr..d.addr + d.len] == frame
    ensures PacketAt(memory, d) == Packet(Some(m), frame)
  {
    RecordIsFound(memory, frameBase, d.addr, d.addr + d.len, m);
  }

  lemma NoPackets(app: App, st: Stats, memory: seq<byte>)
    ensures AccountAll(app, st, PacketsAt(memory, [])) == st
  {
  }

  lemma OneMorePacket(app: App, st: Stats, memory: seq<byte>, batch: seq<Desc>, i: nat)
    requires i < |batch| && forall k :: 0 <= k < |batch| ==> InMemory(memory, batch[k])
    ensures AccountAll(app, st, PacketsAt(memory, batch[..i + 1]))
         == Account(app, AccountAll(app, st, PacketsAt(memory, batch[..i])), PacketAt(memory, batch[i]))
  {
    hide Account, PacketAt;
    assert PacketsAt(memory, batch[..i + 1])[..i] == PacketsAt(memory, batch[..i]);
  }

  class Receiver {
    const app: App
    const rx: Ring<Desc>
    const fq: Ring<u64>
    const umem: array<byte>
    const ports: array<PortStats>
    var noMeta: u64
    var invalidMeta: u64
    var unknown: u64

    ghost predicate Valid()
      reads this, rx, fq
    {
      && rx.Valid() && fq.Valid() && rx as object != fq as object
      && ports.Length == MaxPorts(app)
      && ports as object != umem as object && ports as object != rx.slots as object
      && ports as object != fq.slots as object && umem as object != fq.slots as object
      && rx.slots as object != fq.slots as object
    }

    ghost function Statistics(): (st: Stats)
      reads this, ports
    {
      Stats(ports[..], noMeta, invalidMeta, unknown)
    }

    constructor (app: App)
      ensures Valid() && rx.Quiet() && fq.Quiet() && rx.Contents() == [] && fq.Contents() == []
      ensures Statistics() == NoTraffic(app) && this.app == app
    {
      this.app := app;
      rx := new Ring<Desc>();
      fq := new Ring<u64>();
      umem := new byte[NUM_FRAMES * FRAME_SIZE];
      ports := new PortStats[MaxPorts(app)](_ => PortStats(0, 0));
      noMeta, invalidMeta, unknown := 0, 0, 0;
    }

    /** The first filling of the ring: one buffer for every slot, the rest of the memory is
        never used. */
    method PopulateFillQueue() returns (ok: bool)
      requires Valid() && fq.Quiet()
      modifies fq, fq.slots
      ensures Valid() && fq.Quiet()
      ensures ok <==> old(fq.Contents()) == []
      ensures fq.Contents() == if ok then InitialFill() else old(fq.Contents())
    {
      hide Wrap;
      var got, idx := fq.Reserve(FILL_RING_SIZE);
      if got != FILL_RING_SIZE { return false; }
      for i := 0 to FILL_RING_SIZE
        invariant Valid() && fq.Contents() == [] && fq.produced == old(fq.produced)
        invariant fq.peeked == fq.consumed && fq.reserved == fq.produced + FILL_RING_SIZE
        invariant forall k :: 0 <= k < i ==> fq.Pending()[k] == InitialFill()[k]
      {
        fq.Fill(idx, i, i * FRAME_SIZE);
      }
      assert fq.Pending() == InitialFill();
      fq.Submit(FILL_RING_SIZE);
      return true;
    }

    method CountOn(port: byte, len: nat)
      requires ports.Length == MaxPorts(app)
      modifies ports
      ensures Statistics() == CountPacket(old(Statistics()), port, len)
    {
      var p := port as int;
      if p < ports.Length {
        ports[p] := PortStats(XdpAccounting.Next(ports[p].packets), (ports[p].bytes + len) % COUNTER_WRAP);
      }
    }

    /** One descriptor of the batch. */
    method Handle(d: Desc)
      requires Valid() && InMemory(umem[..], d)
      modifies this`noMeta, this`invalidMeta, this`unknown, ports
      ensures Statistics() == Account(app, old(Statistics()), PacketAt(umem[..], d))
    {
      hide CountPacket;
      if app.PortRx? {
        var at := GetMeta(d.addr);
        if at == None {
          noMeta := XdpAccounting.Next(noMeta);
          return;
        }
        var meta := MetaAt(umem[..], at.value);
        if meta.flags & FLAG_VALID == 0 {
          invalidMeta := XdpAccounting.Next(invalidMeta);
        } else {
          CountOn(meta.srcPort, d.len);
        }
      } else {
        var tag := ParseHmsTag(umem[d.addr..d.addr + d.len]);
        assert umem[..][d.addr..d.addr + d.len] == umem[d.addr..d.addr + d.len];
        if tag == None {
          unknown := XdpAccounting.Next(unknown);
        } else {
          CountOn(tag.value.0, d.len);
        }
      }
    }

    method HandleOne(desc: Desc, idxFq: u32, i: u32)
      requires Valid() && InMemory(umem[..], desc)
      requires idxFq == Wrap(fq.produced) && i < fq.reserved - fq.produced
      modifies this`noMeta, this`invalidMeta, this`unknown, ports, fq.slots
      ensures Valid() && rx.Contents() == old(rx.Contents()) && fq.Contents() == old(fq.Contents())
      ensures umem[..] == old(umem[..])
      ensures fq.Pending() == old(fq.Pending())[i := desc.addr]
      ensures Statistics() == Account(app, old(Statistics()), PacketAt(umem[..], desc))
    {
      hide Account, Wrap, PacketAt;
      Handle(desc);
      ghost var st := Statistics();
      assert fq.Pending() == old(fq.Pending()) && fq.Contents() == old(fq.Contents());
      assert rx.Contents() == old(rx.Contents());
      fq.Fill(idxFq, i, desc.addr);
      assert Statistics() == st;
    }

    /** The loop over the batch: every packet is accounted for and its address written to the
        slot reserved for it. */
    method HandleBatch(rcvd: u32, idxRx: u32, idxFq: u32)
      requires Valid() && idxRx == Wrap(rx.consumed) && rx.peeked == rx.consumed + rcvd
      requires idxFq == Wrap(fq.produced) && fq.reserved == fq.produced + rcvd
      requires forall i :: 0 <= i < |rx.Contents()| ==> InMemory(umem[..], rx.Contents()[i])
      modifies this`noMeta, this`invalidMeta, this`unknown, ports, fq.slots
      ensures Valid() && rx.Contents() == old(rx.Contents()) && fq.Contents() == old(fq.Contents())
      ensures fq.Pending() == Map(AddrOf, rx.Contents()[..rcvd])
      ensures Statistics() == AccountAll(app, old(Statistics()), PacketsAt(umem[..], rx.Contents()[..rcvd]))
    {
      hide Account, Wrap, PacketAt;
      ghost var batch, memory := rx.Contents()[..rcvd], umem[..];
      for i := 0 to rcvd
        invariant Valid() && rx.Contents() == old(rx.Contents()) && fq.Contents() == old(fq.Contents())
        invariant umem[..] == memory
        invariant forall k :: 0 <= k < i ==> fq.Pending()[k] == batch[k].addr
        invariant Statistics() == AccountAll(app, old(Statistics()), PacketsAt(memory, batch[..i]))
      {
        var desc := rx.Entry(idxRx, i);
        HandleOne(desc, idxFq, i);
        OneMorePacket(app, old(Statistics()), memory, batch, i);
      }
      assert batch[..rcvd] == batch;
    }

    /** As long as no more buffers are in circulation than the fill ring has slots, there is
        always room to give a batch back, and the receive ring turns into the fill ring
        buffer by buffer. */
    method ProcessRx() returns (rcvd: u32, fillQueueFull: bool)
      requires Valid() && rx.Quiet() && fq.Quiet()
      requires forall i :: 0 <= i < |rx.Contents()| ==> InMemory(umem[..], rx.Contents()[i])
      requires |rx.Contents()| + |fq.Contents()| <= FILL_RING_SIZE
      modifies this`noMeta, this`invalidMeta, this`unknown, ports, rx, fq, fq.slots
      ensures Valid() && rx.Quiet() && fq.Quiet()
      ensures !fillQueueFull
      ensures rcvd <= RX_BATCH_SIZE && rcvd <= |old(rx.Contents())|
      ensures rcvd == 0 <==> old(rx.Contents()) == []
      ensures old(rx.seen == rx.consumed) ==> rcvd == if |old(rx.Contents())| < 64 then |old(rx.Contents())| else 64
      ensures rx.Contents() == old(rx.Contents())[rcvd..]
      ensures fq.Contents() == old(fq.Contents()) + Map(AddrOf, old(rx.Contents())[..rcvd])
      ensures Statistics() == AccountAll(app, old(Statistics()), PacketsAt(umem[..], old(rx.Contents())[..rcvd]))
    {
      hide Wrap, AccountAll, PacketsAt, PacketAt, Map, Window;
      var idxRx, idxFq, got: u32;
      rcvd, idxRx := rx.Peek(RX_BATCH_SIZE);
      if rcvd == 0 {
        NoPackets(app, Statistics(), umem[..]);
        assert old(rx.Contents())[..0] == [];
        return 0, false;
      }
      got, idxFq := fq.Reserve(rcvd);
      fillQueueFull := got != rcvd;
      HandleBatch(rcvd, idxRx, idxFq);
      ghost var addrs := fq.Pending();
      rx.Release(rcvd);
      assert fq.Pending() == addrs && fq.Contents() == old(fq.Contents());
      fq.Submit(rcvd);
    }
  }
}
