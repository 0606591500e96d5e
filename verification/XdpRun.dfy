/** Both receive applications over whole runs, from the frames on the wire to the statistics. */
module XdpRun {
  import opened Bytes
  import opened DsaTag
  import opened XdpMeta
  import opened XdpAccounting
  import opened XdpReceiver
  import opened XdpUmem

  /** The packets the kernel delivers in a run, as the BPF program left them. */
  function Carried(steps: seq<Step>): (ps: seq<Packet>)
    decreases |steps|
  {
    if steps == [] then [] else
    var before, last := Carried(steps[..|steps| - 1]), steps[|steps| - 1];
    if last.KernelDeliver? then before + [last.packet] else before
  }

  /** The application sees the frame, and the record if the program left one. */
  predicate SeenAs(carried: Packet, seen: Packet) {
    seen.frame == carried.frame && (carried.record.Some? ==> seen == carried)
  }

  lemma WrittenIsSeen(memory: seq<byte>, base: nat, offset: nat, packet: Packet)
    requires base % FRAME_SIZE == 0 && base + FRAME_SIZE <= |memory| <= UMEM_SIZE
    requires offset < FRAME_SIZE && offset + |packet.frame| <= FRAME_SIZE && (packet.record.Some? ==> META_SIZE <= offset)
    ensures SeenAs(packet, PacketAt(Written(memory, base + offset, packet), Desc(base + offset, |packet.frame|)))
  {
    hide Blit;
    var at, t := base + offset, Written(memory, base + offset, packet);
    assert t[at..at + |packet.frame|] == packet.frame;
    if packet.record.Some? {
      assert at % FRAME_SIZE == offset;
      var m := packet.record.value;
      assert t[at - 4] == MetaBytes(m)[0] && t[at - 3] == MetaBytes(m)[1];
      assert t[at - 2] == MetaBytes(m)[2] && t[at - 1] == MetaBytes(m)[3];
    }
  }

  lemma HeldIsAligned(s: State, k: nat)
    requires Inv(s) && k < |s.held|
    ensures s.held[k] % FRAME_SIZE == 0
  {
  }

  /** Every packet is delivered as it was carried, in the same order. */
  lemma {:induction false} DeliveredAsCarried(memory: seq<byte>, steps: seq<Step>)
    requires |memory| == UMEM_SIZE && Run(memory, steps).Some?
    ensures |Run(memory, steps).value.delivered| == |Carried(steps)|
    ensures forall i :: 0 <= i < |Carried(steps)| ==> SeenAs(Carried(steps)[i], Run(memory, steps).value.delivered[i])
    decreases |steps|
  {
    hide SeenAs, PacketAt, Written, Circulates, PacketsKept;
    if steps != [] {
      var before, last := steps[..|steps| - 1], steps[|steps| - 1];
      DeliveredAsCarried(memory, before);
      RunKeepsInv(memory, before);
      if last.KernelDeliver? {
        var s := Run(memory, before).value;
        assert s.held[last.k] % FRAME_SIZE == 0 by { HeldIsAligned(s, last.k); }
        WrittenIsSeen(s.memory, s.held[last.k], last.offset, last.packet);
      }
    }
  }

  /** Accounting in parts. */
  lemma {:induction false} AccountAppend(app: App, st: Stats, a: seq<Packet>, b: seq<Packet>)
    ensures AccountAll(app, st, a + b) == AccountAll(app, AccountAll(app, st, a), b)
    decreases |b|
  {
    hide Account;
    if b == [] {
      assert a + b == a;
    } else {
      assert (a + b)[..|a + b| - 1] == a + b[..|b| - 1];
      AccountAppend(app, st, a, b[..|b| - 1]);
    }
  }

  predicate CorrespondAll(stripped: seq<Packet>, tagged: seq<Packet>) {
    |stripped| == |tagged| && forall i :: 0 <= i < |stripped| ==> Corresponds(stripped[i], tagged[i])
  }

  lemma {:induction false} CorrespondingAgree(stripped: seq<Packet>, tagged: seq<Packet>)
    requires CorrespondAll(stripped, tagged)
    ensures Agree(AccountAll(PortRx, NoTraffic(PortRx), stripped), AccountAll(RxMonitor, NoTraffic(RxMonitor), tagged))
    decreases |stripped|
  {
    hide Corresponds, Agree, Account;
    if stripped == [] {
      NothingYet();
    } else {
      var n := |stripped| - 1;
      CorrespondingAgree(stripped[..n], tagged[..n]);
      AccountKeepsAgreement(AccountAll(PortRx, NoTraffic(PortRx), stripped[..n]),
                            AccountAll(RxMonitor, NoTraffic(RxMonitor), tagged[..n]), stripped[n], tagged[n]);
    }
  }

  lemma SeenCorresponds(stripped: Packet, tagged: Packet, s: Packet, t: Packet)
    requires Corresponds(stripped, tagged) && SeenAs(stripped, s) && SeenAs(tagged, t)
    ensures Corresponds(s, t)
  {
    hide ParseHmsTag;
  }

  /** Run the two applications side by side, each with its own memory, its own kernel and its
      own timing. Whenever both have accounted for as many packets, their statistics agree:
      equal packet counts on every port, four bytes a packet between the byte counts, no error
      counted. */
  lemma ReceiversAgree(frames: seq<seq<byte>>, m1: seq<byte>, a: seq<Step>, m2: seq<byte>, b: seq<Step>)
    requires forall f :: f in frames ==> |f| >= 18
    requires |m1| == |m2| == UMEM_SIZE && Run(m1, a).Some? && Run(m2, b).Some?
    requires Carried(a) <= Deliveries(PortRx, frames) && Carried(b) <= Deliveries(RxMonitor, frames)
    requires |Run(m1, a).value.accounted| == |Run(m2, b).value.accounted|
    ensures Agree(AccountAll(PortRx, NoTraffic(PortRx), Run(m1, a).value.accounted),
                  AccountAll(RxMonitor, NoTraffic(RxMonitor), Run(m2, b).value.accounted))
  {
    hide Corresponds, Agree, SeenAs, AccountAll, Run, Deliveries, PacketsAt;
    var s, t := Run(m1, a).value, Run(m2, b).value;
    PathsAgree(frames);
    DeliveredAsCarried(m1, a);
    DeliveredAsCarried(m2, b);
    PacketsAccounted(m1, a);
    PacketsAccounted(m2, b);
    var x, y := Deliveries(PortRx, frames), Deliveries(RxMonitor, frames);
    forall i | 0 <= i < |s.accounted| ensures Corresponds(s.accounted[i], t.accounted[i]) {
      assert s.accounted[i] == s.delivered[i] && t.accounted[i] == t.delivered[i];
      assert Carried(a)[i] == x[i] && Carried(b)[i] == y[i];
      SeenCorresponds(x[i], y[i], s.accounted[i], t.accounted[i]);
    }
    CorrespondingAgree(s.accounted, t.accounted);
  }
}
