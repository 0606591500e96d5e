/** What the two receive applications make of the packets they are handed, and why the path
    that parses in the kernel and the path that parses in userspace agree over whole runs. */
module XdpAccounting {
  import opened Bytes
  import opened Wrappers
  import opened DsaTag
  import opened XdpMeta

  const COUNTER_WRAP := 0x1_0000_0000_0000_0000

  datatype App = PortRx | RxMonitor

  datatype PortStats = PortStats(packets: u64, bytes: u64)

  datatype Stats = Stats(ports: seq<PortStats>, noMeta: u64, invalidMeta: u64, unknown: u64)

  function MaxPorts(app: App): nat { if app.PortRx? then 32 else 16 }

  function NoTraffic(app: App): Stats {
    Stats(seq(MaxPorts(app), _ => PortStats(0, 0)), 0, 0, 0)
  }

  function Next(counter: u64): u64 { (counter + 1) % COUNTER_WRAP }

  function CountPacket(st: Stats, port: byte, len: nat): (r: Stats)
    ensures |r.ports| == |st.ports|
  {
    var p := port as int;
    if p < |st.ports| then
      st.(ports := st.ports[p := PortStats(Next(st.ports[p].packets), (st.ports[p].bytes + len) % COUNTER_WRAP)])
    else st
  }

  /** A packet for the metadata reader: the record in front of it, if it can have one. */
  datatype Packet = Packet(record: Option<Meta>, frame: seq<byte>)

  function Account(app: App, st: Stats, p: Packet): (r: Stats)
    ensures |r.ports| == |st.ports|
  {
    match app
    case PortRx => (
      match p.record
      case None => st.(noMeta := Next(st.noMeta))
      case Some(m) =>
        if m.flags & FLAG_VALID == 0 then st.(invalidMeta := Next(st.invalidMeta))
        else CountPacket(st, m.srcPort, |p.frame|))
    case RxMonitor =>
      match ParseHmsTag(p.frame)
      case None => st.(unknown := Next(st.unknown))
      case Some((port, switchId)) => CountPacket(st, port, |p.frame|)
  }

  function AccountAll(app: App, st: Stats, ps: seq<Packet>): (r: Stats)
    ensures |r.ports| == |st.ports|
    decreases |ps|
  {
    if ps == [] then st else Account(app, AccountAll(app, st, ps[..|ps| - 1]), ps[|ps| - 1])
  }

  // ----- What the counters count -----------------------------------------------------------

  function Count(f: Packet -> bool, ps: seq<Packet>): nat
    decreases |ps|
  {
    if ps == [] then 0 else Count(f, ps[..|ps| - 1]) + if f(ps[|ps| - 1]) then 1 else 0
  }

  function TotalLength(f: Packet -> bool, ps: seq<Packet>): nat
    decreases |ps|
  {
    if ps == [] then 0 else TotalLength(f, ps[..|ps| - 1]) + if f(ps[|ps| - 1]) then |ps[|ps| - 1].frame| else 0
  }

  /** The packet has a record that is marked valid, or a tag, that names this port. */
  function Names(app: App, port: nat): Packet -> bool {
    (p: Packet) =>
      if app.PortRx? then p.record.Some? && p.record.value.flags & 2 == 2 && p.record.value.srcPort as int == port
      else TaggedFrame(p.frame) && SourcePort(p.frame) as int == port
  }

  function WithoutRecord(app: App): Packet -> bool { (p: Packet) => app.PortRx? && p.record == None }

  function InvalidRecord(app: App): Packet -> bool {
    (p: Packet) => app.PortRx? && p.record.Some? && p.record.value.flags & 2 == 0
  }

  function Untagged(app: App): Packet -> bool { (p: Packet) => app.RxMonitor? && !TaggedFrame(p.frame) }

  predicate PortCounted(app: App, ps: seq<Packet>, st: Stats, port: nat)
    requires port < |st.ports|
  {
    && st.ports[port].packets == Count(Names(app, port), ps) % 0x1_0000_0000_0000_0000
    && st.ports[port].bytes == TotalLength(Names(app, port), ps) % 0x1_0000_0000_0000_0000
  }

  predicate ErrorsCounted(app: App, ps: seq<Packet>, st: Stats) {
    && st.noMeta == Count(WithoutRecord(app), ps) % 0x1_0000_0000_0000_0000
    && st.invalidMeta == Count(InvalidRecord(app), ps) % 0x1_0000_0000_0000_0000
    && st.unknown == Count(Untagged(app), ps) % 0x1_0000_0000_0000_0000
  }

  /** Packets and bytes of each port, and the packets of each kind of error, modulo 2^64. */
  predicate Counted(app: App, ps: seq<Packet>, st: Stats) {
    && |st.ports| == (if app.PortRx? then 32 else 16)
    && (forall port :: 0 <= port < |st.ports| ==> PortCounted(app, ps, st, port))
    && ErrorsCounted(app, ps, st)
  }

  lemma WrapAbsorbs(x: int, y: int)
    ensures (x % COUNTER_WRAP + y) % COUNTER_WRAP == (x + y) % COUNTER_WRAP
  {
  }

  lemma OneMore(n: nat, more: bool)
    ensures (if more then Next(n % COUNTER_WRAP) else n % COUNTER_WRAP) == (n + if more then 1 else 0) % COUNTER_WRAP
  {
    WrapAbsorbs(n, 1);
  }

  lemma FlagBits(flags: byte)
    ensures flags & FLAG_VALID == 0 <==> flags & 2 == 0
    ensures flags & 2 == 0 || flags & 2 == 2
  {
  }

  /** What one packet does to the counter of a port. */
  lemma PortAfter(app: App, st: Stats, p: Packet, port: nat)
    requires port < |st.ports|
    ensures Account(app, st, p).ports[port]
         == if Names(app, port)(p) then PortStats(Next(st.ports[port].packets), (st.ports[port].bytes + |p.frame|) % COUNTER_WRAP)
            else st.ports[port]
  {
    hide ParseHmsTag, Next, TaggedFrame, SourcePort, SwitchId;
    ParseExact(p.frame);
    if p.record.Some? { FlagBits(p.record.value.flags); }
  }

  lemma ErrorsAfter(app: App, st: Stats, p: Packet)
    ensures var after := Account(app, st, p);
            && after.noMeta == (if WithoutRecord(app)(p) then Next(st.noMeta) else st.noMeta)
            && after.invalidMeta == (if InvalidRecord(app)(p) then Next(st.invalidMeta) else st.invalidMeta)
            && after.unknown == (if Untagged(app)(p) then Next(st.unknown) else st.unknown)
  {
    hide ParseHmsTag, Next, TaggedFrame, SourcePort, SwitchId;
    ParseExact(p.frame);
    if p.record.Some? { FlagBits(p.record.value.flags); }
  }

  lemma OnePacketOnPort(app: App, ps: seq<Packet>, p: Packet, st: Stats, port: nat)
    requires port < |st.ports| && PortCounted(app, ps, st, port)
    ensures PortCounted(app, ps + [p], Account(app, st, p), port)
  {
    hide Account, Next, Names;
    PortAfter(app, st, p, port);
    assert (ps + [p])[..|ps|] == ps;
    var f := Names(app, port);
    OneMore(Count(f, ps), f(p));
    WrapAbsorbs(TotalLength(f, ps), |p.frame|);
  }

  lemma OnePacketErrors(app: App, ps: seq<Packet>, p: Packet, st: Stats)
    requires ErrorsCounted(app, ps, st)
    ensures ErrorsCounted(app, ps + [p], Account(app, st, p))
  {
    hide Account, Next, WithoutRecord, InvalidRecord, Untagged;
    ErrorsAfter(app, st, p);
    assert (ps + [p])[..|ps|] == ps;
    OneMore(Count(WithoutRecord(app), ps), WithoutRecord(app)(p));
    OneMore(Count(InvalidRecord(app), ps), InvalidRecord(app)(p));
    OneMore(Count(Untagged(app), ps), Untagged(app)(p));
  }

  lemma NothingCounted(app: App)
    ensures Counted(app, [], NoTraffic(app))
  {
  }

  /** The statistics after a run are counts over its packets. */
  lemma {:induction false} StatisticsExact(app: App, ps: seq<Packet>)
    ensures Counted(app, ps, AccountAll(app, NoTraffic(app), ps))
    decreases |ps|
  {
    hide Account, PortCounted, ErrorsCounted, NoTraffic;
    if ps == [] {
      NothingCounted(app);
    } else {
      var before, p := ps[..|ps| - 1], ps[|ps| - 1];
      var st := AccountAll(app, NoTraffic(app), before);
      StatisticsExact(app, before);
      assert before + [p] == ps;
      forall port | 0 <= port < |st.ports| ensures PortCounted(app, ps, Account(app, st, p), port) {
        OnePacketOnPort(app, before, p, st, port);
      }
      OnePacketErrors(app, before, p, st);
    }
  }

  // ----- Runs ------------------------------------------------------------------------------

  /** The packets a run of frames puts in front of each application, metadata room given and
      a socket bound. */
  function Deliveries(app: App, frames: seq<seq<byte>>): (ps: seq<Packet>)
    decreases |frames|
  {
    if frames == [] then [] else
    var before, frame := Deliveries(app, frames[..|frames| - 1]), frames[|frames| - 1];
    match app
    case PortRx =>
      var o := MetaOutcome(frame, true, true);
      if o.action == Redirect then before + [Packet(o.record, o.frame)] else before
    case RxMonitor =>
      if XdpRedirectXsk(frame, true) == Redirect then before + [Packet(None, frame)] else before
  }

  /** Deliveries follow the frames one by one. */
  lemma {:induction false} DeliveriesAppend(app: App, a: seq<seq<byte>>, b: seq<seq<byte>>)
    ensures Deliveries(app, a + b) == Deliveries(app, a) + Deliveries(app, b)
    decreases |b|
  {
    hide MetaOutcome, XdpRedirectXsk;
    if b == [] {
      assert a + b == a;
    } else {
      assert (a + b)[..|a + b| - 1] == a + b[..|b| - 1];
      DeliveriesAppend(app, a, b[..|b| - 1]);
    }
  }

  /** What one frame puts in front of each application: a taken one goes to the monitor as it
      is, and from 18 bytes on to the reader, stripped and with its record. */
  lemma DeliveriesOne(frame: seq<byte>)
    ensures Deliveries(RxMonitor, [frame]) == if TakenFrame(frame) then [Packet(None, frame)] else []
    ensures Deliveries(PortRx, [frame]) ==
              if TakenFrame(frame) && |frame| >= 18 then
                [Packet(Some(Meta(SourcePort(frame), SwitchId(frame), Priority(frame), 3)), frame[..12] + frame[16..])]
              else []
  {
    hide MetaOutcome, XdpRedirectXsk, TakenFrame, SourcePort, SwitchId, Priority;
    assert [frame][..0] == [];
    MetaOutcomeExact(frame, true, true);
    RedirectExact(frame, true);
  }

  /** The same packet as the two applications see it. */
  predicate Corresponds(stripped: Packet, tagged: Packet) {
    && |tagged.frame| >= 18 && stripped.frame == StripTag(tagged.frame)
    && stripped.record.Some?
    && stripped.record.value.flags == FLAG_VALID | FLAG_TAG_STRIPPED
    && ParseHmsTag(tagged.frame) == Some((stripped.record.value.srcPort, stripped.record.value.switchId))
    && stripped.record.value.srcPort < 16
  }

  /** Equal packet counts on every port, four bytes a packet between the byte counts, and no
      error counted anywhere. */
  predicate Agree(meta: Stats, monitor: Stats) {
    && |meta.ports| == 32 && |monitor.ports| == 16
    && (forall p :: 0 <= p < 16 ==>
          && meta.ports[p].packets == monitor.ports[p].packets
          && monitor.ports[p].bytes == (meta.ports[p].bytes + TAG_LEN * meta.ports[p].packets) % COUNTER_WRAP)
    && (forall p :: 16 <= p < 32 ==> meta.ports[p] == PortStats(0, 0))
    && meta.noMeta == 0 && meta.invalidMeta == 0 && meta.unknown == 0
    && monitor.noMeta == 0 && monitor.invalidMeta == 0 && monitor.unknown == 0
  }

  /** The two programs take the same frames, except that the stripping one lets runts go. */
  lemma VerdictsAgree(frame: seq<byte>)
    ensures MetaOutcome(frame, true, true).action == XdpRedirectXsk(frame, true)
            <==> Classify(frame) == None || |frame| >= 18
  {
    hide Classify;
  }

  lemma PortIsSmall(tci: bv16)
    ensures DecodeTci(tci).Some? ==> DecodeTci(tci).value.port < 16
  {
  }

  lemma TakenFrameCorresponds(frame: seq<byte>)
    requires |frame| >= 18 && Classify(frame).Some?
    ensures var o := MetaOutcome(frame, true, true);
            Corresponds(Packet(o.record, o.frame), Packet(None, frame))
  {
    hide DecodeTci, Be16, IsLinkLocal;
    ParserAgreesWithClassifier(frame);
    PortIsSmall(Be16(frame[14], frame[15]));
  }

  lemma WrapAbsorbsTag(x: int, y: int)
    ensures (y + TAG_LEN * (x % COUNTER_WRAP)) % COUNTER_WRAP == (y + TAG_LEN * x) % COUNTER_WRAP
  {
  }

  lemma BytesDifference(a: u64, packets: u64, b: u64, len: nat)
    requires b == (a + TAG_LEN * packets) % COUNTER_WRAP
    ensures (b + (len + TAG_LEN)) % COUNTER_WRAP == ((a + len) % COUNTER_WRAP + TAG_LEN * Next(packets)) % COUNTER_WRAP
  {
    WrapAbsorbs(a + TAG_LEN * packets, len + TAG_LEN);
    WrapAbsorbs(a + len, TAG_LEN * (packets + 1));
    WrapAbsorbsTag(packets + 1, (a + len) % COUNTER_WRAP);
  }

  lemma CountKeepsAgreement(meta: Stats, monitor: Stats, port: byte, len: nat)
    requires Agree(meta, monitor) && port as int < 16
    ensures Agree(CountPacket(meta, port, len), CountPacket(monitor, port, len + TAG_LEN))
  {
    hide Next;
    var p := port as int;
    BytesDifference(meta.ports[p].bytes, meta.ports[p].packets, monitor.ports[p].bytes, len);
  }

  lemma SmallPort(port: byte)
    requires port < 16
    ensures port as int < 16
  {
  }

  lemma AccountKeepsAgreement(meta: Stats, monitor: Stats, stripped: Packet, tagged: Packet)
    requires Agree(meta, monitor) && Corresponds(stripped, tagged)
    ensures Agree(Account(PortRx, meta, stripped), Account(RxMonitor, monitor, tagged))
  {
    hide ParseHmsTag, Agree, CountPacket;
    var m := stripped.record.value;
    assert m.flags & FLAG_VALID != 0;
    SmallPort(m.srcPort);
    CountKeepsAgreement(meta, monitor, m.srcPort, |stripped.frame|);
  }

  lemma NothingYet()
    ensures Agree(NoTraffic(PortRx), NoTraffic(RxMonitor))
  {
  }

  /** Over any run of frames of 18 or more bytes both paths deliver the same packets in the
      same order, with the same port and switch, and end with agreeing statistics. */
  lemma {:induction false} PathsAgree(frames: seq<seq<byte>>)
    requires forall f :: f in frames ==> |f| >= 18
    ensures var stripped, tagged := Deliveries(PortRx, frames), Deliveries(RxMonitor, frames);
            && |stripped| == |tagged|
            && (forall i :: 0 <= i < |stripped| ==> Corresponds(stripped[i], tagged[i]))
            && Agree(AccountAll(PortRx, NoTraffic(PortRx), stripped), AccountAll(RxMonitor, NoTraffic(RxMonitor), tagged))
    decreases |frames|
  {
    hide Classify, Corresponds, Agree, Account, MetaOutcome;
    if frames == [] {
      assert Agree(NoTraffic(PortRx), NoTraffic(RxMonitor)) by { NothingYet(); }
    } else {
      var before, frame := frames[..|frames| - 1], frames[|frames| - 1];
      PathsAgree(before);
      VerdictsAgree(frame);
      var s, t := Deliveries(PortRx, before), Deliveries(RxMonitor, before);
      if Classify(frame).Some? {
        TakenFrameCorresponds(frame);
        var o := MetaOutcome(frame, true, true);
        var ps, pt := Packet(o.record, o.frame), Packet(None, frame);
        assert (s + [ps])[..|s|] == s && (t + [pt])[..|t|] == t;
        AccountKeepsAgreement(AccountAll(PortRx, NoTraffic(PortRx), s), AccountAll(RxMonitor, NoTraffic(RxMonitor), t), ps, pt);
      }
    }
  }
}
