/** The circulation of UMEM frames between the fill ring, the kernel, the receive ring and the
    batch in hand, with the kernel free to act between any two steps of the application, and
    what becomes of the packets in them. */
module XdpUmem {
  import opened Bytes
  import opened Wrappers
  import opened XdpMeta
  import opened XdpAccounting
  import opened XskRing
  import opened XdpReceiver
  import opened Seqs

  /** Where the application is in its receive loop. */
  datatype Phase =
    | Idle
    | Peeked(n: nat)
    | Copying(n: nat, copied: seq<u64>)
    | Released(copied: seq<u64>)
    | Overrun

  /** `delivered` and `accounted` record the packets the kernel has put on the receive ring, as
      they were then, and those the application has accounted for, as it saw them. */
  datatype State = State(memory: seq<byte>, fill: seq<u64>, held: seq<nat>, rx: seq<Desc>, phase: Phase,
                         delivered: seq<Packet>, accounted: seq<Packet>)

  datatype Step =
    | KernelTake
    | KernelDeliver(k: nat, offset: nat, packet: Packet)
    | Peek(n: nat) | Reserve | Copy | Release | Submit

  const UMEM_SIZE := NUM_FRAMES * FRAME_SIZE

  function Initial(memory: seq<byte>): State { State(memory, InitialFill(), [], [], Idle, [], []) }

  function Base(addr: u64): nat { addr - addr % FRAME_SIZE }

  function BaseOf(d: Desc): nat { Base(d.addr) }

  /** The packet is written where it is delivered, its record just in front of it. */
  function Written(memory: seq<byte>, at: nat, packet: Packet): (t: seq<byte>)
    requires at + |packet.frame| <= |memory| && (packet.record.Some? ==> META_SIZE <= at)
    ensures |t| == |memory|
  {
    var recorded := if packet.record == None then memory else Blit(memory, at - META_SIZE, MetaBytes(packet.record.value));
    Blit(recorded, at, packet.frame)
  }

  /** The kernel can put this packet at this place of a frame it holds. */
  predicate CanDeliver(s: State, k: nat, offset: nat, packet: Packet) {
    && k < |s.held| && |s.rx| < RING_SIZE
    && (if packet.record.Some? then META_SIZE <= offset else true)
    && offset < FRAME_SIZE && offset + |packet.frame| <= FRAME_SIZE
    && s.held[k] + FRAME_SIZE <= |s.memory| && |s.memory| <= UMEM_SIZE
  }

  /** One atomic step, if it can be taken. The kernel masks what it takes from the fill ring
      to the frame it lies in, and delivers a packet anywhere inside a frame it holds. The
      application may peek at fewer entries than there are. A batch whose reservation fails is
      written to slots that were not reserved, after which nothing is known: that is the phase
      `Overrun`. */
  function Do(s: State, step: Step): Option<State> {
    match step
    case KernelTake =>
      if s.fill == [] then None
      else Some(s.(fill := s.fill[1..], held := s.held + [Base(s.fill[0])]))
    case KernelDeliver(k, offset, packet) =>
      if !CanDeliver(s, k, offset, packet) then None
      else
        var d := Desc(s.held[k] + offset, |packet.frame|);
        var memory := Written(s.memory, d.addr, packet);
        Some(s.(memory := memory, held := Without(s.held, k), rx := s.rx + [d],
                delivered := s.delivered + [PacketAt(memory, d)]))
    case Peek(n) =>
      if s.phase != Idle || n == 0 || n > |s.rx| || n > RX_BATCH_SIZE then None
      else Some(s.(phase := Peeked(n)))
    case Reserve =>
      if !s.phase.Peeked? then None
      else Some(s.(phase := if |s.fill| + s.phase.n <= RING_SIZE then Copying(s.phase.n, []) else Overrun))
    case Copy =>
      if !s.phase.Copying? || |s.phase.copied| >= s.phase.n || |s.phase.copied| >= |s.rx| then None
      else
        var d := s.rx[|s.phase.copied|];
        if !InMemory(s.memory, d) then None
        else Some(s.(phase := Copying(s.phase.n, s.phase.copied + [d.addr]),
                     accounted := s.accounted + [PacketAt(s.memory, d)]))
    case Release =>
      if !s.phase.Copying? || |s.phase.copied| != s.phase.n || s.phase.n > |s.rx| then None
      else Some(s.(rx := s.rx[s.phase.n..], phase := Released(s.phase.copied)))
    case Submit =>
      if !s.phase.Released? then None
      else Some(s.(fill := s.fill + s.phase.copied, phase := Idle))
  }

  /** The state after a run, if every step of it could be taken. */
  function RunFrom(start: State, steps: seq<Step>): Option<State>
    decreases |steps|
  {
    if steps == [] then Some(start) else
    match RunFrom(start, steps[..|steps| - 1])
    case None => None
    case Some(s) => Do(s, steps[|steps| - 1])
  }

  function Run(memory: seq<byte>, steps: seq<Step>): Option<State> { RunFrom(Initial(memory), steps) }

  function InHand(phase: Phase): seq<u64> { if phase.Released? then phase.copied else [] }

  /** Every place a frame can be in, frame by frame. */
  function Whereabouts(s: State): seq<nat> {
    Map(Base, s.fill) + s.held + Map(BaseOf, s.rx) + Map(Base, InHand(s.phase))
  }

  function AllFrames(): (fs: seq<nat>) { Map(Base, InitialFill()) }

  ghost predicate Conserved(s: State) {
    multiset(Whereabouts(s)) == multiset(AllFrames())
  }

  predicate HeldAligned(s: State) {
    forall k :: 0 <= k < |s.held| ==> s.held[k] % FRAME_SIZE == 0
  }

  predicate BatchInOrder(s: State) {
    match s.phase
    case Peeked(n) => n <= |s.rx|
    case Copying(n, copied) => |copied| <= n <= |s.rx| && copied == Map(AddrOf, s.rx[..|copied|])
    case Overrun => false
    case _ => true
  }

  predicate InOneFrame(d: Desc) { d.addr + d.len <= BaseOf(d) + FRAME_SIZE }

  predicate RxInFrames(s: State) {
    |s.memory| == UMEM_SIZE && forall i :: 0 <= i < |s.rx| ==> InOneFrame(s.rx[i]) && InMemory(s.memory, s.rx[i])
  }

  /** The descriptors that have not been accounted for. */
  function Waiting(s: State): (ds: seq<Desc>)
    ensures forall i :: 0 <= i < |ds| ==> ds[i] in s.rx
  {
    if s.phase.Copying? && |s.phase.copied| <= |s.rx| then s.rx[|s.phase.copied|..] else s.rx
  }

  /** What was accounted for and what waits on the ring is what was delivered, in order and
      unchanged. */
  predicate Intact(s: State)
    requires RxInFrames(s)
  {
    s.delivered == s.accounted + PacketsAt(s.memory, Waiting(s))
  }

  ghost predicate Circulates(s: State) {
    Conserved(s) && HeldAligned(s) && BatchInOrder(s)
  }

  predicate PacketsKept(s: State) {
    RxInFrames(s) && Intact(s)
  }

  ghost predicate Inv(s: State) {
    Circulates(s) && PacketsKept(s)
  }

  // ----- Circulation -----------------------------------------------------------------------

  lemma Census(s: State)
    ensures multiset(Whereabouts(s)) == multiset(Map(Base, s.fill)) + multiset(s.held)
                                        + multiset(Map(BaseOf, s.rx)) + multiset(Map(Base, InHand(s.phase)))
  {
    hide Base, BaseOf;
  }

  lemma HeadCounts<A, B>(f: A -> B, s: seq<A>)
    requires s != []
    ensures multiset(Map(f, s)) == multiset{f(s[0])} + multiset(Map(f, s[1..]))
  {
    assert Map(f, s) == [f(s[0])] + Map(f, s[1..]);
  }

  lemma AppendCounts<A, B>(f: A -> B, s: seq<A>, t: seq<A>)
    ensures multiset(Map(f, s + t)) == multiset(Map(f, s)) + multiset(Map(f, t))
  {
    assert Map(f, s + t) == Map(f, s) + Map(f, t);
  }

  lemma SameBases(s: seq<Desc>)
    ensures Map(Base, Map(AddrOf, s)) == Map(BaseOf, s)
  {
  }

  /** As many frames are in circulation as the fill ring has slots. */
  lemma Circulation(s: State)
    requires multiset(Whereabouts(s)) == multiset(AllFrames())
    ensures |s.fill| + |s.held| + |s.rx| + |InHand(s.phase)| == FILL_RING_SIZE
  {
    SameLength(Whereabouts(s), AllFrames());
  }

  lemma TakeConserves(s: State)
    requires s.fill != []
    ensures multiset(Whereabouts(Do(s, KernelTake).value)) == multiset(Whereabouts(s))
  {
    hide Map, Base, BaseOf, Whereabouts;
    Census(s);
    Census(Do(s, KernelTake).value);
    HeadCounts(Base, s.fill);
  }

  lemma OneDesc(d: Desc)
    ensures Map(BaseOf, [d]) == [BaseOf(d)]
  {
  }

  lemma DeliverConserves(s: State, step: Step)
    requires step.KernelDeliver? && Do(s, step).Some? && HeldAligned(s)
    ensures multiset(Whereabouts(Do(s, step).value)) == multiset(Whereabouts(s))
  {
    hide Map, Whereabouts, Without, Written, PacketAt;
    Census(s);
    Census(Do(s, step).value);
    WithoutContents(s.held, step.k);
    var d := Desc(s.held[step.k] + step.offset, |step.packet.frame|);
    assert BaseOf(d) == s.held[step.k];
    AppendCounts(BaseOf, s.rx, [d]);
    OneDesc(d);
    assert multiset(s.held) == multiset(s.held) - multiset{s.held[step.k]} + multiset{s.held[step.k]};
  }

  lemma KernelStepCirculates(s: State, step: Step)
    requires Circulates(s) && Do(s, step).Some? && (step.KernelTake? || step.KernelDeliver?)
    ensures Circulates(Do(s, step).value)
  {
    hide Map, Whereabouts, Written, PacketAt;
    var t := Do(s, step).value;
    if step.KernelTake? {
      TakeConserves(s);
    } else {
      DeliverConserves(s, step);
      if s.phase.Copying? { assert t.rx[..|s.phase.copied|] == s.rx[..|s.phase.copied|]; }
    }
  }

  lemma NothingInHand()
    ensures Map(Base, []) == [] && Map(BaseOf, []) == []
  {
  }

  lemma BatchCounts(rx: seq<Desc>, n: nat)
    requires n <= |rx|
    ensures multiset(Map(BaseOf, rx)) == multiset(Map(Base, Map(AddrOf, rx[..n]))) + multiset(Map(BaseOf, rx[n..]))
  {
    hide Map, Base, BaseOf;
    SameBases(rx[..n]);
    AppendCounts(BaseOf, rx[..n], rx[n..]);
    assert rx == rx[..n] + rx[n..];
  }

  lemma ReleaseConserves(s: State)
    requires Do(s, Release).Some? && BatchInOrder(s)
    ensures multiset(Whereabouts(Do(s, Release).value)) == multiset(Whereabouts(s))
  {
    hide Map, Base, BaseOf, Whereabouts;
    Census(s);
    Census(Do(s, Release).value);
    BatchCounts(s.rx, s.phase.n);
    NothingInHand();
  }

  lemma SubmitConserves(s: State)
    requires Do(s, Submit).Some?
    ensures multiset(Whereabouts(Do(s, Submit).value)) == multiset(Whereabouts(s))
  {
    hide Map, Base, BaseOf, Whereabouts;
    Census(s);
    Census(Do(s, Submit).value);
    AppendCounts(Base, s.fill, s.phase.copied);
    NothingInHand();
  }

  lemma CopyKeepsOrder(rx: seq<Desc>, copied: seq<u64>)
    requires |copied| < |rx| && copied == Map(AddrOf, rx[..|copied|])
    ensures copied + [rx[|copied|].addr] == Map(AddrOf, rx[..|copied| + 1])
  {
  }

  lemma NoAddresses(rx: seq<Desc>)
    ensures Map(AddrOf, rx[..0]) == []
  {
  }

  lemma SamePlaces(s: State, t: State)
    requires Conserved(s) && HeldAligned(s)
    requires s.fill == t.fill && s.held == t.held && s.rx == t.rx && !s.phase.Released? && !t.phase.Released?
    ensures Conserved(t) && HeldAligned(t)
  {
  }

  lemma SameFrames(s: State, t: State)
    requires Conserved(s) && HeldAligned(s)
    requires s.held == t.held && multiset(Whereabouts(t)) == multiset(Whereabouts(s))
    ensures Conserved(t) && HeldAligned(t)
  {
    hide Whereabouts;
  }

  lemma RoomInFillRing(s: State)
    requires Conserved(s) && BatchInOrder(s) && s.phase.Peeked?
    ensures |s.fill| + s.phase.n <= RING_SIZE
  {
    hide Whereabouts, AllFrames;
    Circulation(s);
  }

  lemma ApplicationStepCirculates(s: State, step: Step)
    requires Circulates(s) && Do(s, step).Some? && !step.KernelTake? && !step.KernelDeliver?
    ensures Circulates(Do(s, step).value)
  {
    hide Map, Whereabouts, Conserved, HeldAligned, PacketAt;
    var t := Do(s, step).value;
    match step
    case Peek(_) => SamePlaces(s, t);
    case Reserve =>
      SamePlaces(s, t);
      RoomInFillRing(s);
      NoAddresses(s.rx);
    case Copy =>
      SamePlaces(s, t);
      CopyKeepsOrder(s.rx, s.phase.copied);
    case Release =>
      ReleaseConserves(s);
      SameFrames(s, t);
    case Submit =>
      SubmitConserves(s);
      SameFrames(s, t);
  }

  lemma AllFramesDistinct()
    ensures |AllFrames()| == FILL_RING_SIZE && Distinct(AllFrames())
    ensures forall i :: 0 <= i < FILL_RING_SIZE ==> AllFrames()[i] == i * FRAME_SIZE
  {
    forall i | 0 <= i < FILL_RING_SIZE ensures AllFrames()[i] == i * FRAME_SIZE {
      assert InitialFill()[i] == i * FRAME_SIZE;
      assert (i * FRAME_SIZE) % FRAME_SIZE == 0;
    }
  }

  // ----- Packets ---------------------------------------------------------------------------

  /** A frame the kernel holds is inside the memory and is not the frame of any descriptor on
      the receive ring. */
  lemma FramesApart(s: State, k: nat, i: nat)
    requires Conserved(s) && k < |s.held| && i < |s.rx|
    ensures s.held[k] != BaseOf(s.rx[i])
  {
    hide Base, AllFrames, BaseOf, InHand;
    AllFramesDistinct();
    DistinctPermutation(AllFrames(), Whereabouts(s));
    var w, a := Whereabouts(s), |s.fill| + k;
    var b := |s.fill| + |s.held| + i;
    assert w[a] == s.held[k] && w[b] == BaseOf(s.rx[i]);
  }

  lemma HeldInMemory(s: State, k: nat)
    requires Conserved(s) && k < |s.held|
    ensures s.held[k] + FRAME_SIZE <= UMEM_SIZE
  {
    hide Base, AllFrames, BaseOf, InHand;
    AllFramesDistinct();
    assert Whereabouts(s)[|s.fill| + k] == s.held[k];
    assert s.held[k] in multiset(Whereabouts(s));
    var i := Occurrence(AllFrames(), s.held[k]);
  }

  /** What a descriptor stands for is decided inside its own frame. */
  lemma PacketLocal(m: seq<byte>, t: seq<byte>, d: Desc)
    requires |m| == |t| && InMemory(m, d) && InOneFrame(d)
    requires forall x :: BaseOf(d) <= x < BaseOf(d) + FRAME_SIZE && x < |m| ==> m[x] == t[x]
    ensures PacketAt(m, d) == PacketAt(t, d)
  {
    assert m[d.addr..d.addr + d.len] == t[d.addr..d.addr + d.len];
  }

  lemma WrittenInside(memory: seq<byte>, base: nat, offset: nat, packet: Packet)
    requires base + FRAME_SIZE <= |memory| && offset + |packet.frame| <= FRAME_SIZE
    requires packet.record.Some? ==> META_SIZE <= offset
    ensures forall x :: 0 <= x < |memory| && (x < base || x >= base + FRAME_SIZE) ==> Written(memory, base + offset, packet)[x] == memory[x]
  {
    hide MetaBytes;
  }

  lemma FramesDisjoint(a: nat, b: nat)
    requires a % FRAME_SIZE == 0 && b % FRAME_SIZE == 0 && a != b
    ensures a + FRAME_SIZE <= b || b + FRAME_SIZE <= a
  {
  }

  /** The packets that are on the ring stay as they are while another one is delivered. */
  lemma RingUntouched(s: State, k: nat, offset: nat, packet: Packet, i: nat)
    requires Conserved(s) && HeldAligned(s) && RxInFrames(s) && CanDeliver(s, k, offset, packet) && i < |s.rx|
    ensures PacketAt(Written(s.memory, s.held[k] + offset, packet), s.rx[i]) == PacketAt(s.memory, s.rx[i])
  {
    hide Written, PacketAt, Conserved;
    WrittenInside(s.memory, s.held[k], offset, packet);
    FramesApart(s, k, i);
    FramesDisjoint(s.held[k], BaseOf(s.rx[i]));
    PacketLocal(s.memory, Written(s.memory, s.held[k] + offset, packet), s.rx[i]);
  }

  lemma AlignedBase(base: nat, offset: nat)
    requires base % FRAME_SIZE == 0 && offset < FRAME_SIZE && base + offset < 0x1_0000_0000_0000_0000
    ensures Base(base + offset) == base
  {
  }

  lemma PacketsSame(m: seq<byte>, t: seq<byte>, ds: seq<Desc>)
    requires |m| == |t| && forall i :: 0 <= i < |ds| ==> InMemory(m, ds[i]) && PacketAt(m, ds[i]) == PacketAt(t, ds[i])
    ensures PacketsAt(m, ds) == PacketsAt(t, ds)
  {
    hide PacketAt;
  }

  lemma LastPacket(memory: seq<byte>, ds: seq<Desc>, d: Desc)
    requires InMemory(memory, d) && forall i :: 0 <= i < |ds| ==> InMemory(memory, ds[i])
    ensures PacketsAt(memory, ds + [d]) == PacketsAt(memory, ds) + [PacketAt(memory, d)]
  {
    hide PacketAt;
  }

  /** Delivering leaves every packet on the ring as it was. */
  lemma DeliverLeavesRing(s: State, k: nat, offset: nat, packet: Packet)
    requires Inv(s) && CanDeliver(s, k, offset, packet)
    ensures var memory := Written(s.memory, s.held[k] + offset, packet);
            && (forall i :: 0 <= i < |Waiting(s)| ==> InMemory(memory, Waiting(s)[i]))
            && PacketsAt(memory, Waiting(s)) == PacketsAt(s.memory, Waiting(s))
  {
    hide Written, PacketAt, PacketsAt, Conserved, Waiting, InOneFrame;
    var memory := Written(s.memory, s.held[k] + offset, packet);
    forall i | 0 <= i < |Waiting(s)|
      ensures InMemory(memory, Waiting(s)[i]) && PacketAt(s.memory, Waiting(s)[i]) == PacketAt(memory, Waiting(s)[i])
    {
      assert Waiting(s)[i] in s.rx;
      var j :| 0 <= j < |s.rx| && s.rx[j] == Waiting(s)[i];
      RingUntouched(s, k, offset, packet, j);
    }
    PacketsSame(s.memory, memory, Waiting(s));
  }

  lemma DeliverKeepsPackets(s: State, step: Step)
    requires Inv(s) && step.KernelDeliver? && Do(s, step).Some?
    ensures PacketsKept(Do(s, step).value)
  {
    hide Written, PacketAt, PacketsAt, Conserved, Without, Base;
    var t, k, offset := Do(s, step).value, step.k, step.offset;
    var d := Desc(s.held[k] + offset, |step.packet.frame|);
    assert InOneFrame(d) by { AlignedBase(s.held[k], offset); }
    assert RxInFrames(t);
    assert Waiting(t) == Waiting(s) + [d];
    DeliverLeavesRing(s, k, offset, step.packet);
    LastPacket(t.memory, Waiting(s), d);
  }

  lemma FirstPacket(memory: seq<byte>, ds: seq<Desc>)
    requires ds != [] && forall i :: 0 <= i < |ds| ==> InMemory(memory, ds[i])
    ensures forall i :: 0 <= i < |ds[1..]| ==> InMemory(memory, ds[1..][i])
    ensures PacketsAt(memory, ds) == [PacketAt(memory, ds[0])] + PacketsAt(memory, ds[1..])
  {
    hide PacketAt;
  }

  lemma CopyKeepsPackets(s: State)
    requires RxInFrames(s) && Intact(s) && Do(s, Copy).Some?
    ensures PacketsKept(Do(s, Copy).value)
  {
    hide PacketAt, PacketsAt, InOneFrame, InMemory;
    var t, waiting := Do(s, Copy).value, Waiting(s);
    assert waiting[0] == s.rx[|s.phase.copied|] && waiting[1..] == Waiting(t);
    FirstPacket(s.memory, waiting);
    assert s.accounted + ([PacketAt(s.memory, waiting[0])] + PacketsAt(s.memory, waiting[1..]))
        == t.accounted + PacketsAt(t.memory, Waiting(t));
  }

  lemma SamePackets(s: State, t: State)
    requires RxInFrames(s) && Intact(s)
    requires t.memory == s.memory && t.delivered == s.delivered && t.accounted == s.accounted
    requires (forall d :: d in t.rx ==> d in s.rx) && Waiting(t) == Waiting(s)
    ensures PacketsKept(t)
  {
    hide PacketAt, InOneFrame, InMemory, PacketsAt, Waiting;
    forall i | 0 <= i < |t.rx| ensures InOneFrame(t.rx[i]) && InMemory(t.memory, t.rx[i]) {
      assert t.rx[i] in s.rx;
    }
  }

  lemma OtherStepKeepsPackets(s: State, step: Step)
    requires Inv(s) && !step.KernelDeliver? && Do(s, step).Some?
    ensures PacketsKept(Do(s, step).value)
  {
    hide PacketAt, PacketsAt, Conserved, HeldAligned, RxInFrames, Intact, Map;
    if step.Copy? {
      CopyKeepsPackets(s);
    } else {
      assert Waiting(Do(s, step).value) == Waiting(s);
      SamePackets(s, Do(s, step).value);
    }
  }

  // ----- Runs ------------------------------------------------------------------------------

  lemma StepKeepsInv(s: State, step: Step)
    requires Inv(s) && Do(s, step).Some?
    ensures Inv(Do(s, step).value)
  {
    hide Circulates, PacketsKept, Do;
    if step.KernelTake? || step.KernelDeliver? {
      KernelStepCirculates(s, step);
    } else {
      ApplicationStepCirculates(s, step);
    }
    if step.KernelDeliver? {
      DeliverKeepsPackets(s, step);
    } else {
      OtherStepKeepsPackets(s, step);
    }
  }

  lemma InitialInv(memory: seq<byte>)
    requires |memory| == UMEM_SIZE
    ensures Inv(Initial(memory))
  {
    hide Map, InitialFill;
    assert Map(BaseOf, []) == [] && Map(Base, []) == [];
    assert Whereabouts(Initial(memory)) == AllFrames();
  }

  /** In every state of every run each frame is in exactly one place, and every packet is as it
      was delivered. */
  lemma {:induction false} RunKeepsInv(memory: seq<byte>, steps: seq<Step>)
    requires |memory| == UMEM_SIZE && Run(memory, steps).Some?
    ensures Inv(Run(memory, steps).value)
    decreases |steps|
  {
    hide Inv, Do;
    if steps == [] {
      InitialInv(memory);
    } else {
      RunKeepsInv(memory, steps[..|steps| - 1]);
      StepKeepsInv(Run(memory, steps[..|steps| - 1]).value, steps[|steps| - 1]);
    }
  }

  /** No frame is ever in two places, none is lost, the warning about a full fill queue is
      never printed, and the kernel always finds room on the receive ring for a frame it
      holds. */
  lemma BuffersConserved(memory: seq<byte>, steps: seq<Step>)
    requires |memory| == UMEM_SIZE && Run(memory, steps).Some?
    ensures var s := Run(memory, steps).value;
            && Distinct(Whereabouts(s)) && multiset(Whereabouts(s)) == multiset(AllFrames())
            && s.phase != Overrun
            && (s.phase.Peeked? ==> |s.fill| + s.phase.n <= FILL_RING_SIZE)
            && (s.held != [] ==> |s.rx| < RING_SIZE)
            && |s.rx| + |s.fill| <= FILL_RING_SIZE
            && (forall k :: 0 <= k < |s.held| ==> s.held[k] + FRAME_SIZE <= UMEM_SIZE)
  {
    hide Distinct, Whereabouts, AllFrames;
    RunKeepsInv(memory, steps);
    forall k | 0 <= k < |Run(memory, steps).value.held| ensures Run(memory, steps).value.held[k] + FRAME_SIZE <= UMEM_SIZE {
      HeldInMemory(Run(memory, steps).value, k);
    }
    AllFramesDistinct();
    DistinctPermutation(AllFrames(), Whereabouts(Run(memory, steps).value));
    Circulation(Run(memory, steps).value);
  }

  /** The application accounts for the packets that were delivered, in order, each once and with
      the bytes it had then, however the kernel reuses the memory meanwhile; those it has yet
      to account for are still there unchanged. */
  lemma PacketsAccounted(memory: seq<byte>, steps: seq<Step>)
    requires |memory| == UMEM_SIZE && Run(memory, steps).Some?
    ensures var s := Run(memory, steps).value;
            && s.accounted <= s.delivered
            && (forall i :: 0 <= i < |s.rx| ==> InMemory(s.memory, s.rx[i]))
            && s.delivered == s.accounted + PacketsAt(s.memory, Waiting(s))
  {
    hide Circulates, PacketAt;
    RunKeepsInv(memory, steps);
  }

  // ----- One batch without interruption ------------------------------------------------------

  function Copies(n: nat): (steps: seq<Step>)
    ensures |steps| == n
  {
    seq(n, _ => Copy)
  }

  lemma RunStep(start: State, steps: seq<Step>, step: Step)
    requires RunFrom(start, steps).Some?
    ensures RunFrom(start, steps + [step]) == Do(RunFrom(start, steps).value, step)
  {
    assert (steps + [step])[..|steps|] == steps;
  }

  lemma NoPacketsYet(memory: seq<byte>, rx: seq<Desc>)
    ensures PacketsAt(memory, rx[..0]) == []
  {
  }

  lemma OneMoreCopied(memory: seq<byte>, rx: seq<Desc>, i: nat)
    requires i < |rx| && forall k :: 0 <= k < |rx| ==> InMemory(memory, rx[k])
    ensures PacketsAt(memory, rx[..i + 1]) == PacketsAt(memory, rx[..i]) + [PacketAt(memory, rx[i])]
  {
    hide PacketAt;
  }

  /** The state after copying the first `i` descriptors of a batch of `n`. */
  function Copied(s: State, n: nat, i: nat): State
    requires i <= |s.rx| && RxInFrames(s)
  {
    s.(phase := Copying(n, Map(AddrOf, s.rx[..i])), accounted := s.accounted + PacketsAt(s.memory, s.rx[..i]))
  }

  lemma CopyOne(s: State, n: nat, i: nat)
    requires i < n <= |s.rx| && RxInFrames(s)
    ensures Do(Copied(s, n, i), Copy) == Some(Copied(s, n, i + 1))
  {
    hide PacketAt, PacketsAt, InOneFrame, Map;
    OneMoreCopied(s.memory, s.rx, i);
    assert |Map(AddrOf, s.rx[..i])| == i;
    CopyKeepsOrder(s.rx, Map(AddrOf, s.rx[..i]));
    assert s.accounted + PacketsAt(s.memory, s.rx[..i]) + [PacketAt(s.memory, s.rx[i])]
        == s.accounted + (PacketsAt(s.memory, s.rx[..i]) + [PacketAt(s.memory, s.rx[i])]);
  }

  lemma {:induction false} CopyRun(s: State, n: nat, i: nat)
    requires i <= n <= |s.rx| && RxInFrames(s) && s.phase == Copying(n, [])
    ensures RunFrom(s, Copies(i)) == Some(Copied(s, n, i))
    decreases i
  {
    hide Map, Do, PacketsAt, InOneFrame;
    if i > 0 {
      CopyRun(s, n, i - 1);
      assert Copies(i) == Copies(i - 1) + [Copy];
      RunStep(s, Copies(i - 1), Copy);
      CopyOne(s, n, i - 1);
    } else {
      NoPacketsYet(s.memory, s.rx);
      NoAddresses(s.rx);
      assert Copies(0) == [] && s.accounted + [] == s.accounted;
    }
  }

  lemma {:induction false} RunAppend(start: State, a: seq<Step>, b: seq<Step>)
    requires RunFrom(start, a).Some?
    ensures RunFrom(start, a + b) == RunFrom(RunFrom(start, a).value, b)
    decreases |b|
  {
    hide Do;
    if b == [] {
      assert a + b == a;
    } else {
      RunAppend(start, a, b[..|b| - 1]);
      assert (a + b)[..|a + b| - 1] == a + b[..|b| - 1];
    }
  }

  lemma RunTwo(s: State, a: Step, b: Step)
    requires Do(s, a).Some?
    ensures RunFrom(s, [a, b]) == Do(Do(s, a).value, b)
  {
    hide Do;
    RunStep(s, [], a);
    RunStep(s, [a], b);
    assert [] + [a] == [a] && [a] + [b] == [a, b];
  }

  /** A batch size that a peek may come back with. */
  predicate BatchSize(s: State, n: nat) {
    1 <= n <= |s.rx| && n <= RX_BATCH_SIZE
  }

  lemma BatchStarts(s: State, n: nat)
    requires Inv(s) && s.phase == Idle && BatchSize(s, n)
    ensures RunFrom(s, [Peek(n), Reserve]) == Some(s.(phase := Copying(n, [])))
  {
    hide PacketsKept;
    ApplicationStepCirculates(s, Peek(n));
    RoomInFillRing(Do(s, Peek(n)).value);
    RunTwo(s, Peek(n), Reserve);
  }

  lemma BatchEnds(s: State, n: nat)
    requires n <= |s.rx| && s.phase == Copying(n, Map(AddrOf, s.rx[..n]))
    ensures RunFrom(s, [Release, Submit]) == Some(s.(fill := s.fill + Map(AddrOf, s.rx[..n]), rx := s.rx[n..], phase := Idle))
  {
    assert |Map(AddrOf, s.rx[..n])| == n;
    RunTwo(s, Release, Submit);
  }

  /** A batch that nobody interrupts has the effect stated for the receive loop: the peeked
      descriptors leave the receive ring, their addresses join the fill ring, and their packets
      are accounted for. */
  lemma BatchUninterrupted(s: State, n: nat)
    requires Inv(s) && s.phase == Idle && BatchSize(s, n)
    ensures RunFrom(s, [Peek(n), Reserve] + Copies(n) + [Release, Submit])
         == Some(s.(fill := s.fill + Map(AddrOf, s.rx[..n]), rx := s.rx[n..],
                    accounted := s.accounted + PacketsAt(s.memory, s.rx[..n])))
  {
    hide Map, Do, RunFrom, Circulates, PacketsAt, InOneFrame, Intact;
    BatchStarts(s, n);
    CopyRun(s.(phase := Copying(n, [])), n, n);
    RunAppend(s, [Peek(n), Reserve], Copies(n));
    BatchEnds(Copied(s.(phase := Copying(n, [])), n, n), n);
    RunAppend(s, [Peek(n), Reserve] + Copies(n), [Release, Submit]);
  }
}
