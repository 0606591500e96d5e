/** A single-producer single-consumer ring whose 32-bit indices run freely and wrap around,
    as AF_XDP maps it between the application and the kernel. */
module XskRing {
  import opened Bytes

  const RING_SIZE := 2048
  const WRAP := 0x1_0000_0000

  /** Unsigned 32-bit arithmetic. */
  function Wrap(x: int): u32 { x % WRAP }

  /** Ring sizes are powers of two: the slot is the index under the mask. */
  function Slot(index: nat): (k: nat)
    ensures k < RING_SIZE
  {
    index % RING_SIZE
  }

  lemma WrapAdd(counter: nat, n: nat)
    ensures Wrap(Wrap(counter) + n) == Wrap(counter + n)
  {
  }

  /** Free-running counters, reduced to 32 bits, still give the right distance. */
  lemma DistanceSurvivesWrap(ahead: nat, behind: nat, room: nat)
    requires behind <= ahead + room < behind + WRAP
    ensures Wrap(Wrap(ahead) + room - Wrap(behind)) == ahead + room - behind
  {
  }

  const TURNS := 2_097_152

  lemma SameRemainder(r: nat, k: nat)
    ensures (RING_SIZE * k + r) % RING_SIZE == r % RING_SIZE
  {
  }

  lemma SlotOfWrapped(n: nat)
    ensures Slot(Wrap(n)) == Slot(n)
  {
    assert n == WRAP * (n / WRAP) + n % WRAP;
    assert WRAP == RING_SIZE * TURNS;
    SameRemainder(n % WRAP, TURNS * (n / WRAP));
  }

  /** An index that wrapped selects the slot of the counter it came from. */
  lemma SlotSurvivesWrap(counter: nat, i: nat)
    ensures Slot(Wrap(Wrap(counter) + i)) == Slot(counter + i)
  {
    hide Slot, Wrap;
    WrapAdd(counter, i);
    SlotOfWrapped(counter + i);
  }

  lemma SlotsDistinct(i: nat, j: nat)
    requires i < j < i + RING_SIZE
    ensures Slot(i) != Slot(j)
  {
  }

  /** The `n` slots from counter value `from` on. */
  ghost function Window<T>(slots: seq<T>, from: nat, n: nat): (s: seq<T>)
    requires |slots| == RING_SIZE
    ensures |s| == n && forall i :: 0 <= i < n ==> s[i] == slots[Slot(from + i)]
  {
    seq(n, i requires 0 <= i < n => slots[Slot(from + i)])
  }

  lemma WindowSplit<T>(slots: seq<T>, from: nat, n: nat, m: nat)
    requires |slots| == RING_SIZE
    ensures Window(slots, from, n + m) == Window(slots, from, n) + Window(slots, from + n, m)
  {
    hide Slot;
    var s, t := Window(slots, from, n + m), Window(slots, from, n) + Window(slots, from + n, m);
    forall i | 0 <= i < n + m ensures s[i] == t[i] {
      if i >= n { assert from + i == (from + n) + (i - n); }
    }
  }

  /** A write to one slot shows at one place of a window that holds it, if at all. */
  lemma WindowUpdate<T>(slots: seq<T>, from: nat, n: nat, at: nat, x: T)
    requires |slots| == RING_SIZE && n <= RING_SIZE
    requires from <= at < from + RING_SIZE
    ensures Window(slots[Slot(at) := x], from, n)
         == if from <= at < from + n then Window(slots, from, n)[at - from := x] else Window(slots, from, n)
  {
    hide Slot;
    var s, old' := Window(slots[Slot(at) := x], from, n), Window(slots, from, n);
    forall i | 0 <= i < n ensures s[i] == if from + i == at then x else old'[i] {
      if from + i < at { SlotsDistinct(from + i, at); }
      if from + i > at { SlotsDistinct(at, from + i); }
    }
  }

  class Ring<T(0)> {
    const slots: array<T>
    // What is shared: producer and consumer index. What each side keeps: how far it has
    // reserved, how far it has peeked, and how far the consumer last saw the producer go.
    var producer: u32
    var consumer: u32
    var cachedProducer: u32
    var cachedConsumer: u32
    var seenProducer: u32
    // The same five positions without the wrap.
    ghost var produced: nat
    ghost var consumed: nat
    ghost var reserved: nat
    ghost var peeked: nat
    ghost var seen: nat

    ghost predicate Valid()
      reads this
    {
      && slots.Length == RING_SIZE
      && consumed <= peeked <= seen <= produced <= reserved <= consumed + RING_SIZE
      && producer == Wrap(produced) && consumer == Wrap(consumed)
      && cachedProducer == Wrap(reserved) && cachedConsumer == Wrap(peeked) && seenProducer == Wrap(seen)
    }

    /** What has been submitted and not yet released, oldest first. */
    ghost function Contents(): (s: seq<T>)
      reads this, slots
      requires Valid()
      ensures |s| == produced - consumed
    {
      Window(slots[..], consumed, produced - consumed)
    }

    /** What has been reserved and is being filled in. */
    ghost function Pending(): (s: seq<T>)
      reads this, slots
      requires Valid()
      ensures |s| == reserved - produced
    {
      Window(slots[..], produced, reserved - produced)
    }

    ghost predicate Quiet()
      reads this
    {
      Valid() && reserved == produced && peeked == consumed
    }

    constructor ()
      ensures Quiet() && Contents() == [] && fresh(slots)
    {
      slots := new T[RING_SIZE];
      producer, consumer, cachedProducer, cachedConsumer, seenProducer := 0, 0, 0, 0, 0;
      produced, consumed, reserved, peeked, seen := 0, 0, 0, 0, 0;
    }

    /** All of the `n` slots or none of them. */
    method Reserve(n: u32) returns (got: u32, index: u32)
      requires Valid()
      modifies this`reserved, this`cachedProducer
      ensures Valid()
      ensures got == if old(reserved) + n <= consumed + RING_SIZE then n else 0
      ensures reserved == old(reserved) + got
      ensures got > 0 ==> index == Wrap(old(reserved))
      ensures Contents() == old(Contents())
    {
      hide Wrap;
      DistanceSurvivesWrap(consumed, reserved, RING_SIZE);
      var free := Wrap(consumer + RING_SIZE - cachedProducer);
      if free < n { return 0, 0; }
      WrapAdd(reserved, n);
      got, index := n, cachedProducer;
      cachedProducer := Wrap(cachedProducer + n);
      reserved := reserved + n;
    }

    /** Fills in the slot `i` places after a reserved index. */
    method Fill(index: u32, i: u32, x: T)
      requires Valid() && index == Wrap(produced) && i < reserved - produced
      modifies slots
      ensures Valid() && Contents() == old(Contents()) && Pending() == old(Pending())[i := x]
    {
      hide Wrap, Slot, Window;
      ghost var before := slots[..];
      var slot := Slot(Wrap(index + i));
      assert slot == Slot(produced + i) by { SlotSurvivesWrap(produced, i); }
      slots[slot] := x;
      assert slots[..] == before[slot := x];
      WindowUpdate(before, consumed, produced - consumed, produced + i, x);
      WindowUpdate(before, produced, reserved - produced, produced + i, x);
    }

    /** Hands everything reserved over to the consumer. */
    method Submit(n: u32)
      requires Valid() && n == reserved - produced
      modifies this`producer, this`produced
      ensures Valid() && Contents() == old(Contents() + Pending()) && produced == reserved
    {
      hide Wrap, Window;
      WrapAdd(produced, n);
      WindowSplit(slots[..], consumed, produced - consumed, n);
      producer := Wrap(producer + n);
      produced := produced + n;
    }

    /** Looks at up to `n` entries without taking them. The producer's index is looked up anew
        only when nothing is left of what was seen of it before, so there may be more entries
        than the call says; it says none only if there are none. */
    method Peek(n: u32) returns (got: u32, index: u32)
      requires Valid()
      modifies this`peeked, this`cachedConsumer, this`seen, this`seenProducer
      ensures Valid()
      ensures got <= n && got <= produced - old(peeked)
      ensures got == 0 <==> n == 0 || produced == old(peeked)
      ensures old(seen) == old(peeked) ==> got == n || got == produced - old(peeked)
      ensures peeked == old(peeked) + got && index == Wrap(old(peeked))
      ensures Contents() == old(Contents()) && Pending() == old(Pending())
    {
      hide Wrap;
      DistanceSurvivesWrap(seen, peeked, 0);
      var available := Wrap(seenProducer - cachedConsumer);
      if available == 0 {
        seenProducer, seen := producer, produced;
        DistanceSurvivesWrap(seen, peeked, 0);
        available := Wrap(seenProducer - cachedConsumer);
      }
      got := if available < n then available else n;
      index := cachedConsumer;
      WrapAdd(peeked, got);
      cachedConsumer := Wrap(cachedConsumer + got);
      peeked := peeked + got;
    }

    /** Reads the entry `i` places after a peeked index. */
    method Entry(index: u32, i: u32) returns (x: T)
      requires Valid() && index == Wrap(consumed) && i < peeked - consumed
      ensures x == Contents()[i]
    {
      hide Wrap, Slot;
      SlotSurvivesWrap(consumed, i);
      x := slots[Slot(Wrap(index + i))];
    }

    /** Takes everything peeked. */
    method Release(n: u32)
      requires Valid() && n == peeked - consumed
      modifies this`consumer, this`consumed
      ensures Valid() && Contents() == old(Contents())[n..] && Pending() == old(Pending()) && consumed == peeked
    {
      hide Wrap, Window;
      WrapAdd(consumed, n);
      WindowSplit(slots[..], consumed, n, produced - peeked);
      consumer := Wrap(consumer + n);
      consumed := consumed + n;
    }
  }
}
