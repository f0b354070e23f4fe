/**
 The read path of the TimeTagger4 Python extension: walk the packets of one
 readout window from the first packet to the last, and turn each packet's
 32-bit hit words into an output group.

 A group has `hit_count + 1` slots. Slot 0 holds the packet timestamp. Slot
 `i + 1` holds hit `i`'s time, `offset + rollover_count * rollover_period`, in
 hit bins, where `rollover_count` is the number of time-overflow markers
 before hit `i`. A marker writes nothing: its slot stays `None`, the never
 written value of the freshly allocated array.
 */
module TimeTagger4Read {
  import opened Common
  import opened CronoInterface

  /** Packet flag: the last payload word holds only one hit. */
  const TIMETAGGER4_PACKET_FLAG_ODD_HITS: int := 1
  /** Hit flags. */
  const TIMETAGGER4_HIT_FLAG_RISING: int := 1
  const TIMETAGGER4_HIT_FLAG_TIME_OVERFLOW: int := 2
  const TIMETAGGER4_HIT_FLAG_COARSE_TIMESTAMP: int := 4

  /** The three fields of a hit word: bits 0-3, 4-7 and 8-31. */
  datatype Hit = Hit(channel: nat, flags: nat, offset: nat)

  /** `flags & TIMETAGGER4_PACKET_FLAG_ODD_HITS` is set. */
  predicate HasOddHits(flags: uint8)
  {
    flags % 2 != 0
  }

  /** `flags & TIMETAGGER4_HIT_FLAG_TIME_OVERFLOW` is set: the hit is a rollover marker. */
  predicate IsOverflow(hit: Hit)
  {
    (hit.flags / TIMETAGGER4_HIT_FLAG_TIME_OVERFLOW) % 2 != 0
  }

  predicate ValidHit(hit: Hit)
  {
    hit.channel < TWO_4 && hit.flags < TWO_4 && hit.offset < TWO_24
  }

  // ---------------------------------------------------------------------------
  // Hit words

  /** Splits a hit word into channel, flags and offset by shift and mask. */
  function DecodeHit(w: uint32): (hit: Hit)
    ensures ValidHit(hit)
  {
    Hit(w % 0x10, (w / 0x10) % 0x10, (w / 0x100) % 0x100_0000)
  }

  /** Packs the three fields into a hit word, as the device does. */
  function EncodeHit(hit: Hit): uint32
    requires ValidHit(hit)
  {
    hit.channel + 0x10 * (hit.flags + 0x10 * hit.offset)
  }

  /** Decoding recovers every field that was packed. */
  lemma HitRoundTrip(hit: Hit)
    requires ValidHit(hit)
    ensures DecodeHit(EncodeHit(hit)) == hit
  {
    var w := EncodeHit(hit);
    DivMod(w, 0x10, hit.flags + 0x10 * hit.offset, hit.channel);
    DivMod(hit.flags + 0x10 * hit.offset, 0x10, hit.offset, hit.flags);
    DivMod(w, 0x100, hit.offset, hit.channel + 0x10 * hit.flags);
    DivMod(hit.offset, 0x100_0000, 0, hit.offset);
  }

  /** The three fields cover all 32 bits: a word is the encoding of its decoding. */
  lemma HitWordRoundTrip(w: uint32)
    ensures EncodeHit(DecodeHit(w)) == w
  {
    var q1 := w / 0x10;
    var q2 := q1 / 0x10;
    DivMod(w, 0x100, q2, 0x10 * (q1 % 0x10) + w % 0x10);
    DivMod(q2, 0x100_0000, 0, q2);
  }

  /** One 64-bit payload word carrying two hit words, the first in the low half. */
  function PackHitWords(first: uint32, second: uint32): uint64
  {
    first + TWO_32 * second
  }

  /**
   `((uint32_t*) p->data)[i]`: hit word `i` of the packet at `a`. On a
   little-endian host, hit `2j` is the low half of payload word `j` and hit
   `2j + 1` its high half.
   */
  function HitWordAt(window: seq<uint64>, a: nat, i: nat): uint32
    requires a + HEADER_WORDS + i / 2 < |window|
  {
    var w := window[a + HEADER_WORDS + i / 2];
    if i % 2 == 0 then w % TWO_32 else w / TWO_32
  }

  /** The two hit words of a payload word come back out in order. */
  lemma HitWordsInPayloadOrder(window: seq<uint64>, a: nat, j: nat, first: uint32, second: uint32)
    requires a + HEADER_WORDS + j < |window|
    requires window[a + HEADER_WORDS + j] == PackHitWords(first, second)
    ensures HitWordAt(window, a, 2 * j) == first
    ensures HitWordAt(window, a, 2 * j + 1) == second
  {
    DivMod(PackHitWords(first, second), TWO_32, second, first);
  }

  // ---------------------------------------------------------------------------
  // Hit count

  /** An unsigned 32-bit value stored into an `int`: two's complement. */
  function AsInt32(x: uint32): int
  {
    if x < TWO_31 then x else x - TWO_32
  }

  /** Doubling a 32-bit length modulo 2^32 drops its top bit. */
  lemma DoubledLengthWraps(length: uint32)
    ensures (2 * length) % TWO_32 == 2 * (length % TWO_31)
  {
    DivMod(2 * length, TWO_32, length / TWO_31, 2 * (length % TWO_31));
  }

  /**
   `hit_count` as the source computes it: `2 * length` is an unsigned 32-bit
   product, which wraps modulo 2^32, stored into an `int`; then one less when
   ODD_HITS is set.
   */
  function HitCountAsWritten(h: Header): int
  {
    AsInt32((2 * h.length) % TWO_32) - (if HasOddHits(h.flags) then 1 else 0)
  }

  /**
   The number of slots of the output array as the source requests it. It is
   below one exactly for an empty packet with ODD_HITS set, for the same
   packet with `length` 2^31, and for every `length` whose doubling wraps
   past 2^31. A count of exactly 0 gives an array without slot 0, which the
   source still writes; a negative count makes the allocation fail, and the
   read returns NULL.
   */
  function SlotCountAsWritten(h: Header): (n: int)
    ensures n < 1 <==> h.length % TWO_31 >= 0x4000_0000 || (h.length % TWO_31 == 0 && HasOddHits(h.flags))
  {
    DoubledLengthWraps(h.length);
    HitCountAsWritten(h) + 1
  }

  /** An empty TDC data packet that carries the ODD_HITS flag. */
  const EmptyOddHeader: Header := Header(0, 0, CRONO_PACKET_TYPE_TDC_DATA, 1, 0, 0)

  /** The source allocates no slot for it and still writes slot 0; the clamped count keeps that slot. */
  lemma EmptyOddPacketExample()
    ensures HitCountAsWritten(EmptyOddHeader) == -1 && SlotCountAsWritten(EmptyOddHeader) == 0
    ensures HitCount(EmptyOddHeader) + 1 == 1
  {
  }

  /**
   The number of hits the decoder reads from a packet: `2 * length`, less one
   when ODD_HITS is set, and 0 for an empty packet, so that the group always
   has its slot 0.
   */
  function HitCount(h: Header): (n: nat)
    ensures 0 < h.length < 0x4000_0000 ==> n == HitCountAsWritten(h)
    ensures n == 0 <==> h.length == 0
    ensures n <= 2 * h.length
    ensures n % 2 == 1 <==> h.length > 0 && HasOddHits(h.flags)
  {
    DoubledLengthWraps(h.length);
    if h.length == 0 then 0 else 2 * h.length - (if HasOddHits(h.flags) then 1 else 0)
  }

  /** The decoder reads the header and `length` payload words at `a`: they lie in the window. */
  predicate DecoderReadsInWindow(window: seq<uint64>, a: nat)
  {
    a + HEADER_WORDS <= |window| && a + HEADER_WORDS + PacketAt(window, a).length <= |window|
  }

  /** The decoded hits of the packet at `a`, in payload order. */
  function PacketHits(window: seq<uint64>, a: nat): (hs: seq<Hit>)
    requires DecoderReadsInWindow(window, a)
    ensures |hs| == HitCount(PacketAt(window, a))
    ensures forall i :: 0 <= i < |hs| ==> ValidHit(hs[i])
  {
    var h := PacketAt(window, a);
    seq(HitCount(h), i requires 0 <= i < HitCount(h) => DecodeHit(HitWordAt(window, a, i)))
  }

  /**
   The decoder sizes a packet by its raw `length` and never looks at its type.
   For a data type every hit word it reads lies inside the packet; for a
   header-only type with a non-zero length field its first hit word is the
   first header word of the packet that follows.
   */
  lemma DecoderReadsAgainstPacketExtent(h: Header, a: nat, i: nat)
    requires i < HitCount(h)
    ensures h.ptype < HEADER_ONLY_BIT ==> a + HEADER_WORDS + i / 2 < NextIndex(a, h)
    ensures h.ptype >= HEADER_ONLY_BIT ==> a + HEADER_WORDS + i / 2 >= NextIndex(a, h)
  {
  }

  // ---------------------------------------------------------------------------
  // Rollover accounting

  /** The number of time-overflow markers among `hs`. */
  function CountOverflows(hs: seq<Hit>): (n: nat)
    ensures n <= |hs|
  {
    if hs == [] then 0
    else CountOverflows(hs[..|hs| - 1]) + (if IsOverflow(hs[|hs| - 1]) then 1 else 0)
  }

  /** Markers in a sequence are the markers in its two halves. */
  lemma {:induction false} CountOverflowsSplit(hs: seq<Hit>, i: nat)
    requires i <= |hs|
    ensures CountOverflows(hs) == CountOverflows(hs[..i]) + CountOverflows(hs[i..])
    decreases |hs|
  {
    if i < |hs| {
      var init := hs[..|hs| - 1];
      CountOverflowsSplit(init, i);
      assert init[..i] == hs[..i];
      assert init[i..] == hs[i..][..|hs[i..]| - 1];
    } else {
      assert hs[..i] == hs;
      assert hs[i..] == [];
    }
  }

  /**
   The rollover count seen by later hits grows by exactly the number of
   markers in between; in particular a marker at `i` adds exactly one for
   every hit after it.
   */
  lemma RolloverCountGrowth(hs: seq<Hit>, i: nat, j: nat)
    requires i <= j <= |hs|
    ensures CountOverflows(hs[..j]) == CountOverflows(hs[..i]) + CountOverflows(hs[i..j])
    ensures i < j && IsOverflow(hs[i]) ==> CountOverflows(hs[..j]) >= CountOverflows(hs[..i]) + 1
    ensures j == i + 1 ==> CountOverflows(hs[..j]) == CountOverflows(hs[..i]) + (if IsOverflow(hs[i]) then 1 else 0)
  {
    CountOverflowsSplit(hs[..j], i);
    assert hs[..j][..i] == hs[..i];
    assert hs[..j][i..] == hs[i..j];
    if i < j {
      var mid := hs[i..j];
      CountOverflowsSplit(mid, 1);
      assert mid[..1] == [hs[i]];
      assert [hs[i]][..0] == [];
    }
  }

  /** The slot of hit `i`: empty for a marker, else the offset shifted by the markers before it. */
  function HitSlot(hs: seq<Hit>, i: nat, period: nat): Option<int>
    requires i < |hs|
  {
    if IsOverflow(hs[i]) then None
    else Some(hs[i].offset + CountOverflows(hs[..i]) * period)
  }

  /** The output group of a packet: its timestamp, then one slot per hit. */
  function GroupSlots(hs: seq<Hit>, timestamp: int, period: nat): (slots: seq<Option<int>>)
    ensures |slots| == |hs| + 1
    ensures slots[0] == Some(timestamp)
    ensures forall i :: 0 <= i < |hs| ==> (slots[i + 1] == None <==> IsOverflow(hs[i]))
  {
    [Some(timestamp)] + seq(|hs|, i requires 0 <= i < |hs| => HitSlot(hs, i, period))
  }

  /** The group `timetagger4vector_read` produces for the packet at `a`, in bins. */
  function PacketGroup(window: seq<uint64>, a: nat, period: nat): seq<Option<int>>
    requires DecoderReadsInWindow(window, a)
  {
    GroupSlots(PacketHits(window, a), PacketAt(window, a).timestamp, period)
  }

  /**
   When hit offsets stay below the rollover period, as the device guarantees,
   a hit's value splits back into the rollover count before it and its offset:
   rollover correction places the hit in the right period and loses nothing.
   */
  lemma SlotSplitsIntoPeriodAndOffset(hs: seq<Hit>, i: nat, period: nat)
    requires i < |hs| && !IsOverflow(hs[i])
    requires hs[i].offset < period
    ensures HitSlot(hs, i, period).value / period == CountOverflows(hs[..i])
    ensures HitSlot(hs, i, period).value % period == hs[i].offset
  {
    DivMod(HitSlot(hs, i, period).value, period, CountOverflows(hs[..i]), hs[i].offset);
  }

  /**
   With the source's types (a signed 32-bit hit count, a 32-bit rollover
   period, a 24-bit offset) every slot value fits the 64-bit unsigned
   arithmetic the source computes it in.
   */
  lemma SlotValuesFitUint64(hs: seq<Hit>, timestamp: int, period: uint32, i: nat)
    requires |hs| < TWO_31
    requires i < |hs| && ValidHit(hs[i]) && !IsOverflow(hs[i])
    ensures 0 <= GroupSlots(hs, timestamp, period)[i + 1].value < TWO_64
  {
    OffsetPlusRolloversFits(hs[i].offset, CountOverflows(hs[..i]), period);
    assert GroupSlots(hs, timestamp, period)[i + 1] == HitSlot(hs, i, period);
  }

  /** A 24-bit offset plus a 31-bit count of 32-bit periods stays below 2^64. */
  lemma OffsetPlusRolloversFits(offset: nat, count: nat, period: uint32)
    requires offset < TWO_24 && count < TWO_31
    ensures offset + count * period < TWO_64
  {
    MulBound(count, period, TWO_31, TWO_32 - 1);
  }

  /** Two hit sequences that differ at most in their channels. */
  predicate SameButChannels(hs: seq<Hit>, gs: seq<Hit>)
  {
    |hs| == |gs| &&
    forall i :: 0 <= i < |hs| ==> hs[i].flags == gs[i].flags && hs[i].offset == gs[i].offset
  }

  lemma {:induction false} CountOverflowsIgnoresChannel(hs: seq<Hit>, gs: seq<Hit>)
    requires SameButChannels(hs, gs)
    ensures CountOverflows(hs) == CountOverflows(gs)
    decreases |hs|
  {
    if hs != [] {
      CountOverflowsIgnoresChannel(hs[..|hs| - 1], gs[..|gs| - 1]);
    }
  }

  lemma HitSlotIgnoresChannel(hs: seq<Hit>, gs: seq<Hit>, i: nat, period: nat)
    requires SameButChannels(hs, gs) && i < |hs|
    ensures HitSlot(hs, i, period) == HitSlot(gs, i, period)
  {
    assert SameButChannels(hs[..i], gs[..i]);
    CountOverflowsIgnoresChannel(hs[..i], gs[..i]);
  }

  /**
   The decoder extracts each hit's channel and then drops it: the group does
   not depend on the channel bits of any hit word.
   */
  lemma GroupIgnoresChannel(hs: seq<Hit>, gs: seq<Hit>, timestamp: int, period: nat)
    requires SameButChannels(hs, gs)
    ensures GroupSlots(hs, timestamp, period) == GroupSlots(gs, timestamp, period)
  {
    var s1, s2 := GroupSlots(hs, timestamp, period), GroupSlots(gs, timestamp, period);
    forall k | 0 <= k < |s1|
      ensures s1[k] == s2[k]
    {
      if k > 0 {
        HitSlotIgnoresChannel(hs, gs, k - 1, period);
        assert s1[k] == HitSlot(hs, k - 1, period);
        assert s2[k] == HitSlot(gs, k - 1, period);
      }
    }
  }

  /**
   A window holding one packet of one payload word, ODD_HITS clear: hit 0 is
   a time-overflow marker, hit 1 is channel 2 at offset 10.
   */
  function OverflowThenHitWindow(timestamp: int64): seq<uint64>
  {
    EncodeHeader(Header(0, 0, CRONO_PACKET_TYPE_TDC_DATA, 0, 1, timestamp))
      + [PackHitWords(EncodeHit(Hit(0, 2, 0)), EncodeHit(Hit(2, 0, 10)))]
  }

  /** For every rollover period the marker leaves its slot empty and hit 1 lands one period later. */
  lemma OverflowThenHitScenario(timestamp: int64, period: nat)
    ensures DecoderReadsInWindow(OverflowThenHitWindow(timestamp), 0)
    ensures PacketGroup(OverflowThenHitWindow(timestamp), 0, period) == [Some(timestamp), None, Some(10 + period)]
  {
    var hdr := Header(0, 0, CRONO_PACKET_TYPE_TDC_DATA, 0, 1, timestamp);
    var marker, hit := Hit(0, 2, 0), Hit(2, 0, 10);
    var window := OverflowThenHitWindow(timestamp);
    HeaderRoundTrip(hdr);
    assert PacketAt(window, 0) == hdr;
    HitWordsInPayloadOrder(window, 0, 0, EncodeHit(marker), EncodeHit(hit));
    HitRoundTrip(marker);
    HitRoundTrip(hit);
    var hs := PacketHits(window, 0);
    assert hs == [marker, hit];
    assert hs[..1] == [marker];
    assert [marker][..0] == [];
  }

  /**
   The rollover period as the decoder reads it: `static_info.rollover_period`
   of a global `static_info` that no function fills, because the functions
   that query the static info fill local variables of the same name. The
   global keeps its zero initial value.
   */
  const ROLLOVER_PERIOD_AS_READ: uint32 := 0

  /** With the period the decoder reads, every hit's value is its bare offset: the rollover count is lost. */
  lemma RolloverLostAsWritten(hs: seq<Hit>, timestamp: int)
    ensures forall i :: 0 <= i < |hs| && !IsOverflow(hs[i]) ==>
              GroupSlots(hs, timestamp, ROLLOVER_PERIOD_AS_READ)[i + 1] == Some(hs[i].offset)
  {
    forall i | 0 <= i < |hs| && !IsOverflow(hs[i])
      ensures GroupSlots(hs, timestamp, ROLLOVER_PERIOD_AS_READ)[i + 1] == Some(hs[i].offset)
    {
      assert GroupSlots(hs, timestamp, ROLLOVER_PERIOD_AS_READ)[i + 1] == HitSlot(hs, i, ROLLOVER_PERIOD_AS_READ);
    }
  }

  /** As written, the hit after the marker reads 10, the same as a hit with no marker before it. */
  lemma OverflowThenHitAsWritten(timestamp: int64)
    ensures PacketGroup(OverflowThenHitWindow(timestamp), 0, ROLLOVER_PERIOD_AS_READ) == [Some(timestamp), None, Some(10)]
  {
    OverflowThenHitScenario(timestamp, ROLLOVER_PERIOD_AS_READ);
  }

  /**
   The body of the per-packet loop: allocates `hit_count + 1` slots, writes
   the timestamp into slot 0, then fills the hit slots.
   */
  method DecodePacket(window: seq<uint64>, a: nat, period: uint32) returns (slots: array<Option<int>>)
    requires DecoderReadsInWindow(window, a)
    ensures fresh(slots)
    ensures slots[..] == PacketGroup(window, a, period)
  {
    var h := PacketAt(window, a);
    var hitCount := 2 * h.length;
    if h.flags % 2 != 0 {
      hitCount := hitCount - 1;
    }
    if hitCount < 0 {
      // empty packet with ODD_HITS: read no hit, keep slot 0
      hitCount := 0;
    }
    ghost var hs := PacketHits(window, a);
    assert hitCount == |hs|;
    slots := new Option<int>[hitCount + 1](_ => None);
    slots[0] := Some(h.timestamp);
    ghost var before := slots[..];
    assert forall k :: 1 <= k < |before| ==> before[k] == None;
    FillHitSlots(window, a, hitCount, period, hs, slots);
    FilledFreshGroup(before, hs, h.timestamp, period);
  }

  /**
   The inner `for` loop: walks the `hitCount` hit words of the packet at `a`
   in payload order, counts time-overflow markers, and writes each other
   hit's corrected time into its slot `i + 1`. Slot 0 and the markers' slots
   are left as they were.
   */
  method FillHitSlots(window: seq<uint64>, a: nat, hitCount: nat, period: uint32,
                      ghost hs: seq<Hit>, slots: array<Option<int>>)
    requires |hs| == hitCount && slots.Length == hitCount + 1
    requires forall i :: 0 <= i < hitCount ==> a + HEADER_WORDS + i / 2 < |window|
    requires forall i {:trigger HitWordAt(window, a, i)} :: 0 <= i < hitCount ==> hs[i] == DecodeHit(HitWordAt(window, a, i))
    modifies slots
    ensures slots[..] == FilledSlots(old(slots[..]), hs, hitCount, period)
  {
    ghost var before := slots[..];
    var rolloverCount: nat := 0;
    for i := 0 to hitCount
      invariant rolloverCount == CountOverflows(hs[..i])
      invariant slots[..] == FilledSlots(before, hs, i, period)
    {
      var hit := HitWordAt(window, a, i);
      var flags := (hit / 0x10) % 0x10;
      HitStep(hs, i, hit, period);
      FilledSlotsStep(before, hs, i, period);
      if (flags / TIMETAGGER4_HIT_FLAG_TIME_OVERFLOW) % 2 != 0 {
        rolloverCount := rolloverCount + 1;
      } else {
        var offset := (hit / 0x100) % 0x100_0000;
        slots[i + 1] := Some(offset + rolloverCount * period);
      }
    }
  }

  /**
   The slots after the first `n` turns of the inner loop: the slot of every
   hit below `n` that is not a marker holds its corrected time, every other
   slot what it held before.
   */
  function FilledSlots(before: seq<Option<int>>, hs: seq<Hit>, n: nat, period: nat): (after: seq<Option<int>>)
    requires n <= |hs| && |before| == |hs| + 1
    ensures |after| == |before|
  {
    seq(|before|, k requires 0 <= k < |before| =>
      if 1 <= k <= n && !IsOverflow(hs[k - 1]) then HitSlot(hs, k - 1, period) else before[k])
  }

  /**
   After `n` turns slot 0, the markers' slots and the slots past `n` hold what
   they held before; every other hit slot below `n` holds its corrected time.
   */
  lemma FilledSlotsKeepsMarkersAndTimestamp(before: seq<Option<int>>, hs: seq<Hit>, n: nat, period: nat)
    requires n <= |hs| && |before| == |hs| + 1
    ensures var after := FilledSlots(before, hs, n, period);
            after[0] == before[0] &&
            (forall k :: 0 <= k < n && IsOverflow(hs[k]) ==> after[k + 1] == before[k + 1]) &&
            (forall k :: 0 <= k < n && !IsOverflow(hs[k]) ==> after[k + 1] == HitSlot(hs, k, period)) &&
            (forall k :: n < k < |after| ==> after[k] == before[k])
  {
  }

  /** Filling a freshly allocated group, timestamp in slot 0 and nothing elsewhere, gives the packet's group. */
  lemma FilledFreshGroup(before: seq<Option<int>>, hs: seq<Hit>, timestamp: int, period: nat)
    requires |before| == |hs| + 1 && before[0] == Some(timestamp)
    requires forall k :: 1 <= k < |before| ==> before[k] == None
    ensures FilledSlots(before, hs, |hs|, period) == GroupSlots(hs, timestamp, period)
  {
    var after, group := FilledSlots(before, hs, |hs|, period), GroupSlots(hs, timestamp, period);
    forall k | 0 <= k < |after|
      ensures after[k] == group[k]
    {
      if k > 0 {
        assert group[k] == HitSlot(hs, k - 1, period);
      }
    }
  }

  /** One turn of the inner loop changes at most the slot of hit `i`. */
  lemma FilledSlotsStep(before: seq<Option<int>>, hs: seq<Hit>, i: nat, period: nat)
    requires i < |hs| && |before| == |hs| + 1
    ensures FilledSlots(before, hs, i + 1, period) ==
            if IsOverflow(hs[i]) then FilledSlots(before, hs, i, period)
            else FilledSlots(before, hs, i, period)[i + 1 := HitSlot(hs, i, period)]
  {
  }

  /** What one turn of the inner loop needs: the flag test, the rollover step and the value written. */
  lemma HitStep(hs: seq<Hit>, i: nat, hit: uint32, period: nat)
    requires i < |hs| && hs[i] == DecodeHit(hit)
    ensures IsOverflow(hs[i]) <==> (((hit / 0x10) % 0x10) / TIMETAGGER4_HIT_FLAG_TIME_OVERFLOW) % 2 != 0
    ensures CountOverflows(hs[..i + 1]) == CountOverflows(hs[..i]) + (if IsOverflow(hs[i]) then 1 else 0)
    ensures !IsOverflow(hs[i]) ==>
              HitSlot(hs, i, period) == Some((hit / 0x100) % 0x100_0000 + CountOverflows(hs[..i]) * period)
  {
    RolloverCountGrowth(hs, i, i + 1);
  }

  // ---------------------------------------------------------------------------
  // The packet walk

  /** Every packet the walk from `p` visits before passing `last` lies, with the decoder's reads, in the window. */
  predicate WalkReadsInWindow(window: seq<uint64>, p: nat, last: nat)
    decreases last + 1 - p
  {
    p > last ||
    (DecoderReadsInWindow(window, p) && WalkReadsInWindow(window, NextIndex(p, PacketAt(window, p)), last))
  }

  /** The packets `while (p <= last_packet)` visits from `p`, in the order visited. */
  function VisitedPackets(window: seq<uint64>, p: nat, last: nat): (v: seq<nat>)
    requires WalkReadsInWindow(window, p, last)
    ensures forall k :: 0 <= k < |v| ==> DecoderReadsInWindow(window, v[k])
    decreases last + 1 - p
  {
    if p > last then []
    else [p] + VisitedPackets(window, NextIndex(p, PacketAt(window, p)), last)
  }

  /**
   The walk from `p` visits nothing when `p` is past `last`; otherwise it
   starts at `p`, follows crono_next_packet, rises strictly, stays in
   `[p, last]`, visits at most one packet per two words, and stops only
   once the cursor has passed `last`.
   */
  lemma {:induction false} VisitedPacketsInOrder(window: seq<uint64>, p: nat, last: nat)
    requires WalkReadsInWindow(window, p, last)
    ensures var v := VisitedPackets(window, p, last);
            && (|v| == 0 <==> p > last)
            && (|v| > 0 ==> v[0] == p)
            && (forall k :: 0 <= k < |v| ==> p <= v[k] <= last)
            && (forall k :: 0 <= k < |v| - 1 ==> v[k + 1] == NextIndex(v[k], PacketAt(window, v[k])))
            && (forall k, l :: 0 <= k < l < |v| ==> v[k] < v[l])
            && (p <= last ==> |v| <= (last - p) / HEADER_WORDS + 1)
            && (|v| > 0 ==> NextIndex(v[|v| - 1], PacketAt(window, v[|v| - 1])) > last)
    decreases last + 1 - p
  {
    if p <= last {
      var next := NextIndex(p, PacketAt(window, p));
      VisitedPacketsInOrder(window, next, last);
      var v, rest := VisitedPackets(window, p, last), VisitedPackets(window, next, last);
      assert v == [p] + rest;
      assert forall k :: 1 <= k < |v| ==> v[k] == rest[k - 1];
      if rest != [] {
        assert v[|v| - 1] == rest[|rest| - 1];
      }
    }
  }

  /** The groups the walk from `p` produces: one per packet, in the order visited. */
  function WalkGroups(window: seq<uint64>, p: nat, last: nat, period: nat): seq<seq<Option<int>>>
    requires WalkReadsInWindow(window, p, last)
    decreases last + 1 - p
  {
    if p > last then []
    else [PacketGroup(window, p, period)] + WalkGroups(window, NextIndex(p, PacketAt(window, p)), last, period)
  }

  /** Group `k` of the walk is the group of the `k`-th visited packet, and there is no other group. */
  lemma {:induction false} WalkGroupsPerPacket(window: seq<uint64>, p: nat, last: nat, period: nat)
    requires WalkReadsInWindow(window, p, last)
    ensures var gs, v := WalkGroups(window, p, last, period), VisitedPackets(window, p, last);
            |gs| == |v| && forall k :: 0 <= k < |gs| ==> gs[k] == PacketGroup(window, v[k], period)
    decreases last + 1 - p
  {
    if p <= last {
      var next := NextIndex(p, PacketAt(window, p));
      WalkGroupsPerPacket(window, next, last, period);
      var gs, v := WalkGroups(window, p, last, period), VisitedPackets(window, p, last);
      assert gs == [PacketGroup(window, p, period)] + WalkGroups(window, next, last, period);
      assert v == [p] + VisitedPackets(window, next, last);
    }
  }

  /** One turn of the walk moves the group of the packet at `p` from the pending groups to the finished ones. */
  lemma WalkGroupsAdvance(window: seq<uint64>, p: nat, last: nat, period: nat, done: seq<seq<Option<int>>>)
    requires WalkReadsInWindow(window, p, last) && p <= last
    ensures done + WalkGroups(window, p, last, period)
         == (done + [PacketGroup(window, p, period)]) + WalkGroups(window, NextIndex(p, PacketAt(window, p)), last, period)
  {
    var rest := WalkGroups(window, NextIndex(p, PacketAt(window, p)), last, period);
    assert done + ([PacketGroup(window, p, period)] + rest) == (done + [PacketGroup(window, p, period)]) + rest;
  }

  /** What one call of `timetagger4vector_read` returns: nothing when the read failed, else the groups of the walk. */
  function ReadGroups(status: int, window: seq<uint64>, first: nat, last: nat, period: nat): seq<seq<Option<int>>>
    requires status == CRONO_OK ==> WalkReadsInWindow(window, first, last)
  {
    if status != CRONO_OK then [] else WalkGroups(window, first, last, period)
  }

  /**
   `timetagger4vector_read` after the driver call: nothing when the status is
   not CRONO_OK, otherwise one array per packet from `first` while the cursor
   is at most `last`, appended in the order visited.
   */
  method ReadWindow(status: int, window: seq<uint64>, first: nat, last: nat, period: uint32)
    returns (groups: seq<array<Option<int>>>)
    requires status == CRONO_OK ==> WalkReadsInWindow(window, first, last)
    ensures status != CRONO_OK ==> groups == []
    ensures |groups| == |ReadGroups(status, window, first, last, period)|
    ensures forall k :: 0 <= k < |groups| ==> fresh(groups[k]) && groups[k][..] == ReadGroups(status, window, first, last, period)[k]
    ensures forall k, l :: 0 <= k < l < |groups| ==> groups[k] != groups[l]
  {
    groups := [];
    if status != CRONO_OK {
      return;
    }
    var p := first;
    ghost var done: seq<seq<Option<int>>> := [];
    while p <= last
      invariant WalkReadsInWindow(window, p, last)
      invariant done + WalkGroups(window, p, last, period) == WalkGroups(window, first, last, period)
      invariant |groups| == |done|
      invariant forall k :: 0 <= k < |groups| ==> fresh(groups[k]) && groups[k][..] == done[k]
      invariant forall k, l :: 0 <= k < l < |groups| ==> groups[k] != groups[l]
      decreases last + 1 - p
    {
      var slots := DecodePacket(window, p, period);
      WalkGroupsAdvance(window, p, last, period, done);
      groups := groups + [slots];
      done := done + [slots[..]];
      p := NextIndex(p, PacketAt(window, p));
    }
    assert done == WalkGroups(window, first, last, period);
  }
}
