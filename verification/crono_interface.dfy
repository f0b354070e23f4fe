/**
 The readout packet of the cronologic driver interface: the two-word header,
 the packet-type constants, and the three cursor macros that give a packet's
 payload length, its size in bytes and the address of the packet after it.

 A readout window is a sequence of 64-bit words; a packet is addressed by the
 index of its first header word. Header word 0 holds the four byte fields and
 the 32-bit length (little-endian struct layout: channel in bits 0-7, card in
 8-15, type in 16-23, flags in 24-31, length in 32-63); header word 1 is the
 signed 64-bit timestamp; the payload words follow.
 */
module CronoInterface {
  import opened Common

  /** Status code of a successful driver call. */
  const CRONO_OK: int := 0

  // Packet types.
  const CRONO_PACKET_TYPE_8_BIT_SIGNED: uint8 := 0
  const CRONO_PACKET_TYPE_16_BIT_SIGNED: uint8 := 1
  const CRONO_PACKET_TYPE_32_BIT_SIGNED: uint8 := 2
  const CRONO_PACKET_TYPE_64_BIT_SIGNED: uint8 := 3
  const CRONO_PACKET_TYPE_8_BIT_UNSIGNED: uint8 := 4
  const CRONO_PACKET_TYPE_16_BIT_UNSIGNED: uint8 := 5
  const CRONO_PACKET_TYPE_32_BIT_UNSIGNED: uint8 := 6
  const CRONO_PACKET_TYPE_64_BIT_UNSIGNED: uint8 := 7
  const CRONO_PACKET_TYPE_TDC_DATA: uint8 := 8
  const CRONO_PACKET_TYPE_TIMESTAMP_ONLY: uint8 := 128
  const CRONO_PACKET_TYPE_END_OF_BUFFER: uint8 := 129
  const CRONO_PACKET_TYPE_TRIGGER_PATTERN: uint8 := 130

  /** Bit 7 of the type marks a packet that carries a header and no payload. */
  const HEADER_ONLY_BIT: int := 128

  /** A header is two 64-bit words: the byte fields with the length, then the timestamp. */
  const HEADER_WORDS: nat := 2
  const WORD_BYTES: nat := 8

  datatype Header = Header(
    channel: uint8,
    card: uint8,
    ptype: uint8,
    flags: uint8,
    length: uint32,   // payload length in 64-bit words
    timestamp: int64)

  /** Reads the header fields out of the two header words by shift and mask. */
  function ParseHeader(w0: uint64, w1: uint64): Header
  {
    Header(
      w0 % TWO_8,
      (w0 / 0x100) % TWO_8,
      (w0 / 0x1_0000) % TWO_8,
      (w0 / 0x100_0000) % TWO_8,
      (w0 / 0x1_0000_0000) % TWO_32,
      if w1 < TWO_63 then w1 else w1 - TWO_64)
  }

  /** Lays a header out as the device does: the inverse of ParseHeader. */
  function EncodeHeader(h: Header): (ws: seq<uint64>)
    ensures |ws| == HEADER_WORDS
  {
    [ h.channel + 0x100 * (h.card + 0x100 * (h.ptype + 0x100 * (h.flags + 0x100 * h.length))),
      if h.timestamp < 0 then h.timestamp + TWO_64 else h.timestamp ]
  }

  /** Every header survives encoding and parsing: no two fields overlap. */
  lemma HeaderRoundTrip(h: Header)
    ensures ParseHeader(EncodeHeader(h)[0], EncodeHeader(h)[1]) == h
  {
    var w := EncodeHeader(h)[0];
    var t3 := h.flags + 0x100 * h.length;
    var t2 := h.ptype + 0x100 * t3;
    var t1 := h.card + 0x100 * t2;
    DivMod(w, 0x100, t1, h.channel);
    DivMod(t1, 0x100, t2, h.card);
    DivMod(t2, 0x100, t3, h.ptype);
    DivMod(t3, 0x100, h.length, h.flags);
    DivMod(w, 0x1_0000, t2, h.channel + 0x100 * h.card);
    DivMod(w, 0x100_0000, t3, h.channel + 0x100 * h.card + 0x1_0000 * h.ptype);
    DivMod(w, 0x1_0000_0000, h.length, h.channel + 0x100 * h.card + 0x1_0000 * h.ptype + 0x100_0000 * h.flags);
  }

  /** Every pair of header words is the encoding of the header parsed from it: the fields cover all 128 bits. */
  lemma HeaderWordsRoundTrip(w0: uint64, w1: uint64)
    ensures EncodeHeader(ParseHeader(w0, w1)) == [w0, w1]
  {
    var q1 := w0 / 0x100;
    var q2 := q1 / 0x100;
    var q3 := q2 / 0x100;
    var q4 := q3 / 0x100;
    DivMod(w0, 0x1_0000, q2, 0x100 * (q1 % 0x100) + w0 % 0x100);
    DivMod(w0, 0x100_0000, q3, 0x1_0000 * (q2 % 0x100) + 0x100 * (q1 % 0x100) + w0 % 0x100);
    DivMod(w0, 0x1_0000_0000, q4,
      0x100_0000 * (q3 % 0x100) + 0x1_0000 * (q2 % 0x100) + 0x100 * (q1 % 0x100) + w0 % 0x100);
    DivMod(q4, TWO_32, 0, q4);
  }

  /** The header of the packet whose first word is at index `a` of the window. */
  function PacketAt(window: seq<uint64>, a: nat): Header
    requires a + HEADER_WORDS <= |window|
  {
    ParseHeader(window[a], window[a + 1])
  }

  /** `type & 128`: the type's bit 7, which is set exactly for the types from 128 up. */
  predicate IsHeaderOnly(ptype: uint8)
    ensures IsHeaderOnly(ptype) <==> ptype >= HEADER_ONLY_BIT
  {
    (ptype / HEADER_ONLY_BIT) % 2 != 0
  }

  /** crono_packet_data_length: the payload length in 64-bit words. */
  function DataLength(h: Header): (n: uint32)
    ensures h.ptype >= HEADER_ONLY_BIT ==> n == 0
    ensures h.ptype < HEADER_ONLY_BIT ==> n == h.length
  {
    if IsHeaderOnly(h.ptype) then 0 else h.length
  }

  /** The timestamp-only, end-of-buffer and trigger-pattern packets have no payload, whatever their length field holds. */
  lemma HeaderOnlyTypesHaveNoPayload(h: Header)
    requires h.ptype in {CRONO_PACKET_TYPE_TIMESTAMP_ONLY, CRONO_PACKET_TYPE_END_OF_BUFFER, CRONO_PACKET_TYPE_TRIGGER_PATTERN}
    ensures DataLength(h) == 0
  {
  }

  /** The sample and TDC data types carry exactly `length` payload words. */
  lemma DataTypesUseLengthField(h: Header)
    requires h.ptype <= CRONO_PACKET_TYPE_TDC_DATA
    ensures DataLength(h) == h.length
  {
  }

  /** crono_packet_bytes: the packet's size in bytes, header included. */
  function PacketBytes(h: Header): (b: nat)
    ensures b % WORD_BYTES == 0 && b >= HEADER_WORDS * WORD_BYTES
    ensures b / WORD_BYTES == HEADER_WORDS + DataLength(h)
  {
    (DataLength(h) + HEADER_WORDS) * WORD_BYTES
  }

  /**
   crono_next_packet: the byte address of the packet after the one at `addr`.
   It moves by exactly crono_packet_bytes, so it always moves forward.
   */
  function NextPacket(addr: int, h: Header): (next: int)
    ensures next - addr == PacketBytes(h)
    ensures next >= addr + HEADER_WORDS * WORD_BYTES
  {
    addr + ((if IsHeaderOnly(h.ptype) then 0 else h.length) + 2) * 8
  }

  /** The cursor on word indices: the index of the packet after the one at `a`. */
  function NextIndex(a: nat, h: Header): (n: nat)
    ensures n >= a + HEADER_WORDS
  {
    a + HEADER_WORDS + DataLength(h)
  }

  /** The word cursor and crono_next_packet move to the same place. */
  lemma NextIndexMatchesNextPacket(a: nat, h: Header)
    ensures WORD_BYTES * NextIndex(a, h) == NextPacket(WORD_BYTES * a, h)
  {
  }

  /*
   The macros as the C compiler evaluates them: `length` is a uint32_t and the
   other operands are int literals, so `(length + 2) * 8` is computed in 32-bit
   unsigned arithmetic and wraps modulo 2^32 before it is added to the address.
   */

  /** crono_packet_bytes as evaluated in 32-bit unsigned arithmetic. */
  function PacketBytesAsWritten(h: Header): uint32
  {
    ((DataLength(h) + 2) * 8) % TWO_32
  }

  /** The 32-bit size counts `DataLength + 2` words modulo 2^29: it is still a whole number of words. */
  lemma AsWrittenBytesAreWrappedWords(h: Header)
    ensures PacketBytesAsWritten(h) == WORD_BYTES * ((DataLength(h) + HEADER_WORDS) % 0x2000_0000)
    ensures PacketBytesAsWritten(h) % WORD_BYTES == 0
  {
    var n := DataLength(h) + HEADER_WORDS;
    DivMod(n * 8, TWO_32, n / 0x2000_0000, 8 * (n % 0x2000_0000));
  }

  /** crono_next_packet as evaluated in 32-bit unsigned arithmetic; the two macros still agree. */
  function NextPacketAsWritten(addr: int, h: Header): (next: int)
    ensures next - addr == PacketBytesAsWritten(h)
    ensures next >= addr
  {
    addr + (((if IsHeaderOnly(h.ptype) then 0 else h.length) + 2) * 8) % TWO_32
  }

  /** Below the wrap point the 32-bit evaluation is exact. */
  lemma AsWrittenExactBelowWrap(h: Header)
    requires DataLength(h) < 0x1FFF_FFFE
    ensures PacketBytesAsWritten(h) == PacketBytes(h)
  {
    DivMod((DataLength(h) + 2) * 8, TWO_32, 0, (DataLength(h) + 2) * 8);
  }

  /**
   The 32-bit evaluation leaves the cursor where it was exactly when the
   effective length plus two is a multiple of 2^29. The cursor then stays
   put, so the walk cannot pass `last_packet`: it ends in reads outside the
   buffer or in a NULL return when the output array cannot be allocated.
   */
  lemma CursorStallsAsWritten(addr: int, h: Header)
    ensures NextPacketAsWritten(addr, h) == addr <==> (DataLength(h) + 2) % 0x2000_0000 == 0
  {
    var n := DataLength(h) + 2;
    DivMod(n, 0x2000_0000, n / 0x2000_0000, n % 0x2000_0000);
    DivMod(n * 8, TWO_32, n / 0x2000_0000, 8 * (n % 0x2000_0000));
  }

  /** A TDC data packet whose length field reads 0x1FFFFFFE: the macro stays put, the true size is 4 GiB. */
  const StallingHeader: Header := Header(0, 0, CRONO_PACKET_TYPE_TDC_DATA, 0, 0x1FFF_FFFE, 0)

  lemma CursorStallExample(addr: int)
    ensures NextPacketAsWritten(addr, StallingHeader) == addr
    ensures NextPacket(addr, StallingHeader) == addr + TWO_32
  {
    CursorStallsAsWritten(addr, StallingHeader);
  }
}
