# TimeTagger4 readout: packet walk and hit decoding

This project models two parts of the cronologic TimeTagger4 Python extension:

- The readout packet of the cronologic driver interface. This covers the `crono_packet` header, the packet-type constants and the three cursor macros `crono_packet_data_length`, `crono_packet_bytes` and `crono_next_packet`.
- The read path of `timetagger4vector_read`. It walks the packets of one readout window from `first_packet` while `p <= last_packet`. For each packet it creates an output array of `hit_count + 1` slots:
  - slot 0 holds the packet timestamp;
  - every hit word that is not a time-overflow marker writes slot `i + 1` with its offset plus the rollover count times the rollover period;
  - a marker only bumps the rollover count.

Three modules:

- `Common` (common.dfy) holds the machine integer types, `Option`, and the division lemmas the field extractors need.
- `CronoInterface` (crono_interface.dfy) is pure. It holds the header layout, its parser and encoder, the macros on byte addresses, and the cursor on word indices. It also has the macros as the C compiler evaluates them, in 32-bit unsigned arithmetic.
- `TimeTagger4Read` (timetagger4_read.dfy) covers the hit word layout, the hit count and the rollover accounting as specification functions. It also holds the source's two loops as methods:
  - `FillHitSlots` is the inner `for` loop over an output `array<Option<int>>`;
  - `DecodePacket` is one turn of the packet loop;
  - `ReadWindow` is the `while` loop that appends one array per packet.

Modelling conventions:

- A readout window is a `seq` of 64-bit words. A packet is addressed by the word index of its first header word.
- Header word 0 holds the fields in little-endian struct order:
  - channel in bits 0-7;
  - card in bits 8-15;
  - type in bits 16-23;
  - flags in bits 24-31;
  - length in bits 32-63.
- Header word 1 is the two's-complement timestamp.
- Hit word `2j` is the low half of payload word `j` and hit word `2j + 1` is the high half. This is the `uint32_t*` view of the payload on a little-endian host.
- Field extraction `w >> k & mask` is written `(w / 2^k) % 2^(width)`. The two are equal for unsigned values.
- Times are integer bins: `offset + rollover_count * rollover_period`.
- The rollover period is a parameter of the group functions and of the methods. The program as written always reads it as 0 from a global that nothing fills (`TimeTagger4Read.ROLLOVER_PERIOD_AS_READ`; see Findings). The members that take `period` describe the intended behaviour for the device's period; `RolloverLostAsWritten` and `OverflowThenHitAsWritten` describe the program with period 0.
- A slot that was never written is `None`.

Where the code and its description differ, the model follows the code:

- The decoder sizes a packet by its raw `length` field and never looks at its type. `DecoderReadsAgainstPacketExtent` states what that means for header-only packets.
- The decoder extracts each hit's channel and never uses it. `GroupIgnoresChannel` states this.
- A marker's slot is not removed. It stays in the array, unwritten.

## Model

| member | source | states |
|---|---|---|
| CronoInterface.HeaderRoundTrip | timetagger4ext/include/crono_interface.h:243-275 | The header is exactly two 64-bit words: four 8-bit fields, the 32-bit length and the 64-bit timestamp, with no overlap. Parsing an encoded header gives back every field. |
| CronoInterface.HeaderWordsRoundTrip | timetagger4ext/include/crono_interface.h:243-275 | The fields cover all 128 header bits. Any two header words are the encoding of the header parsed from them. |
| CronoInterface.IsHeaderOnly | timetagger4ext/include/crono_interface.h:430 | `type & 128` is set exactly when the type is 128 or more. |
| CronoInterface.DataLength | timetagger4ext/include/crono_interface.h:430 | The payload length is 0 when type bit 7 is set. Otherwise it is the `length` field. |
| CronoInterface.HeaderOnlyTypesHaveNoPayload | timetagger4ext/include/crono_interface.h:58-60 | The timestamp-only, end-of-buffer and trigger-pattern types have payload length 0, whatever `length` holds. |
| CronoInterface.DataTypesUseLengthField | timetagger4ext/include/crono_interface.h:49-57 | Types 0 to 8 have payload length equal to `length`. |
| CronoInterface.PacketBytes | timetagger4ext/include/crono_interface.h:436 | The packet size is a multiple of 8 bytes and at least 16. The size in words is the 2 header words plus the payload length. |
| CronoInterface.NextPacket | timetagger4ext/include/crono_interface.h:444 | The next address lies exactly `crono_packet_bytes` past the current one, so the two macros agree. It is at least 16 bytes further on, so the cursor always advances. |
| CronoInterface.NextIndex | timetagger4ext/include/crono_interface.h:444 | On word indices the cursor advances by at least the 2 header words. |
| CronoInterface.NextIndexMatchesNextPacket | timetagger4ext/include/crono_interface.h:444 | The word cursor and `crono_next_packet` on byte addresses move to the same place. |
| CronoInterface.AsWrittenBytesAreWrappedWords | timetagger4ext/include/crono_interface.h:436 | `crono_packet_bytes` evaluated in 32-bit unsigned arithmetic counts `payload + 2` words modulo 2^29. It is still a multiple of 8. |
| CronoInterface.PacketBytesAsWritten | timetagger4ext/include/crono_interface.h:436 | It computes `crono_packet_bytes` in 32-bit unsigned arithmetic: `(payload + 2) * 8` modulo 2^32. Its facts are stated by AsWrittenBytesAreWrappedWords and AsWrittenExactBelowWrap. |
| CronoInterface.NextPacketAsWritten | timetagger4ext/include/crono_interface.h:444 | In 32-bit arithmetic the two macros still agree and the cursor never moves back. |
| CronoInterface.AsWrittenExactBelowWrap | timetagger4ext/include/crono_interface.h:436 | Below a payload of 0x1FFFFFFE words the 32-bit size equals the true size. |
| CronoInterface.CursorStallsAsWritten | timetagger4ext/include/crono_interface.h:444 | In 32-bit arithmetic the cursor stays where it was if and only if `payload + 2` is a multiple of 2^29. |
| CronoInterface.CursorStallExample | timetagger4ext/include/crono_interface.h:444 | A TDC packet with length 0x1FFFFFFE leaves the 32-bit cursor in place. The true next packet is 4 GiB further on. |
| TimeTagger4Read.DecodeHit | timetagger4ext/tools/src/crono_exts/timetagger4ext.cpp:265-276 | A hit word splits into a channel below 16, flags below 16 and an offset below 2^24. |
| TimeTagger4Read.HitRoundTrip | timetagger4ext/tools/src/crono_exts/timetagger4ext.cpp:266-276 | Decoding recovers every packed field. |
| TimeTagger4Read.HitWordRoundTrip | timetagger4ext/tools/src/crono_exts/timetagger4ext.cpp:266-276 | The three fields cover all 32 bits: every hit word is the encoding of its decoding. |
| TimeTagger4Read.HitWordsInPayloadOrder | timetagger4ext/tools/src/crono_exts/timetagger4ext.cpp:249 | Hit words `2j` and `2j + 1` are the low and then the high half of payload word `j`. |
| TimeTagger4Read.HitWordAt | timetagger4ext/tools/src/crono_exts/timetagger4ext.cpp:249-265 | It reads hit word `i` through the `uint32_t*` view of the payload: the low half of payload word `i / 2` for even `i`, the high half for odd `i`. Its facts are stated by HitWordsInPayloadOrder. |
| TimeTagger4Read.DoubledLengthWraps | timetagger4ext/tools/src/crono_exts/timetagger4ext.cpp:243 | The unsigned 32-bit product `2 * length` is twice the length with its top bit dropped. |
| TimeTagger4Read.HitCountAsWritten | timetagger4ext/tools/src/crono_exts/timetagger4ext.cpp:243-247 | It computes `hit_count` as the source does: the 32-bit product `2 * length` stored into an `int`, less one when ODD_HITS is set. Its facts are stated by SlotCountAsWritten, EmptyOddPacketExample and HitCount. |
| TimeTagger4Read.SlotCountAsWritten | timetagger4ext/tools/src/crono_exts/timetagger4ext.cpp:243-251 | With the 32-bit product stored in an `int`, the requested slot count is below one exactly when `length mod 2^31` is at least 2^30, or is 0 with ODD_HITS set. |
| TimeTagger4Read.EmptyOddPacketExample | timetagger4ext/tools/src/crono_exts/timetagger4ext.cpp:243-260 | For an empty packet with ODD_HITS set, `hit_count` is -1 and the allocated array has 0 slots. The clamped count keeps slot 0. |
| TimeTagger4Read.HitCount | timetagger4ext/tools/src/crono_exts/timetagger4ext.cpp:243-247 | The hit count is `2 * length`, less one exactly when ODD_HITS is set, for any non-empty packet. For `length` below 2^30 it equals the source's count. The count is 0 exactly for an empty packet, never exceeds `2 * length`, and is odd exactly when the packet is non-empty with ODD_HITS set. |
| TimeTagger4Read.PacketHits | timetagger4ext/tools/src/crono_exts/timetagger4ext.cpp:263-268 | A packet yields one decoded hit per counted hit word, each within the field bounds. |
| TimeTagger4Read.DecoderReadsAgainstPacketExtent | timetagger4ext/tools/src/crono_exts/timetagger4ext.cpp:243-265 | The decoder uses the raw `length`. For a data type every hit word it reads lies inside the packet. For a header-only type every hit word it reads lies at or past the next packet. |
| TimeTagger4Read.CountOverflows | timetagger4ext/tools/src/crono_exts/timetagger4ext.cpp:270-273 | The number of markers among a run of hits is at most its length. |
| TimeTagger4Read.CountOverflowsSplit | timetagger4ext/tools/src/crono_exts/timetagger4ext.cpp:250-273 | The markers of a run of hits are the markers of its two parts. |
| TimeTagger4Read.RolloverCountGrowth | timetagger4ext/tools/src/crono_exts/timetagger4ext.cpp:250-273 | The rollover count seen by later hits grows by exactly the markers in between. A marker adds one for every hit after it, and each hit adds one exactly when it is a marker. |
| TimeTagger4Read.GroupSlots | timetagger4ext/tools/src/crono_exts/timetagger4ext.cpp:251-281 | A group has `hit_count + 1` slots and slot 0 is the timestamp. A hit's slot is empty exactly when the hit is a time-overflow marker. |
| TimeTagger4Read.SlotSplitsIntoPeriodAndOffset | timetagger4ext/tools/src/crono_exts/timetagger4ext.cpp:276-280 | When offsets stay below the rollover period, a hit's value divided by the period gives the rollover count before it, and the remainder is its offset. |
| TimeTagger4Read.OffsetPlusRolloversFits | timetagger4ext/tools/src/crono_exts/timetagger4ext.cpp:262-279 | A 24-bit offset plus fewer than 2^31 periods of 32 bits fits below 2^64. |
| TimeTagger4Read.SlotValuesFitUint64 | timetagger4ext/tools/src/crono_exts/timetagger4ext.cpp:262-279 | With a signed 32-bit hit count and a 32-bit rollover period, every value written fits the unsigned 64-bit arithmetic the source uses. |
| TimeTagger4Read.CountOverflowsIgnoresChannel | timetagger4ext/tools/src/crono_exts/timetagger4ext.cpp:266-273 | The marker count does not depend on the hit channels. |
| TimeTagger4Read.HitSlotIgnoresChannel | timetagger4ext/tools/src/crono_exts/timetagger4ext.cpp:266-280 | A hit's slot does not depend on any hit's channel. |
| TimeTagger4Read.GroupIgnoresChannel | timetagger4ext/tools/src/crono_exts/timetagger4ext.cpp:266-280 | The channel is extracted and dropped: two hit runs that differ only in channels give the same group. |
| TimeTagger4Read.OverflowThenHitScenario | timetagger4ext/tools/src/crono_exts/timetagger4ext.cpp:263-281 | A one-word packet holds a marker and then a hit at offset 10. For every period it gives the timestamp, an empty slot, and `10 + period`. |
| TimeTagger4Read.RolloverLostAsWritten | timetagger4ext/tools/src/crono_exts/timetagger4ext.cpp:262-280 | With the period the program reads, every non-marker hit's value is its bare offset, whatever markers precede it. |
| TimeTagger4Read.OverflowThenHitAsWritten | timetagger4ext/tools/src/crono_exts/timetagger4ext.cpp:262-281 | With the period the program reads, the hit after the marker gets 10, as if there were no marker. |
| TimeTagger4Read.DecodePacket | timetagger4ext/tools/src/crono_exts/timetagger4ext.cpp:243-282 | One turn of the packet loop allocates a fresh array whose contents are the packet's group. |
| TimeTagger4Read.FillHitSlots | timetagger4ext/tools/src/crono_exts/timetagger4ext.cpp:250-282 | After the inner loop the array is the pre-loop array with every hit slot filled, with the rollover count kept equal to the markers before each hit. |
| TimeTagger4Read.FilledSlotsKeepsMarkersAndTimestamp | timetagger4ext/tools/src/crono_exts/timetagger4ext.cpp:270-280 | Slot 0, the markers' slots and the slots not yet reached keep their old contents. Every other slot holds `offset + markers before it * period`. |
| TimeTagger4Read.FilledSlotsStep | timetagger4ext/tools/src/crono_exts/timetagger4ext.cpp:270-280 | One turn of the inner loop changes at most slot `i + 1`, and changes nothing for a marker. |
| TimeTagger4Read.FilledFreshGroup | timetagger4ext/tools/src/crono_exts/timetagger4ext.cpp:251-281 | Filling an array that holds the timestamp in slot 0 and nothing elsewhere gives the group. |
| TimeTagger4Read.HitStep | timetagger4ext/tools/src/crono_exts/timetagger4ext.cpp:268-280 | The source's flag test on the raw word is the marker test. It also gives the count step and the value written. |
| TimeTagger4Read.VisitedPackets | timetagger4ext/tools/src/crono_exts/timetagger4ext.cpp:239-286 | Every packet the walk visits, with the decoder's reads, lies in the window. |
| TimeTagger4Read.VisitedPacketsInOrder | timetagger4ext/tools/src/crono_exts/timetagger4ext.cpp:239-286 | The walk visits nothing past `last`. Otherwise it starts at `first`, follows `crono_next_packet` and rises strictly. It stays within `[first, last]` and visits at most one packet per two words, so it ends. It stops only once the cursor after the last visited packet is past `last`, so no packet at or below `last` on the path is skipped. |
| TimeTagger4Read.WalkGroupsPerPacket | timetagger4ext/tools/src/crono_exts/timetagger4ext.cpp:239-286 | The walk appends exactly one group per visited packet, in the order visited. |
| TimeTagger4Read.WalkGroupsAdvance | timetagger4ext/tools/src/crono_exts/timetagger4ext.cpp:285-286 | One turn of the walk moves one packet's group from pending to appended. |
| TimeTagger4Read.ReadWindow | timetagger4ext/tools/src/crono_exts/timetagger4ext.cpp:232-292 | A failed read returns an empty list. A successful read returns one fresh array per visited packet, in order, each holding that packet's group. No two entries are the same array. |

## Left out

- The device calls (`timetagger4_read`, init, configure, start, stop, close) and the driver's acknowledge semantics are left out. The read status and the window of words are parameters of `ReadWindow`.
- The volatile DMA memory and the producer/consumer aliasing with the device are left out. The window is an immutable sequence.
- Python and NumPy object creation, reference counting and the allocation-failure return paths are left out. They are foreign calls. The list is a sequence of arrays.
- The 10 ms sleep after a failed read is left out, because it is timing only.
- The floating-point scaling by `packet_binsize` and `binsize` over 1000 is left out. Times stay in integer bins, and slot 0 is the raw packet timestamp.
- Memory that `PyArray_SimpleNew` leaves uninitialised is modelled as `None`. The model cannot express reading garbage from it.
- The host is assumed little-endian, both for the header struct layout and for the `uint32_t*` view of the payload.
- `TimeTagger4Read.HitCount`: it is the corrected count in exact arithmetic. It differs from the source's wrapped count for `length >= 2^30` and for the empty ODD_HITS packet (see Findings). Such lengths exceed the 8 MiB packet buffer (2^20 words), so they come only from a corrupt length field; the source would then also read outside the buffer.
- `TimeTagger4Read.HitCountAsWritten`: for `length` 2^30 or 3 * 2^30 (`length mod 2^31 == 2^30`) with ODD_HITS, the source's `hit_count -= 1` overflows a signed `int`, which C leaves undefined. The model gives the exact value -2^31 - 1.
- `TimeTagger4Read.SlotSplitsIntoPeriodAndOffset`: it describes the intended behaviour, with the device's rollover period. The program reads the period as 0, where the split does not hold and the rollover count is lost; `RolloverLostAsWritten` states that case.
- `TimeTagger4Read.OverflowThenHitScenario`: it holds for every period. For the period 0 that the program reads, `OverflowThenHitAsWritten` gives the value 10.
- `TimeTagger4Read.DecodePacket`: an empty packet with ODD_HITS set gets the clamped count (see Findings) and not the source's zero-slot array, which has no behaviour to model.
- `TimeTagger4Read.ReadWindow`: the loop's cursor is the corrected unbounded one. The 32-bit cursor's stall is modelled separately by `CronoInterface.CursorStallsAsWritten`.
- `TimeTagger4Read.ReadWindow`: the window is assumed to cover every word the decoder reads. The decoder sizes each packet by its raw `length`, so a header-only packet whose `length` holds a bit field, or a corrupt length, makes the source read outside the buffer. The model does not describe those reads.
- `TimeTagger4Read.DecodePacket`: likewise, the window is assumed to hold the header and all `length` payload words of the packet. Reads outside the buffer are not modelled.
- `TimeTagger4Read.FillHitSlots`: `rollover_count` is a `uint32_t` in the source. It cannot wrap, because it counts at most `hit_count < 2^31` markers, so the model uses a `nat`.
- The power-of-two shape of `rollover_period` is not used. The model takes any 32-bit period.

## Findings

| source | as written | input that shows it | evidently intended | confidence | as-written member | corrected member |
|---|---|---|---|---|---|---|
| timetagger4ext/include/crono_interface.h:436-444 | `(length + 2) * 8` is computed in 32-bit unsigned arithmetic, since `length` is `uint32_t`, and wraps modulo 2^32 before it is added to the address | a data packet with `length` 0x1FFFFFFE: the size evaluates to 0 and the cursor stays put. Before that, the decoder reads about 2^30 hit words, far outside the 8 MiB buffer. If those reads succeed, each turn decodes the same packet again, allocating about 8 GiB each time, so the walk ends only in a NULL return when allocation fails, not by passing `last_packet` | the size in 64-bit arithmetic, so that the cursor always advances by the packet's true size | not executed | CronoInterface.CursorStallsAsWritten | CronoInterface.NextPacket |
| timetagger4ext/tools/src/crono_exts/timetagger4ext.cpp:243-260 | `hit_count` is `2 * length` in 32-bit arithmetic stored in an `int`, less one when ODD_HITS is set, with no lower bound | a packet with `length` 0 and ODD_HITS set: `hit_count` is -1, the array gets 0 slots, and `array_data[0]` is written out of bounds. The same happens for `length` 2^31 with ODD_HITS. A length whose doubling wraps past 2^31 makes the count negative instead: the allocation then fails and the read returns NULL without writing slot 0 | a group of at least one slot holding the timestamp, with no hits | not executed | TimeTagger4Read.SlotCountAsWritten | TimeTagger4Read.HitCount |
| timetagger4ext/tools/src/crono_exts/timetagger4ext.cpp:262 | the period is read from the global `static_info` (line 45), which nothing fills: the queries at lines 78, 85 and 175 fill local variables of the same name declared at lines 77 and 84 | a packet with a time-overflow marker and then a hit at offset 10: the hit gets 10, the same as without the marker | the rollover period that `timetagger4_get_static_info` reports, so that the hit gets `10 + period` | not executed | TimeTagger4Read.OverflowThenHitAsWritten | TimeTagger4Read.OverflowThenHitScenario |
