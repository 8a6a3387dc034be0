# Verified models of the H.264 SPS codec, the USB tunnel, DRM master sharing and the bandwidth tracker

A Dafny 4.11 project that models four stateful parts of moonlight-vplus and proves what they are
for. `dafny verify dfyconfig.toml` checks all of it.

**The H.264 SPS codec (`h264bitstream/`).** Three layers, each with a writer and a reader that must
undo each other, and the theorem that joins them: a sequence parameter set, written to a NAL unit,
put behind a start code, is found exactly and read back unchanged.

| file | what it holds |
|---|---|
| `bits.dfy` | bit strings, fixed-width and Exp-Golomb codes, C integer conversions, bytes as bits |
| `bs.dfy` | the bit cursor, a class over a byte array |
| `scaling_list.dfy` | scaling lists: differences modulo 256, early stop, default flag |
| `sps_syntax.dfy`, `vui_syntax.dfy`, `sps.dfy` | the parameter set as a value, its written form, what a reader makes of any bit string, and the round trips |
| `sps_codec.dfy` | the reader and the writer at a bit cursor, field by field |
| `known_sets.dfy`, `known_codes.dfy` | three literal units with all the fields of their sets |
| `sps_locality.dfy` | what a reader reads depends on the bits it consumes, and on no other |
| `nal.dfy` | emulation prevention and the start-code search |
| `nal_unit.dfy` | whole units, and the decoder object |
| `sps_fixup.dfy` | the video decoder's fix-up of the sets a host sends, packet by packet |

`XBits(acc, x)` is what a writer has produced after `acc` and `x`; `ParseX(s, pos)` is what a reader
makes of *any* bits, malformed or cut short, and where it stops. Every reading method returns
exactly `ParseX`, every writing method appends exactly `XBits`; the round trips are lemmas about
these functions. `Canonical` is what a reader can leave behind. `Sendable` is where the writer is
defined in C: counts fit their arrays and every Exp-Golomb code it sends, scaling list differences
included, has `v + 1 < 2^16`, so that no shift reaches 32. `Writable` adds that scaling list entries
are bytes. Fields are mathematical integers with the conversions between
`int` and `uint32_t` written out. The cursor's ghost field `sent` records every bit written, also
those that fall outside the buffer.

Records follow the syntax tables, so `sps_t` is nested where the source is flat: the 4x4 and 8x8
lists are one sequence of twelve, and the two HRD records are held by the VUI.

**The USB tunnel (`tunnel.dfy`).** Each socket is an input and an output queue, each Qt signal a
step, and ghost histories record what arrived and what was accepted. The invariant says that both
directions conserve their bytes in order, that nothing passes before the handshake, that queues are
bounded and no pump is stalled. The local-to-host direction may be waiting for the *local* socket's
queue: the remote handler drains the local server only when that queue is below the mark. Its
`bytesWritten` resumes both.

**DRM master sharing (`drm_master.dfy`)** with a small kernel of descriptors, descriptions and a
current master, and **the bandwidth tracker (`bwtracker.dfy`)** against a plain log.

Where the code does something a reader might not expect, the model follows the code:

- A scaling list difference far below -128 leaves a negative entry, because C's remainder keeps the
  sign, and the writer cannot send that back. Reading, writing and reading again gives the same set
  exactly when every difference d read behind an entry e has e + d + 256 not negative, or a multiple
  of 256 (`ParseNormalises`); the range of the standard is enough (`ConformingNormalises`), and the
  writer itself can produce a stream that fails (`NotAlwaysNormal`).
- The video decoder's fix-up of a parameter set without VUI parameters is not sent, except for the
  reference frame count (`FixUpSurvives`, `WriteBuffer`).
- `bs_overrun` misses up to seven excess bits; on a byte boundary it is exact, and both unit
  functions test it only there (`OverrunExactness`, `ReadNalUnit`, `WriteNalUnit`).
- At the end of the buffer `bs_read_ue` makes a value up without moving (`MadeUpAtTheEnd`), so where
  the cursor ends says little by itself; but a set whose stop bit is inside the payload has no
  made-up bit (`NothingMadeUp`, `ReadSetIsGenuine`).
- The decoder's fix-up ignores the result of reading, so it passes a truncated set on (`WriteBuffer`).
- The window can reach one interval more than the ring has buckets: always on an interval boundary,
  and for longer when it is not a whole number of intervals. That oldest interval loses its bucket to
  the current one, and the peak falls below the window's maximum exactly when it alone had that
  maximum (`LostExactly`, `GetPeakMbps`, `PeakBelowWindow`).
- Closing Qt's own descriptor goes unnoticed by the close hook, and it is the one call after which
  the ownership invariant fails (`Close`, `Step`).

## Model

| member | source | states |
|---|---|---|
| BitCodes.UAt | h264bitstream/bs.h:106-115 | n bits written for v < 2^n read back as v at any offset, whatever follows |
| BitCodes.UeAt | h264bitstream/bs.h:139-155 | the reader undoes ue(v) of section 9.1 for every v below 2^32 - 1 and consumes exactly its bits |
| BitCodes.SeAt | h264bitstream/bs.h:157-169 | the signed reader undoes the signed code at any offset, for all magnitudes below 2^30 |
| BitCodes.SeAgreesWithStandard | h264bitstream/bs.h:157-169 | the signed value is that of Table 9-3 exactly for code numbers below 2^31 - 1 |
| BitCodes.UeIsOneNumber | h264bitstream/bs.h:240-259 | v + 1 sent as a number of 2 * len - 1 bits is the zeros, one and suffix of section 9.1 |
| BitCodes.ParseUe | h264bitstream/bs.h:139-155 | whatever the bits, an unsigned code is below 2^32 - 1 and the cursor does not go back |
| BitCodes.PackToBits | h264bitstream/bs.h:84-98 | a buffer is determined by its bits, most significant first |
| BitCodes.SetBitInBuffer | h264bitstream/bs.h:171-182 | clearing and setting a bit of a byte changes that bit of the buffer and no other |
| BitCursor.TableLenIsBitLength | h264bitstream/bs.h:208-257 | the table lookup is the bit length of every number from 1 to 2^32 - 1 |
| BitCursor.Bs.OverrunExactness | h264bitstream/bs.h:73-82 | overrun means eight or more excess bits, and any excess bit on a byte boundary; eof means no bit left |
| BitCursor.Bs.ReadU1 | h264bitstream/bs.h:84-98 | the bit at the cursor, 0 beyond the end; the cursor advances by one and the buffer stays |
| BitCursor.Bs.ReadU | h264bitstream/bs.h:106-115 | the number in the next n bits, the cursor advances by n |
| BitCursor.Bs.ReadU8 | h264bitstream/bs.h:126-137 | fast path and bit loop give the same value and position, also at the end of the buffer |
| BitCursor.Bs.ReadUe | h264bitstream/bs.h:139-155 | value and position are those of ParseUe on any bits, including early end and 32 zeros |
| BitCursor.Bs.ReadSe | h264bitstream/bs.h:157-169 | value and position are those of ParseSe |
| BitCursor.Bs.WriteU1 | h264bitstream/bs.h:171-182 | the low bit of v is sent; every bit behind the cursor's new place is untouched |
| BitCursor.Bs.WriteU | h264bitstream/bs.h:184-191 | the low n bits of v are sent; bits before and behind them keep their value |
| BitCursor.Bs.WriteU8 | h264bitstream/bs.h:193-204 | fast path and bit loop leave the same bits and position |
| BitCursor.Bs.WriteUe | h264bitstream/bs.h:206-261 | sends ue(v) of section 9.1 for v + 1 < 2^16 |
| BitCursor.Bs.WriteSe | h264bitstream/bs.h:263-273 | sends the signed code of section 9.1.1 for -32767..32767 |
| ScalingLists.ScalingListRoundTrip | h264bitstream/h264_stream.c:146-162 | a list of any positive length is read back with its flag: entries 1..255 as they were, a default list as eights |
| ScalingLists.ParsedEntries | h264bitstream/h264_stream.c:146-162 | whatever the bits, a set flag comes with eights only and a clear flag with nonzero entries |
| ScalingLists.ScalingListRoundTripExact | h264bitstream/h264_stream.c:398-434 | of all lists, whatever their entries, those read back unchanged are exactly the canonical ones of bytes |
| ScalingLists.ScalingListOnlyIf | h264bitstream/h264_stream.c:146-162 | a canonical list, whatever its entries, that survives behind any prefix has byte entries |
| ScalingLists.LargeDifferenceIsLost | h264bitstream/h264_stream.c:155-157 | in a list of any length a first difference of -300 leaves an entry of -36, and that list does not survive rewriting |
| ScalingLists.WritableExactly | h264bitstream/h264_stream.c:155-160 | whatever the bits, the list read is one of bytes exactly when each difference, added to the entry before it and 256, is not negative or a multiple of 256 |
| ScalingLists.SmallDeltasFit | h264bitstream/h264_stream.c:155-160 | differences within -128..127 always meet that condition |
| ScalingLists.ParsedModest | h264bitstream/h264_stream.c:156-160 | every list that is read lies within -255..255 |
| ScalingLists.ParsedSendable | h264bitstream/h264_stream.c:398-434 | whatever the bits, the writer is defined for the list that was read |
| ScalingLists.ReadScalingList | h264bitstream/h264_stream.c:146-162 | the loop fills the list, sets the flag and moves the cursor as ParseScalingList says |
| ScalingLists.ChooseNext | h264bitstream/h264_stream.c:407-423 | 0 exactly for a default list or a constant tail, otherwise the entry |
| ScalingLists.WriteScalingList | h264bitstream/h264_stream.c:398-434 | sends exactly the codes of any list whose differences are in the writer's domain |
| SpsSyntax.HeadRoundTrip | h264bitstream/h264_stream.c:51-60 | profile, constraint flags, level and id are read back |
| SpsSyntax.MatrixRoundTrip | h264bitstream/h264_stream.c:81-97 | eight or twelve optional scaling lists are read back in their places |
| SpsSyntax.MatrixOnlyIf | h264bitstream/h264_stream.c:81-97 | canonical lists that survive, whatever their entries, are lists of bytes |
| SpsSyntax.MatrixWritable | h264bitstream/h264_stream.c:81-97 | whatever the bits, all lists read are lists of bytes exactly when the differences of each meet the condition |
| SpsSyntax.ChromaRoundTrip | h264bitstream/h264_stream.c:62-99 | the high-profile part is read back, and its defaults when the profile has none |
| SpsSyntax.ChromaWritable | h264bitstream/h264_stream.c:62-99 | the same for the high-profile part, and nothing to meet without it |
| SpsSyntax.OversizedChromaRead | h264bitstream/h264_stream.c:146-162 | sixteen entries of -548 are sent as differences -300 and 292 and read as entries of -36, with every other field and the position intact |
| SpsSyntax.ParsedChroma | h264bitstream/h264_stream.c:48-99 | any bits leave flags in range, absent parts at their defaults and lists canonical |
| SpsSyntax.OffsetsRoundTrip | h264bitstream/h264_stream.c:116-119 | the reference offsets are read back and the rest of the array stays zero |
| SpsSyntax.PocRoundTrip | h264bitstream/h264_stream.c:100-120 | all three kinds of picture order count are read back |
| SpsSyntax.ParsePoc | h264bitstream/h264_stream.c:100-120 | any bits leave at most 256 offsets and zeros in everything absent |
| SpsSyntax.FrameRoundTrip | h264bitstream/h264_stream.c:121-138 | frame fields and the optional cropping are read back |
| VuiSyntax.CpbRoundTrip | h264bitstream/h264_stream.c:244-249 | the buffer entries are read back and the rest of the arrays stays zero |
| VuiSyntax.HrdRoundTrip | h264bitstream/h264_stream.c:235-254 | HRD parameters are read back |
| VuiSyntax.ParsedHrd | h264bitstream/h264_stream.c:235-254 | any bits leave a count of at most 31 and zeros behind the entries read |
| VuiSyntax.AspectRoundTrip | h264bitstream/h264_stream.c:166-175 | aspect ratio with and without extended size |
| VuiSyntax.OverscanRoundTrip | h264bitstream/h264_stream.c:176-180 | overscan flags |
| VuiSyntax.VideoRoundTrip | h264bitstream/h264_stream.c:181-193 | video signal type with and without colour description |
| VuiSyntax.ChromaLocRoundTrip | h264bitstream/h264_stream.c:194-199 | chroma sample locations |
| VuiSyntax.TimingRoundTrip | h264bitstream/h264_stream.c:200-206 | both 32-bit words over the whole range of int |
| VuiSyntax.HrdInfoRoundTrip | h264bitstream/h264_stream.c:207-220 | each HRD record, absent or present, and the delay flag that depends on either |
| VuiSyntax.RestrictionRoundTrip | h264bitstream/h264_stream.c:222-232 | the bitstream restriction |
| VuiSyntax.VuiRoundTrip | h264bitstream/h264_stream.c:164-233 | the VUI through all its conditional parts |
| SequenceParameterSet.SpsRoundTrip | h264bitstream/h264_stream.c:44-144 | every well-formed set is read back, exactly its bits are consumed, at any offset and whatever follows |
| SequenceParameterSet.ParsedSps | h264bitstream/h264_stream.c:48-49 | whatever the bits, the set read is canonical: ranges, clamps and defaults |
| SequenceParameterSet.SpsOnlyIf | h264bitstream/h264_stream.c:303-396 | a canonical set that survived has only scaling lists of bytes |
| SequenceParameterSet.SpsRoundTripExact | h264bitstream/h264_stream.c:303-396 | among the sets the writer is defined for, exactly the canonical ones with byte lists survive |
| SequenceParameterSet.ParseNormalises | h264bitstream/h264_stream.c:44-144 | read, write, read gives the first result, for any first bit string whose codes the writer has, exactly when all its scaling list differences meet the condition |
| SequenceParameterSet.ConformingNormalises | h264bitstream/h264_stream.c:44-144 | so it does for differences within -128..127 |
| SequenceParameterSet.NotAlwaysNormal | h264bitstream/h264_stream.c:44-144 | and not always: a high-profile set the writer is defined for is sent as bits that read as another such set, which does not survive being written |
| SequenceParameterSet.SpsBitsInjective | h264bitstream/h264_stream.c:303-396 | the written form is self-delimiting: equal streams mean equal sets and equal rests |
| SequenceParameterSet.TypicalSets | h264bitstream/h264_stream.c:44-144 | sets of a high profile with VUI parameters and of the baseline profile without meet the hypotheses of the round trips, at any size and level |
| SequenceParameterSet.ChromaByProfile | h264bitstream/h264_stream.c:62-99 | on any bits: exactly the twelve listed profiles have a chroma part, which begins behind the identifier, and where each of its fields is; all others have the defaults and go on there |
| SequenceParameterSet.CountsByValue | h264bitstream/h264_stream.c:111-115 | on any bits: at most 256 offsets and 32 buffer entries, and two numbers exactly behind aspect ratio 255 |
| KnownSets.Known444 | h264bitstream/h264_stream.c:303-522 | 76 literal bytes are the unit, written and read, of a High 4:4:4 set with every optional part, all of whose fields are given |
| KnownSets.KnownHigh | h264bitstream/h264_stream.c:303-522 | 20 literal bytes for a High set with the other branch of most conditions |
| KnownSets.KnownBaseline | h264bitstream/h264_stream.c:303-396 | 9 literal bytes for a Baseline set without chroma part and VUI |
| SpsCodec.ReadSeqParameterSetRbsp | h264bitstream/h264_stream.c:44-144 | set and position are those of ParseSps, on any bits |
| SpsCodec.ReadChroma | h264bitstream/h264_stream.c:62-99 | the high-profile part as ParseChroma says |
| SpsCodec.ReadMatrix | h264bitstream/h264_stream.c:81-97 | the scaling lists as ParseMatrix says |
| SpsCodec.ReadPoc | h264bitstream/h264_stream.c:100-120 | the order count part as ParsePoc says, with the clamp to 256 |
| SpsCodec.ReadFrame | h264bitstream/h264_stream.c:121-138 | the frame part as ParseFrame says |
| SpsCodec.ReadVuiParameters | h264bitstream/h264_stream.c:164-233 | the VUI as ParseVui says |
| SpsCodec.ReadHrdParameters | h264bitstream/h264_stream.c:235-254 | the HRD as ParseHrd says, with the clamp to 31 |
| SpsCodec.ReadRbspTrailingBits | h264bitstream/h264_stream.c:256-264 | skips to the byte boundary behind the stop bit |
| SpsCodec.WriteSeqParameterSetRbsp | h264bitstream/h264_stream.c:303-396 | sends exactly the bits of the set |
| SpsCodec.WriteChroma | h264bitstream/h264_stream.c:318-355 | sends exactly the high-profile part |
| SpsCodec.WriteVuiParameters | h264bitstream/h264_stream.c:436-505 | sends exactly the bits of the VUI |
| SpsCodec.WriteHrdParameters | h264bitstream/h264_stream.c:507-522 | sends exactly the bits of the HRD |
| SpsCodec.WriteRbspTrailingBits | h264bitstream/h264_stream.c:524-532 | a stop bit and zeros up to the byte boundary |
| SpsLocality.UeLocal | h264bitstream/bs.h:139-155 | a code that ends inside the buffer depends on the bits before its end only |
| SpsLocality.MadeUpAtTheEnd | h264bitstream/bs.h:144-155 | at the end of the buffer a code is made up without the cursor moving, and more bits give another one |
| SpsLocality.EntriesLocal | h264bitstream/h264_stream.c:146-162 | a scaling list that ends inside the buffer depends on the bits before its end only |
| SpsLocality.MatrixLocal | h264bitstream/h264_stream.c:81-97 | so do eight or twelve optional lists |
| SpsLocality.HrdLocal | h264bitstream/h264_stream.c:235-254 | so do HRD parameters, with their loop over the entries |
| SpsLocality.VuiLocal | h264bitstream/h264_stream.c:164-233 | so does the VUI, through all its conditional parts; reading never moves back |
| SpsLocality.SetLooksNoFurther | h264bitstream/h264_stream.c:44-144 | a set that ends inside the buffer is the same for any buffer that agrees on the bits before its end |
| NalBytes.UnescapeEscape | h264bitstream/h264_nal.c:102-151 | decoding inverts encoding for every byte string and uses every byte |
| NalBytes.EscapeUnescape | h264bitstream/h264_nal.c:102-151 | the used part of any accepted unit is the encoding of its result; at most a final 03 is unused |
| NalBytes.UnusedExactlyAfterEscape | h264bitstream/h264_nal.c:115-125 | a byte is left unused exactly when the unit ends in 00 00 03 |
| NalBytes.EscapeBijection | h264bitstream/h264_nal.c:63-151 | the encoder's outputs are exactly the accepted units that do not end in 00 00 03, and one that does decodes like the unit without its last byte |
| NalBytes.EscapedIsClean | h264bitstream/h264_nal.c:71-96 | no 00 00 00, 00 00 01 or 00 00 02 anywhere in the output, nor across zeros before it |
| NalBytes.EscapedLast | h264bitstream/h264_nal.c:71-96 | the output ends with the payload's last byte |
| NalBytes.ExpansionBound | h264bitstream/h264_nal.c:71-99 | n bytes grow by at most (n - 1) / 2 |
| NalBytes.ExpansionTight | h264bitstream/h264_nal.c:71-99 | n zeros grow by exactly that much |
| NalBytes.UnescapedNotLonger | h264bitstream/h264_nal.c:131-134 | an output as long as the input is never exhausted |
| NalBytes.RbspToNal | h264bitstream/h264_nal.c:63-100 | a zero, then the encoding; fails exactly when that does not fit, never for an empty payload |
| NalBytes.NalToRbsp | h264bitstream/h264_nal.c:102-151 | payload, its size and the bytes used; fails exactly on an invalid unit or a short output |
| NalBytes.FindNalUnit | h264bitstream/h264_nal.c:21-61 | the unit between the least start code and the least later stop, or all zeros exactly when there is no start code |
| NalBytes.CodeInBytes | h264bitstream/h264_nal.c:27-53 | a start code is 00 00 01, and what ends a unit 00 00 00 or 00 00 01 |
| NalBytes.UnitInBytes | h264bitstream/h264_nal.c:21-61 | the bytes in front of, inside and behind the first unit |
| NalBytes.UnitUnique | h264bitstream/h264_nal.c:21-61 | a buffer has only one such unit |
| NalBytes.UnitFoundBehind | h264bitstream/h264_nal.c:21-61 | a clean unit is found exactly behind the first start code, whatever precedes that code |
| NalBytes.FramedUnitFound | h264bitstream/h264_nal.c:28-57 | no window in a clean unit, or across its end, stops the search early |
| NalUnit.UnitRoundTrip | h264bitstream/h264_stream.c:8-42 | reading a written unit gives header, set and its full length |
| NalUnit.UnitRoundTripExact | h264bitstream/h264_stream.c:8-42 | for every set the writer is defined for, a written unit reads back whole exactly when the set is canonical with byte lists and the reference number has two bits |
| NalUnit.FirstBytes | h264bitstream/h264_stream.c:270-289 | the payload's first bytes by value: 32 times the reference number plus 7, the profile, the six constraint flags above two zero bits, the level |
| NalUnit.UnitBegins | h264bitstream/h264_stream.c:293-295 | the unit begins with the first three of these bytes |
| NalUnit.UnitEndsNonzero | h264bitstream/h264_stream.c:524-532 | the stop bit keeps the last byte of a unit nonzero |
| NalUnit.UnitIsClean | h264bitstream/h264_stream.c:293-295 | a written unit has no forbidden three bytes |
| NalUnit.WholeUnitRoundTrip | h264bitstream/h264_stream.c:266-301 | a written unit behind a start code, with or without another start code behind it, is the only unit a search finds, and reads back as the same header and set |
| NalUnit.StopBitDecides | h264bitstream/h264_stream.c:24-37 | a payload is cut short exactly when the stop bit behind the set is outside it |
| NalUnit.NothingMadeUp | h264bitstream/h264_stream.c:24-41 | a set reported as read stays the same when the payload's bytes behind it change or grow |
| NalUnit.ReadSetIsGenuine | h264bitstream/h264_stream.c:24-41 | a set reported as read is the same with any bytes behind the payload, so no bit of it is made up; it is canonical, and can be written and read again |
| NalUnit.EnoughCapacity | h264bitstream/h264_stream.c:266-301 | payload size plus half of it is always enough room |
| NalUnit.H264Stream.ReadNalUnit | h264bitstream/h264_stream.c:8-42 | result, header and set for each outcome; success exactly when the set and its stop bit end inside the payload (StopBitDecides) |
| NalUnit.H264Stream.WriteNalUnit | h264bitstream/h264_stream.c:266-301 | the unit is at index 1 behind a zero; fails exactly when the type is another or the unit does not fit; its first three bytes by value |
| NalUnit.SendAndReceive | h264bitstream/h264_stream.c:266-301 | writing with one object, framing, searching and reading with another carries the set over whenever the unit fits |
| SpsFixUp.FixUpSurvives | app/streaming/video/ffmpeg.cpp:1827-1842 | the fix-up reaches the next reader exactly when the set has VUI parameters; otherwise only the reference frame count does |
| SpsFixUp.FixedUpValues | app/streaming/video/ffmpeg.cpp:1824-1842 | the fix-up by value: one reference frame and one frame of buffering, an existing restriction otherwise unchanged, a new one 1, 2, 1, 16, 16, 0, nothing else touched; and which sets need it |
| SpsFixUp.NoFixUpNeeded | app/streaming/video/ffmpeg.cpp:1824 | a set that is passed on as it is already is what the fix-up would make of it |
| SpsFixUp.FixedUpUnitFound | app/streaming/video/ffmpeg.cpp:1848-1857 | the new unit behind the old start code, whatever was in front of it, is what a search finds |
| SpsFixUp.SetGrowth | app/streaming/video/ffmpeg.cpp:1827-1842 | the fix-up makes a set at most 31 bits longer |
| SpsFixUp.UnitGrowth | app/streaming/video/ffmpeg.cpp:1851-1853 | a set of n payload bytes has a fixed-up unit of at most n + 4 + (n + 3) / 2 bytes |
| SpsFixUp.ShortSetsFit | app/streaming/video/ffmpeg.cpp:1851-1853 | the sixteen spare bytes are enough for every unit written from a payload of at most twenty bytes |
| SpsFixUp.PacketDelivers | app/streaming/video/ffmpeg.cpp:1808-1876 | the next reader of the new packet finds the unit where the old one was, with the same header and the set fixed up |
| SpsFixUp.PassedOnValues | app/streaming/video/ffmpeg.cpp:1824-1857 | what is passed on for which set, with sixteen bytes to spare |
| SpsFixUp.DeliveredValues | app/streaming/video/ffmpeg.cpp:1827-1842 | the fields of the set that the next reader gets |
| SpsFixUp.WriteBuffer | app/streaming/video/ffmpeg.cpp:1808-1876 | for any packet: fails exactly when it holds no set or the new unit outgrows its sixteen spare bytes, and where the offset then stands; otherwise the exact new packet, and the fields of the set that it delivers |
| UsbTunnel.VerdictStable | app/backend/usbforwardingtunnel.cpp:220-261 | once the host's bytes decide the handshake, more bytes only add to the payload |
| UsbTunnel.ChunkIndependence | app/backend/usbforwardingtunnel.cpp:220-261 | verdict and payload depend on the bytes, not on how they were split into reads |
| UsbTunnel.ReplyLine | app/backend/usbforwardingtunnel.cpp:222-261 | in bytes: what comes before the first byte 10 is the reply, accepted up to 4096 bytes if ready, with the rest as payload |
| UsbTunnel.VerdictByBytes | app/backend/usbforwardingtunnel.cpp:222-261 | the same for any stream, by the index of its first byte 10 |
| UsbTunnel.VerdictBoundary | app/backend/usbforwardingtunnel.cpp:222-238 | accepted exactly on a ready line whose byte 10 is at index 4096 or before; undecided exactly without byte 10 within 4096 bytes |
| UsbTunnel.PumpCount | app/backend/usbforwardingtunnel.cpp:297-304 | a pump drains its source or reaches 4194304 bytes, and never passes that by 65536 |
| UsbTunnel.WhatIsPumped | app/backend/usbforwardingtunnel.cpp:266-280 | the whole pump: as much of the residue as the queue takes, then as much of the socket, up to 4194304 bytes, and nothing lost |
| UsbTunnel.HostPumpsBuffer | app/backend/usbforwardingtunnel.cpp:268-270 | moving a chunk of handshake residue keeps the host's bytes in order |
| UsbTunnel.HostPumpsSocket | app/backend/usbforwardingtunnel.cpp:271-279 | so does moving a chunk from the socket, once the residue is gone |
| UsbTunnel.LocalPumps | app/backend/usbforwardingtunnel.cpp:297-304 | moving a chunk to the host keeps the local bytes in order behind the request |
| UsbTunnel.Tunnel.OutcomeFollowsStream | app/backend/usbforwardingtunnel.cpp:213-261 | handshake state and handshake failures are what the host's byte stream says, without delay once the local server is there |
| UsbTunnel.Tunnel.NothingBeforeHandshake | app/backend/usbforwardingtunnel.cpp:288-294 | before the handshake only the request goes to the host, and nothing before the certificate is verified |
| UsbTunnel.Tunnel.ForwardingConserves | app/backend/usbforwardingtunnel.cpp:263-305 | once forwarding, and also after the end, all bytes of both directions are accounted for in order |
| UsbTunnel.Tunnel.DeliveredExactly | app/backend/usbforwardingtunnel.cpp:195-211 | both peers have got everything exactly when both sockets and the handshake buffer are empty; what they hold at the end is dropped |
| UsbTunnel.Tunnel.QuiescentMeansDelivered | app/backend/usbforwardingtunnel.cpp:263-305 | with empty output queues everything received has been delivered |
| UsbTunnel.Tunnel.Start | app/backend/usbforwardingtunnel.cpp:66-193 | starts exactly with a valid configuration, a pinned certificate and no tunnel running, in a clean state |
| UsbTunnel.Tunnel.FailWith | app/backend/usbforwardingtunnel.cpp:307-314 | closes and reports its reason unless the tunnel has ended already; a handshake reason only on a stream that deserves it |
| UsbTunnel.Tunnel.FinishCleanly | app/backend/usbforwardingtunnel.cpp:316-327 | clean only after forwarding, otherwise closed early, and nothing when the tunnel has ended already; a clean end has delivered everything exactly when nothing was held |
| UsbTunnel.Tunnel.Handshake | app/backend/usbforwardingtunnel.cpp:220-261 | pending, rejected or forwarding as the bytes taken so far decide, with the residue kept |
| UsbTunnel.Tunnel.PumpToLocal | app/backend/usbforwardingtunnel.cpp:266-280 | moves exactly these bytes, residue before socket |
| UsbTunnel.Tunnel.HandleLocalReadyRead | app/backend/usbforwardingtunnel.cpp:288-305 | moves exactly PumpCount bytes, and none before the handshake |
| UsbTunnel.Tunnel.HandleRemoteReadyRead | app/backend/usbforwardingtunnel.cpp:213-286 | restores the whole invariant, with no stalled direction and no unjudged bytes; a pending handshake ends as the bytes at hand decide; while forwarding, exactly which bytes move in both directions |
| UsbTunnel.Tunnel.Receive | app/backend/usbforwardingtunnel.cpp:213-286 | the object's handshake ends as the host's bytes decide, however they are split into reads: by the index of the first byte 10, the limit of 4096 and the reply, with the rest as payload |
| UsbTunnel.Tunnel.OnLocalConnected | app/backend/usbforwardingtunnel.cpp:162-164 | bytes that came before the local server was there are judged when it connects |
| UsbTunnel.Tunnel.OnEncrypted | app/backend/usbforwardingtunnel.cpp:107-124 | the request is sent exactly for the pinned certificate; any other ends the tunnel |
| UsbTunnel.Tunnel.Step | app/backend/usbforwardingtunnel.cpp:56-187 | every event keeps the invariant and has its own effect on a running tunnel: what is received, delivered, signalled and closed; histories only grow; a closed tunnel stays closed |
| UsbTunnel.Tunnel.InvIsSafe | app/backend/usbforwardingtunnel.cpp:195-327 | the invariant implies conservation in both directions, also after the end, silence before the handshake, bounded queues and well-ordered signals |
| UsbTunnel.Tunnel.Run | app/backend/usbforwardingtunnel.cpp:195-327 | after any run: all bytes accounted for in order, everything delivered exactly when nothing is held, only the request before the handshake, bounded queues, and finished at most once and last, clean only after forwarding |
| UsbTunnel.Tunnel.Flush | app/backend/usbforwardingtunnel.cpp:162-187 | if both peers keep accepting, a forwarding tunnel delivers everything it has received |
| DrmMaster.OwnedAfterClose | app/masterhook.c:243-258 | after SDL's last descriptor nobody is master and Qt can take it; any other close moves nothing |
| DrmMaster.OwnedWithoutQt | app/masterhook.c:234-246 | without Qt's descriptor SDL's descriptors keep master |
| DrmMaster.OwnedAfterOpen | app/masterhook_internal.c:144-158 | an open outside the table moves nothing |
| DrmMaster.Hooks.GetSdlFdEntryIndex | app/masterhook_internal.c:73-85 | the least free or used slot, or -1 exactly when there is none |
| DrmMaster.Hooks.RemoveSdlFd | app/masterhook_internal.c:88-115 | removes that descriptor only; true exactly on the step from one to none |
| DrmMaster.Hooks.TakeMasterFromSdlFd | app/masterhook_internal.c:118-137 | drops master on a descriptor of the table and returns it, or -1 for an empty table |
| DrmMaster.Hooks.OpenHook | app/masterhook_internal.c:139-241 | SDL gets a descriptor of the master description, taken over from Qt for the first; a full table or an unknown Qt changes no slot |
| DrmMaster.Hooks.Capture | app/masterhook.c:105-111 | the first master seen becomes Qt's descriptor, once |
| DrmMaster.Hooks.PageFlip | app/masterhook.c:134-158 | Qt's flip always succeeds and leaves master where it was |
| DrmMaster.Hooks.AtomicCommit | app/masterhook.c:161-200 | the same for a commit, which may also capture |
| DrmMaster.Hooks.Close | app/masterhook.c:234-282 | only SDL's last close gives master to Qt; the invariant fails exactly when Qt's own descriptor is closed, and SDL then keeps what it has |
| DrmMaster.Step | app/masterhook.c:134-282 | each call but a close of Qt's own descriptor keeps the invariant; a device open adds one slot whose descriptor is master, or none; a close removes one descriptor; flips, commits and captures leave master and descriptors alone |
| DrmMaster.Run | app/masterhook.c:134-282 | after any run, up to a close of Qt's own descriptor, the counter counts distinct open descriptors, and master is SDL's description while it has one and Qt's otherwise |
| Bandwidth.AddToSlot | app/streaming/bwtracker.cpp:84-104 | an addition leaves its slot with all the bytes logged for the current interval |
| Bandwidth.AddToOtherSlot | app/streaming/bwtracker.cpp:84-104 | and every other slot with all the bytes of its own interval |
| Bandwidth.RecentKept | app/streaming/bwtracker.cpp:86-90 | no interval within the last bucketCount is overwritten |
| Bandwidth.SlotHoldsTotal | app/streaming/bwtracker.cpp:90-103 | an interval that was not overwritten has its total in its slot |
| Bandwidth.WindowIsRecent | app/streaming/bwtracker.cpp:80-82 | off a boundary, a window of whole intervals holds only the last bucketCount intervals |
| Bandwidth.WindowReach | app/streaming/bwtracker.cpp:80-82 | a window of any length reaches at most bucketCount intervals back |
| Bandwidth.WindowInNs | app/streaming/bwtracker.cpp:80-82 | the window and the start of an interval in nanoseconds |
| Bandwidth.BoundaryLosesOldest | app/streaming/bwtracker.cpp:80-103 | on a boundary the oldest interval is in the window, and kept exactly when nothing was added at that instant |
| Bandwidth.LostExactly | app/streaming/bwtracker.cpp:80-103 | of the intervals in any window only the one bucketCount back can lose its bucket, and does exactly when something was added in the current one |
| Bandwidth.BandwidthTracker.constructor | app/streaming/bwtracker.cpp:5-14 | the count for every interval; for one that is not 0 and not longer than the window, an empty ring that agrees with an empty log |
| Bandwidth.BandwidthTracker.UpdateBucket | app/streaming/bwtracker.cpp:84-104 | the ring keeps agreeing with the log, extended by this addition |
| Bandwidth.BandwidthTracker.GetPeakMbps | app/streaming/bwtracker.cpp:54-67 | the maximum rate over the intervals in the window that still have their bucket, in bits, milliseconds and megabits; the maximum over the whole window exactly when that does not belong to the lost oldest interval alone |
| Bandwidth.BandwidthTracker.RateInBits | app/streaming/bwtracker.cpp:75-77 | a rate times the interval in milliseconds times 1000 is eight times the bytes |
| Bandwidth.BandwidthTracker.PeakOfWindow | app/streaming/bwtracker.cpp:54-67 | a bound that a kept interval attains bounds the whole window exactly under that condition |
| Bandwidth.BandwidthTracker.OffBoundaryNothingLost | app/streaming/bwtracker.cpp:54-82 | off a boundary, with a window of whole intervals, the peak is the maximum of the whole window |
| Bandwidth.BandwidthTracker.RecentIntervalHeld | app/streaming/bwtracker.cpp:84-104 | each of the last bucketCount intervals has its bytes in its bucket, or none were added |
| Bandwidth.BandwidthTracker.PeakCoversWindow | app/streaming/bwtracker.cpp:54-82 | off a boundary no interval of the window is missing from the peak |
| Bandwidth.PeakBelowWindow | app/streaming/bwtracker.cpp:54-104 | a run in which the peak is 0.000032 while an interval at 0.032 is still in the window |

## Left out

- Memory allocation: buffers are arrays, and input buffers that are only read are sequences.
- BitCursor.Bs.WriteUe: v + 1 of 2^16 and more is excluded, because the C code then shifts a 32-bit value by 32 or more.
- BitCodes.SeValue: code number 2^31 - 1 overflows a signed int in C; the model lets it wrap, as the supported compilers do.
- Conversions of out-of-range values to int are implementation-defined in C; the model uses two's complement.
- ScalingLists.ReadScalingList: a difference so close to 2^31 that adding the last entry and 256 overflows an int is added without overflow, because the overflow is undefined in C.
- SpsFixUp.WriteBuffer: the packet is a value, not a part of the decoder's buffer, and the move of its offset is a number. The debug build's checks are left out. That longer sets can outgrow the spare bytes is not shown by an example.
- NalBytes.RbspToNal: what a failed call leaves in the output is not stated.
- Tunnel: TLS, JSON, timers and Qt's delivery are a verified bit, a predicate on the reply line, and atomic events; handlers are not re-entered, except that a receiver of `forwarding` may stop the tunnel. Only the kind of a failure message is modelled, and configuration validity is one bit. The remote socket hands out bytes only once it is encrypted. The sockets' own read buffer limit is not modelled.
- DRM hooks: one atomic step each; ioctls fail only where the model's kernel says so. CRTC state, the switch that disables the hooks, and descriptors that the application duplicates itself are not modelled.
- DrmMaster.Run: ends before a close of Qt's own descriptor. Close says what that leaves; after it the captured number can be reused for any file, and what the hooks then do is not followed.
- Bandwidth: rates are reals without rounding, and byte counts and the window in milliseconds do not wrap. For an interval of 0, or one longer than the window, the first addition divides by zero in the source, so the other methods require that the constructor was not given one. The average over the newest quarter is not modelled.
- The rest of the repository (host list, pairing, user interface, streaming, update) is not part of this model.
