# Codecs, reassemblers and state machines of gpsd 3.0, verified

This project models the parts of the modified gpsd 3.0 in `gpsd-3.0/` that decide what a
receiver's bytes mean, and proves what they are for.  One module follows one source file:

| file | source | what it models |
|---|---|---|
| `Wrappers.dfy` | | the Option type |
| `Bitwise.dfy` | | powers of two, shifts, masks, `^` and `\|` on natural numbers |
| `Crc24q.dfy` | `crc24q.c` | the table generator, the hash loop, signing and checking, against division of polynomials over GF(2) |
| `Words.dfy` | | 64-bit words and the numbers they stand for |
| `CrcTable.dfy` | `crc24q.c` | the 256 words of the code table |
| `CrcOrder.dfy` | `crc24q.c` | the order of x modulo the generator, and double-bit errors |
| `CrcBurst.dfy` | `crc24q.c` | which bursts of errors are missed, and how many |
| `Base64.dfy` | `bsd_base64.c` | `b64_ntop` and `b64_pton`, against the encoding of section 5.2 of RFC 1521 |
| `Bits.dfy` | `bits.c` | `ubits` and `sbits`, against the big-endian value of a run of bits |
| `Fields.dfy` | | messages made of numeric fields: an encoder, and what its bytes read as |
| `Aivdm.dfy` | `driver_aivdm.c` | fragment reassembly on two channels, six-bit text, type 24 pairing |
| `AivdmSender.dfy` | `driver_aivdm.c` | the sender of AIS messages, armored and split, against that receiver |
| `NmeaCycle.dfy` | `driver_nmea.c` | the end-of-cycle detector |
| `Gsv.dfy` | `driver_nmea.c` | the satellite list put together from GSV sentences, and what of them it holds |
| `Rtcm2.dfy` | `driver_rtcm2.c` | correction messages 1, 9 and 31 and the position of message 3, against the stream of data bits |
| `Rtcm2Sender.dfy` | `driver_rtcm2.c` | the sender of those messages, against that decoder |
| `Rtcm3.dfy` | `driver_rtcm3.c` | the bit cursor on messages 1008 and 1013, against an encoder |
| `Stuffing.dfy` | `driver_evermore.c`, `driver_tsip.c` | DLE stuffing and unstuffing |
| `Oncore.dfy` | `driver_oncore.c` | the Bb list and the published satellite list |
| `Gpscap.dfy` | `gpscap.py` | resolution of `uses=` |
| `Geoid.dfy` | `geoid.c` | interpolation of the geoid separation |

Code that works in place is modelled in place: session fields are fields of a class,
buffers are arrays, loops are loops.  Each such method is proved equal to a function of
its input or of the old state, and the theorems are about runs of that function.  Where a receiver
is modelled, a sender that writes the same messages says what its fields mean.  Machine
arithmetic is written out (`% 0x1_0000_0000`, `LowBits(.., 64)`, `% 65536`, `% 256`).

Where the plain property does not hold of the code, the exact condition is proved, with an input
that fails:

* `Bits.ExactWithin64`: `ubits` is right for every buffer if and only if the field ends
  within 64 bits of the start of its first byte.  Its own comment says 64 bits of width.
* `Aivdm.RunExact`: a run of sentences collects every message right if and only if no bit of the
  padding of a fragment that is one lies over a zero that a later fragment of the same message
  keeps (`DirtyRun` is a run that fails).  Sentences that pad with zeros avoid it.
* `Aivdm.RunExists`, and `Aivdm.DualRunExists` for both channels: a run of sentences stays inside the
  2048-byte buffer, with a length that is no negative number, if and only if every accepted fragment
  has room behind those before it.  Nothing limits the number of fragments: of the message in
  `Overrun` fragment 46 is written behind the buffer; `PaddingOnly` takes off more bits than it brings.
* `Gsv.WholeSet`: SATELLITE_SET comes with a list made of the parts 1..N, each once and in order, if
  and only if the sentences end with such a set.  Nothing checks that earlier parts have come:
  `LastPartAlone` publishes part 2 of 2 by itself, and behind a list left over from before.
* `CrcOrder.DoubleErrors`: the checksum misses an error in two bits if and only if 2^23 - 1 divides
  their distance.  The comment in the source has no such limit.  `MissedPair` has 2^20 bytes; packets
  are much shorter.
* `Gpscap.ResolvedIff`: the `uses=` loop leaves none if and only if every chain of parents ends
  and no pass goes by without inheriting something while a section still waits
  (`StopsEarly` shows the failure).
* `Rtcm3.SystemExact`: message 1013 arrives unchanged if and only if its seconds of the day are
  below 65536, as the decoder casts a 17-bit field to 16 bits.
* `Rtcm3.CopiesFit`: decoding message 1008 stays inside the fields of the report if and only if both
  strings have at most 31 bytes; the decoder does not look (`LongDescriptor`).
* `Geoid.ReadsInsideIff`, `Geoid.SafeLatitudes`: the table is read inside its bounds, for longitudes of
  the globe, if and only if the latitude is in [-90, 100).  The checks let others through
  (`ReadsOutside`).

`NmeaCycle.LockIn` is an equivalence too: after one cycle the detector reports exactly at the
last timestamp if and only if that sentence's tag is nowhere else in the cycle.  The comment in
the source expects trouble in just the other case.

Oddities of the code are kept: `b64_pton` without a target accepts stray bits in the last digit;
a 24B report with MMSI 0 needs no 24A; unstuffing a TSIP packet that ends in a lone DLE looks at the
byte behind it; the text of a six-bit field that ends early at an `@` keeps the spaces before it.

## Model

| member | source | states |
|---|---|---|
| `Crc24q.InitTable` | gpsd-3.0/crc24q.c:47-61 | The doubling loop fills the table so that entry i is the multiple of the generator of degree below 32 whose top byte is i. |
| `Crc24q.EntryUnique` | gpsd-3.0/crc24q.c:47-61 | That property determines every entry, so any table with it is the generated one. |
| `CrcTable.CodeTableIsTable` | gpsd-3.0/crc24q.c:77-144 | The 256 words written out in the code have that property too, so they are the generated table, and the hash is proved for them. |
| `Words.ValueAdd` | gpsd-3.0/crc24q.c:152 | The operator on machine words is addition of polynomials. |
| `Crc24q.HashStep` | gpsd-3.0/crc24q.c:151-153 | One pass of the loop turns the remainder for a message into the remainder for it and one more byte, which ends up as the top byte of the 32-bit register. |
| `Crc24q.Hash` | gpsd-3.0/crc24q.c:146-158 | For every byte string the hash is the remainder of message(x)*x^24 modulo the generator over GF(2). |
| `Crc24q.RemainderUnique` | gpsd-3.0/crc24q.c:4-8 | There is only one such remainder. |
| `Crc24q.Sign` | gpsd-3.0/crc24q.c:164-171 | Data and the three bytes written behind it are a codeword, a multiple of the generator; no other byte changes. |
| `Crc24q.Check` | gpsd-3.0/crc24q.c:173-179 | Accepts exactly the codewords. |
| `Crc24q.TrailerIsRemainder` | gpsd-3.0/crc24q.c:164-179 | Three bytes complete a string to a codeword exactly when they are its remainder. |
| `Crc24q.CodewordHash` | gpsd-3.0/crc24q.c:146-179 | The strings accepted are those whose own hash, trailer included, is 0. |
| `Crc24q.BurstDetected` | gpsd-3.0/crc24q.c:12-16 | Of two different strings of equal length that differ only within 24 consecutive bits, at most one is accepted, at any length and place. |
| `Crc24q.OddErrorsDetected` | gpsd-3.0/crc24q.c:12-16 | Of two strings of equal length that differ in an odd number of bits, at most one is accepted. |
| `CrcOrder.OrderOfX` | gpsd-3.0/crc24q.c:4-16 | x^d has remainder 1 modulo the generator exactly if 2^23 - 1 divides d. |
| `CrcOrder.DoubleErrors` | gpsd-3.0/crc24q.c:12-16 | A string that differs from a codeword in exactly two bits is a codeword if and only if 2^23 - 1 divides their distance; never if the strings have at most 2^23 - 1 bits. |
| `CrcOrder.MissedPair` | gpsd-3.0/crc24q.c:13 | A megabyte of zeros, and the same with its first and last bit set, are both codewords. |
| `CrcBurst.BurstMissed` | gpsd-3.0/crc24q.c:15-19 | A codeword that suffers a burst of any span at any place is still one if and only if the pattern of the burst is one of `Missed`. |
| `CrcBurst.PatternAt` | gpsd-3.0/crc24q.c:15-19 | Every pattern is the burst of exactly one string at every place. |
| `CrcBurst.MissedCount` | gpsd-3.0/crc24q.c:15-19 | Of the 2^(b-2) patterns that span b > 25 bits, both end bits included, exactly 2^(b-26) are missed; of those of 25 bits one, of shorter ones none; never more than one in 2^23. |
| `CrcBurst.GeneratorBurst` | gpsd-3.0/crc24q.c:15-19 | Two strings that differ in a burst of 25 bits are both codewords if and only if the difference is the generator shifted to that place. |
| `Base64.AlphabetSymbols` | gpsd-3.0/bsd_base64.c:58-60 | The symbols by ranges are the alphabet string. |
| `Base64.EncodeLength` | gpsd-3.0/bsd_base64.c:135-181 | The encoding of n bytes has 4*ceil(n/3) characters. |
| `Base64.EncodeInjective` | gpsd-3.0/bsd_base64.c:62-123 | Different byte strings have different encodings. |
| `Base64.SameNumber` | gpsd-3.0/bsd_base64.c:62-123 | The digits in base 64 spell the number that the bytes spell in base 256, shifted by the zero bits that fill a short last group. |
| `Base64.StrippedCharacters` | gpsd-3.0/bsd_base64.c:207 | What is skipped is the space, tab, line feed, vertical tab, form feed and carriage return. |
| `Base64.Ntop` | gpsd-3.0/bsd_base64.c:126-186 | Writes the encoding and a NUL and returns its length, or fails; it fails exactly if targsize is less than the length and one. |
| `Base64.Digits` | gpsd-3.0/bsd_base64.c:203-257 | The four-state loop: what the target holds, read back as 6-bit values, is what was read, and it stops early only on bad text or for lack of room. |
| `Base64.Trailer` | gpsd-3.0/bsd_base64.c:264-290 | After a first `=` exactly the padding that the state calls for is accepted, whitespace aside. |
| `Base64.LastByte` | gpsd-3.0/bsd_base64.c:292-299 | The check of the byte behind the last full one: it is zero exactly if some byte string has these digits. |
| `Base64.Pton` | gpsd-3.0/bsd_base64.c:197-311 | With a target: accepts exactly the texts that are, without their whitespace, the encoding of a byte string for which there is room, and the bytes stored encode to that text (canonicity). Without one: accepts texts of the right form and returns the number of full bytes. |
| `Base64.RoundTrip` | gpsd-3.0/bsd_base64.c:126-311 | The encoding of b with whitespace put in anywhere is accepted exactly if the target holds n bytes, or n + 1 if 3 does not divide n, and it is the encoding of b only. |
| `Base64.EncodePlain` | gpsd-3.0/bsd_base64.c:126-186 | Stripping leaves an encoding unchanged, and it holds no NUL, so it can be handed to the decoder as it is. |
| `Bits.Ubits` | gpsd-3.0/bits.c:23-65 | The value of bits [start, start + width), less the bits that the 64-bit accumulator has lost. |
| `Bits.Gather` | gpsd-3.0/bits.c:31-35 | The loop leaves the low 64 bits of all the bytes the field touches. |
| `Bits.Sbits` | gpsd-3.0/bits.c:67-90 | The two's-complement reading of what `ubits` returns. |
| `Bits.ExactWithin64` | gpsd-3.0/bits.c:6-8 | `ubits` is the exact value for all buffers if and only if start % 8 + width is at most 64. |
| `Bits.AdjacentFields` | gpsd-3.0/bits.c:23-65 | Inside that bound two adjacent extractions make one. |
| `Bits.FieldSplit` | gpsd-3.0/bits.c:6-8 | A field is the concatenation of its parts. |
| `Bits.FieldByte` | gpsd-3.0/bits.c:6-8 | Bits 8i to 8i + 7 spell byte i. |
| `Bits.SignedUnique` | gpsd-3.0/bits.c:67-90 | The signed reading is the only number of its range congruent to the field. |
| `Aivdm.FromSixbit` | gpsd-3.0/driver_aivdm.c:32-61 | Whatever the destination held before, it then holds the text up to its first `@`, or the text without trailing spaces if there is none. |
| `Aivdm.SixCharTable` | gpsd-3.0/driver_aivdm.c:39-40 | The characters are those of the table. |
| `Aivdm.TextCut` | gpsd-3.0/driver_aivdm.c:44-59 | Text with an at sign is what stands before the first one, spaces included. |
| `Aivdm.TrimLongest` | gpsd-3.0/driver_aivdm.c:51-59 | Trimming leaves the longest beginning that does not end in a space. |
| `AivdmSender.ArmorPayload` | gpsd-3.0/driver_aivdm.c:183-200 | Bits armored six to a character, in the characters 0 to W and grave accent to w, are the payload's bits again. |
| `Aivdm.Unpack` | gpsd-3.0/driver_aivdm.c:183-200 | Ors the six bits of every unarmored character into the buffer, in order, and moves the bit count on; all it needs is that the bits that are one lie in the buffer. |
| `Aivdm.Context.Collect` | gpsd-3.0/driver_aivdm.c:166-202 | Accepts the fragment that is due, and fragment 1 always; any other changes nothing. |
| `Aivdm.Context.Finish` | gpsd-3.0/driver_aivdm.c:221-223 | A complete message: type 24 reports as the specification function says, others handed on with type, MMSI and bits. |
| `Aivdm.Context.Decode` | gpsd-3.0/driver_aivdm.c:166-215 | The whole step of a context is the function `Step`. |
| `Aivdm.BitsOfConcat` | gpsd-3.0/driver_aivdm.c:181-203 | In the bits of a list of fragments, every fragment's payload less its padding stands right behind those of the fragments before it. |
| `Aivdm.CollectedIff` | gpsd-3.0/driver_aivdm.c:166-203 | Or-ing the payloads of any list of fragments in leaves those bits if and only if nothing clashes on the way. |
| `Aivdm.Buffer` | gpsd-3.0/driver_aivdm.c:166-203 | On every run, at every moment, the buffer and its length are those of the fragments pending, whatever the padding; out-of-order sentences change nothing. |
| `Aivdm.FragmentNumbers` | gpsd-3.0/driver_aivdm.c:166-175 | Whatever has arrived, the fragments pending are numbers 1, 2, and so on. |
| `Aivdm.CompleteNumbers` | gpsd-3.0/driver_aivdm.c:166-215 | A message handed on consists of fragments 1 to n, each once and in order, n being the number of its last. |
| `Aivdm.ByNumbers` | gpsd-3.0/driver_aivdm.c:166-215 | On every run a sentence is out of order, and changes nothing, if and only if its number is neither 1 nor one more than the fragments pending; any other is waited with exactly if it is not the last. |
| `Aivdm.MessageExact` | gpsd-3.0/driver_aivdm.c:166-203 | On every run, what is collected with an accepted sentence is the message so far if and only if none of its fragments clashes with those before it. |
| `Aivdm.RunExact` | gpsd-3.0/driver_aivdm.c:166-203 | All messages of a run are collected right if and only if no accepted sentence keeps a zero where a padding bit of an earlier fragment of its message is one. |
| `Aivdm.DirtyRun` | gpsd-3.0/driver_aivdm.c:192-202 | Two sentences for which that is not so: they have a run, and after it the sixth of the eleven bits is a one that should be a zero. |
| `Aivdm.RunExists` | gpsd-3.0/driver_aivdm.c:166-203 | Whatever the padding, a context can take a whole run of sentences, with payloads inside the buffer and no length below zero, if and only if every accepted one has room. |
| `Aivdm.DualRunExists` | gpsd-3.0/driver_aivdm.c:127-203 | The same for the receiver: if and only if each channel's share has room. |
| `Aivdm.Overrun` | gpsd-3.0/driver_aivdm.c:166-200 | Of a message of 60-character fragments the first 45 have room; the 46th is accepted, and bits of it that are one lie behind the buffer. |
| `Aivdm.PaddingOnly` | gpsd-3.0/driver_aivdm.c:201-202 | An empty first fragment with a pad digit has no room: its length would go below zero. |
| `Aivdm.Reassembly` | gpsd-3.0/driver_aivdm.c:166-215 | On every run of sentences that pad with zeros, every sentence returns what the reference machine returns, which keeps the pending fragments as a list and computes one outcome for each sentence. |
| `Aivdm.Delivered` | gpsd-3.0/driver_aivdm.c:999-1027 | A right-sized 24B is delivered if and only if the latest type 24 report on its channel is a 24A with its MMSI, or its MMSI is 0 and no 24A waits; it comes with the name of the latest 24A. |
| `AivdmSender.OtherCharacters` | gpsd-3.0/driver_aivdm.c:184-188 | Characters outside the armor are not turned away: X to _ count as P to W, the others as 8-bit arithmetic has them. |
| `AivdmSender.SentA` | gpsd-3.0/driver_aivdm.c:974-998 | On every run with zero padding, a completed part A written field by field returns its MMSI and its name of 20 characters. |
| `AivdmSender.SentB` | gpsd-3.0/driver_aivdm.c:999-1027 | A completed part B returns its MMSI and the name of the latest part A if that waits for it, and is refused otherwise. |
| `AivdmSender.SentOther` | gpsd-3.0/driver_aivdm.c:221-223 | A completed message of any other type is handed on with its type, its MMSI and its bits. |
| `AivdmSender.StaticSize` | gpsd-3.0/driver_aivdm.c:974-1027 | Nothing but 160 bits is reported as a part A, nothing but 168 as a part B. |
| `AivdmSender.SplitCarries` | gpsd-3.0/driver_aivdm.c:166-215 | A message split into fragments in any way and armored is complete with its last fragment, whatever came before. |
| `AivdmSender.ShipReported` | gpsd-3.0/driver_aivdm.c:127-1032 | After whatever else on a channel, both parts of a ship's static report, each split in any way, return its MMSI and its name. |
| `Aivdm.StepMemory` | gpsd-3.0/driver_aivdm.c:974-1032 | Only type 24 reports touch the remembered MMSI and name, and how. |
| `Aivdm.Pairing` | gpsd-3.0/driver_aivdm.c:974-1032 | Every 24B delivered with a nonzero MMSI has the name from the latest 24A on its channel, which had the same MMSI and was not used before. |
| `Aivdm.SecondHalf` | gpsd-3.0/driver_aivdm.c:999-1027 | On every run, whatever the padding: what the buffer reads as a right-sized 24B is delivered if and only if the latest type 24 report is a 24A with its MMSI, or its MMSI is 0 and no 24A waits; otherwise it is refused. |
| `Aivdm.Receiver.Decode` | gpsd-3.0/driver_aivdm.c:127-155 | The channel field chooses the context; the other one is untouched. |
| `Aivdm.ByLetter` | gpsd-3.0/driver_aivdm.c:127-155 | A, 1 and an empty field reach the first context only, B and 2 the second only, and anything else changes nothing. |
| `Aivdm.Projection` | gpsd-3.0/driver_aivdm.c:127-155 | One channel's share of a run is a run of that channel alone. |
| `Aivdm.ChannelIndependence` | gpsd-3.0/driver_aivdm.c:127-155 | Two runs with the same sentences on a channel return the same on it and leave its context the same, whatever the other channel carries. |
| `NmeaCycle.Session.RegisterFractionalTime` | gpsd-3.0/driver_nmea.c:111-122 | A timestamp shifts the last one down and sets the latch; an empty field changes nothing. |
| `NmeaCycle.Session.Parse` | gpsd-3.0/driver_nmea.c:1182-1234 | The detector's whole step is the function `Step`. |
| `NmeaCycle.DetectorState` | gpsd-3.0/driver_nmea.c:1193-1232 | On any sentences the marks are exactly the tags of the timestamped sentences just before a time moved by at least 1/100 second, cycle ends are called reliable once there is one, and the two times kept are the last two. |
| `NmeaCycle.DetectorOutput` | gpsd-3.0/driver_nmea.c:1198-1225 | CLEAR is raised exactly at time changes; REPORT exactly on timestamped sentences whose tag is a mark or has just become one. |
| `NmeaCycle.TwoTimes` | gpsd-3.0/driver_nmea.c:124-132 | After anything, of two timestamps in a row the second starts a cycle if and only if it is at least 1/100 second from the first, whose tag is then a mark. |
| `NmeaCycle.MarksGrow` | gpsd-3.0/driver_nmea.c:1210-1213 | Marks are never forgotten. |
| `NmeaCycle.MarksBounded` | gpsd-3.0/driver_nmea.c:1128-1148 | Marks are table entries, never bit 0, and the set of them changes at most once for each entry. |
| `NmeaCycle.CycleBehaviour` | gpsd-3.0/driver_nmea.c:1182-1227 | In every run of well-timed cycles, each raises CLEAR on its first timestamp only, and REPORT exactly on timestamped sentences that have ended an earlier cycle. |
| `NmeaCycle.LockIn` | gpsd-3.0/driver_nmea.c:1182-1192 | When all cycles end in the same tag, the first reports nothing, and a later one reports exactly at its last timestamp if and only if the tag is nowhere else in it. |
| `Gsv.Skyview.ZeroSatellites` | gpsd-3.0/libgpsd_core.c:1029-1037 | The published list is empty afterwards. |
| `Gsv.Skyview.AddRecords` | gpsd-3.0/driver_nmea.c:564-587 | Appends the records with nonzero PRN, or drops the list if a record, empty or not, finds no channel. |
| `Gsv.Skyview.SanityCheck` | gpsd-3.0/driver_nmea.c:600-612 | Whether an entry of the azimuth array up to the count is nonzero. |
| `Gsv.Skyview.Parse` | gpsd-3.0/driver_nmea.c:524-620 | The whole step is the function `Process`. |
| `Gsv.AlwaysPublishable` | gpsd-3.0/driver_nmea.c:564-587 | On any sentences at most MAXCHANNELS satellites are published, none with PRN 0. |
| `Gsv.ListSince` | gpsd-3.0/driver_nmea.c:524-620 | On any sentences the list is the nonempty records of those since it was last cleared (by a part 1, a malformed sentence, an overflow or an implausible set), and SATELLITE_SET is returned exactly by a sentence whose part number reaches its total and that has not cleared it; some azimuth is then nonzero. |
| `Gsv.WholeSet` | gpsd-3.0/driver_nmea.c:594-619 | A sentence returns SATELLITE_SET for a list made of the parts 1..N, each once and in order, if and only if the sentences up to it end with such a set, which fits and is plausible. |
| `Gsv.LastPartAlone` | gpsd-3.0/driver_nmea.c:594-619 | Part 2 of 2 alone is published with SATELLITE_SET, and so it is behind the satellites of another set; neither is a set. |
| `Gsv.Collecting` | gpsd-3.0/driver_nmea.c:561-599 | While parts arrive in order the list is what has arrived so far. |
| `Gsv.CompleteSet` | gpsd-3.0/driver_nmea.c:524-620 | A complete set in order with at most 72 records publishes its records with nonzero PRN, in order, if an azimuth is nonzero, and nothing otherwise; only its last part returns SATELLITE_SET, and only then. |
| `Gsv.SentSet` | gpsd-3.0/driver_nmea.c:524-620 | A list of at most 72 satellites, written four fields each and shared out over the parts of a set in any way, is published as it was sent if an azimuth is not 0, and otherwise nothing is. |
| `Gsv.TooMany` | gpsd-3.0/driver_nmea.c:565-569 | More than 72 in one sentence are dropped. |
| `Gsv.Dropped` | gpsd-3.0/driver_nmea.c:540-560 | Three fields or fewer, a number of them that is no multiple of four, or no part number drops the list. |
| `Rtcm2.OverlayIsStream` | gpsd-3.0/driver_rtcm2.c:128-175 | In every group of five words the fields of the overlay, the split prc3 and message 31's included, are the next 40-bit records of the 24-bit data stream. |
| `Rtcm2.SignedPair` | gpsd-3.0/driver_rtcm2.c:729-731 | A signed high byte shifted left and or-ed with a low byte, in 32-bit two's complement, is the 16-bit two's-complement value of both. |
| `Rtcm2.UnpackGps` | gpsd-3.0/driver_rtcm2.c:698-741 | For every length exactly floor(3*length/5) entries, at most 18, each the record at its place in the stream. |
| `Rtcm2.UnpackGlo` | gpsd-3.0/driver_rtcm2.c:861-906 | The same for message 31, with a change bit and a time of day in place of the issue of data. |
| `Rtcm2.UnpackEcef` | gpsd-3.0/driver_rtcm2.c:743-752 | With at least four words the coordinates are three consecutive signed 32-bit numbers of the stream, otherwise none are valid. |
| `Rtcm2Sender.GpsSent` | gpsd-3.0/driver_rtcm2.c:690-741 | Every list of at most 18 corrections, written field by field into words with any parity, is the list of complete records of the words. |
| `Rtcm2Sender.GloSent` | gpsd-3.0/driver_rtcm2.c:861-906 | The same for message 31. |
| `Rtcm2Sender.EcefSent` | gpsd-3.0/driver_rtcm2.c:743-752 | Three signed 32-bit coordinates written into four words are the coordinates read. |
| `Rtcm3.Ugrab` | gpsd-3.0/driver_rtcm3.c:77 | The field at the cursor, and the cursor behind it. |
| `Rtcm3.UnpackAntenna` | gpsd-3.0/driver_rtcm3.c:233-244 | The byte offsets used for the strings are where the bit cursor stands; both are copied into the 32-byte fields. |
| `Rtcm3.CopyString` | gpsd-3.0/driver_rtcm3.c:236-237 | The field then holds the bytes and a NUL behind them. |
| `Rtcm3.UnpackSystem` | gpsd-3.0/driver_rtcm3.c:349-362 | The loop reads the announcements at bit 94 + 29*i. |
| `Rtcm3.Unpack` | gpsd-3.0/driver_rtcm3.c:94-97 | The report is what the buffer reads as, and the cursor ends behind the message. |
| `Fields.PackedBits` | gpsd-3.0/driver_rtcm3.c:76-77 | The encoder's bytes hold its bits in order, whatever follows them. |
| `Fields.EncodedSpells` | gpsd-3.0/driver_rtcm3.c:76-77 | Reading field after field gives back the values encoded. |
| `Rtcm3.RoundTrip` | gpsd-3.0/driver_rtcm3.c:233-362 | Every 1008 with strings of at most 31 bytes and every 1013 with any list of announcements is recovered, up to the 16-bit seconds of the day. |
| `Rtcm3.SystemExact` | gpsd-3.0/driver_rtcm3.c:352 | The seconds of the day survive if and only if they are below 65536. |
| `Rtcm3.CopiesFit` | gpsd-3.0/driver_rtcm3.c:233-244 | For every encoded 1008, both copies and their NULs lie inside the 32-byte fields if and only if both strings have at most 31 bytes. |
| `Rtcm3.LongDescriptor` | gpsd-3.0/driver_rtcm3.c:236-237 | With a descriptor of 32 bytes they do not. |
| `Stuffing.EvermoreSend` | gpsd-3.0/driver_evermore.c:400-437 | Builds the packet, length and checksum stuffed too; every payload of at most 253 bytes fits. |
| `Stuffing.PacketBytes` | gpsd-3.0/driver_evermore.c:400-437 | A packet is 10 02, its stuffed body and 10 03, and taking the payload off its checksum byte modulo 256 leaves 0. |
| `Stuffing.OneByteDetected` | gpsd-3.0/driver_evermore.c:417-427 | Another value for one payload byte is another checksum. |
| `Stuffing.StuffedBytes` | gpsd-3.0/driver_evermore.c:417-422 | Byte 10 becomes two of it, any other stays alone. |
| `Stuffing.EvermoreRecognized` | gpsd-3.0/packet.c:1761-1801 | The check in the packet lexer accepts a buffer if and only if it begins with the packet for some payload. |
| `Stuffing.EvermoreParse` | gpsd-3.0/driver_evermore.c:151-170 | On any contents of the 1033-byte buffer with a length byte of at least 2, what the loop takes from it. |
| `Stuffing.EvermoreRoundTrip` | gpsd-3.0/driver_evermore.c:151-437 | From a packet, whatever lies behind it, the loop takes the payload it was built for, also when the length byte is a DLE. |
| `Stuffing.PacketInjective` | gpsd-3.0/driver_evermore.c:400-437 | A packet carries one payload only. |
| `Stuffing.EvermoreFramed` | gpsd-3.0/driver_evermore.c:407-435 | No undoubled DLE stands before the trailer: the end of a packet is found where it is, whatever follows. |
| `Stuffing.FramesPrefixFree` | gpsd-3.0/driver_evermore.c:407-435 | No frame is the beginning of another. |
| `Stuffing.TsipWrite` | gpsd-3.0/driver_tsip.c:33-52 | Builds the packet, for every payload whose packet fits the message buffer. |
| `Stuffing.TsipBytes` | gpsd-3.0/driver_tsip.c:39-52 | The packet is 10 and the id, the stuffed payload, and 10 03. |
| `Stuffing.TsipUnstuff` | gpsd-3.0/driver_tsip.c:142-158 | On any buffer, what the loop takes from it. |
| `Stuffing.UnstuffInverts` | gpsd-3.0/driver_tsip.c:148-158 | Wherever a frame ends properly, its bytes are the stuffed form of what the loop takes from it. |
| `Stuffing.TsipRoundTrip` | gpsd-3.0/driver_tsip.c:33-158 | The loop recovers every payload with every id, and the packet ends where it should. |
| `Oncore.Session.Svinfo` | gpsd-3.0/driver_oncore.c:272-314 | A Bb message replaces the driver's list and moves the published satellites it names; one of another length changes nothing. |
| `Oncore.Session.Place` | gpsd-3.0/driver_oncore.c:164-175 | A received satellite gets the place of its first entry in the Bb list, or none, and marks that entry. |
| `Oncore.Session.Navsol` | gpsd-3.0/driver_oncore.c:148-203 | An Ea message publishes the received satellites in channel order, then the unmarked entries. |
| `Oncore.BbSent` | gpsd-3.0/driver_oncore.c:272-314 | Up to twelve satellites written into a Bb message are the driver's list, and a published satellite is moved to its entry, or left if it has none. |
| `Oncore.BbCounted` | gpsd-3.0/driver_oncore.c:275-286 | A number above twelve counts as twelve; messages of another length change nothing. |
| `Oncore.EaSent` | gpsd-3.0/driver_oncore.c:148-203 | Of eight channels written into an Ea message those with a signal are published in order, with their strength and their place, then entries of the list without; used are those with bit 7 in their status. |
| `Oncore.AlwaysCoherent` | gpsd-3.0/driver_oncore.c:148-203 | After any run in which no Bb message names a satellite twice, the two lists agree on every satellite in both. |
| `Oncore.AlwaysShort` | gpsd-3.0/driver_oncore.c:286-310 | After any run the published list has at most 20 entries. |
| `Oncore.EaUnion` | gpsd-3.0/driver_oncore.c:152-199 | The PRNs published are the received ones and those of the Bb list. |
| `Oncore.EaDistinct` | gpsd-3.0/driver_oncore.c:152-199 | None is published twice if and only if none is received or listed twice. |
| `Gpscap.RankingExists` | gpsd-3.0/gpscap.py:17-34 | Every configuration, circular ones and ones with missing parents included, divides into sections whose chain of parents ends and others. |
| `Gpscap.GPSDictionary.Inherit` | gpsd-3.0/gpscap.py:26-31 | Copies down the options that are lacking, and says whether there were any. |
| `Gpscap.GPSDictionary.Pass` | gpsd-3.0/gpscap.py:19-32 | One pass resolves exactly the sections whose turn it is. |
| `Gpscap.GPSDictionary.Resolve` | gpsd-3.0/gpscap.py:18-34 | Ends on every input; fails exactly if a parent is missing; otherwise the result is that of the passes up to the first that inherits nothing. |
| `Gpscap.FlatLookup` | gpsd-3.0/gpscap.py:17-34 | A flattened section holds what "own option, else ask the parent" gives. |
| `Gpscap.LookupKept` | gpsd-3.0/gpscap.py:20-32 | Every step of every pass keeps the lookup of every option of every section whose chain ends. |
| `Gpscap.ResolvedIff` | gpsd-3.0/gpscap.py:33-34 | No `uses` is left if and only if the configuration is resolvable. |
| `Gpscap.Flattened` | gpsd-3.0/gpscap.py:17-34 | Then every section is left with exactly the options its lookups gave to begin with. |
| `Gpscap.AllGainResolvable` | gpsd-3.0/gpscap.py:17-34 | It is enough that all chains end and every section with a parent lacks an option of the flattened parent. |
| `Gpscap.StopsEarly` | gpsd-3.0/gpscap.py:31-34 | A configuration without circles in which the loop ends with a `uses` left over. |
| `Geoid.GeoidDeltaIsTable` | gpsd-3.0/geoid.c:43-63 | The literal table: 19 rows of 37 values in [-102, 76], first and last column equal, -30 all along the south pole and 13 along the north pole. |
| `Geoid.Sum80S` | gpsd-3.0/geoid.c:45 | The entries of the row at 80 degrees south, each times its place, add up to -16239; a lemma of the same form holds for each of the 19 rows. |
| `Geoid.CellLerp` | gpsd-3.0/geoid.c:29-32 | The bilinear formula interpolates along both rows and then between them. |
| `Geoid.InTable` | gpsd-3.0/geoid.c:69-83 | On the globe the indices stay in the table and the cell holds the point. |
| `Geoid.SeparationIsCell` | gpsd-3.0/geoid.c:80-92 | On the globe the four entries of the flat array that are read are the corners of that cell. |
| `Geoid.ReadsInsideIff` | gpsd-3.0/geoid.c:69-92 | For any point, all four reads lie in the array of 703 entries if and only if the first is not before it and the last not behind it. |
| `Geoid.SafeLatitudes` | gpsd-3.0/geoid.c:69-92 | With a longitude of the globe: the reads lie in the array if and only if the latitude is in [-90, 100), while the sanity checks stop only latitudes from 820 up and below -990 and longitudes from 1630 up and below -1980. |
| `Geoid.ReadsOutside` | gpsd-3.0/geoid.c:69-92 | Latitudes 100 and -100 pass the checks and are read behind and in front of the array. |
| `Geoid.AnyCell` | gpsd-3.0/geoid.c:37-93 | Every cell whose closed rectangle holds a point gives the same separation, across edges and corners and in the degenerate last row and column. |
| `Geoid.AtGridPoint` | gpsd-3.0/geoid.c:37-93 | At a point of the table the separation is the table's. |
| `Geoid.WithinCorners` | gpsd-3.0/geoid.c:37-93 | The separation lies between the smallest and the largest corner of its cell. |
| `Geoid.WorldBounds` | gpsd-3.0/geoid.c:37-93 | It lies in [-102, 76] everywhere. |
| `Geoid.DateLine` | gpsd-3.0/geoid.c:37-93 | Longitudes -180 and 180 give the same. |
| `Geoid.Poles` | gpsd-3.0/geoid.c:37-93 | At a pole it does not depend on the longitude. |

## Left out

- Bits.Ubits: does not model width 64, where the C code shifts by the full width of its type, which C does not define.
- Bits.Sbits: does not model width 64, for the same reason.
- Aivdm.Context.Decode: does not model splitting the sentence at commas and reading its numbers, nor what happens behind the 2048-byte buffer: that the payload fits it, as the decoders of the single types read all of it, and that padding does not exceed the bits collected, are preconditions. `RunExists` says when runs meet them; `Overrun` and `PaddingOnly` do not.
- Aivdm.Context.Collect: has the same preconditions as Aivdm.Context.Decode.
- Aivdm.Context.Finish: does not model the field tables of the message types other than 24, nor the further fields of type 24; they are settled by reading one branch each.
- Aivdm.Receiver.Decode: has the same preconditions on each channel (`DualRunExists`), and does not model the order of the log messages.
- NmeaCycle.Session.Parse: does not model the bit mask itself, `cycle_enders` is the set of its bits; nor dispatch on the sentence name, date handling and the sentence handlers. Times are exact reals.
- Gsv.Skyview.Parse: does not model the conversion of the fields to numbers or the report about field 3.
- Rtcm2.UnpackGps: does not model the scale factors (a flag says which one applies) or the parity of the words; message types other than 1, 3, 9 and 31 are not part of this model.
- Rtcm3.Unpack: does not model types other than 1008 and 1013, or what a string longer than 31 bytes overwrites: that both copies fit is a precondition (`CopiesFit`, `LongDescriptor`).
- Rtcm3.UnpackAntenna: has the same precondition as Rtcm3.Unpack.
- Stuffing.EvermoreParse: does not model length bytes below 2, for which the size wraps around and the loop leaves both buffers; of the packet lexer, which hands the packets over, only its check (`EvermoreRecognized`) is modelled, not its state machine.
- Stuffing.EvermoreRecognized: does not model length bytes below 2 either.
- Oncore.Session.Navsol: does not model position, time and status of the message or the polls sent after it; the parallel arrays of a list are one array of records, and the bit mask `Bbused` of the source is a set.
- Gpscap.GPSDictionary.Resolve: does not model reading the files, folding of option names, the DEFAULT section or the checks after the loop.
- Geoid.WithinCorners: is about exact reals, not about floating point.
- Geoid.Separation: is not defined for points that pass the sanity checks but are read outside the array (`ReadsInsideIff`), and does not model the conversion of huge numbers to `int`.
- Serial and network input and output, logging, the JSON layer, curses and X11 clients, the resource-accounting daemon around gpsd.
