# Edge vision SoC: protocols, codecs, editor, drivers

A Dafny model of the parts of the edge vision SoC sources that hold an algorithm or a
protocol of their own, with proofs of what each is for. One module per component; a file
that works in place in C is a class or a method over arrays here, proved against a
specification whose own laws are lemmas beside it.

- **Mongoose** (`package/evsoc_camera/src/mongoose.c`). `Fips180`, `Sha1`, `Sha1Stream`:
  the unrolled SHA-1 and its streaming context equal FIPS 180-4 and RFC 2104; `Fips180Laws`,
  `Fips180Abc`: what padding, words and digests are as numbers, and the example of the standard.
  `Glob`, `GlobReturns`: the single-backtrack matcher against a declarative meaning of patterns
  (`GlobMeaning`), with the exact set of texts on which they agree, and the exact set on which
  every call returns. `IoBuf`: the I/O buffer as a FIFO queue under failing allocations and short
  writes. `StreamLoop`, `WebSocket`, `Mqtt`: framing, round trips and independence of the way a
  stream is cut into reads; `WebSocketLayout`, `MqttLaws`: where every field of a frame or packet
  stands and what number it writes. `Base64`, `Url`: codecs that undo each other, and the
  alphabets they use. `TimerRules`, `TimerList`: the timer list walked while it is being edited; `TimerLaws`,
  `TimerRuns`: how often timers fire, alone and among others.
- **Line editor** (`package/evsoc_app/src/evsoc_cli.cpp`). `CliHistory`, `LineEditor`, `Cli`,
  `CliArgs`: the struct edited in place refines a text with a cursor, the packed history a list
  of lines, the in-place splitter a quoting parser. `EditorLaws`, `EditorKeys`: what keys do to a
  text; `CliWords`: what every way of writing a word means.
- **Image morphology** (`kernel_modules/evsoc/src/isp.h`). `Morphology`, `PointSets`,
  `MorphologyLaws`.
- **I2C** (`kernel_modules/i2c/src/i2c.c`). `I2cBus`, `I2cDriver`: the bus trace of a
  transfer in which any step may fail, read back by an observer of UM10204. `I2cSlave`: the
  slave's interrupt handler over whole transfers.
- **Remote processor kicks** (`kernel_modules/efinix_ti375_remoteproc/src/efinix_ti375_remoteproc.c`).
  `Kicks`, `KickDriver`: polling mode as interleaved steps; no wakeup is lost.

`Octets` holds byte arithmetic shared by the protocol modules, `Prelude` what most modules
share. `dafny verify dfyconfig.toml`
checks everything.

## What turned out false, and when the code is right

- `mg_globmatch` agrees with the meaning of patterns, for every pattern, exactly on texts with
  none of `*`, `#` and `/` (`Glob.ExactIffClean`). A `*` or `#` in the text is taken literally
  first; `/` is tested where the loop stopped rather than over the absorbed run. The byte just
  past a text, which the loop may read, does not matter on such texts.
- `mg_globmatch` returns for every pattern exactly on texts in which a `*` or `#` stands at the
  front, or behind the same byte, or is a `*` with nothing but `/` behind it up to and with the
  byte past the text (`GlobReturns.ReturnsIff`). Without `/` that says: wildcard bytes only in a
  run of one of them at the front. For every other text a pattern is given on which the loop goes
  round for ever, as with `*b` against `a*c` (`GlobReturns.LoopsForever`).
- A WebSocket frame is recovered exactly when its payload is shorter than 2^32 bytes, as the high
  word of a 64-bit length is shifted and then narrowed to `int`, and the frame is shorter than
  `size_t` counts. The width of `size_t` is a parameter: with 32 bits the sum at
  `package/evsoc_camera/src/mongoose.c:4252` can wrap, and ten bytes that announce four gigabytes
  count as a frame of nine (`WebSocket.TenBytesReturnNine`). The test is right exactly while the
  sum does not pass the width (`WebSocket.ReturnedIff`).
- `mg_ws_send` and `mg_mqtt_pub` leave what they should in the queue exactly when each of their
  sends fits: it has no data, or there is memory, or the buffer has the rounded size already.
  The room before the call decides that (`IoBuf.AllFit`). When a client's payload does not fit,
  what was queued before is masked instead (`WebSocket.RefusedStillMasks`); when a publication's
  header fits but not all the rest, what is sent next is swallowed (`Mqtt.RefusedSwallows`).
- An MQTT publication is recovered exactly when its topic fits 16 bits and its length four
  length bytes. The packets a stream delivers depend on the cut exactly when one follows a
  refused CONNACK, because the loop marks the connection but goes on.
- A list of quoted arguments comes back exactly when there are at most nine; of more, the
  first nine do.
- Dilation and erosion are adjoint exactly for sets with nothing on the border, as zero padding
  never lets an eroded image reach it.
- A tick of the kick poller sees nothing exactly when a positive multiple of 2^32 kicks came
  since the last one; a second start while polling makes the next tick blind: the kicks are
  attended to after it exactly when they were before.
- A line that begins with a backslash, but for empty quotes, is split differently when the byte
  in front of the buffer is a quote: the line is moved onto that byte and becomes one argument
  (`CliArgs.Argc`). No other line depends on that byte.
- A repeating timer fires at most once a period, in every run of polls up to a time, exactly
  when the deadlines such a run sets fit `unsigned long`; after at least two periods that is:
  when one more period fits behind that time. The width of `unsigned long` is a parameter. Near
  its end (with 32 bits the millisecond clock gets there) the next deadline wraps to a small
  number and the timer fires at every poll (`TimerLaws.FiresEveryPoll`,
  `TimerLaws.FiveInFiveMilliseconds`). With polls no further apart than the period it keeps to
  its grid exactly when the first point of the grid after that time fits.
- A late poll keeps a timer on its grid exactly when the new deadline fits and the poll is at most
  one period late, or a whole number of periods.
- A control sequence takes in all digits of its count exactly when the number is below a hundred
  before each of them.
- A byte-wise AND erodes exactly the points it should when the nine bytes around every point
  to be kept have a bit in common.

## Reading notes

- `mg_sha1_transform` is modelled as on a little-endian machine, where `blk0` swaps bytes.
- The history move at `package/evsoc_app/src/evsoc_cli.cpp:445-446` copies two bytes more than
  there is room for; the model stops at the end of the array. The field behind it is reset at
  once by the call at line 810.
- `char` is unsigned in the editor (`package/evsoc_app/src/evsoc_cli.cpp:797` tests `ch > 0`), and
  `\r` counts as newline except inside a control sequence, where the source tests `ch` itself.
- The splitter counts its index without a sign (`package/evsoc_app/src/evsoc_cli.cpp:836`): an
  index below zero is one past the end of the array, and ends the loop.
- Outcomes the hardware or the operating system decides (allocation, bytes written, controller
  status, notifications, poll times) are parameters, and the results hold for all of them.

## Model

| member | source | states |
|---|---|---|
| Glob.CleanTextIsExact | package/evsoc_camera/src/mongoose.c:3956-3970 | For every pattern, every text free of `*`, `#`, `/` and every byte past it, the loop terminates with exactly the declared answer: remembering only the last wildcard loses no match |
| Glob.ExactIffClean | package/evsoc_camera/src/mongoose.c:3956-3970 | The answer is right for every pattern if and only if the text has none of `*`, `#`, `/` |
| Glob.GlobMatch | package/evsoc_camera/src/mongoose.c:3956-3970 | The loop over i, j, ni, nj returns the answer of the transition system on every call that comes to an end, among them all on texts that settle, and on texts without `*`, `#`, `/` the declarative one |
| Glob.RunAnswers | package/evsoc_camera/src/mongoose.c:3958-3968 | On text whose wildcard bytes are at the front, behind the same byte, or a `*` before slashes only, the loop terminates from every state it can be in |
| Glob.StepKeepsHope | package/evsoc_camera/src/mongoose.c:3959-3966 | One iteration neither gains nor loses a possible match |
| Glob.WildInTextFails | package/evsoc_camera/src/mongoose.c:3959-3960 | Every text holding a wildcard byte has a matching pattern the loop rejects |
| Glob.TrailingSlashFails | package/evsoc_camera/src/mongoose.c:3963 | Every text ending in `/` has a matching pattern the loop rejects |
| Glob.InnerSlashFails | package/evsoc_camera/src/mongoose.c:3963-3964 | Every other text holding `/` has a non-matching pattern the loop accepts |
| GlobMeaning.OneMeans | package/evsoc_camera/src/mongoose.c:3959-3961 | What the patterns of one byte match: `*` all without slash, `#` all, `?` any byte, another byte itself |
| GlobMeaning.BehindMeans | package/evsoc_camera/src/mongoose.c:3956-3970 | One pattern behind another matches exactly the texts that split into a match of each |
| GlobReturns.ReturnsIff | package/evsoc_camera/src/mongoose.c:3956-3970 | For every text and every byte past it: every pattern returns if and only if no wildcard byte stands behind a different byte, but for a `*` with only slashes behind it |
| GlobReturns.TrapHangs | package/evsoc_camera/src/mongoose.c:3958-3964 | For every other text a pattern on which the loop comes round again |
| GlobReturns.FrontReturns | package/evsoc_camera/src/mongoose.c:3958-3968 | Wildcard bytes only in a run of one of them at the front: every pattern returns, whatever slashes there are |
| GlobReturns.NoSlashReturnsIff | package/evsoc_camera/src/mongoose.c:3956-3970 | Without slashes every pattern returns exactly on those texts |
| GlobReturns.LoopsForever | package/evsoc_camera/src/mongoose.c:3958-3964 | `*b` against `a*c` never returns |
| Sha1.Transform | package/evsoc_camera/src/mongoose.c:2319-2423 | For every state and block the 80 unrolled rounds with rotating names and a 16-word ring add exactly the compression function of section 6.1.2 of FIPS 180-4 |
| Sha1.Blk | package/evsoc_camera/src/mongoose.c:2299-2302 | At every t from 16 on the ring slot becomes the schedule word W[t], and the ring keeps the last 16 words |
| Sha1.Blk0 | package/evsoc_camera/src/mongoose.c:2282-2289 | Byte swapping in place yields W[t] for the first 16 words |
| Sha1.RingNext | package/evsoc_camera/src/mongoose.c:2299-2302 | The four slots read at t hold W[t-3], W[t-8], W[t-14], W[t-16] |
| Sha1.R1 | package/evsoc_camera/src/mongoose.c:2306-2308 | A macro round equals one round of the 80-word loop up to the renaming of registers |
| Sha1Stream.CountUpAdds | package/evsoc_camera/src/mongoose.c:2438-2440 | The carry between the two counter words adds the bit length modulo 2^64 |
| Sha1Stream.CountTellsFill | package/evsoc_camera/src/mongoose.c:2441 | The low counter word tells how full the block buffer is |
| Sha1Stream.CountIsLength | package/evsoc_camera/src/mongoose.c:2458-2462 | The eight bytes of the final count are the big-endian 64-bit length |
| Sha1Stream.Context.Update | package/evsoc_camera/src/mongoose.c:2434-2452 | Whatever the call's length, the context afterwards stands for the old message with the new bytes behind it |
| Sha1Stream.Context.Pad | package/evsoc_camera/src/mongoose.c:2463-2468 | The padding loop terminates having appended a one bit and exactly the zeros of section 5.1.1 |
| Sha1Stream.Context.Final | package/evsoc_camera/src/mongoose.c:2454-2476 | The digest is SHA-1 of the whole message the context stands for: its bytes write the five state words as numbers, most significant byte first; and the context is wiped |
| Sha1Stream.DigestOfParts | package/evsoc_camera/src/mongoose.c:2425-2476 | For every way of cutting a message into updates the digest is SHA-1 of the concatenation |
| Sha1Stream.HmacSha1 | package/evsoc_camera/src/mongoose.c:2478-2511 | For every key and text the result is HMAC-SHA-1 of section 2 of RFC 2104 |
| Fips180Laws.DigestWritesWords | package/evsoc_camera/src/mongoose.c:2470-2473 | For every state, bytes 4i to 4i+3 of the digest write word i as a number, most significant first |
| Fips180Laws.HashWritesWords | package/evsoc_camera/src/mongoose.c:2470-2473 | So do those of SHA-1 of every message, for the words it leaves |
| Fips180Laws.BlockWritesWords | package/evsoc_camera/src/mongoose.c:2282-2289 | The first sixteen schedule words are the numbers a block writes, four bytes each |
| Fips180Laws.PaddedLayout | package/evsoc_camera/src/mongoose.c:2458-2469 | Every padded message is the message, 0x80, at most 63 zeros up to a whole block, and eight bytes that write the length in bits modulo 2^64 |
| Fips180Laws.HmacLayout | package/evsoc_camera/src/mongoose.c:2478-2511 | HMAC hashes the key XORed with 0x5c before the hash of the key XORed with 0x36 and the text; a key over 64 bytes is hashed first |
| Fips180Abc.AbcDigest | package/evsoc_camera/src/mongoose.c:2319-2476 | SHA-1 of "abc" is the digest the standard gives, which fixes every round function, constant and rotation |
| IoBuf.Buffer.Resize | package/evsoc_camera/src/mongoose.c:1303-1325 | Resizing keeps what fits, succeeds exactly when memory allows and otherwise changes nothing; the buffer stays in order exactly when it is not shrunk below what it holds |
| IoBuf.Buffer.Append | package/evsoc_camera/src/mongoose.c:1331-1340 | All of the data goes behind the old contents if there is memory, or the buffer has the rounded size already, or there is no data; exactly otherwise nothing does; and the new size |
| IoBuf.RoundedIsMultiple | package/evsoc_camera/src/mongoose.c:1333-1334 | The new size is the first multiple of the chunk above what it must hold |
| IoBuf.Buffer.Delete | package/evsoc_camera/src/mongoose.c:1342-1347 | The first n bytes go and the rest moves down; too long a deletion deletes nothing |
| IoBuf.Queue.Send | package/evsoc_camera/src/mongoose.c:2748-2754 | A send is accepted whole or not at all, and keeps the queue invariant |
| IoBuf.Queue.Write | package/evsoc_camera/src/mongoose.c:2843-2853 | A short write moves exactly the first bytes of the queue out; a queue written out in full gives its memory back |
| IoBuf.Queue.Drive | package/evsoc_camera/src/mongoose.c:2748-2754 | Over every run of sends and writes, bytes written followed by bytes queued are the accepted sends in order |
| IoBuf.WholeIff | package/evsoc_camera/src/mongoose.c:1331-1340 | Several sends in a row queue everything if and only if every one fits, starting from the room before the first |
| IoBuf.AcceptedMore | package/evsoc_camera/src/mongoose.c:2751-2753 | A further event extends the accepted stream by its data or by nothing |
| StreamLoop.CutsAgree | package/evsoc_camera/src/mongoose.c:2035-2075 | For any framing parser every cut delivers what one read delivers, at least up to the first event that asks for closing |
| StreamLoop.CutsAgreeIff | package/evsoc_camera/src/mongoose.c:2049-2067 | Every cut delivers the same if and only if no packet follows one that asks for closing |
| StreamLoop.CutBehind | package/evsoc_camera/src/mongoose.c:2067 | There is a cut right behind every packet but the last that delivers exactly the packets before it |
| WebSocket.Process | package/evsoc_camera/src/mongoose.c:4232-4258 | For every width of `size_t`: the fields, the wrapped size as returned, the payload of a complete frame unmasked in place with the rest untouched, and exactly when the source would write outside the buffer |
| WebSocket.ReturnedIff | package/evsoc_camera/src/mongoose.c:4252-4257 | The value returned is the size of the frame, or 0 on less, if and only if the announced sum does not pass the width of `size_t` |
| WebSocket.TenBytesReturnNine | package/evsoc_camera/src/mongoose.c:4245-4257 | With 32 bits ten bytes announcing four gigabytes are taken for a frame of nine |
| WebSocket.ReadIsParseIff | package/evsoc_camera/src/mongoose.c:4247-4252 | The sum never wraps if and only if `size_t` has room for the longest header beside the longest payload |
| WebSocket.UnmaskInPlace | package/evsoc_camera/src/mongoose.c:4253-4256 | The loop XORs exactly the payload with the repeated mask |
| WebSocket.Send | package/evsoc_camera/src/mongoose.c:4260-4296 | Exactly the frame of sections 5.2 and 5.3 of RFC 6455 is queued behind what was queued if and only if header, mask and payload fit the room before the call; whatever fits, a client's mask goes over as many bytes at the end of the queue as the payload has |
| WebSocket.RefusedStillMasks | package/evsoc_camera/src/mongoose.c:4291-4294 | When nothing of a client's frame fits, the last bytes queued before, as many as the payload has, are masked |
| WebSocket.QueueMasked | package/evsoc_camera/src/mongoose.c:4281-4295 | What a client's three sends and the masking loop leave of any queue, and exactly when the loop stays inside it |
| WebSocket.MaskedTwice | package/evsoc_camera/src/mongoose.c:4291-4294 | Masking twice gives the payload back |
| WebSocketLayout.FrameLayout | package/evsoc_camera/src/mongoose.c:4260-4296 | Every frame sent: opcode with the final bit, mask bit, the length in the shortest of three forms as a number, a client's mask, and the payload, of which bit k of byte i is turned exactly when bit k of mask byte i mod 4 is set |
| WebSocketLayout.HeaderLayout | package/evsoc_camera/src/mongoose.c:4232-4251 | What every header announces, as a number; of eight length bytes the last four count |
| WebSocketLayout.Examples | package/evsoc_camera/src/mongoose.c:4260-4296 | The masked and unmasked example of section 5.7 of RFC 6455 |
| Octets.XorIsBitwise | package/evsoc_camera/src/mongoose.c:4253-4256 | A bit of the result is set exactly when the two bits differ |
| Octets.PutWrites | package/evsoc_camera/src/mongoose.c:4269-4278 | Two and four bytes write the number, most significant first |
| WebSocket.ReadIsFraming | package/evsoc_camera/src/mongoose.c:4232-4258 | On every machine a verdict other than "wait", an oversized frame among them, stands whatever arrives later, and a frame is read from its own bytes alone |
| WebSocket.RoundTripsIff | package/evsoc_camera/src/mongoose.c:4232-4296 | For every opcode, mask, role, payload and trailing bytes, the frame sent is recovered and exactly consumed if and only if the payload is under 2^32 bytes and the frame shorter than `size_t` counts |
| WebSocket.PrefixWaits | package/evsoc_camera/src/mongoose.c:4252 | Every strict prefix of a frame makes the parser wait |
| WebSocket.Receive | package/evsoc_camera/src/mongoose.c:4324-4347 | The loop delivers the frames in the buffer in order and terminates: with an incomplete frame left, at CLOSE with that frame left unmasked in the buffer, or at a frame too big for `size_t` |
| WebSocket.SegmentationIndependent | package/evsoc_camera/src/mongoose.c:4324-4347 | For every stream and every cut into reads the same events are delivered, up to the first CLOSE or the first frame whose size does not fit `size_t`, of which there is none with 64 bits |
| WebSocket.WireDrains | package/evsoc_camera/src/mongoose.c:4260-4296 | The concatenation of frames sent drains to the messages up to the first CLOSE |
| WebSocketLayout.DeliveredUpToClose | package/evsoc_camera/src/mongoose.c:4324-4347 | The messages delivered are those in front of the first with opcode 8, and that one, with their payloads |
| WebSocket.EndToEnd | package/evsoc_camera/src/mongoose.c:4260-4347 | Whatever is sent and however it is cut, the receiver gets exactly the messages up to the first CLOSE |
| Mqtt.ParsePacket | package/evsoc_camera/src/mongoose.c:1946-2008 | The parser with its length loop equals the recursive reading of the packet |
| MqttLaws.PublicationRead | package/evsoc_camera/src/mongoose.c:1946-2008 | A publication of any QoS, with any flags and any length bytes that write its length: topic, id (none for QoS 0) and data |
| MqttLaws.OthersRead | package/evsoc_camera/src/mongoose.c:1969-2061 | Every other packet: only the second byte of a CONNACK is its return code, and any but 0 refuses; only acknowledgements have an id |
| MqttLaws.ShortPublicationRefused | package/evsoc_camera/src/mongoose.c:1987-2003 | A publication too short for its fields is malformed |
| MqttLaws.EndlessLength | package/evsoc_camera/src/mongoose.c:1956-1965 | Four length bytes that all ask for another are malformed, fewer are waited for |
| Mqtt.SendHeader | package/evsoc_camera/src/mongoose.c:1851-1862 | The do-while loop emits the base-128 length bytes, at most four |
| Mqtt.Pub | package/evsoc_camera/src/mongoose.c:1915-1931 | Exactly a publication (header, topic, packet id, never 0, and data) is queued if and only if all five sends fit the room before the call; else those that fit |
| MqttLaws.PublishLayout | package/evsoc_camera/src/mongoose.c:1915-1931 | Every publication: 0x32, length bytes that write what follows, the topic behind its length, the id, the data |
| MqttLaws.IdsCountUp | package/evsoc_camera/src/mongoose.c:1926-1927 | Ids count from 1 to 65535 and around |
| MqttLaws.LengthWritten | package/evsoc_camera/src/mongoose.c:1854-1860 | The length bytes write the length, seven bits each and least significant first, all but the last with the continuation bit |
| MqttLaws.LengthExamples | package/evsoc_camera/src/mongoose.c:1854-1860 | The bounds of table 2.4 of MQTT 3.1.1 |
| Mqtt.RefusedSwallows | package/evsoc_camera/src/mongoose.c:1922-1930 | When the header fits but not all the rest, a receiver takes as many bytes as announced from what is sent next |
| Mqtt.ScanLength | package/evsoc_camera/src/mongoose.c:1956-1965 | Reading the length bytes gives the length back when four are enough, and is refused else |
| Mqtt.ParseIsFraming | package/evsoc_camera/src/mongoose.c:1946-2008 | A verdict other than "incomplete" stands whatever arrives later and depends on the packet's bytes alone |
| Mqtt.RoundTripsIff | package/evsoc_camera/src/mongoose.c:1915-2008 | A published packet with anything behind it gives back topic, id, QoS 1, data and exact length if and only if topic and packet fit their length fields |
| Mqtt.PrefixWaits | package/evsoc_camera/src/mongoose.c:1952-1965 | Every strict prefix of a publication is incomplete |
| Mqtt.Receive | package/evsoc_camera/src/mongoose.c:2035-2075 | The loop delivers the packets in order, terminates, and says whether the connection is to be closed |
| Mqtt.SegmentationSafe | package/evsoc_camera/src/mongoose.c:2038-2071 | For every cut the packets up to the first malformed one or refused CONNACK are the same |
| Mqtt.SegmentationIff | package/evsoc_camera/src/mongoose.c:2049-2067 | All cuts deliver the same if and only if no packet follows a refused CONNACK |
| Mqtt.WireDrains | package/evsoc_camera/src/mongoose.c:1915-1931 | A run of publications drains to those publications with successive ids |
| Mqtt.EndToEnd | package/evsoc_camera/src/mongoose.c:1915-2075 | However a run of publications is cut, the receiver gets exactly them, in order, each with its id |
| Base64.Update | package/evsoc_camera/src/mongoose.c:71-85 | After any bytes x and one more, the buffer holds exactly the settled symbols of x+[ch] and, at n, its spare bits |
| Base64.Final | package/evsoc_camera/src/mongoose.c:87-96 | Completing any partial state yields the encoding of section 4 of RFC 4648 with a NUL behind it |
| Base64.EncodeInto | package/evsoc_camera/src/mongoose.c:98-103 | The incremental encoder produces the 24-bit-group encoding of every byte string |
| Base64.FourIsQuantum | package/evsoc_camera/src/mongoose.c:72-83 | Byte-by-byte shifting gives the sextets of the 24-bit group |
| Base64.EncodedLength | package/evsoc_camera/src/mongoose.c:87-96 | The length is four times the number of groups of three, rounded up |
| Base64.Decode | package/evsoc_camera/src/mongoose.c:105-121 | The loop returns all decoded bytes and a NUL, or 0 when some group is refused |
| Base64.RoundTrip | package/evsoc_camera/src/mongoose.c:41-121 | Decoding the encoding gives every byte string back |
| Base64.Alphabet | package/evsoc_camera/src/mongoose.c:41-51 | Table 1 of RFC 4648 |
| Base64.OnlyAlphabetIsRead | package/evsoc_camera/src/mongoose.c:53-69 | A byte is read as its place in the alphabet; the rest is padding or refused |
| Base64.GroupIsSpelled | package/evsoc_camera/src/mongoose.c:71-85 | The four symbols of three bytes spell their 24 bits, six by six from the top |
| Base64.Vectors | package/evsoc_camera/src/mongoose.c:71-103 | The test vectors of section 10 of RFC 4648 |
| Base64.GroupIff | package/evsoc_camera/src/mongoose.c:107-118 | A group is refused unless its first two symbols and what is not padding at its end are of the alphabet; else it gives three bytes less the padding |
| Base64.RefusedIff | package/evsoc_camera/src/mongoose.c:107-118 | Decoding gives nothing if and only if there is such a group |
| Url.Encode | package/evsoc_camera/src/mongoose.c:1127-1141 | The percent-encoding of the whole string, or 0 exactly when a character finds fewer than five bytes left |
| Url.Decode | package/evsoc_camera/src/mongoose.c:488-509 | The decoded string with a NUL when it is well formed and fits, and -1 exactly otherwise |
| Url.RoundTrip | package/evsoc_camera/src/mongoose.c:488-509 | Decoding the encoding gives every string back, with and without the form flag |
| Url.RoomyIsAccepted | package/evsoc_camera/src/mongoose.c:1131 | A buffer of 3n+2 bytes is always accepted |
| Url.RefusedEarly | package/evsoc_camera/src/mongoose.c:1131 | Too little room at any character means too little room for the whole string |
| Url.HexUndone | package/evsoc_camera/src/mongoose.c:4031-4059 | Two hex digits written by `mg_hex` read back as the byte |
| Url.SafeIff | package/evsoc_camera/src/mongoose.c:1122-1125 | Left as they are: letters, digits, `-`, `.`, `_`, `~` |
| Url.OneWritten | package/evsoc_camera/src/mongoose.c:1132-1137 | Any other byte goes out as `%` and two hex digits |
| Url.HexDigits | package/evsoc_camera/src/mongoose.c:4031-4041 | The digits, in lower case |
| Url.HexRead | package/evsoc_camera/src/mongoose.c:4043-4052 | Digits are read in either case, and nothing else is one |
| Url.OneRead | package/evsoc_camera/src/mongoose.c:491-504 | What every beginning of a string decodes to: `+` is a space in a form, `%` needs two hex digits |
| TimerLaws.RateBoundIff | package/evsoc_camera/src/mongoose.c:3376-3387 | In every run of polls up to a limit a timer fires at most (now - t0)/period times, if and only if the deadlines of such a run fit `unsigned long` |
| TimerLaws.LongRunRateIff | package/evsoc_camera/src/mongoose.c:3376-3387 | With two periods or more to the limit: if and only if limit + period fits |
| TimerLaws.RateBound | package/evsoc_camera/src/mongoose.c:3376-3387 | The bound for one run, however irregular the polls |
| TimerLaws.FiresEveryPoll | package/evsoc_camera/src/mongoose.c:3383-3385 | Once the deadline wraps, n polls fire n times even within one millisecond |
| TimerLaws.FiveInFiveMilliseconds | package/evsoc_camera/src/mongoose.c:3378-3385 | Five polls in the last half second before the wrap fire a timer of one second five times, with 32 bits |
| TimerLaws.NoDriftIff | package/evsoc_camera/src/mongoose.c:3381-3385 | In every run up to a limit with gaps up to the period the timer has fired once per whole period and its deadline is the next point of the grid, if and only if the first point after the limit fits `unsigned long` |
| TimerLaws.NoDrift | package/evsoc_camera/src/mongoose.c:3381-3385 | The cadence for one run |
| TimerLaws.LatePollIff | package/evsoc_camera/src/mongoose.c:3383-3385 | A late poll leaves a deadline on the grid and not yet over exactly when the deadline fits and the poll is at most a period, or a whole number of periods, late |
| TimerRules.PollAllMembers | package/evsoc_camera/src/mongoose.c:3376-3387 | A timer is in the list after a poll exactly when it is the next state of one that was in it and stays |
| TimerRules.CallsMembers | package/evsoc_camera/src/mongoose.c:3379-3380 | A callback is made exactly for the timers that were due |
| TimerRuns.RepeatingRunsAlone | package/evsoc_camera/src/mongoose.c:3353-3388 | Over any run of polls, insertions and removals of others a repeating timer in a list has the state and the number of callbacks it would have alone |
| TimerRuns.ListRateBound | package/evsoc_camera/src/mongoose.c:3353-3388 | So the rate bound holds of its callbacks in the log of the whole list |
| TimerRuns.AddedRateBound | package/evsoc_camera/src/mongoose.c:3353-3388 | In every run from the beginning, from the moment a repeating timer is added |
| TimerRuns.OnceRuns | package/evsoc_camera/src/mongoose.c:3376-3387 | Over any run a timer that does not repeat is called once, at the first poll not before its deadline, and is then gone; until then it is not called and stays |
| TimerRuns.ClockBack | package/evsoc_camera/src/mongoose.c:3369-3379 | When the time has gone back nobody is called or leaves and every deadline is one period from now |
| TimerList.ManagerRateBound | package/evsoc_camera/src/mongoose.c:3353-3388 | And of the callbacks of every manager, whatever was done with it |
| TimerList.Manager.Init | package/evsoc_camera/src/mongoose.c:3353-3359 | The new timer is linked in front, not yet polled, and called at once if asked; the manager's history gains one act |
| TimerList.Manager.Free | package/evsoc_camera/src/mongoose.c:3361-3365 | The timer is unlinked wherever it stands, the others keep their order; an unknown timer changes nothing; the manager's history gains one act |
| TimerList.Manager.Poll | package/evsoc_camera/src/mongoose.c:3367-3388 | Though one-shot timers unlink themselves during the walk, every timer is visited once in order and the list and callbacks are those of the specification, for every width of `unsigned long`; list, callbacks and clock stay those of the history |
| CliHistory.GetHistory | package/evsoc_app/src/evsoc_cli.cpp:409-434 | Lookup in the packed array is lookup in the list and never leaves the array |
| CliHistory.ExtendHistory | package/evsoc_app/src/evsoc_cli.cpp:437-451 | Accepting a line turns the packed image of the old list into that of the new one |
| CliHistory.NewestFirst | package/evsoc_app/src/evsoc_cli.cpp:445-447 | An accepted nonempty line is entry 0 |
| CliHistory.OthersShift | package/evsoc_app/src/evsoc_cli.cpp:445-449 | Every entry that still fits moves back by one, unchanged |
| CliHistory.OnlyOldestCut | package/evsoc_app/src/evsoc_cli.cpp:449 | Only the oldest tail is cut |
| CliHistory.CutIsFull | package/evsoc_app/src/evsoc_cli.cpp:445-449 | No more is cut than must be: at most one byte of the array stays unused |
| CliHistory.AcceptNothing | package/evsoc_app/src/evsoc_cli.cpp:437-444 | An empty line, or the newest one again, leaves the history as it is |
| CliHistory.AcceptShifts | package/evsoc_app/src/evsoc_cli.cpp:445-449 | Moving the bytes up and putting a NUL at the end is the image of the cut list |
| Cli.EmbeddedCli.constructor | package/evsoc_app/src/evsoc_cli.cpp:318-331 | A new editor is empty, with empty history |
| Cli.EmbeddedCli.InsertDefaultChar | package/evsoc_app/src/evsoc_cli.cpp:380-407 | Opening a gap in the buffer inserts the character before the cursor, unless the line is full |
| Cli.EmbeddedCli.GetHistorySearch | package/evsoc_app/src/evsoc_cli.cpp:367-377 | The newest entry that contains the text searched for |
| Cli.EmbeddedCli.StopSearch | package/evsoc_app/src/evsoc_cli.cpp:453-468 | The found entry, or nothing, becomes the line |
| Cli.EmbeddedCli.CsiKey | package/evsoc_app/src/evsoc_cli.cpp:613-715 | Keys inside a control sequence do what the text-and-cursor editor does |
| Cli.EmbeddedCli.PlainKey | package/evsoc_app/src/evsoc_cli.cpp:716-800 | So do all other keys |
| Cli.EmbeddedCli.Enter | package/evsoc_app/src/evsoc_cli.cpp:802-811 | Newline returns the editor's text and puts it into the history |
| Cli.EmbeddedCli.InsertChar | package/evsoc_app/src/evsoc_cli.cpp:601-814 | One key refines one step of the editor; cursor <= len < buffer size and the NULs are kept |
| Cli.EmbeddedCli.Type | package/evsoc_app/src/evsoc_cli.cpp:601-814 | Every sequence of keys refines a run of the editor |
| Cli.EmbeddedCli.GetLine | package/evsoc_app/src/evsoc_cli.cpp:816-821 | The line is the editor's text at newline, and only then |
| Cli.EmbeddedCli.Argc | package/evsoc_app/src/evsoc_cli.cpp:828-899 | After a line its arguments as C strings in the buffer, else none; only a line that begins with a backslash, but for empty quotes, depends on the byte in front of the buffer |
| LineEditor.KeysOk | package/evsoc_app/src/evsoc_cli.cpp:601-814 | Over every run the line stays shorter than the buffer and the history inside its array |
| EditorLaws.TypedLineIsReturned | package/evsoc_app/src/evsoc_cli.cpp:796-813 | A typed line comes back unchanged at newline |
| EditorLaws.BackspaceUndoes | package/evsoc_app/src/evsoc_cli.cpp:746-764 | Backspace undoes one typed character wherever the cursor is |
| EditorLaws.BackDeleteUndoes | package/evsoc_app/src/evsoc_cli.cpp:681-708 | Moving left and deleting undoes it too |
| EditorLaws.MovesKeepText | package/evsoc_app/src/evsoc_cli.cpp:675-695 | Cursor moves never change the text |
| EditorLaws.BackThenForward | package/evsoc_app/src/evsoc_cli.cpp:675-687 | Moving back and forward by the same count returns exactly when there was room, or neither move happened |
| EditorLaws.CountedKey | package/evsoc_app/src/evsoc_cli.cpp:613-687 | A control sequence whose digits are all taken in moves by the number they write, none meaning one |
| EditorLaws.DigitsAbsorbedIff | package/evsoc_app/src/evsoc_cli.cpp:613-619 | All digits are taken in if and only if the number is below a hundred before each of them |
| EditorLaws.UpWalksHistory | package/evsoc_app/src/evsoc_cli.cpp:621-648 | k times the up arrow shows entry k-1 |
| EditorLaws.DownUndoesUp | package/evsoc_app/src/evsoc_cli.cpp:650-673 | The down arrow undoes the up arrow |
| EditorLaws.EnteredLineComesBack | package/evsoc_app/src/evsoc_cli.cpp:437-451 | A line just entered is what the up arrow brings back, and entering it again leaves the history as it is |
| EditorKeys.HomeThenType | package/evsoc_app/src/evsoc_cli.cpp:692-695 | After Ctrl-A or ESC [ H what is typed stands in front of the text, with the cursor behind it |
| EditorKeys.EndThenType | package/evsoc_app/src/evsoc_cli.cpp:688-691 | After Ctrl-E or ESC [ F it stands behind the text |
| EditorKeys.KillAndCancel | package/evsoc_app/src/evsoc_cli.cpp:725-739 | Ctrl-K leaves the text in front of the cursor, Ctrl-C none, and the history as it is |
| EditorKeys.EraseKeys | package/evsoc_app/src/evsoc_cli.cpp:696-764 | Backspace, 8 or 127, takes the character in front of the cursor, ESC [ 3 ~ the one at it |
| EditorKeys.IdleKeys | package/evsoc_app/src/evsoc_cli.cpp:709-720 | Ctrl-L, NUL and unknown sequences leave text and cursor |
| EditorKeys.NewlineInSequence | package/evsoc_app/src/evsoc_cli.cpp:796-804 | Inside a sequence a line feed ends the line, a carriage return only the sequence |
| EditorKeys.FullLine | package/evsoc_app/src/evsoc_cli.cpp:383-385 | A line of 119 characters takes no more |
| EditorKeys.ArrowMoves | package/evsoc_app/src/evsoc_cli.cpp:675-687 | A counted arrow moves the cursor by the number its digits write, if there are that many characters, and keeps the text |
| EditorKeys.LineIsReturned | package/evsoc_app/src/evsoc_cli.cpp:789-811 | A typed line is returned at either newline and is the newest entry of the history |
| EditorKeys.SearchFinds | package/evsoc_app/src/evsoc_cli.cpp:765-781 | Ctrl-R, text, ESC or newline: the newest entry that has the text as a substring and no newer one has it, or the empty line |
| EditorKeys.SearchBackspace | package/evsoc_app/src/evsoc_cli.cpp:746-764 | Backspace leaves the search with that entry and takes its last character |
| EditorKeys.HistoryEnds | package/evsoc_app/src/evsoc_cli.cpp:621-673 | Beyond the oldest entry, and before the newest, the line is empty |
| EditorKeys.DownFromThePast | package/evsoc_app/src/evsoc_cli.cpp:409-434 | However many up arrows went past the oldest entry, one down arrow shows it again, or the one before it when the entries fill their array |
| CliArgs.Argc | package/evsoc_app/src/evsoc_cli.cpp:828-899 | The loop with its shifting moves leaves exactly the arguments of the line, each NUL-terminated, behind the pointers; with a quote in front of the buffer and a line that begins with a backslash, but for empty quotes, one argument without that backslash and the character behind it, which goes in front of the buffer |
| CliWords.WordsSplit | package/evsoc_app/src/evsoc_cli.cpp:836-898 | Every line of words between runs of the four whitespace characters splits into what the first nine words mean, each made of any mixture of plain characters, escaped characters and strings in single or double quotes |
| CliWords.PlainWordsSplit | package/evsoc_app/src/evsoc_cli.cpp:855-875 | Words free of NUL, whitespace, quotes and backslash come back as they are, the first nine of them |
| CliWords.QuoteReopens | package/evsoc_app/src/evsoc_cli.cpp:873-887 | A backslash right behind a quote that is part of the argument opens a string with that quote instead: the quote is lost, and the next character is kept |
| CliWords.QuotedSplitsBack | package/evsoc_app/src/evsoc_cli.cpp:836-898 | A list in double quotes splits into its first nine arguments, whatever they contain but NUL and the quote |
| CliWords.QuotingRoundTripsIff | package/evsoc_app/src/evsoc_cli.cpp:865-894 | The list comes back exactly when it has at most nine arguments |
| Morphology.BinaryErosion | kernel_modules/evsoc/src/isp.h:77-119 | The nested loops leave exactly the eroded image, for every image |
| Morphology.BinaryDilation | kernel_modules/evsoc/src/isp.h:121-163 | The nested loops leave exactly the dilated image, for every image |
| Morphology.WrapFindsBorder | kernel_modules/evsoc/src/isp.h:91 | The test on wrapped unsigned coordinates finds exactly the points outside the image |
| MorphologyLaws.DilateIsDilation | kernel_modules/evsoc/src/isp.h:121-163 | On the points that are on, dilation is zero-padded 3x3 dilation, for every image |
| MorphologyLaws.ErodeIsErosion | kernel_modules/evsoc/src/isp.h:77-119 | On the points that are on, erosion is zero-padded 3x3 erosion, for every binary image |
| MorphologyLaws.ErodeIsErosionIff | kernel_modules/evsoc/src/isp.h:102-114 | For any image, if and only if the nine bytes around every point whose neighbours are all on have a bit in common |
| MorphologyLaws.DisjointBytesLose | kernel_modules/evsoc/src/isp.h:102-103 | Two nearby bytes with no bit in common turn a point off although both are on |
| MorphologyLaws.DilatedPixel | kernel_modules/evsoc/src/isp.h:121-163 | A pixel of the dilated image is white if it or a neighbour inside the image is on, else black |
| MorphologyLaws.ErodedPixel | kernel_modules/evsoc/src/isp.h:77-119 | For a binary image a pixel is white if it and its eight neighbours are on, else black, and black at the border |
| MorphologyLaws.ImagesAdjoint | kernel_modules/evsoc/src/isp.h:77-163 | dilate(a) lies in b exactly when a lies in erode(b), for a clear of the border |
| MorphologyLaws.OpenOnlyRemoves | kernel_modules/evsoc/src/isp.h:77-163 | Opening only turns pixels off, for every image |
| MorphologyLaws.OpenTwice | kernel_modules/evsoc/src/isp.h:77-163 | Opening is idempotent pixel for pixel, for every image |
| MorphologyLaws.CloseKeepsIff | kernel_modules/evsoc/src/isp.h:77-163 | Closing keeps what was on exactly when nothing was on at the border |
| MorphologyLaws.CloseTwice | kernel_modules/evsoc/src/isp.h:77-163 | Closing is idempotent pixel for pixel, for every image |
| PointSets.AdjointIff | kernel_modules/evsoc/src/isp.h:90-98 | The adjunction holds against every set if and only if the dilated set is clear of the border |
| PointSets.OpeningIdempotent | kernel_modules/evsoc/src/isp.h:77-163 | Erosion then dilation of a point set is idempotent |
| PointSets.ErosionClear | kernel_modules/evsoc/src/isp.h:90-93 | With zero padding an erosion never reaches the border |
| I2cDriver.Device.MasterRead | kernel_modules/i2c/src/i2c.c:493-511 | A byte is read with ACK, the last one with NACK, and lands at its place in the buffer |
| I2cDriver.Device.StartMsg | kernel_modules/i2c/src/i2c.c:470-484 | START, address byte and the slave's answer, or the first of these that failed |
| I2cDriver.Device.XferMsg | kernel_modules/i2c/src/i2c.c:518-585 | A message leaves its operations, or those up to a failure and one STOP, or nothing on a busy bus |
| I2cDriver.Device.Xfer | kernel_modules/i2c/src/i2c.c:587-602 | Whatever the controller answers: the full transfer and one STOP, and only then num; or its beginning up to the failure and one STOP; or the two busy-test returns; what is added to the trace obeys the bus rules. Every answer on the trace is the one the controller gave at that read, busy at the first read is the one way to -EBUSY, and the last read decides between STOP and an error. Without messages nothing happens and the unset variable decides the result |
| I2cDriver.TransferObserved | kernel_modules/i2c/src/i2c.c:518-602 | Every trace obeys the bus rules; num is returned exactly on the full trace, whose frame k holds the seven address bits, the direction bit and the data of message k; a broken transfer carries a beginning of them and leaves the bus idle |
| I2cDriver.BrokenTells | kernel_modules/i2c/src/i2c.c:581-584 | -110 is returned when the operation in front of the STOP ran out of time, -5 when the slave did not acknowledge |
| I2cDriver.GoesThrough | kernel_modules/i2c/src/i2c.c:518-602 | With a controller in time, a slave that acknowledges and a bus free before and held after, num is returned and every message carried |
| I2cBus.FullSeen | kernel_modules/i2c/src/i2c.c:549-569 | An observer of UM10204 reads from a full trace frames whose address byte is twice the address plus the direction bit, and whose data is the message's |
| I2cBus.MsgLayout | kernel_modules/i2c/src/i2c.c:470-569 | The operations of a message by number: START, 2*addr + read, the release of the line, the answer, then three for every byte, where reading puts 255 and acknowledges all but the last |
| I2cBus.FullThenStop | kernel_modules/i2c/src/i2c.c:571-582 | The STOP behind it leaves the bus idle |
| I2cBus.CutThenStop | kernel_modules/i2c/src/i2c.c:581-584 | Whatever operation failed, the trace with its STOP is well formed and carries a beginning of the transfer |
| I2cSlave.Device.Interrupt | kernel_modules/i2c/src/i2c.c:233-312 | One interrupt is one step of the slave's state machine |
| I2cSlave.WriteTransfer | kernel_modules/i2c/src/i2c.c:250-304 | In a master write the backend gets the request and every byte, in order and once, each acknowledged, whatever state went before |
| I2cSlave.ReadTransfer | kernel_modules/i2c/src/i2c.c:260-294 | In a master read the bytes on the bus are those the backend supplied, in order; only the address is acknowledged |
| I2cSlave.OthersTransfer | kernel_modules/i2c/src/i2c.c:245-274 | After a foreign address nothing is said or put on the bus |
| I2cSlave.RunKeepsInv | kernel_modules/i2c/src/i2c.c:233-312 | However interrupts come, the backend hears a well-formed conversation and the transmit interrupt is on exactly during a transfer |
| Kicks.NoLostWakeup | kernel_modules/efinix_ti375_remoteproc/src/efinix_ti375_remoteproc.c:147-160 | In every interleaving with fewer than 2^32 kicks between reads, after each tick every kick since start is answered by a notify run or has one pending |
| Kicks.AnsweredUntilStop | kernel_modules/efinix_ti375_remoteproc/src/efinix_ti375_remoteproc.c:123-129 | And stays so until the work is cancelled |
| Kicks.TickAfterKicksIff | kernel_modules/efinix_ti375_remoteproc/src/efinix_ti375_remoteproc.c:152-156 | n kicks and a tick leave work pending exactly when n is no multiple of 2^32 |
| Kicks.TickSeesIff | kernel_modules/efinix_ti375_remoteproc/src/efinix_ti375_remoteproc.c:152-156 | A tick takes note of all kicks before its read exactly when the counter has not gone round |
| Kicks.StoppedIsQuiet | kernel_modules/efinix_ti375_remoteproc/src/efinix_ti375_remoteproc.c:186-200 | After stop has returned neither the timer handler nor the work has a step to take, in any run |
| Kicks.RunKeepsInv | kernel_modules/efinix_ti375_remoteproc/src/efinix_ti375_remoteproc.c:123-200 | Every run keeps the counters in step, the timer and work inside start and stop, and nothing seen unanswered |
| Kicks.RestartForgets | kernel_modules/efinix_ti375_remoteproc/src/efinix_ti375_remoteproc.c:162-176 | After a start while polling and a tick, all kicks are answered or about to be if and only if they were before |
| Kicks.StartStarts | kernel_modules/efinix_ti375_remoteproc/src/efinix_ti375_remoteproc.c:174-183 | From every reachable state in which nothing polls, start can run and ends armed and polling |
| Kicks.KicksAreServed | kernel_modules/efinix_ti375_remoteproc/src/efinix_ti375_remoteproc.c:123-183 | From there 0 < n < 2^32 kicks, a tick and a notify run are a run after which every kick is answered |
| Kicks.FirstKicksAreServed | kernel_modules/efinix_ti375_remoteproc/src/efinix_ti375_remoteproc.c:123-183 | So they are from boot, with n answered |
| Kicks.StopStops | kernel_modules/efinix_ti375_remoteproc/src/efinix_ti375_remoteproc.c:186-200 | Stop can always run once the handler has ended, and leaves nothing armed, pending or running |
| KickDriver.Inbound.Drive | kernel_modules/efinix_ti375_remoteproc/src/efinix_ti375_remoteproc.c:123-200 | Over every interleaving the fields go through the states of the run, and both virtqueues are told once per notify run |
| KickDriver.ToldBoth | kernel_modules/efinix_ti375_remoteproc/src/efinix_ti375_remoteproc.c:123-129 | Each of the two virtqueues is told once for every notify run, and no other is |
| KickDriver.Inbound.PollFn | kernel_modules/efinix_ti375_remoteproc/src/efinix_ti375_remoteproc.c:147-160 | An undisturbed tick leaves last_r2l_seen equal to the counter and work pending if they differed |
| KickDriver.Inbound.PollEnds | kernel_modules/efinix_ti375_remoteproc/src/efinix_ti375_remoteproc.c:152-159 | The second half of the handler is the step of the model |
| KickDriver.Inbound.NotifyWork | kernel_modules/efinix_ti375_remoteproc/src/efinix_ti375_remoteproc.c:123-129 | The notify run tells both virtqueues and is no longer pending |
| KickDriver.Inbound.InboundStartArms | kernel_modules/efinix_ti375_remoteproc/src/efinix_ti375_remoteproc.c:174-183 | Start arms the timer only when it does not run; afterwards it is armed and polling |
| KickDriver.Inbound.InboundStopTimer | kernel_modules/efinix_ti375_remoteproc/src/efinix_ti375_remoteproc.c:193-196 | Stop first ends the timer, and does nothing when nothing polls |
| KickDriver.Inbound.InboundStopWork | kernel_modules/efinix_ti375_remoteproc/src/efinix_ti375_remoteproc.c:198-199 | Then the work, and only then polling counts as stopped |

## Left out

- IoBuf.Buffer.Append: sizes are unbounded, so the overflow of `size_t` in a buffer near the end of memory is not modelled.
- TimerList.Manager.Poll: callbacks are recorded but do not edit the list, and periods are not negative.
- Kicks.NoLostWakeup: assumes that start is called only while nothing polls; `Kicks.RestartForgets` says what a second start does.
- I2cDriver.Device.Xfer: the message buffers are sequences, so two messages sharing one buffer are not modelled, and the status bits a read-modify-write would keep are not either.
- WebSocket.Process: where the source would unmask outside the buffer the model stops; what memory holds there is unknown.
- WebSocket.Send: where the source would mask in front of the queue the model stops.
- WebSocket.Receive: ends at a frame too big for `size_t`, whose payload is not in the buffer; the replies to PING, the handshake and events that change the receive buffer are not modelled.
- Mqtt.Receive: the events' effect on the application is not modelled; login and subscription packets are not part of this model.
- CliHistory.ExtendHistory: the two bytes the move writes behind the array are not modelled.
- CliArgs.Argc: with a quote in front of the buffer and a line that ends in the backslash it begins with, what the argument reads is left open: it is what stood behind the line.
- Terminal output, the prompt and tab completion of the line editor: user interface, or never called.
- Doorbell mode of the remote processor driver, firmware loading and the control message: they rest on the kernel and the firmware interface.
- I2cSlave.Device.Interrupt: what the status registers show is an input; the order of a backend call and the register writes of one interrupt is not modelled.
- The I2C bus timing setup and the registration of the adapter: register values.
- Sobel edges and grayscale conversion: one expression per pixel.
- Sockets, TLS, HTTP parsing, DNS, file serving and MD5 of mongoose: operating-system calls, or parts without a specification of their own.
- Samples, camera and DMA setup, firmware support files, rendering demos: plumbing or data.
