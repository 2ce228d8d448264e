# X-Plane UDP client: a verified model

This project models the core of a small C++ client for X-Plane's UDP
data-exchange protocol (the `RREF`, `DREF`, `RPOS` and `BECN` messages) and
proves properties of that model.

The client registers interest in named simulator variables ("datarefs"). Each
registration gets one slot per element in a register bank. A bit-vector
records which slots are occupied, and a first-fit allocator hands out runs of
free slots. The client sends one `RREF` subscription per slot, and stores the
`(index, value)` records the simulator sends back in the register bank. It
learns the simulator's address from the first multicast beacon. It also keeps
an edge-triggered connection state: on a rising edge it replays every
subscription when automatic reconnection is enabled, then tells the user's
callback.

The model has six modules, one file each:

- `bytes.dfy` (`Bytes`): bytes, little-endian words of 1, 2, 4 or 8 bytes, and
  32-bit two's complement.
- `codec.dfy` (`Codec`): the variadic `packSize`, `pack` and `unpack` of
  `include/XPlaneUDP.hpp`. A field is a string, copied verbatim with no
  terminator, or a fundamental value, copied as its `sizeof` bytes. `pack`
  writes into an `array` in place. `unpack` is a function on the buffer's
  contents.
- `protocol.dfy` (`Protocol`): the header constants and the request layouts.
  It also holds the `name[i]` decimal rendering, the 64-byte PlaneInfo record
  and the beacon's port field.
- `slots.dfy` (`Slots`): the first-fit search of `findSpace` over the
  bit-vector, the claim and release of runs, and the register bank's growth.
- `client.dfy` (`Client`): the class `XPlaneUdp`, with the registration list,
  register bank, bit-vector and name map as fields and the invariant `Valid()`
  over them. It models registration, frequency changes, reads, writes,
  `reconnect`/`close`, `setState` and `receiveDataProcess`.
- `join.dfy` (`StringProcess`): `join` of `src/tools/stringProcess.hpp`.

Sockets are replaced by a `socketOpen` flag and an event trace. A request
handed to `sendData` is appended as `Sent(request)` only while the unicast
socket is open; its bytes on the wire are `Protocol.Wire(request)`. A call of
the user's callback is appended as `Notified(state)`. One trace keeps the
order of replays and notifications.

Four behaviours of the code differ from what its own comments, its other
requests and X-Plane's protocol suggest. The model keeps them as the code has
them:

- `close()` is documented as closing all UDP reception
  (`include/XPlaneUDP.cpp:99-101`), but it re-sends each record with its
  stored frequency, not 0. The `del ? 0 : freq` at `include/XPlaneUDP.cpp:84`
  only sizes the buffer, and line 86 packs `freq`. Only the info sentence
  carries 0.
- The info sentence has no NUL terminator. The format string `"{}{}\x00"`
  at `include/XPlaneUDP.cpp:93,227` ends at its embedded NUL.
- The slot index in an `RREF` request is not always the same width. `addDataref`
  packs its `size_t` slot as 8 bytes (`include/XPlaneUDP.cpp:118,122`), and so
  does the array loop of `changeDatarefFreq` with `ref.start + i`
  (`include/XPlaneUDP.cpp:196,200`). `reconnect` (`include/XPlaneUDP.cpp:82-86`)
  and `addDatarefArray` (`include/XPlaneUDP.cpp:139-145`) pack a 4-byte `int`
  into the same 413-byte frame.
- `changeDatarefFreq` packs its frequency as a 4-byte `float`
  (`include/XPlaneUDP.cpp:173,193,200`). Every other `RREF` request packs an
  `int`.

In four places the model departs from the code:

- On reuse, `findSpace` calls `space.set(start, start + length, true)`
  (`include/XPlaneUDP.cpp:268`), which sets `start + length` bits. The class's
  `FindSpace` sets exactly `length` bits. The as-written claim and the bug are
  shown under "## Findings".
- `extendSpace` re-reads its bound while the register bank grows
  (`include/XPlaneUDP.cpp:284`), so it appends only about half the shortfall,
  rounded up. The class's `ExtendSpace` grows the bank to the bit-vector's
  size. The as-written growth and the bug are shown under "## Findings".
- The scalar `getDataref` reads the cell numbered by the handle, not the
  record's slot. The as-written read is modelled and the bug is shown under
  "## Findings"; the class uses the corrected read.
- The register bank write in the receive loop is not bounds-checked in the
  code. The model ignores a record whose index lies outside the bank (see
  "## Left out").

## Model

| member | source | states |
|---|---|---|
| Bytes.WordRoundTrip | include/XPlaneUDP.hpp:143-148 | reading back the n little-endian bytes of a word that fits in n bytes gives the word |
| Bytes.BytesRoundTrip | include/XPlaneUDP.hpp:143-148 | writing the word read from n bytes gives the same n bytes back |
| Bytes.ToInt32 | include/XPlaneUDP.cpp:354-356 | a 4-byte pattern read into an `int` lies in [-2^31, 2^31) and is negative exactly when its top bit is set |
| Bytes.FromInt32 | include/XPlaneUDP.cpp:84-86 | an `int` is packed as its two's-complement 4-byte pattern, which reads back as the same `int` |
| Codec.PackSize | include/XPlaneUDP.hpp:157-171 | `packSize` is the offset plus the length of the fields' encoding (string length or `sizeof` each) |
| Codec.WidthsSum | include/XPlaneUDP.hpp:143-171 | the `sizeof`s that `unpack` steps by add up to the length `packSize` counts |
| Codec.EncodedAppend | include/XPlaneUDP.hpp:180-196 | packing a field list split in two writes the first part's bytes, then the second's |
| Codec.SplicedTwice | include/XPlaneUDP.hpp:184-195 | writing one field at an offset, then the rest right after it, writes their concatenation |
| Codec.CopyBytes | include/XPlaneUDP.hpp:184 | `memcpy` replaces exactly the bytes from the offset for the source's length; every other byte keeps its value |
| Codec.Pack | include/XPlaneUDP.hpp:180-196 | `pack` returns `packSize(offset, fields)`; the buffer from the offset holds the fields' bytes in order and every byte outside is unchanged |
| Codec.Unpack | include/XPlaneUDP.hpp:143-148 | `unpack` yields one word per field, read from a container it does not change |
| Codec.UnpackReadsConsecutive | include/XPlaneUDP.hpp:143-148 | the i-th field is read at its start, one `sizeof` wide, and that window lies within the container |
| Codec.StartShift | include/XPlaneUDP.hpp:145-147 | the start of each field moves with the offset `unpack` is given |
| Codec.StartNext | include/XPlaneUDP.hpp:145-147 | each field starts where the previous one ends |
| Codec.UnpackAt | include/XPlaneUDP.hpp:143-148 | a field whose start is known is read from the bytes at the offset plus that start |
| Codec.StartIsPrefixSum | include/XPlaneUDP.hpp:145-147 | the i-th field's start is the offset plus the `sizeof`s of the fields before it |
| Codec.UnpackEncoded | include/XPlaneUDP.hpp:143-148 | wherever a buffer holds the encoding of fundamental fields, `unpack` there gives back their values |
| Codec.UnpackPack | include/XPlaneUDP.hpp:143-196 | round trip: `unpack` at the offset where `pack` wrote fundamental fields gives their values, whatever the buffer held before |
| Protocol.CompareHeadMeansTag | include/XPlaneUDP.cpp:342-344 | `compareHead` holds exactly when the first four bytes equal the header's four letters |
| Protocol.TagsExclusive | include/XPlaneUDP.hpp:28-31 | a buffer matches at most one of the `RREF`, `RPOS` and `BECN` tags |
| Protocol.NatDigits | include/XPlaneUDP.cpp:113 | the decimal rendering of a natural number is non-empty, all ASCII digits, and starts with `0` only for 0 |
| Protocol.NatDigitsRoundTrip | include/XPlaneUDP.cpp:113 | reading the decimal digits back gives the number |
| Protocol.Decimal | include/XPlaneUDP.cpp:113 | an integer's rendering reads back as the integer, ends in a digit, and starts with a minus sign exactly when the integer is negative |
| Protocol.DecimalInjective | include/XPlaneUDP.cpp:113 | different integers render differently |
| Protocol.Indexed | include/XPlaneUDP.cpp:113 | `name[i]` starts with the name and ends in `]`, and the text between the brackets reads back as i |
| Protocol.IndexedInjective | include/XPlaneUDP.cpp:141-142 | the element names `name[0]`, `name[1]`, ... of one array are pairwise distinct |
| Protocol.I32 | include/XPlaneUDP.cpp:84-86 | an `int` field is 4 bytes wide, reads back as the same `int` when it is in range |
| Protocol.I32Pattern | include/XPlaneUDP.cpp:84-86 | an in-range `int` field holds exactly its two's-complement pattern |
| Protocol.U64 | include/XPlaneUDP.cpp:118-122 | a `size_t` field is 8 bytes wide and holds the index itself |
| Protocol.F32 | include/XPlaneUDP.cpp:213-217 | the four bytes a `float` is packed as read back, little-endian, as its bit pattern |
| Protocol.Datagram | include/XPlaneUDP.cpp:18-22 | a frame is the packed payload in a zeroed 1472-byte buffer, cut to the length sent |
| Protocol.PackedDatagram | include/XPlaneUDP.cpp:18-22 | a payload packed at offset 0 into a zeroed 1472-byte buffer and cut to the send length is its datagram |
| Protocol.BuildFrame | include/XPlaneUDP.cpp:120-123 | packing the fields into a fresh buffer with `pack` and sending the first n bytes gives exactly the datagram of the fields' encoding |
| Protocol.RrefFrame | include/XPlaneUDP.cpp:120-123 | an `RREF` request goes out as exactly 413 bytes |
| Protocol.DrefFrame | include/XPlaneUDP.cpp:215-218 | a `DREF` request goes out as exactly 509 bytes |
| Protocol.InfoSentence | include/XPlaneUDP.cpp:225-231 | the info sentence starts with `RPOS\0`, the bytes after it read back as the frequency, and its last byte is a digit, not a NUL |
| Protocol.Wire | include/XPlaneUDP.cpp:314-323 | a subscription is 413 bytes on the wire and a set request 509 |
| Protocol.InfoWidthsSum | include/XPlaneUDP.hpp:67-71 | three doubles and ten floats make the 64-byte PlaneInfo record |
| Protocol.InfoLayout | include/XPlaneUDP.hpp:67-71 | the PlaneInfo members start at bytes 0, 8, 16, then every 4 bytes from 24 to 60 |
| Protocol.DecodeInfoFields | include/XPlaneUDP.cpp:362 | each PlaneInfo member is the little-endian word of its own bytes after the header: `lon` bytes 0..8, `track` bytes 32..36, `yawRate` bytes 60..64 |
| Protocol.BeaconPort | include/XPlaneUDP.cpp:364-370 | the beacon's announced port is the 16-bit word at bytes 19 and 20 |
| Protocol.BeaconPortBytes | include/XPlaneUDP.cpp:365-369 | the sixth field `unpack` reads after the header (u8, u8, i32, i32, u32, u16) is bytes 19 and 20 |
| Protocol.BeaconLayout | include/XPlaneUDP.cpp:365-369 | the beacon fields take 16 bytes after the 5-byte header and the port starts at byte 19 |
| Slots.FirstFitIsFirst | include/XPlaneUDP.cpp:260-275 | the first-fit start is a free window with no free window before it, or there is no free window at all |
| Slots.FirstFitSkips | include/XPlaneUDP.cpp:262-275 | when no window fits before b, the search from slot 0 ends where the search from b does |
| Slots.ScanFree | include/XPlaneUDP.cpp:261-275 | the `start`/`count` scan finds a run exactly when a free window exists, and finds the least one |
| Slots.Fill | include/XPlaneUDP.cpp:180 | `dynamic_bitset::set(pos, len, b)` sets exactly the `len` bits from `pos` to b |
| Slots.Claimed | include/XPlaneUDP.cpp:260-281 | the claimed window lies within the new bit-vector |
| Slots.ClaimReusesFirstFit | include/XPlaneUDP.cpp:260-275 | when some window fits, `findSpace` returns the least free start and does not grow the vector |
| Slots.ClaimGrows | include/XPlaneUDP.cpp:276-280 | when none fits, `findSpace` appends exactly `length` set bits, keeps the old ones and returns the old size |
| Slots.ClaimWindow | include/XPlaneUDP.cpp:260-281 | the returned window was free or new, is set afterwards, and every other bit keeps its value |
| Slots.ReleaseThenClaimSameStart | include/XPlaneUDP.cpp:176-187 | disabling then re-enabling gets the same start back when the first claim reused a window or the vector ended occupied |
| Slots.ReleaseAfterGrowthMovesStart | include/XPlaneUDP.cpp:176-187 | when a claim had to grow a vector that ended in a free bit, releasing the new run and claiming again starts earlier than the first claim |
| Slots.SetAsWrittenOverclaims | include/XPlaneUDP.cpp:268 | as written, a reuse at start > 0 also sets the bit just past the window, which the intended claim leaves alone |
| Slots.SetAsWrittenExample | include/XPlaneUDP.cpp:268 | as written, claiming one slot in `[1,0,0]` sets `[1,1,1]`, where the intended claim gives `[1,1,0]` |
| Slots.ExtendSpaceAsWritten | include/XPlaneUDP.cpp:283-286 | as written, `extendSpace` appends only half the deficit, rounded up, of zero cells |
| Slots.ExtendSpaceAsWrittenExample | include/XPlaneUDP.cpp:283-286 | as written, the first two-slot growth leaves one register cell for two slots |
| Client.Emitted | include/XPlaneUDP.cpp:314-318 | there is one event per request while the unicast socket is open and none while it is closed |
| Client.EmittedSends | include/XPlaneUDP.cpp:314-318 | while the socket is open the i-th event is the i-th request sent; while it is closed nothing is sent |
| Client.EmittedAppend | include/XPlaneUDP.cpp:314-318 | the traffic of two request runs is the traffic of each, in order |
| Client.ReplayStep | include/XPlaneUDP.cpp:79-89 | replaying one more record extends the traffic by that record's requests |
| Client.Reenabled | include/XPlaneUDP.cpp:183-188 | a re-enabled record keeps its name, stored frequency, kind and width, and becomes available |
| Client.ApplyRecords | include/XPlaneUDP.cpp:353-358 | applying value records never changes the register bank's size |
| Client.ApplyRecordsUntouched | include/XPlaneUDP.cpp:353-358 | a register cell no record names keeps its value |
| Client.ApplyRecordsLastWins | include/XPlaneUDP.cpp:353-358 | a register cell ends with the value of the last record naming it |
| Client.GetDatarefAsWrittenReadsWrongSlot | include/XPlaneUDP.cpp:164 | as written, after a three-slot array the scalar read of the next handle returns the array's second cell |
| Client.ValuesConsistent | include/XPlaneUDP.cpp:353-362 | storing values never breaks the bookkeeping invariant |
| Client.AddRecordConsistent | include/XPlaneUDP.cpp:118-124 | appending a record on free slots under a new name keeps every enabled range occupied and disjoint and `exist` exact |
| Client.DisableConsistent | include/XPlaneUDP.cpp:176-180 | disabling a record and clearing its slots keeps the invariant; no other record's slots are cleared |
| Client.ReplaceRecordConsistent | include/XPlaneUDP.cpp:183-188 | moving a record to a fresh claimed range keeps the invariant |
| Client.Classify | include/XPlaneUDP.cpp:348-363 | a datagram is stored as values only with a payload that is a multiple of 8, and as info only above 6 bytes with a multiple of 64 |
| Client.Erase | include/XPlaneUDP.cpp:379 | `memset` zeroes exactly the first `size` bytes of the buffer |
| Client.XPlaneUdp.constructor | include/XPlaneUDP.cpp:38-40 | a new client has no registrations, an empty bit-vector and bank, a closed socket, state false and info track -1 |
| Client.XPlaneUdp.SetCallback | include/XPlaneUDP.cpp:70-72 | the callback is stored |
| Client.XPlaneUdp.SendData | include/XPlaneUDP.cpp:314-318 | a frame goes out only while the unicast socket is open |
| Client.XPlaneUdp.ExtendSpace | include/XPlaneUDP.cpp:283-286 | corrected: the register bank grows with zero cells to the bit-vector's size, and existing cells keep their values |
| Client.XPlaneUdp.FindSpace | include/XPlaneUDP.cpp:260-281 | returns the first-fit start (or the old size after growth); the window is set afterwards and overlaps no enabled record; the invariant holds |
| Client.XPlaneUdp.AddDataref | include/XPlaneUDP.cpp:112-126 | a known name (`name[index]` when index is not -1) returns its handle and changes nothing; otherwise one slot is claimed, one record appended, one `RREF` with an 8-byte index sent, and the name mapped to the new last handle |
| Client.XPlaneUdp.AddScalarRecord | include/XPlaneUDP.cpp:118-125 | a new scalar record occupies the allocator's slot, its request is sent, and earlier records are untouched |
| Client.XPlaneUdp.AddDatarefArray | include/XPlaneUDP.cpp:134-150 | a known name returns its handle and changes nothing; otherwise `length` slots are claimed, an array record of that width appended, one `RREF` per element sent and the name mapped |
| Client.XPlaneUdp.AddArrayRecord | include/XPlaneUDP.cpp:139-149 | a new array record covers exactly its claimed run, with one request per element |
| Client.XPlaneUdp.SendArrayRequests | include/XPlaneUDP.cpp:141-147 | element i is subscribed as `name[i]` at slot start + i, in order |
| Client.XPlaneUdp.GetDataref | include/XPlaneUDP.cpp:159-166 | corrected: a disabled handle yields the default and false; an enabled one yields its own slot's value and true |
| Client.XPlaneUdp.GetDatarefInto | include/XPlaneUDP.hpp:205-216 | the first min(width, size) cells get the default (disabled) or the record's register cells (enabled); later cells are untouched; returns availability |
| Client.XPlaneUdp.ChangeDatarefFreq | include/XPlaneUDP.cpp:173-205 | zero disables an enabled record and clears exactly its slots (a no-op when disabled); non-zero re-enables a disabled record on a fresh claim of the same width, keeps an enabled one in place, and sends its requests with a float frequency; the stored frequency never changes |
| Client.XPlaneUdp.SendFreqRequests | include/XPlaneUDP.cpp:190-203 | a scalar is resubscribed once at its `int` slot; element i of an array as `name[i]` at the `size_t` slot start + i |
| Client.XPlaneUdp.SetDataref | include/XPlaneUDP.cpp:213-219 | one `DREF` request with the value and the scalar name |
| Client.XPlaneUdp.SetDatarefArray | include/XPlaneUDP.hpp:223-231 | one `DREF` per element i: the value then `name[i]` then NUL, in order |
| Client.XPlaneUdp.AddPlaneInfo | include/XPlaneUDP.cpp:225-232 | the info frequency is stored and the `RPOS` sentence sent |
| Client.XPlaneUdp.GetPlaneInfo | include/XPlaneUDP.cpp:237-239 | yields the last accepted PlaneInfo |
| Client.XPlaneUdp.Reconnect | include/XPlaneUDP.cpp:77-97 | re-sends each enabled record's slots with its stored frequency, then the info sentence (0 when deleting) if info was subscribed |
| Client.XPlaneUdp.SendReplayAll | include/XPlaneUDP.cpp:79-89 | disabled records are skipped; enabled ones are replayed in list order |
| Client.XPlaneUdp.SendRecordReplay | include/XPlaneUDP.cpp:82-88 | slots start..end are replayed in order, each with an `int` index and its element name |
| Client.XPlaneUdp.Close | include/XPlaneUDP.cpp:102-104 | `close` is `reconnect(true)` |
| Client.XPlaneUdp.SetState | include/XPlaneUDP.cpp:245-253 | no change of state changes nothing; a change stores it, replays first only on a rising edge with auto-reconnect, then notifies the callback once if set |
| Client.XPlaneUdp.BeaconTimeout | include/XPlaneUDP.cpp:297-301 | the liveness timer lowers the state, notifying only on a falling edge |
| Client.XPlaneUdp.ReceiveValues | include/XPlaneUDP.cpp:350-358 | every 8-byte `(int, float)` record from byte 5 is stored in order |
| Client.XPlaneUdp.ReceiveBeacon | include/XPlaneUDP.cpp:363-377 | the first beacon sets the peer to the sender and its announced port and opens the socket; every beacon raises the state |
| Client.XPlaneUdp.Dispatch | include/XPlaneUDP.cpp:348-377 | the branch taken by tag and length gates, and an early return exactly when the datagram is ignored |
| Client.XPlaneUdp.ReceiveDataProcess | include/XPlaneUDP.cpp:346-380 | short or mis-sized datagrams change nothing; values, info or beacon are handled by tag; every other datagram has its first `size` bytes erased; the invariant holds |
| StringProcess.Join | src/tools/stringProcess.hpp:22-43 | the result is the elements in order with one separator between neighbours; its length is the precomputed total; empty range gives "" |
| StringProcess.JoinedShort | src/tools/stringProcess.hpp:24-41 | an empty range joins to "" and a single element to itself, with no separator |
| StringProcess.JoinedLength | src/tools/stringProcess.hpp:28-34 | the length is the sum of the element lengths plus one separator per gap |
| StringProcess.JoinedCons | src/tools/stringProcess.hpp:38-41 | joining a head with a non-empty rest is head, separator, then the rest joined |
| StringProcess.JoinedStartsWithFirst | src/tools/stringProcess.hpp:37 | the result begins with the first element |

## Left out

- Sockets, coroutines, the worker thread and the multicast setup are not modelled (`include/XPlaneUDP.cpp:38-64, 291-340`). `sendData` becomes a trace entry guarded by `socketOpen`. The receive loop is the `ReceiveDataProcess` call with the datagram as a parameter.
- The sender address becomes a natural-number parameter of the beacon branch.
- The liveness timer becomes the `BeaconTimeout` call. Its race with an arriving beacon is a concurrency matter, so it is left out.
- `BufferPool` is reduced to "a fresh buffer is 1472 zero bytes" (`Protocol.Datagram`). Allocation and recycling are memory management.
- `std::cerr` diagnostics on a duplicate registration have no state to model.
- Float semantics are left out. Values, frequencies and PlaneInfo fields are bit patterns. A frequency of `+0.0` or `-0.0` counts as zero, and any other pattern (NaN too) counts as non-zero.
- Native byte order is fixed as little-endian.
- The user's callback is a `Notified` trace entry. What the callback itself does is the caller's code.
- Protocol.Datagram: cuts a payload longer than the frame to the sent length. The source's `memcpy` would overrun the 1472-byte buffer for a packed payload longer than 1472 bytes, and that overrun is not modelled.
- Codec.Pack: requires that the packed fields fit the buffer. The source does not check this, and an overrun is undefined behaviour.
- Client.XPlaneUdp.ReceiveValues: a record whose index lies outside the register bank is ignored. The source writes `values[index]` unchecked, which is undefined behaviour.
- Client.XPlaneUdp.AddDatarefArray: requires `length >= 1`. In the source a zero length gives a record with `end < start`, and a negative one converts to a huge `size_t` in `findSpace`; neither is a registration the model admits.
- Client.XPlaneUdp.ExtendSpace: models the corrected growth (see Findings), so the register bank always covers the bit-vector.
- Client.XPlaneUdp.FindSpace: models the corrected reuse path (see Findings). The as-written path is `Slots.SetAsWritten`.
- Client.XPlaneUdp.GetDataref: models the corrected read of the record's own slot (see Findings).
- Client.XPlaneUdp.SetDatarefArray: every element is packed as a 4-byte `float`. The template packs `sizeof` of the container's element, so a container of `double` would send 8-byte values; that case is not modelled.
- Integer widths of `int` handles and slot indices are unbounded. Only the packed field widths (`int` as 4 bytes, `size_t` as 8 bytes, `float` as 4 bytes) are modelled.

## Findings

| source | as written | input that shows it | evidently intended | confidence | as-written member | corrected member |
|---|---|---|---|---|---|---|
| include/XPlaneUDP.cpp:268 | `space.set(start, start + length, true)` passes an end where `dynamic_bitset::set` takes a length, so `start + length` bits are set; when `2 * start + length` exceeds the vector's size (bits `[1,0]`, `findSpace(1)` calls `set(1, 2, true)`) it also breaks `set`'s precondition `pos + len <= size()`, a case `Slots.SetAsWritten` excludes by its requires | slot 0 taken, slots 1 and 2 free, `findSpace(1)`: slots 1 and 2 are both set, and slot 2 stays occupied with no owner | set exactly `length` bits from `start`, as line 180 does when releasing | not executed | Slots.SetAsWrittenExample | Client.XPlaneUdp.FindSpace |
| include/XPlaneUDP.cpp:284 | the bound `space.size() - values.size()` is re-read while `values` grows and `i` counts up, so only half the deficit, rounded up, is appended | the first `addDatarefArray(name, 2)` grows the bit-vector to 2 and the register bank only to 1; a value for slot 1 then writes past the bank | grow the register bank to the bit-vector's size | not executed | Slots.ExtendSpaceAsWrittenExample | Client.XPlaneUdp.ExtendSpace |
| include/XPlaneUDP.cpp:164 | the scalar `getDataref` reads `values[dataref.idx]`, the handle, where the container overload reads from `ref.start` | a three-slot array (handle 0, slots 0..2), then a scalar (handle 1, slot 3): reading handle 1 returns slot 1's value | read `values[ref.start]` | not executed | Client.GetDatarefAsWrittenReadsWrongSlot | Client.XPlaneUdp.GetDataref |
