# multicast_demo: operation tracker and checksummed frames

`node/bin/multicast_demo.js` is a small UDP chat demo. It is built from two
self-contained pieces, and this project models and proves both of them.

- **`Oper`** is a tracker of outstanding operations, modelled in
  `oper.dfy` (module `Operations`).
  - Each `add` draws the next id from a cyclic cursor over `[0, max)`.
  - The operation is stored in `ops` under that id, with a deadline
    `now + timeout`.
  - It leaves `ops` when `finish` is called with its id, or when the timeout
    sweep finds its deadline passed.
  - A single timer is kept armed for the earliest live deadline.
  - The model is a class with the source's own fields (`id`, `ops`,
    `nextTime`, `timer`) and methods (`NextId`, `UpdateTimer`, `Add`,
    `Finish`, `OnTimeout`), plus a `log` of every callback invocation.
  - The clock is a `now` parameter of each call that reads it. Setting a
    timer is recorded as the `Timer` it arms: when it was set and when it
    fires.
- **`FrameRW`** is the datagram layout, modelled in `frame.dfy`:
  - a one-byte type tag;
  - the body the tag selects from `BodyCases` (only type 1, a `str2`
    message);
  - `ChecksumPrior`, a big-endian CRC-32C of every byte before it
    (`checksum.dfy`).

  The byte-level readers and writers of the `bufrw` library are modelled by
  the layouts they produce (`wire.dfy`). CRC-32C is given its bitwise
  definition from section 12.1 of RFC 3720 (`crc32c.dfy`), which is pinned
  to the standard by its check value.
  - Buffers are sequences of the integer type `byte` (0 to 255, `bytes.dfy`).
  - The checksum is a `uint32`.
  - Writing the checksum in place works on an `array<byte>`.

Main results:

- **The sweep.** After `OnTimeout(now)`, `ops` holds exactly the operations
  whose deadline is not strictly before `now`. The callbacks logged report
  exactly the expired operations, each once, in ascending id order
  (`SweepCompletesExpired`). `nextTime` is the earliest surviving deadline,
  and the timer is re-armed with it.
- **Invariants kept by `NextId`, `Add`, `Finish` and `OnTimeout`**
  (`Oper.Valid`). `UpdateTimer` is their helper. It is called only with a
  new operation's deadline (`multicast_demo.js` line 43) or with the
  sweep's minimum (line 80), and it does not keep the invariant on its own.
  - every key of `ops` is the id of the operation stored under it;
  - live ids lie in `[0, max)`;
  - `nextTime` is the minimum live deadline, or `Infinity` when none is live;
  - the last timer set belongs to `nextTime`.
- **Frames.**
  - Encoding then decoding gives back the tag and the message
    (`RoundTrip`).
  - Every buffer that decodes is the encoding of what it decodes to
    (`DecodeThenEncode`).
  - Any single changed byte of an encoded frame is rejected
    (`SingleByteErrorDetected`). A changed tag is reported as an unknown
    tag. A changed message or checksum byte is reported as a checksum
    mismatch ranged over the last four bytes. The last case follows from
    the fact that replacing one byte of the input changes CRC-32C
    (`ByteChangeChangesCrc`).

Behaviour of the code worth knowing, all reproduced by the model:

- **First id.** The cursor is advanced before it is used, so the first id is
  `1 % max`. With `max = 4`, four adds get ids 1, 2, 3 and 0.
- **No probing.** A refused `add` still moves the cursor, and the cursor
  never looks for a free id. With `max = 4` and four live operations, a
  fifth add fails on id 1. After `finish` frees id 1, the next add moves on
  to id 2, which is still live, so it fails too.
- **Strict expiry.** An operation at its exact deadline is not expired.
- **`updateTimer(Infinity)` does nothing.** When a sweep leaves nothing
  live, `nextTime` becomes `Infinity`, and the timer set earlier is left
  armed.
- **No configuration checks.** The code validates neither `timeout` nor
  type registrations:
  - any integer timeout is accepted;
  - there is no error for a duplicate body type.
- **Encoding ignores the frame's `checksum` field** and writes the computed
  CRC instead.
- **Tag checked first.** An unknown tag stops both encoding and decoding
  before the body or the checksum is looked at.
- **Trailing bytes.** A datagram with bytes after a valid frame fails
  decoding with a short-read error. This happens because `fromBufferResult`
  requires the whole buffer to be consumed.

## Model

| member | source | states |
|---|---|---|
| Operations.Oper.constructor | node/bin/multicast_demo.js:5-14 | a new tracker has cursor 0, no operations, `nextTime` Infinity and no timer, and is valid |
| Operations.Oper.NextId | node/bin/multicast_demo.js:47-51 | the cursor becomes `(id + 1) % max` and is returned; it lies in `[0, max)`; nothing else changes; validity is kept |
| Operations.Oper.UpdateTimer | node/bin/multicast_demo.js:53-64 | only a time strictly before `nextTime` is taken: it becomes `nextTime` and a timer is set at `now` to fire at `now + max(0, t - now)`; otherwise nothing changes; `nextTime` is never raised |
| Operations.Oper.Add | node/bin/multicast_demo.js:28-45 | the cursor always advances; if the id is live, the callback is told Duplicate and `ops`, `nextTime` and the timer are unchanged; otherwise exactly one entry `ops[id] = {id, start: now, finish: 0, deadline: now + timeout}` is added and `nextTime` becomes the earlier of the old one and the new deadline, re-arming the timer only if that deadline is strictly earlier; validity is kept |
| Operations.Oper.Finish | node/bin/multicast_demo.js:16-26 | an id that is not live changes nothing and logs nothing; a live id is removed, its callback is logged once with `(err, op with finish = now, result)`, and the sweep of the remaining operations follows: `ops` becomes the survivors, the timer is re-armed at `now` for the new earliest deadline or left as it was when nothing survives; validity is kept |
| Operations.Oper.OnTimeout | node/bin/multicast_demo.js:66-81 | `ops` becomes the operations whose deadline is not before `now`; the log grows by the timed-out callbacks in `Object.keys` order; `nextTime` is the earliest surviving deadline (validity) and the timer is re-armed for exactly that time, or left as it was when nothing survives |
| Operations.Oper.SweepExpired | node/bin/multicast_demo.js:68-79 | the loop of `onTimeout` leaves exactly the operations not yet expired, logs the sweep over the live ids in ascending order, and returns the earliest surviving deadline (`Infinity` when none survives); cursor, timer and `nextTime` are untouched |
| Operations.Oper.SweepStep | node/bin/multicast_demo.js:71-78 | one turn of the sweep loop: an expired operation is removed and logged, a live one folds its deadline into the running minimum |
| Operations.SweepCompletesExpired | node/bin/multicast_demo.js:68-76 | the operations reported by a sweep over the keys are exactly the expired ones, in ascending id order, hence each once |
| Operations.KeysBelowMembers | node/bin/multicast_demo.js:68 | `Object.keys` of the tracker's ids lists exactly the live ids |
| Operations.KeysBelowAscending | node/bin/multicast_demo.js:68 | the ids are listed in strictly ascending order |
| Operations.KeysBelowOnce | node/bin/multicast_demo.js:68-72 | no id is visited twice by the sweep |
| Operations.MinDeadlineInsert | node/bin/multicast_demo.js:43-56 | adding an operation makes the earliest deadline the earlier of the old earliest and the new operation's (what `updateTimer(deadline)` keeps) |
| Operations.MinDeadlineUnique | node/bin/multicast_demo.js:69-80 | the earliest deadline of a set of operations is unique, so `nextTime` is determined by `ops` |
| Operations.Earlier | node/bin/multicast_demo.js:77 | `Math.min` on times: one of the two arguments, and neither is strictly before it |
| Crc32c.Crc32c | node/bin/multicast_demo.js:85 | the CRC of the empty string is 0; the check value, injectivity and single-byte detection are stated by the lemmas below |
| Crc32c.CheckValue | node/bin/multicast_demo.js:85 | CRC-32C of "123456789" is 0xE3069283, the catalogued check value |
| Crc32c.ByteChangeChangesCrc | node/bin/multicast_demo.js:85 | replacing any one byte of the input by a different byte changes the CRC |
| Crc32c.RegisterInjective | node/bin/multicast_demo.js:85 | two different CRC registers that absorb the same bytes stay different |
| Crc32c.RegisterAppend | node/bin/multicast_demo.js:85 | the CRC register of a concatenation continues from the register of the first part |
| Wire.BE16 | node/bin/multicast_demo.js:125-127 | a 16-bit length is written as two bytes; `FromBE16OfBE16` and `BE16Of` show it is the inverse of reading them |
| Wire.FromBE16OfBE16 | node/bin/multicast_demo.js:125-127 | reading back the two bytes of a length gives the length |
| Wire.BE32 | node/bin/multicast_demo.js:95-98 | a 32-bit value is written as four bytes; `FromBE32OfBE32` and `BE32Of` show it is the inverse of reading them |
| Wire.FromBE32OfBE32 | node/bin/multicast_demo.js:95-98 | reading back the four bytes of a value gives the value |
| Wire.BE32Of | node/bin/multicast_demo.js:98 | any four bytes are the encoding of the value they read as |
| Wire.Str2 | node/bin/multicast_demo.js:125-127 | a `str2` field is the message preceded by two length bytes |
| Wire.ReadUInt8 | node/bin/multicast_demo.js:115 | reads exactly when a byte is left, returning that byte and the next offset; otherwise a short-buffer error at the offset |
| Wire.ReadUInt16BE | node/bin/multicast_demo.js:125-127 | reads exactly when two bytes are left, returning their big-endian value and the offset after them; otherwise a short-buffer error |
| Wire.ReadUInt32BE | node/bin/multicast_demo.js:98 | reads exactly when four bytes are left; the value's big-endian encoding is the four bytes read; otherwise a short-buffer error |
| Wire.ReadStr2 | node/bin/multicast_demo.js:125-127 | a successful read consumes the 2-byte length and that many bytes, and returns those bytes |
| Wire.ReadUInt32BEOfBE32 | node/bin/multicast_demo.js:95-98 | reading back four written bytes gives the value written and the offset after it |
| Wire.ReadStr2OfStr2 | node/bin/multicast_demo.js:125-127 | reading back a written `str2` field gives the message and the offset after it |
| Wire.BE32Injective | node/bin/multicast_demo.js:95-102 | two values with the same four-byte encoding are equal |
| Wire.BE16Of | node/bin/multicast_demo.js:125-127 | every pair of length bytes is the encoding of the length it reads as |
| Wire.Str2At | node/bin/multicast_demo.js:125-127 | the bytes a successful `str2` read consumed are the encoding of what it returned |
| Wire.Put32 | node/bin/multicast_demo.js:95 | the four bytes at the offset become the value's encoding and no other byte changes |
| Wire.WriteUInt32BE | node/bin/multicast_demo.js:95 | a field that does not fit is a short-buffer error and nothing is written; otherwise the buffer becomes `Put32` of the old one |
| Checksum.ByteLength | node/bin/multicast_demo.js:90-92 | the field is exactly as wide as a 32-bit big-endian integer |
| Checksum.ReadFrom | node/bin/multicast_demo.js:97-109 | a successful read ends four bytes after the offset, inside the buffer; `ReadFromAccepts`, `OnlyMismatch` and `ShortBufferPassesThrough` give when it succeeds and how it fails |
| Checksum.Stamp | node/bin/multicast_demo.js:93-96 | the buffer after `writeInto`: same length, with the big-endian prefix CRC in the four bytes at the offset |
| Checksum.WriteInto | node/bin/multicast_demo.js:93-96 | writes the CRC-32C of `buffer[0..offset)` big-endian at `offset` and reports the offset four bytes on; a field that does not fit fails and leaves the buffer unchanged |
| Checksum.WriteThenRead | node/bin/multicast_demo.js:89-109 | after writing the checksum, only its four bytes changed, and reading it at the same offset succeeds with the prefix CRC and end offset `offset + 4` |
| Checksum.StampAfter | node/bin/multicast_demo.js:93-96 | stamping the four bytes after a prefix appends that prefix's CRC |
| Checksum.ShortBufferPassesThrough | node/bin/multicast_demo.js:98-99 | a field that does not fit is reported as the short-buffer error of the 32-bit read, without any comparison |
| Checksum.ReadFromAccepts | node/bin/multicast_demo.js:97-109 | the field reads successfully if and only if it fits and holds the big-endian prefix CRC; the value read is that CRC |
| Checksum.OnlyMismatch | node/bin/multicast_demo.js:98-108 | where the field fits, the only failure is a checksum mismatch ranged over `[offset, offset + 4)` |
| Checksum.MismatchIsRanged | node/bin/multicast_demo.js:101-105 | any other four bytes give a mismatch over `[offset, offset + 4)` naming the stored value and the recomputed CRC |
| FrameRW.Prefix | node/bin/multicast_demo.js:112-127 | the bytes before the checksum have length `3 + |msg|`, start with the tag and end with the message |
| FrameRW.ReadFrom | node/bin/multicast_demo.js:114-127 | a successful read has a registered tag and ends inside the buffer, seven bytes plus the message after the offset |
| FrameRW.Encode | node/bin/multicast_demo.js:112-127 | `toBufferResult` succeeds exactly for a registered tag and a message of at most 65535 bytes, giving seven bytes more than the message; `EncodeLayout` gives the bytes |
| FrameRW.Decode | node/bin/multicast_demo.js:112-127 | `fromBufferResult` accepts only a buffer exactly as long as the frame it reads, with a registered tag; `DecodedLayout` and `DecodeThenEncode` give the bytes |
| FrameRW.ToBuffer | node/bin/multicast_demo.js:93-127 | writing the tag and body into a fresh buffer and then stamping the checksum in place gives exactly `Encode` |
| FrameRW.WritePrefix | node/bin/multicast_demo.js:114-127 | the first `3 + |msg|` bytes of the buffer become the tag, the length and the message, and the bytes after them are left as they were |
| FrameRW.EncodeFails | node/bin/multicast_demo.js:115-127 | encoding fails exactly for an unregistered tag (reported first) or a message longer than 65535 bytes |
| FrameRW.EncodeLayout | node/bin/multicast_demo.js:112-127 | an encoded frame is the tag, the 16-bit length, the message, then the CRC-32C of everything before it |
| FrameRW.RoundTrip | node/bin/multicast_demo.js:112-127 | encoding then decoding gives back the tag and the message, with the checksum field holding the CRC of the bytes before it |
| FrameRW.DecodeThenEncode | node/bin/multicast_demo.js:112-127 | every buffer that decodes is the encoding of the decoded frame, and its checksum is the CRC of the rest |
| FrameRW.DecodedLayout | node/bin/multicast_demo.js:112-127 | a buffer that decodes is laid out as a type-1 frame whose checksum field holds the prefix CRC |
| FrameRW.DecodeLaidOut | node/bin/multicast_demo.js:112-127 | a buffer laid out as a type-1 frame with the right checksum decodes to its message |
| FrameRW.DecodeEmpty | node/bin/multicast_demo.js:115 | an empty buffer is a short-buffer error for the tag |
| FrameRW.DecodeUnknownTag | node/bin/multicast_demo.js:115-119 | any tag but 1 is rejected as an invalid switch value, before the body and checksum are read |
| FrameRW.DecodeTrailing | node/bin/multicast_demo.js:112-127 | bytes after a valid frame give a short-read error at the end of the frame |
| FrameRW.TagCorrupted | node/bin/multicast_demo.js:115-119 | a changed tag byte is reported as an unknown tag |
| FrameRW.LengthCorrupted | node/bin/multicast_demo.js:125-127 | a changed length byte makes the decode fail |
| FrameRW.PayloadCorrupted | node/bin/multicast_demo.js:97-109 | a changed message or checksum byte is a checksum mismatch over the last four bytes |
| FrameRW.SingleByteErrorDetected | node/bin/multicast_demo.js:89-127 | every single-byte change of an encoded frame fails to decode |

## Left out

- The main program (lines 129-209) is not modelled: the UDP socket,
  argument parsing, reading stdin and printing to the console are I/O.
  Its use of the codec is modelled by `FrameRW.Encode` (`toBufferResult`)
  and `FrameRW.Decode` (`fromBufferResult`).
- The internals of `bufrw` and `sse4_crc32` are foreign libraries, so only
  their observable layout is modelled. Error messages are not modelled:
  errors are a datatype carrying the values they report.
- CRC-32C is its bitwise definition, not the library's table or hardware
  implementation.
- Clocks and timers: `Date.now`, `setTimeout` and `clearTimeout` are not
  modelled.
  - Each call takes a single `now`. The source reads the clock anew for
    every operation it looks at in a sweep.
  - Setting a timer is recorded in `timer`; its firing is a call of
    `OnTimeout` by the environment.
- Callbacks are recorded in `log` and do not run code. A callback that
  calls back into `add` or `finish` during a sweep is not modelled.
- The `send` function the tracker is given is stored by the source and
  never used, so it is not modelled.
- Operations.Oper.constructor: requires `0 < max`, so the tracker is not
  modelled for the other values the source accepts without complaint.
  - With `max` zero, `(id + 1) % 0` is `NaN`, and the cursor stays `NaN`
    from then on. The first `add` stores its operation under the key
    `"NaN"`. Every later `add` reports a duplicate until `finish(NaN)` or a
    timeout removes it. No integer id models that key.
  - With a negative `max`, JavaScript's `%` keeps the sign of the
    non-negative dividend. The ids then cycle over `[0, -max)` as they would
    for `-max`. The model does not include this configuration.
- Numbers are unbounded integers. The source's times and ids are
  JavaScript doubles, which are exact over the range a clock in
  milliseconds reaches.
- UTF-8 validity of the message is not modelled. The payload is raw bytes,
  and `Encode` takes the message as bytes.
- `Object.keys` is modelled as ascending key order. This is the order
  JavaScript uses for array-index keys, which are the integers below
  2^32 - 1, so the model matches the source for `max` up to 2^32 - 1.
  Larger keys are listed in insertion order. The order only affects the
  order of the timed-out callbacks in `log`.
- `node/examples/send_test.js` and `node/benchmarks/bench_server.js` are
  drivers over the network channel, with no logic of their own, and are
  not modelled.
