# fake-ntpd: the request path, modelled in Dafny

fake-ntpd is a deliberately wrong NTPv4 server. It answers client queries
with a simulated clock that starts at the real time and then runs ahead:
every half second it jumps 10 simulated seconds, or 30 in fast mode. This
project models its core, `fntpd-service.c`:

- **Request check** (`base_check`). Byte 0 of a request must carry mode 3
  (client) and version 4. Otherwise the result is 1 (not a client) or
  2 (wrong version).
- **Reply builder** (`prepare_reply`). It fills the 48-byte send buffer in
  place, one byte or one 32-bit word at a time. Byte 0 is `(req[0] & 0x38) + 4`.
  The other fields are:
  - stratum 1, the request's poll, and precision -6;
  - zero root delay and root dispersion;
  - the reference identifier "LOCL";
  - the reference timestamp, which is the clock less 60 seconds;
  - the origin timestamp, copied raw from request bytes 40-47;
  - the receive timestamp;
  - the transmit timestamp, which is the clock.

  Every converted word goes out most significant byte first.
- **Simulated clock** (`get_fake_time64_le` and the loop of `fake_clock`).
  A `long` counter starts at the wall clock plus 2208988800. Each tick adds
  `10 * speed` and publishes the counter, truncated to 32 bits, as the seconds
  word of a shared pair whose fraction word is always 0.
- **One pass of the service loop** (`ntp_service`). The receive buffer is
  zeroed and a datagram is received into it. A rejected request is answered
  with the three bytes "ERR". An accepted one gets the 48-byte reply.

The modules are:

- `Bits` (bits.dfy): the bit view of a byte used by the C masks and shifts.
- `Wire` (wire.dfy): `byte`, `uint32`, wrapping subtraction, network byte
  order (`BE32` is a `htonl` store, `FromBE32` the matching load), and the
  8-byte timestamp.
- `Clock` (clock.dfy): the clock thread as the class `FakeClock`. Its field
  `secs` is the thread's counter, and its array `timeStamp` is the shared
  `time_stamp[2]`.
- `Packet` (packet.dfy): the header of Figure 8 of RFC 5905 as a datatype
  with an encoder and decoder, and `BaseCheck`. It also holds the reply's
  specification `ReplyBytes` and the in-place method `PrepareReply`, which
  writes an `array<byte>` the way the C code does. That includes storing the
  reference identifier before bytes 2 and 3.
- `Service` (service.dfy): the request buffer `RequestBuffer` and the answer
  `Respond`, plus the class `Server`. `Server` keeps the loop's buffers
  between passes, and its `Serve` method runs one pass.

`PrepareReply` is proved to leave exactly `ReplyBytes(request, receive time,
clock)` in the send buffer. It writes all 48 bytes, so nothing from an
earlier pass survives. `ReplyBytes` is the encoding of a `Header` value. The
layout and round-trip lemmas tie that value to the bytes and the bytes back to
the value.

Until the clock's first tick, the shared seconds word is still 0. A request
answered in that window gets transmit time 0 and reference time 2^32 - 60
(`Service.ReplyBeforeFirstTick`).

## Model

| member | source | states |
|---|---|---|
| Wire.Sub32 | fntpd-service.c:170 | `uint32_t` subtraction: the difference when it is not negative, otherwise the difference plus 2^32 |
| Wire.FromBE32OfBE32 | fntpd-service.c:153 | a word stored with `htonl` in network byte order loads back as the same word |
| Wire.BE32OfFromBE32 | fntpd-service.c:176-177 | any four bytes read as a network-order word and stored back are the same four bytes |
| Wire.TimestampOfBytes | fntpd-service.c:180-181 | a timestamp written as two network-order words decodes back to the same timestamp |
| Wire.BytesOfTimestamp | fntpd-service.c:176-177 | any 8 bytes decoded as a timestamp and re-encoded are the same 8 bytes |
| Clock.Step | fntpd-service.c:298 | one tick adds 10 seconds at normal speed (1) and 30 in fast mode (3) |
| Clock.Truncate32 | fntpd-service.c:299 | the stored `uint32_t` differs from the `long` counter by a multiple of 2^32, and equals it when it fits in 32 bits |
| Clock.TruncateAdd | fntpd-service.c:298-299 | after adding `d` to the `long` counter, the published 32-bit seconds move by `d` modulo 2^32 |
| Clock.TruncateMonotone | fntpd-service.c:299 | within one 2^32-second era, truncation keeps order and differences |
| Clock.CounterAfterIsLinear | fntpd-service.c:297-298 | after `n` ticks the counter equals its start plus `n` steps |
| Clock.ReadsNeverDecrease | fntpd-service.c:297-300 | a later tick never publishes fewer seconds than an earlier one while the counter stays in one era |
| Clock.FakeClock.constructor | fntpd-service.c:293-294 | the counter starts at the wall clock plus 2208988800, and the shared pair reads (0, 0) |
| Clock.FakeClock.Read | fntpd-service.c:78-82 | a read of the shared pair always has fraction 0 |
| Clock.FakeClock.ReadInto | fntpd-service.c:78-82 | the caller's pair receives the shared seconds word and a zero fraction |
| Clock.FakeClock.Tick | fntpd-service.c:297-300 | the counter grows by `10 * speed`; the published seconds are the new counter modulo 2^32; the fraction stays 0; after the first tick, the new reading is the old one plus the step modulo 2^32 and is larger unless it wraps (the first tick replaces the zero-initialised pair with the truncated counter) |
| Packet.SignedChar | fntpd-service.c:158 | `(signed char)x` stored in an unsigned byte reads back as `x` when taken as signed |
| Packet.UnpackPack | fntpd-service.c:198-203 | the leap, version and mode fields packed into byte 0 unpack to the same values |
| Packet.MaskReadsMode | fntpd-service.c:214 | `byte0 & 7` is the mode field |
| Packet.MaskReadsVersion | fntpd-service.c:219 | `(byte0 >> 3) & 7` is the version field |
| Packet.BaseCheck | fntpd-service.c:192-224 | 0 exactly when mode is 3 and version is 4; 1 exactly when mode is not 3, whatever the version; 2 exactly when mode is 3 and version is not 4 |
| Packet.BaseCheckIgnoresLeap | fntpd-service.c:214-223 | changing the leap-indicator bits never changes the check's result |
| Packet.BaseCheckExamples | fntpd-service.c:214-223 | 0x00 gives 1; 0x23 and 0xE3 give 0; 0x1B gives 2 |
| Packet.EncodeLayout | fntpd-service.c:141-190 | each header field sits at its RFC 5905 offset (0, 1, 2, 3, 4, 8, 12, 16, 24, 32, 40) in network byte order |
| Packet.DecodeEncode | fntpd-service.c:141-190 | decoding an encoded header gives back every field |
| Packet.EncodeDecode | fntpd-service.c:141-190 | re-encoding a decoded 48-byte packet gives back every byte |
| Packet.ReplyByte0 | fntpd-service.c:147 | `(req[0] & 0x38) + 4` is leap 0, the request's version and mode 4 |
| Packet.ConstantWords | fntpd-service.c:153-166 | the zero words, "LOCL" as 0x4C 0x4F 0x43 0x4C, and precision byte 0xFA |
| Packet.ReplyHeadLayout | fntpd-service.c:147-166 | reply bytes 0-15 are `(req[0] & 0x38) + 4`, 1, req[2], 0xFA, eight zeros, and "LOCL" |
| Packet.ReplyTimesLayout | fntpd-service.c:168-187 | reply bytes 16-47 are: the clock less 60 modulo 2^32, subtracted before the byte swap; four zeros; request bytes 40-47 unchanged; the receive timestamp; the clock; four zeros |
| Packet.ReplyLayout | fntpd-service.c:141-190 | a 48-byte buffer is the reply exactly when its bytes satisfy both layouts |
| Packet.ReplyDependsOnly | fntpd-service.c:141-190 | requests that agree in bytes 0, 2 and 40-47 get the same reply |
| Packet.ReplyDecodes | fntpd-service.c:141-190 | a client decodes the reply as a stratum-1 server packet from "LOCL" with precision -6, the request's version and poll, origin = the request's transmit timestamp, reference = clock - 60, and the given receive timestamp and transmit = (clock, 0) |
| Packet.AcceptedReplyByte0 | fntpd-service.c:147 | reply byte 0 is 0x24 for every request the check accepts |
| Packet.Store32 | fntpd-service.c:153 | a 32-bit store writes its four bytes at the offset and leaves every other byte unchanged |
| Packet.WriteHead | fntpd-service.c:146-158 | after the first writes, bytes 0-3 and 12-15 hold the reply's head and "LOCL", and bytes 4-11 and 16-47 are unchanged |
| Packet.PrepareReply | fntpd-service.c:141-190 | returns 0 and leaves the send buffer equal to the encoded reply for the request, the receive pair and the clock |
| Packet.PrepareReplyWalk | fntpd-service.c:160-187 | the word stores from byte 4 on, applied in the C code's order, build exactly the encoded reply |
| Service.RequestBuffer | fntpd-service.c:252-256 | the receive buffer holds the datagram's first 48 bytes and zeros after them |
| Service.Respond | fntpd-service.c:262-272 | the answer is "ERR" exactly when the check rejects the request, and 48 bytes long exactly when it accepts |
| Service.AcceptedReply | fntpd-service.c:262-272 | an accepted request gets a 48-byte reply with byte 0 = 0x24, laid out as above, with receive time = transmit time = the clock |
| Service.EmptyDatagramRejected | fntpd-service.c:252-265 | an empty datagram leaves a zeroed buffer (mode 0), and the answer is "ERR" |
| Service.EndToEnd | fntpd-service.c:262-272 | a version-4 client request with transmit time 100, answered at clock 1000, gets origin 100, reference 940, receive and transmit 1000, stratum 1, precision -6 and refid "LOCL" |
| Service.ReplyBeforeFirstTick | fntpd-service.c:169-170 | before the first tick the reference seconds wrap to 2^32 - 60 and the transmit seconds are 0 |
| Service.Server.Receive | fntpd-service.c:252-256 | the receive buffer is zeroed and then overwritten with at most 48 datagram bytes |
| Service.Server.Serve | fntpd-service.c:251-279 | one pass answers exactly `Respond` of the received buffer at the current clock reading; a rejected request leaves the send buffer and the receive-time pair untouched; an accepted one leaves the reply in the send buffer and (clock, 0) in the receive-time pair |

## Left out

- Sockets are not modelled: `socket`, `bind`, `getpeername`, `sendto` and the `perror`/`exit` paths are OS I/O. A received datagram is a parameter, and the answer is a return value. A failed `recvfrom` looks like an empty datagram.
- `log_request`, `dump_data` and `dec_to_bin`, the `secs_log`/`new_time` logging mirror, and the reason `base_check` writes to stderr on each rejection, are not modelled. They only print text.
- `main` with its `getopt` parsing and thread start is not modelled. Its only effect on the core is `speed` in {1, 3}, which `FakeClock` takes as a constructor parameter.
- The clock thread's concurrency is not modelled. The model has no thread, no `usleep` and no `gettimeofday`: the wall-clock seconds are a parameter, and ticks and reads are sequential calls. A read that sees a torn or concurrent update cannot happen in the model. The two clock reads inside `prepare_reply`, and the one just before it in the loop, all see the same clock state.
- Clock.FakeClock.Tick: the counter is an unbounded integer, so the overflow of the signed 64-bit `long` is not modelled. Only its truncation to 32 bits is. The counter would need about 2^63 seconds to overflow.
- Packet.PrepareReply: the host-order words that `get_fake_time64_le(ptr)` leaves in the send buffer for a moment, before each `htonl`, are held in a local two-word array. Only the final bytes are written to the buffer. Host byte order therefore never shows in the model.
- Packet.PrepareReply: the unaligned `uint32_t *` casts into the byte buffers are modelled as four single-byte stores of the word's bytes.
- The time of day appears only as seconds. The fraction word the server sends is always 0.
