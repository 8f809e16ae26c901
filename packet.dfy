/** The NTPv4 packet header (section 7.3 of RFC 5905, Figure 8): the
    48-byte layout, the check the server applies to byte 0 of a request,
    and the reply it writes in place into its send buffer. */
module Packet {
  import opened Wire
  import opened Clock
  import opened Bits

  /** Size of the receive and send buffers: the NTP header without extensions. */
  const BUF_SIZ: int := 48

  const NTP_VERSION: int := 4
  /** Association modes of Figure 10 of RFC 5905: 3 is client, 4 is server. */
  const MODE_CLIENT: int := 3
  const MODE_SERVER: int := 4

  /** Mask of a three-bit field of byte 0. */
  const MASK_7B: bv8 := 0x7

  /** Stratum 1: a primary server. */
  const STRATUM_PRIMARY: byte := 1

  /** The reference identifier "LOCL" as a 32-bit word. */
  const REFID_LOCL: uint32 := 0x4C4F434C

  /** Seconds the reference timestamp lags the simulated clock. */
  const REFERENCE_LAG: uint32 := 60

  /** A leap indicator (two bits) and a version or mode (three bits). */
  type Leap = x: int | 0 <= x < 4
  type Field3 = x: int | 0 <= x < 8

  /** The header fields of Figure 8 of RFC 5905, in wire order. */
  datatype Header = Header(
    leap: Leap, version: Field3, mode: Field3,
    stratum: byte, poll: byte, precision: byte,
    rootDelay: uint32, rootDispersion: uint32, referenceId: uint32,
    reference: Timestamp, origin: Timestamp, receive: Timestamp, transmit: Timestamp)

  /** C's `(signed char)x` stored into an `unsigned char`: two's complement. */
  function SignedChar(x: int): (b: byte)
    requires -128 <= x < 128
    ensures AsSigned(b) == x
  {
    if x < 0 then (x + 0x100) as byte else x as byte
  }

  /** The value of a byte read as a `signed char`. */
  function AsSigned(b: byte): int {
    if b < 0x80 then b as int else b as int - 0x100
  }

  /** A precision of 2^-6 seconds. */
  const PRECISION: byte := SignedChar(-6)

  // ----- byte 0: leap indicator, version, mode -----

  function PackByte0(leap: Leap, version: Field3, mode: Field3): byte {
    (leap * 64 + version * 8 + mode) as byte
  }

  function LeapOf(b: byte): Leap {
    b as int / 64
  }

  function VersionOf(b: byte): Field3 {
    b as int / 8 % 8
  }

  function ModeOf(b: byte): Field3 {
    b as int % 8
  }

  lemma UnpackPack(leap: Leap, version: Field3, mode: Field3)
    ensures LeapOf(PackByte0(leap, version, mode)) == leap
    ensures VersionOf(PackByte0(leap, version, mode)) == version
    ensures ModeOf(PackByte0(leap, version, mode)) == mode
  {
    var n := leap * 64 + version * 8 + mode;
    DivideOut(leap * 8 + version, 8, mode);
    DivideOut(leap, 8, version);
    DivideOut(leap, 64, version * 8 + mode);
    assert n == (leap * 8 + version) * 8 + mode;
  }

  lemma PackUnpack(b: byte)
    ensures PackByte0(LeapOf(b), VersionOf(b), ModeOf(b)) == b
  {
  }

  /** The C masks `b & 7` and `(b >> 3) & 7` read the mode and version fields. */
  lemma MaskReadsMode(b: byte)
    ensures ((b as bv8) & MASK_7B) as int == ModeOf(b)
  {
    BitsOfByte(b as int);
    LowBits(b as bv8);
  }

  lemma MaskReadsVersion(b: byte)
    ensures (((b as bv8) >> 3) & MASK_7B) as int == VersionOf(b)
  {
    BitsOfByte(b as int);
    MiddleBits(b as bv8);
  }

  // ----- request validation -----

  /** 0 accepts a request; 1 rejects one whose mode is not client; 2 one
      from a client whose version is not 4. Bits 6-7 (leap) are not looked at. */
  function BaseCheck(byte0: byte): (r: int)
    ensures r == 0 <==> ModeOf(byte0) == MODE_CLIENT && VersionOf(byte0) == NTP_VERSION
    ensures r == 1 <==> ModeOf(byte0) != MODE_CLIENT
    ensures r == 2 <==> ModeOf(byte0) == MODE_CLIENT && VersionOf(byte0) != NTP_VERSION
  {
    MaskReadsMode(byte0);
    MaskReadsVersion(byte0);
    var bits := byte0 as bv8;
    if bits & MASK_7B != 0x3 then 1
    else if (bits >> 3) & MASK_7B != 0x4 then 2
    else 0
  }

  /** The leap indicator never changes the verdict. */
  lemma BaseCheckIgnoresLeap(b: byte, leap: Leap)
    ensures BaseCheck(PackByte0(leap, VersionOf(b), ModeOf(b))) == BaseCheck(b)
  {
    UnpackPack(leap, VersionOf(b), ModeOf(b));
  }

  /** Representative byte-0 values: a mode-0 byte, a client byte with and
      without leap bits, and a version-3 client byte. */
  lemma BaseCheckExamples()
    ensures BaseCheck(0x00) == 1
    ensures BaseCheck(0x23) == 0 && BaseCheck(0xE3) == 0
    ensures BaseCheck(0x1B) == 2
  {
  }

  // ----- the 48-byte wire format -----

  function Encode(h: Header): (r: seq<byte>)
    ensures |r| == BUF_SIZ
  {
    [PackByte0(h.leap, h.version, h.mode), h.stratum, h.poll, h.precision]
    + BE32(h.rootDelay) + BE32(h.rootDispersion) + BE32(h.referenceId)
    + TimestampBytes(h.reference) + TimestampBytes(h.origin)
    + TimestampBytes(h.receive) + TimestampBytes(h.transmit)
  }

  function Decode(b: seq<byte>): (h: Header)
    requires |b| == BUF_SIZ
  {
    Header(LeapOf(b[0]), VersionOf(b[0]), ModeOf(b[0]), b[1], b[2], b[3],
           FromBE32(b[4..8]), FromBE32(b[8..12]), FromBE32(b[12..16]),
           TimestampOf(b[16..24]), TimestampOf(b[24..32]),
           TimestampOf(b[32..40]), TimestampOf(b[40..48]))
  }

  /** Where each field of a header lands in its encoding. */
  lemma EncodeLayout(h: Header)
    ensures Encode(h)[0] == PackByte0(h.leap, h.version, h.mode)
    ensures Encode(h)[1] == h.stratum && Encode(h)[2] == h.poll && Encode(h)[3] == h.precision
    ensures Encode(h)[4..8] == BE32(h.rootDelay)
    ensures Encode(h)[8..12] == BE32(h.rootDispersion)
    ensures Encode(h)[12..16] == BE32(h.referenceId)
    ensures Encode(h)[16..24] == TimestampBytes(h.reference)
    ensures Encode(h)[24..32] == TimestampBytes(h.origin)
    ensures Encode(h)[32..40] == TimestampBytes(h.receive)
    ensures Encode(h)[40..48] == TimestampBytes(h.transmit)
  {
  }

  /** Two 48-byte buffers that agree field by field are equal. */
  lemma SameFields(s: seq<byte>, t: seq<byte>)
    requires |s| == BUF_SIZ && |t| == BUF_SIZ
    requires s[0] == t[0] && s[1] == t[1] && s[2] == t[2] && s[3] == t[3]
    requires s[4..8] == t[4..8] && s[8..12] == t[8..12] && s[12..16] == t[12..16]
    requires s[16..24] == t[16..24] && s[24..32] == t[24..32]
    requires s[32..40] == t[32..40] && s[40..48] == t[40..48]
    ensures s == t
  {
    forall i | 0 <= i < BUF_SIZ
      ensures s[i] == t[i]
    {
      if 4 <= i < 8 {
        assert s[i] == s[4..8][i - 4];
      } else if 8 <= i < 12 {
        assert s[i] == s[8..12][i - 8];
      } else if 12 <= i < 16 {
        assert s[i] == s[12..16][i - 12];
      } else if 16 <= i < 24 {
        assert s[i] == s[16..24][i - 16];
      } else if 24 <= i < 32 {
        assert s[i] == s[24..32][i - 24];
      } else if 32 <= i < 40 {
        assert s[i] == s[32..40][i - 32];
      } else if 40 <= i < 48 {
        assert s[i] == s[40..48][i - 40];
      }
    }
  }

  /** Decoding an encoded header gives the header back. */
  lemma DecodeEncode(h: Header)
    ensures Decode(Encode(h)) == h
  {
    EncodeLayout(h);
    UnpackPack(h.leap, h.version, h.mode);
    FromBE32OfBE32(h.rootDelay);
    FromBE32OfBE32(h.rootDispersion);
    FromBE32OfBE32(h.referenceId);
    TimestampOfBytes(h.reference);
    TimestampOfBytes(h.origin);
    TimestampOfBytes(h.receive);
    TimestampOfBytes(h.transmit);
  }

  /** Encoding a decoded buffer gives the buffer back: every byte is some field's. */
  lemma EncodeDecode(b: seq<byte>)
    requires |b| == BUF_SIZ
    ensures Encode(Decode(b)) == b
  {
    var h := Decode(b);
    EncodeLayout(h);
    PackUnpack(b[0]);
    BE32OfFromBE32(b[4..8]);
    BE32OfFromBE32(b[8..12]);
    BE32OfFromBE32(b[12..16]);
    BytesOfTimestamp(b[16..24]);
    BytesOfTimestamp(b[24..32]);
    BytesOfTimestamp(b[32..40]);
    BytesOfTimestamp(b[40..48]);
    SameFields(Encode(h), b);
  }

  // ----- the reply -----

  /** The header the server answers `request` with, given the receive
      timestamp and the simulated clock's seconds when the reply is built. */
  function ServerReply(request: Header, received: Timestamp, now: uint32): Header {
    Header(0, request.version, MODE_SERVER,
           STRATUM_PRIMARY, request.poll, PRECISION,
           0, 0, REFID_LOCL,
           Timestamp(Sub32(now, REFERENCE_LAG), 0), request.transmit, received, Timestamp(now, 0))
  }

  /** The 48 bytes of the reply to the 48-byte request `request`. */
  function ReplyBytes(request: seq<byte>, received: Timestamp, now: uint32): (r: seq<byte>)
    requires |request| == BUF_SIZ
    ensures |r| == BUF_SIZ
  {
    Encode(ServerReply(Decode(request), received, now))
  }

  /** C's `(recv_buf[0] & 0x38) + 4`: the request's version bits with leap 0 and mode 4. */
  lemma ReplyByte0(b: byte)
    ensures ((b as bv8 & 0x38) + 4) as int == PackByte0(0, VersionOf(b), MODE_SERVER) as int
  {
    MaskReadsVersion(b);
    assert (b as bv8 & 0x38) == ((b as bv8 >> 3) & MASK_7B) << 3;
  }

  /** Reply bytes 0-15, as the C code writes them: byte 0 `(req[0] & 0x38) + 4`,
      stratum 1, the request's poll, precision -6, zero root delay and
      dispersion, and the reference identifier "LOCL". */
  predicate ReplyHead(r: seq<byte>, request: seq<byte>)
    requires |r| == BUF_SIZ && |request| == BUF_SIZ
  {
    && r[0] as int == ((request[0] as bv8 & 0x38) + 4) as int
    && r[1] == 1 && r[2] == request[2] && r[3] == 0xFA
    && r[4..8] == [0, 0, 0, 0] && r[8..12] == [0, 0, 0, 0]
    && r[12..16] == [0x4C, 0x4F, 0x43, 0x4C]
  }

  /** Reply bytes 16-47: the clock less 60 seconds (modulo 2^32) with a zero
      fraction, request bytes 40-47 unchanged, the receive timestamp, and the
      clock with a zero fraction, each word most significant byte first. */
  predicate ReplyTimes(r: seq<byte>, request: seq<byte>, received: Timestamp, now: uint32)
    requires |r| == BUF_SIZ && |request| == BUF_SIZ
  {
    && r[16..20] == BE32(Sub32(now, 60)) && r[20..24] == [0, 0, 0, 0]
    && r[24..32] == request[40..48]
    && r[32..40] == BE32(received.seconds) + BE32(received.fraction)
    && r[40..44] == BE32(now) && r[44..48] == [0, 0, 0, 0]
  }

  lemma ReplyHeadLayout(request: seq<byte>, received: Timestamp, now: uint32)
    requires |request| == BUF_SIZ
    ensures ReplyHead(ReplyBytes(request, received, now), request)
  {
    EncodeLayout(ServerReply(Decode(request), received, now));
    ReplyByte0(request[0]);
    ConstantWords();
  }

  /** The constant words of the reply on the wire. */
  lemma ConstantWords()
    ensures BE32(0) == [0, 0, 0, 0]
    ensures BE32(REFID_LOCL) == [0x4C, 0x4F, 0x43, 0x4C]
    ensures PRECISION == 0xFA
  {
  }

  lemma ReplyTimesLayout(request: seq<byte>, received: Timestamp, now: uint32)
    requires |request| == BUF_SIZ
    ensures ReplyTimes(ReplyBytes(request, received, now), request, received, now)
  {
    var r := ReplyBytes(request, received, now);
    EncodeLayout(ServerReply(Decode(request), received, now));
    BytesOfTimestamp(request[40..48]);
    assert r[16..24][..4] == r[16..20] && r[16..24][4..] == r[20..24];
    assert r[40..48][..4] == r[40..44] && r[40..48][4..] == r[44..48];
  }

  /** The reply is exactly the 48 bytes laid out as `ReplyHead` and `ReplyTimes` say. */
  lemma ReplyLayout(s: seq<byte>, request: seq<byte>, received: Timestamp, now: uint32)
    requires |s| == BUF_SIZ && |request| == BUF_SIZ
    ensures s == ReplyBytes(request, received, now) <==> ReplyHead(s, request) && ReplyTimes(s, request, received, now)
  {
    var r := ReplyBytes(request, received, now);
    ReplyHeadLayout(request, received, now);
    ReplyTimesLayout(request, received, now);
    if ReplyHead(s, request) && ReplyTimes(s, request, received, now) {
      assert s[16..24] == s[16..20] + s[20..24];
      assert r[16..24] == r[16..20] + r[20..24];
      assert s[40..48] == s[40..44] + s[44..48];
      assert r[40..48] == r[40..44] + r[44..48];
      SameFields(s, r);
    }
  }

  /** Whatever else the request holds, the reply is the same: it depends on request bytes 0, 2 and 40-47 only. */
  lemma ReplyDependsOnly(a: seq<byte>, b: seq<byte>, received: Timestamp, now: uint32)
    requires |a| == BUF_SIZ && |b| == BUF_SIZ
    requires a[0] == b[0] && a[2] == b[2] && a[40..48] == b[40..48]
    ensures ReplyBytes(a, received, now) == ReplyBytes(b, received, now)
  {
    var ra := ReplyBytes(a, received, now);
    ReplyLayout(ra, a, received, now);
    ReplyLayout(ra, b, received, now);
  }

  /** What a client decodes from the reply: a server (mode 4) packet of
      stratum 1 and precision -6 from "LOCL", echoing the request's poll and
      version, whose origin is the request's transmit timestamp and whose
      reference timestamp is the clock 60 seconds earlier, modulo 2^32. */
  lemma ReplyDecodes(request: seq<byte>, received: Timestamp, now: uint32)
    requires |request| == BUF_SIZ
    ensures var h := Decode(ReplyBytes(request, received, now));
      && h.leap == 0 && h.version == VersionOf(request[0]) && h.mode == MODE_SERVER
      && h.stratum == 1 && h.poll == request[2] && AsSigned(h.precision) == -6
      && h.rootDelay == 0 && h.rootDispersion == 0 && h.referenceId == REFID_LOCL
      && h.reference == Timestamp(Sub32(now, 60), 0)
      && h.origin == Decode(request).transmit
      && h.receive == received && h.transmit == Timestamp(now, 0)
  {
    DecodeEncode(ServerReply(Decode(request), received, now));
  }

  /** For every request the check accepts, reply byte 0 is 0x24: leap 0, version 4, mode 4. */
  lemma AcceptedReplyByte0(request: seq<byte>, received: Timestamp, now: uint32)
    requires |request| == BUF_SIZ && BaseCheck(request[0]) == 0
    ensures ReplyBytes(request, received, now)[0] == 0x24
  {
    EncodeLayout(ServerReply(Decode(request), received, now));
  }

  // ----- prepare_reply: filling the send buffer in place -----

  /** `s` with the four bytes at `off` replaced by `w`. */
  function Put(s: seq<byte>, off: int, w: seq<byte>): (r: seq<byte>)
    requires |w| == 4 && 0 <= off && off + 4 <= |s|
    ensures |r| == |s|
  {
    s[..off] + w + s[off + 4..]
  }

  lemma PutPrefix(s: seq<byte>, off: int, w: seq<byte>)
    requires |w| == 4 && 0 <= off && off + 4 <= |s|
    ensures Put(s, off, w)[..off + 4] == s[..off] + w
  {
  }

  lemma PutKeeps(s: seq<byte>, off: int, w: seq<byte>, j: int, k: int)
    requires |w| == 4 && 0 <= off && off + 4 <= |s|
    requires 0 <= j <= k <= |s| && (k <= off || off + 4 <= j)
    ensures Put(s, off, w)[j..k] == s[j..k]
  {
  }

  lemma SplitAt(s: seq<byte>, i: int, j: int)
    requires 0 <= i <= j <= |s|
    ensures s[..j] == s[..i] + s[i..j]
  {
  }

  lemma AppendAssoc(a: seq<byte>, b: seq<byte>, c: seq<byte>)
    ensures a + b + c == a + (b + c)
  {
  }

  /** `*(uint32_t *)&buf[off] = w`: four bytes stored at `off`, the rest untouched. */
  method Store32(buf: array<byte>, off: int, w: seq<byte>)
    requires |w| == 4 && 0 <= off && off + 4 <= buf.Length
    modifies buf
    ensures buf[..] == Put(old(buf[..]), off, w)
    ensures forall i | 0 <= i < buf.Length && (i < off || off + 4 <= i) :: buf[i] == old(buf[i])
  {
    buf[off] := w[0];
    buf[off + 1] := w[1];
    buf[off + 2] := w[2];
    buf[off + 3] := w[3];
    assert buf[..] == Put(old(buf[..]), off, w);
  }

  /** The first four bytes of the reply, and the reference ID, which the
      C code stores before the poll and precision bytes; no other byte changes. */
  method WriteHead(recvBuf: array<byte>, sendBuf: array<byte>)
    requires recvBuf.Length == BUF_SIZ && sendBuf.Length == BUF_SIZ && recvBuf != sendBuf
    modifies sendBuf
    ensures sendBuf[..4] == [((recvBuf[0] as bv8 & 0x38) + 4) as byte, STRATUM_PRIMARY, recvBuf[2], SignedChar(-6)]
    ensures sendBuf[12..16] == BE32(REFID_LOCL)
    ensures forall i | 4 <= i < 12 || 16 <= i < BUF_SIZ :: sendBuf[i] == old(sendBuf[i])
  {
    sendBuf[0] := ((recvBuf[0] as bv8 & 0x38) + 4) as byte;
    sendBuf[1] := STRATUM_PRIMARY;
    Store32(sendBuf, 12, BE32(REFID_LOCL));
    assert sendBuf[12..16] == BE32(REFID_LOCL);
    sendBuf[2] := recvBuf[2];
    sendBuf[3] := SignedChar(-6);
    assert sendBuf[..4] == [sendBuf[0], sendBuf[1], sendBuf[2], sendBuf[3]];
  }

  /** Fills `sendBuf` with the reply to the request in `recvBuf`; `recvTime`
      is the receive timestamp, and the clock is read for the reference and
      transmit timestamps. Always returns 0. */
  method PrepareReply(recvBuf: array<byte>, sendBuf: array<byte>, recvTime: array<uint32>, clock: FakeClock)
    returns (rc: int)
    requires recvBuf.Length == BUF_SIZ && sendBuf.Length == BUF_SIZ && recvTime.Length == 2
    requires recvBuf != sendBuf
    requires clock.Valid()
    modifies sendBuf
    ensures rc == 0
    ensures sendBuf[..] == ReplyBytes(recvBuf[..], Timestamp(recvTime[0], recvTime[1]), clock.Read().seconds)
  {
    ghost var request := recvBuf[..];
    ghost var now := clock.Read().seconds;
    ghost var reply := ServerReply(Decode(request), Timestamp(recvTime[0], recvTime[1]), now);

    WriteHead(recvBuf, sendBuf);
    ghost var head := sendBuf[..];

    var ptr := 4;
    Store32(sendBuf, ptr, BE32(0));  // root delay
    ptr := ptr + 4;
    ghost var s8 := sendBuf[..];
    Store32(sendBuf, ptr, BE32(0));  // root dispersion
    ptr := ptr + 4;
    ptr := ptr + 4;  // reference ID, stored above
    ghost var s16 := sendBuf[..];

    // The host-order words the clock read leaves at `ptr`, before conversion.
    var words := new uint32[2];
    clock.ReadInto(words);
    Store32(sendBuf, ptr, BE32(Sub32(words[0], REFERENCE_LAG)));
    ptr := ptr + 4;
    ghost var s20 := sendBuf[..];
    Store32(sendBuf, ptr, BE32(words[1]));
    ptr := ptr + 4;
    ghost var s24 := sendBuf[..];

    Store32(sendBuf, ptr, recvBuf[40..44]);  // origin: copied, not converted
    ptr := ptr + 4;
    ghost var s28 := sendBuf[..];
    Store32(sendBuf, ptr, recvBuf[44..48]);
    ptr := ptr + 4;
    ghost var s32 := sendBuf[..];

    Store32(sendBuf, ptr, BE32(recvTime[0]));
    ptr := ptr + 4;
    ghost var s36 := sendBuf[..];
    Store32(sendBuf, ptr, BE32(recvTime[1]));
    ptr := ptr + 4;
    ghost var s40 := sendBuf[..];

    clock.ReadInto(words);
    Store32(sendBuf, ptr, BE32(words[0]));
    ptr := ptr + 4;
    ghost var s44 := sendBuf[..];
    Store32(sendBuf, ptr, BE32(words[1]));
    rc := 0;

    PrepareReplyWalk(request, reply, now, head, s8, s16, s20, s24, s28, s32, s36, s40, s44, sendBuf[..],
                     recvTime[0], recvTime[1]);
  }

  /** The stores of `PrepareReply` from byte 4 on, as a chain of buffer values, build the encoded reply. */
  lemma PrepareReplyWalk(request: seq<byte>, reply: Header, now: uint32,
                         head: seq<byte>, s8: seq<byte>, s16: seq<byte>, s20: seq<byte>, s24: seq<byte>,
                         s28: seq<byte>, s32: seq<byte>, s36: seq<byte>, s40: seq<byte>, s44: seq<byte>,
                         s48: seq<byte>, rs: uint32, rf: uint32)
    requires |request| == BUF_SIZ && |head| == BUF_SIZ
    requires reply == ServerReply(Decode(request), Timestamp(rs, rf), now)
    requires head[..4] == [((request[0] as bv8 & 0x38) + 4) as byte, STRATUM_PRIMARY, request[2], SignedChar(-6)]
    requires head[12..16] == BE32(REFID_LOCL)
    requires s8 == Put(head, 4, BE32(0)) && s16 == Put(s8, 8, BE32(0))
    requires s20 == Put(s16, 16, BE32(Sub32(now, REFERENCE_LAG))) && s24 == Put(s20, 20, BE32(0))
    requires s28 == Put(s24, 24, request[40..44]) && s32 == Put(s28, 28, request[44..48])
    requires s36 == Put(s32, 32, BE32(rs)) && s40 == Put(s36, 36, BE32(rf))
    requires s44 == Put(s40, 40, BE32(now)) && s48 == Put(s44, 44, BE32(0))
    ensures s48 == Encode(reply)
  {
    ReplyByte0(request[0]);
    PutPrefix(head, 4, BE32(0));
    PutKeeps(head, 4, BE32(0), 12, 16);
    PutPrefix(s8, 8, BE32(0));
    PutKeeps(s8, 8, BE32(0), 12, 16);
    SplitAt(s16, 12, 16);
    assert s16[..16] == [PackByte0(reply.leap, reply.version, reply.mode), reply.stratum, reply.poll, reply.precision]
                        + BE32(reply.rootDelay) + BE32(reply.rootDispersion) + BE32(reply.referenceId);
    PutPrefix(s16, 16, BE32(Sub32(now, REFERENCE_LAG)));
    PutPrefix(s20, 20, BE32(0));
    AppendAssoc(s16[..16], BE32(Sub32(now, REFERENCE_LAG)), BE32(0));
    PutPrefix(s24, 24, request[40..44]);
    PutPrefix(s28, 28, request[44..48]);
    AppendAssoc(s24[..24], request[40..44], request[44..48]);
    assert request[40..48] == request[40..44] + request[44..48];
    BytesOfTimestamp(request[40..48]);
    PutPrefix(s32, 32, BE32(rs));
    PutPrefix(s36, 36, BE32(rf));
    AppendAssoc(s32[..32], BE32(rs), BE32(rf));
    PutPrefix(s40, 40, BE32(now));
    PutPrefix(s44, 44, BE32(0));
    AppendAssoc(s40[..40], BE32(now), BE32(0));
    assert s48 == s48[..48];
  }
}
