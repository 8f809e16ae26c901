/** One pass of the server loop with the sockets taken out: the datagram
    lands in a zeroed 48-byte buffer, byte 0 is checked, and the answer is
    either the three bytes "ERR" or the 48-byte reply built from the request
    and the simulated clock. */
module Service {
  import opened Wire
  import opened Clock
  import opened Packet

  /** The non-standard rejection payload: ASCII "ERR", without a terminator. */
  const ERR: seq<byte> := [0x45, 0x52, 0x52]

  /** The receive buffer after it is zeroed and a datagram is received into
      it: the first 48 bytes of the datagram, then zeros. An empty datagram,
      or a failed receive, leaves it all zero. */
  function RequestBuffer(datagram: seq<byte>): (r: seq<byte>)
    ensures |r| == BUF_SIZ
    ensures forall i | 0 <= i < BUF_SIZ :: r[i] == if i < |datagram| then datagram[i] else 0
  {
    if |datagram| >= BUF_SIZ then datagram[..BUF_SIZ]
    else datagram + seq(BUF_SIZ - |datagram|, _ => 0)
  }

  /** What the server sends back for the request buffer `request` when the
      simulated clock reads `now` seconds. */
  function Respond(request: seq<byte>, now: uint32): (r: seq<byte>)
    requires |request| == BUF_SIZ
    ensures r == ERR <==> BaseCheck(request[0]) != 0
    ensures |r| == BUF_SIZ <==> BaseCheck(request[0]) == 0
  {
    if BaseCheck(request[0]) != 0 then ERR
    else ReplyBytes(request, Timestamp(now, 0), now)
  }

  /** Every accepted request gets a 48-byte reply, with byte 0 = 0x24, laid
      out as `ReplyHead` and `ReplyTimes` say, the receive and transmit
      timestamps both being the clock's seconds with a zero fraction. */
  lemma AcceptedReply(request: seq<byte>, now: uint32)
    requires |request| == BUF_SIZ && BaseCheck(request[0]) == 0
    ensures var r := Respond(request, now);
      && |r| == BUF_SIZ && r[0] == 0x24
      && ReplyHead(r, request) && ReplyTimes(r, request, Timestamp(now, 0), now)
  {
    ReplyHeadLayout(request, Timestamp(now, 0), now);
    ReplyTimesLayout(request, Timestamp(now, 0), now);
    AcceptedReplyByte0(request, Timestamp(now, 0), now);
  }

  /** An empty datagram is answered with "ERR": the zeroed buffer has mode 0. */
  lemma EmptyDatagramRejected(now: uint32)
    ensures Respond(RequestBuffer([]), now) == ERR
  {
    var request := RequestBuffer([]);
    assert request[0] == 0;
    BaseCheckExamples();
  }

  /** A client request (byte 0 = 0x23: version 4, mode 3) whose transmit
      timestamp is 100 seconds, answered when the clock reads 1000: the reply
      echoes 100 as the origin, gives 940 as the reference and 1000 as the
      receive and transmit timestamps, from a stratum 1 server of precision
      -6 named "LOCL". */
  lemma EndToEnd(datagram: seq<byte>)
    requires |datagram| == BUF_SIZ && datagram[0] == 0x23
    requires datagram[40..48] == [0, 0, 0, 0x64, 0, 0, 0, 0]
    ensures var h := Decode(Respond(RequestBuffer(datagram), 1000));
      && h.mode == MODE_SERVER && h.version == NTP_VERSION && h.leap == 0
      && h.stratum == 1 && AsSigned(h.precision) == -6
      && BE32(h.referenceId) == [0x4C, 0x4F, 0x43, 0x4C]
      && h.origin == Timestamp(100, 0)
      && h.reference == Timestamp(940, 0)
      && h.receive == Timestamp(1000, 0) && h.transmit == Timestamp(1000, 0)
  {
    var request := RequestBuffer(datagram);
    assert request == datagram;
    BaseCheckExamples();
    ReplyDecodes(request, Timestamp(1000, 0), 1000);
    ConstantWords();
    assert request[40..48][..4] == [0, 0, 0, 0x64] && request[40..48][4..] == [0, 0, 0, 0];
  }

  /** Until the clock's first tick the shared seconds word is still 0, so an
      accepted request is answered with a transmit time of 0 and a
      reference time 60 seconds before it, wrapped to 2^32 - 60. */
  lemma ReplyBeforeFirstTick(request: seq<byte>)
    requires |request| == BUF_SIZ && BaseCheck(request[0]) == 0
    ensures var h := Decode(Respond(request, 0));
      && h.reference == Timestamp(0xFFFF_FFC4, 0)
      && h.receive == Timestamp(0, 0) && h.transmit == Timestamp(0, 0)
  {
    ReplyDecodes(request, Timestamp(0, 0), 0);
  }

  /** The state `ntp_service` keeps from one datagram to the next: its
      receive and send buffers and the receive-time pair, and the clock the
      other thread advances. */
  class Server {
    var recvBuf: array<byte>
    var sendBuf: array<byte>
    var recvTime: array<uint32>
    const clock: FakeClock

    ghost predicate Valid()
      reads this, clock, clock.timeStamp
    {
      recvBuf.Length == BUF_SIZ && sendBuf.Length == BUF_SIZ && recvTime.Length == 2 &&
      recvBuf != sendBuf && recvTime != clock.timeStamp &&
      clock.Valid()
    }

    constructor (clock: FakeClock)
      requires clock.Valid()
      ensures Valid() && this.clock == clock
      ensures fresh(recvBuf) && fresh(sendBuf) && fresh(recvTime)
    {
      this.clock := clock;
      recvBuf := new byte[BUF_SIZ];
      sendBuf := new byte[BUF_SIZ];
      recvTime := new uint32[2];
    }

    /** Zeroes the receive buffer and copies the datagram into it, at most 48 bytes. */
    method Receive(datagram: seq<byte>)
      requires Valid()
      modifies recvBuf
      ensures Valid()
      ensures recvBuf[..] == RequestBuffer(datagram)
    {
      forall i | 0 <= i < BUF_SIZ {
        recvBuf[i] := 0;
      }
      var n := if |datagram| < BUF_SIZ then |datagram| else BUF_SIZ;
      forall i | 0 <= i < n {
        recvBuf[i] := datagram[i];
      }
      assert recvBuf[..] == RequestBuffer(datagram);
    }

    /** One pass of the loop: receive, check byte 0, and answer. The send
        buffer's contents from earlier passes never reach the answer. */
    method Serve(datagram: seq<byte>) returns (reply: seq<byte>)
      requires Valid()
      modifies recvBuf, sendBuf, recvTime
      ensures Valid()
      ensures recvBuf[..] == RequestBuffer(datagram)
      ensures reply == Respond(RequestBuffer(datagram), clock.Read().seconds)
      ensures BaseCheck(recvBuf[0]) != 0 ==> sendBuf[..] == old(sendBuf[..]) && recvTime[..] == old(recvTime[..])
      ensures BaseCheck(recvBuf[0]) == 0 ==> sendBuf[..] == reply && recvTime[..] == [clock.Read().seconds, 0]
    {
      Receive(datagram);
      var n := BaseCheck(recvBuf[0]);
      if n != 0 {
        reply := ERR;
        return;
      }
      clock.ReadInto(recvTime);
      assert recvTime[..] == [clock.Read().seconds, 0];
      n := PrepareReply(recvBuf, sendBuf, recvTime, clock);
      reply := sendBuf[..];
    }
  }
}
