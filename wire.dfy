/** Machine integers and network byte order for the fields of an NTP packet.
    `byte` is C's `unsigned char`/`uint8_t`, `uint32` is `uint32_t`; the
    arithmetic on `uint32` that wraps in C is written out modulo 2^32.
    A store `*(uint32_t *)p = htonl(x)` leaves the four bytes of `x` in
    memory most significant first, whatever the host's byte order: that
    store is `BE32`, and `FromBE32` is the matching `ntohl` load. */
module Wire {

  newtype byte = x: int | 0 <= x < 0x100
  newtype uint32 = x: int | 0 <= x < 0x1_0000_0000

  const WORD: int := 0x1_0000_0000

  /** C's `uint32_t` subtraction, which wraps around modulo 2^32. */
  function Sub32(x: uint32, y: uint32): (r: uint32)
    ensures x >= y ==> r as int == x as int - y as int
    ensures x < y ==> r as int == x as int - y as int + WORD
  {
    ((x as int - y as int) % WORD) as uint32
  }

  /** An NTP timestamp: seconds since 1900 and a binary fraction of a second. */
  datatype Timestamp = Timestamp(seconds: uint32, fraction: uint32)

  /** The four bytes of `x`, most significant first. */
  function BE32(x: uint32): (r: seq<byte>)
    ensures |r| == 4
  {
    [(x / 0x100_0000) as byte, (x / 0x1_0000 % 0x100) as byte, (x / 0x100 % 0x100) as byte, (x % 0x100) as byte]
  }

  /** The 32-bit value whose network-order bytes are `w`. */
  function FromBE32(w: seq<byte>): (x: uint32)
    requires |w| == 4
  {
    (w[0] as int * 0x100_0000 + w[1] as int * 0x1_0000 + w[2] as int * 0x100 + w[3] as int) as uint32
  }

  /** A 32-bit value stored in network order and loaded back is unchanged. */
  lemma FromBE32OfBE32(x: uint32)
    ensures FromBE32(BE32(x)) == x
  {
    var n := x as int;
    assert n == (n / 0x100_0000) * 0x100_0000 + n % 0x100_0000;
    assert n % 0x100_0000 == (n / 0x1_0000 % 0x100) * 0x1_0000 + n % 0x1_0000;
    assert n % 0x1_0000 == (n / 0x100 % 0x100) * 0x100 + n % 0x100;
  }

  /** Dividing `q * k + r` by `k` gives back `q` and `r`. */
  lemma DivideOut(q: int, k: int, r: int)
    requires 0 < k && 0 <= r < k
    ensures (q * k + r) / k == q && (q * k + r) % k == r
  {
    var n := q * k + r;
    var d, m := n / k, n % k;
    assert d * k + m == q * k + r;
    assert (d - q) * k == r - m;
    if d > q {
      assert (d - q) * k >= k by { MulMono(d - q, k); }
    } else if d < q {
      assert (q - d) * k >= k by { MulMono(q - d, k); }
    }
  }

  lemma MulMono(a: int, k: int)
    requires a >= 1 && k > 0
    ensures a * k >= k
  {
    assert a * k == (a - 1) * k + k;
    if a > 1 {
      MulMono(a - 1, k);
    }
  }

  /** Four bytes loaded in network order and stored back are unchanged. */
  lemma BE32OfFromBE32(w: seq<byte>)
    requires |w| == 4
    ensures BE32(FromBE32(w)) == w
  {
    var b0, b1, b2, b3 := w[0] as int, w[1] as int, w[2] as int, w[3] as int;
    var x := FromBE32(w) as int;
    DivideOut(b0, 0x100_0000, b1 * 0x1_0000 + b2 * 0x100 + b3);
    DivideOut(b0 * 0x100 + b1, 0x1_0000, b2 * 0x100 + b3);
    DivideOut(b0, 0x100, b1);
    DivideOut(b0 * 0x1_0000 + b1 * 0x100 + b2, 0x100, b3);
    DivideOut(b0 * 0x100 + b1, 0x100, b2);
    assert x / 0x100_0000 == b0;
    assert x / 0x1_0000 % 0x100 == b1;
    assert x / 0x100 % 0x100 == b2;
    assert x % 0x100 == b3;
    assert w == [w[0], w[1], w[2], w[3]];
  }

  /** The eight bytes of a timestamp on the wire: seconds word, then fraction word. */
  function TimestampBytes(t: Timestamp): (r: seq<byte>)
    ensures |r| == 8
  {
    BE32(t.seconds) + BE32(t.fraction)
  }

  function TimestampOf(b: seq<byte>): (t: Timestamp)
    requires |b| == 8
  {
    Timestamp(FromBE32(b[..4]), FromBE32(b[4..]))
  }

  lemma TimestampOfBytes(t: Timestamp)
    ensures TimestampOf(TimestampBytes(t)) == t
  {
    var b := TimestampBytes(t);
    assert b[..4] == BE32(t.seconds) && b[4..] == BE32(t.fraction);
    FromBE32OfBE32(t.seconds);
    FromBE32OfBE32(t.fraction);
  }

  lemma BytesOfTimestamp(b: seq<byte>)
    requires |b| == 8
    ensures TimestampBytes(TimestampOf(b)) == b
  {
    BE32OfFromBE32(b[..4]);
    BE32OfFromBE32(b[4..]);
    assert b == b[..4] + b[4..];
  }
}
