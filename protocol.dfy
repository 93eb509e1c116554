/**
 * Shared vocabulary of the lockstep protocol: bytes, 32-bit integers as C# computes
 * them, the little-endian int32 layout of BitConverter, the packet kind tags, the
 * session phases and transport endpoints.
 */
module Protocol {

  datatype Option<T> = None | Some(value: T)

  newtype byte = x: int | 0 <= x < 256

  /** Size of the messenger's shared send/receive buffer. */
  const BufferSize: nat := 1024
  /** Capacity of the peer directory; the local participant is not counted. */
  const MaxPeers: nat := 3

  const Int32Min: int := -0x8000_0000
  const Int32Max: int := 0x7FFF_FFFF
  const TwoTo32: int := 0x1_0000_0000

  /** The values of a C# `int`. */
  type Int32 = x: int | -0x8000_0000 <= x <= 0x7FFF_FFFF

  /**
   * The result of C#'s unchecked `int` addition: the exact sum `x` of two ints,
   * reduced modulo 2^32 into the int range.
   */
  function Wrap32(x: int): (r: Int32)
    requires Int32Min + Int32Min <= x <= Int32Max + Int32Max
    ensures r == x || r == x - TwoTo32 || r == x + TwoTo32
    ensures Int32Min <= x <= Int32Max ==> r == x
  {
    if x > Int32Max then x - TwoTo32 else if x < Int32Min then x + TwoTo32 else x
  }

  /** Wrap32 agrees with reduction modulo 2^32. */
  lemma Wrap32IsModular(x: int)
    requires Int32Min + Int32Min <= x <= Int32Max + Int32Max
    ensures (x - Wrap32(x)) % TwoTo32 == 0
    ensures Wrap32(x) % TwoTo32 == x % TwoTo32
  {
  }

  // ---------------------------------------------------------------------------
  // BitConverter on a little-endian machine: 4 bytes, least significant first,
  // two's complement.

  function Int32ToBytes(x: Int32): (b: seq<byte>)
    ensures |b| == 4
  {
    var u := if x < 0 then x + TwoTo32 else x;
    [(u % 0x100) as byte, (u / 0x100 % 0x100) as byte,
     (u / 0x1_0000 % 0x100) as byte, (u / 0x100_0000) as byte]
  }

  function Int32FromBytes(b: seq<byte>): Int32
    requires |b| == 4
  {
    var u := b[0] as int + 0x100 * b[1] as int + 0x1_0000 * b[2] as int + 0x100_0000 * b[3] as int;
    if u <= Int32Max then u else u - TwoTo32
  }

  /** Reading back what was written gives every int32 value back. */
  lemma Int32RoundTrip(x: Int32)
    ensures Int32FromBytes(Int32ToBytes(x)) == x
  {
    var u := if x < 0 then x + TwoTo32 else x;
    var b := Int32ToBytes(x);
    assert 0 <= u < TwoTo32;
    assert b[0] as int + 0x100 * b[1] as int + 0x1_0000 * b[2] as int + 0x100_0000 * b[3] as int == u by {
      DigitsRecompose(u);
    }
  }

  lemma DigitsRecompose(u: int)
    requires 0 <= u < TwoTo32
    ensures u % 0x100 + 0x100 * (u / 0x100 % 0x100) + 0x1_0000 * (u / 0x1_0000 % 0x100)
            + 0x100_0000 * (u / 0x100_0000) == u
  {
    var q1 := u / 0x100;
    var q2 := q1 / 0x100;
    var q3 := q2 / 0x100;
    var d0, d1, d2 := u % 0x100, q1 % 0x100, q2 % 0x100;
    assert u == d0 + 0x100 * q1;
    assert q1 == d1 + 0x100 * q2;
    assert q2 == d2 + 0x100 * q3;
    assert u == d0 + 0x100 * d1 + 0x1_0000 * d2 + 0x100_0000 * q3;
    assert q3 < 0x100;
    DigitsOf(d0, d1, d2, q3);
  }

  /** Writing what was read gives the same four bytes back. */
  lemma Int32BytesRoundTrip(b: seq<byte>)
    requires |b| == 4
    ensures Int32ToBytes(Int32FromBytes(b)) == b
  {
    var u := b[0] as int + 0x100 * b[1] as int + 0x1_0000 * b[2] as int + 0x100_0000 * b[3] as int;
    var x := Int32FromBytes(b);
    assert (if x < 0 then x + TwoTo32 else x) == u;
    var c := Int32ToBytes(x);
    DigitsOf(b[0] as int, b[1] as int, b[2] as int, b[3] as int);
    assert c[0] == b[0] && c[1] == b[1] && c[2] == b[2] && c[3] == b[3];
  }

  lemma DigitsOf(d0: int, d1: int, d2: int, d3: int)
    requires 0 <= d0 < 0x100 && 0 <= d1 < 0x100 && 0 <= d2 < 0x100 && 0 <= d3 < 0x100
    ensures var u := d0 + 0x100 * d1 + 0x1_0000 * d2 + 0x100_0000 * d3;
      u % 0x100 == d0 && u / 0x100 % 0x100 == d1 && u / 0x1_0000 % 0x100 == d2 && u / 0x100_0000 == d3
  {
    var u := d0 + 0x100 * d1 + 0x1_0000 * d2 + 0x100_0000 * d3;
    var q1 := d1 + 0x100 * d2 + 0x1_0000 * d3;
    var q2 := d2 + 0x100 * d3;
    assert u == 0x100 * q1 + d0;
    assert u / 0x100 == q1;
    assert q1 == 0x100 * q2 + d1;
    assert u == 0x1_0000 * q2 + (0x100 * d1 + d0);
    assert u / 0x1_0000 == q2;
    assert u == 0x100_0000 * d3 + (0x1_0000 * d2 + 0x100 * d1 + d0);
    assert u / 0x100_0000 == d3;
  }

  // ---------------------------------------------------------------------------
  // Packet kinds. The enum itself is not part of this model's sources; these are
  // the five members the code uses, each with its own tag byte.

  datatype PacketType = Hello | Acknowledge | AddPeers | InputState | Message

  function Tag(t: PacketType): byte
  {
    match t
    case Hello => 0
    case Acknowledge => 1
    case AddPeers => 2
    case InputState => 3
    case Message => 4
  }

  /** The kind a tag byte names, if any. */
  function PacketTypeOf(b: byte): (r: Option<PacketType>)
    ensures r.Some? <==> b < 5
    ensures r.Some? ==> Tag(r.value) == b
  {
    if b == 0 then Some(Hello)
    else if b == 1 then Some(Acknowledge)
    else if b == 2 then Some(AddPeers)
    else if b == 3 then Some(PacketType.InputState)
    else if b == 4 then Some(Message)
    else None
  }

  /** Distinct kinds have distinct tags, and every tag is recognised as its own kind. */
  lemma TagsDistinct(t: PacketType, u: PacketType)
    ensures Tag(t) == Tag(u) <==> t == u
    ensures PacketTypeOf(Tag(t)) == Some(t)
  {
  }

  // ---------------------------------------------------------------------------
  // Session phases and transport endpoints

  datatype NetState = InLobby | StartingGame | InGame

  /** Position of a phase in the one-way order InLobby, StartingGame, InGame. */
  function PhaseRank(s: NetState): nat
  {
    match s
    case InLobby => 0
    case StartingGame => 1
    case InGame => 2
  }

  /** A transport endpoint; equality is structural, as for IPEndPoint.Equals. */
  datatype Endpoint = Endpoint(address: seq<byte>, port: nat)

  /** `new IPEndPoint(IPAddress.Any, 0)`. */
  const AnyEndpoint: Endpoint := Endpoint([0, 0, 0, 0], 0)

  /** One datagram: its bytes and, for a send its destination, for a receive its source. */
  datatype Datagram = Datagram(bytes: seq<byte>, peer: Endpoint)

  /** Encoding.ASCII: characters outside 7-bit ASCII become '?'. */
  function AsciiByte(c: char): (b: byte)
    ensures (c as int < 0x80) == (b as int == c as int)
    ensures c as int >= 0x80 ==> b == 0x3F
  {
    if c as int < 0x80 then c as int as byte else 0x3F
  }

  function AsciiBytes(s: string): seq<byte>
  {
    seq(|s|, i requires 0 <= i < |s| => AsciiByte(s[i]))
  }

  predicate IsAscii(s: string)
  {
    forall i | 0 <= i < |s| :: s[i] as int < 0x80
  }

  /** Encoding.ASCII.GetString on bytes below 0x80. */
  function AsciiText(b: seq<byte>): (s: string)
    requires forall i | 0 <= i < |b| :: b[i] < 0x80
    ensures |s| == |b|
  {
    seq(|b|, i requires 0 <= i < |b| => b[i] as int as char)
  }

  /** ASCII text survives encoding and decoding unchanged. */
  lemma AsciiRoundTrip(s: string)
    requires IsAscii(s)
    ensures AsciiText(AsciiBytes(s)) == s
  {
  }

  /** `w` written over `s` from index `at` on: what a write at an offset leaves in a buffer. */
  function Splice(s: seq<byte>, at: nat, w: seq<byte>): (r: seq<byte>)
    requires at + |w| <= |s|
    ensures |r| == |s|
    ensures r[..at] == s[..at] && r[at..at + |w|] == w && r[at + |w|..] == s[at + |w|..]
  {
    s[..at] + w + s[at + |w|..]
  }

  /** `w` written over the front of `s`: what a write at offset 0 leaves in a buffer. */
  function Overlay(s: seq<byte>, w: seq<byte>): (r: seq<byte>)
    requires |w| <= |s|
    ensures |r| == |s|
    ensures r[..|w|] == w && r[|w|..] == s[|w|..]
  {
    w + s[|w|..]
  }

  /** Writing `e` right after what an earlier write `w` covered extends that write. */
  lemma OverlayThenSplice(s: seq<byte>, w: seq<byte>, e: seq<byte>)
    requires |w| + |e| <= |s|
    ensures Splice(Overlay(s, w), |w|, e) == Overlay(s, w + e)
  {
  }

  // ---------------------------------------------------------------------------
  // Slices of concatenations

  lemma SliceOfLeft<T>(a: seq<T>, b: seq<T>, lo: nat, hi: nat)
    requires lo <= hi <= |a|
    ensures (a + b)[lo..hi] == a[lo..hi]
  {
  }

  lemma SliceOfRight<T>(a: seq<T>, b: seq<T>, lo: nat, hi: nat)
    requires lo <= hi <= |b|
    ensures (a + b)[|a| + lo..|a| + hi] == b[lo..hi]
  {
  }

  lemma SplitAt<T>(s: seq<T>, lo: nat, hi: nat)
    requires lo <= hi <= |s|
    ensures s == s[..lo] + s[lo..hi] + s[hi..]
  {
  }
}
