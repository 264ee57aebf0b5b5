/** IP addresses as `std::net::IpAddr` holds them, with the classification
    queries of the standard library that the enumeration uses. */
module Net {

  type Octets4 = s: seq<bv8> | |s| == 4 witness [0, 0, 0, 0]
  type Octets16 = s: seq<bv8> | |s| == 16 witness [0, 0, 0, 0, 0, 0, 0, 0, 0, 0, 0, 0, 0, 0, 0, 0]
  type Segments8 = s: seq<bv16> | |s| == 8 witness [0, 0, 0, 0, 0, 0, 0, 0]

  /** An IPv4 address as its four octets, first octet first, or an IPv6
      address as its eight 16-bit segments, first segment first. */
  datatype IpAddr = V4(octets: Octets4) | V6(segments: Segments8)

  /** A 16-bit segment made of a high and a low byte. */
  function Segment(hi: bv8, lo: bv8): bv16
  {
    ((hi as bv16) << 8) | (lo as bv16)
  }

  function HighByte(s: bv16): bv8
  {
    (s >> 8) as bv8
  }

  function LowByte(s: bv16): bv8
  {
    (s & 0xff) as bv8
  }

  lemma SegmentSplits(hi: bv8, lo: bv8)
    ensures HighByte(Segment(hi, lo)) == hi && LowByte(Segment(hi, lo)) == lo
  {
  }

  lemma SegmentJoins(x: bv16)
    ensures Segment(HighByte(x), LowByte(x)) == x
  {
  }

  /** `Ipv6Addr::octets`: each segment as two bytes, high byte first. */
  function Ipv6Octets(s: Segments8): Octets16
  {
    [HighByte(s[0]), LowByte(s[0]), HighByte(s[1]), LowByte(s[1]),
     HighByte(s[2]), LowByte(s[2]), HighByte(s[3]), LowByte(s[3]),
     HighByte(s[4]), LowByte(s[4]), HighByte(s[5]), LowByte(s[5]),
     HighByte(s[6]), LowByte(s[6]), HighByte(s[7]), LowByte(s[7])]
  }

  /** The segments built from sixteen bytes by pairing consecutive bytes,
      high byte first; the bytes come back unchanged and in order. */
  function Ipv6FromOctets(b: Octets16): (s: Segments8)
    ensures Ipv6Octets(s) == b
  {
    var s: Segments8 :=
      [Segment(b[0], b[1]), Segment(b[2], b[3]), Segment(b[4], b[5]), Segment(b[6], b[7]),
       Segment(b[8], b[9]), Segment(b[10], b[11]), Segment(b[12], b[13]), Segment(b[14], b[15])];
    SegmentSplits(b[0], b[1]); SegmentSplits(b[2], b[3]);
    SegmentSplits(b[4], b[5]); SegmentSplits(b[6], b[7]);
    SegmentSplits(b[8], b[9]); SegmentSplits(b[10], b[11]);
    SegmentSplits(b[12], b[13]); SegmentSplits(b[14], b[15]);
    s
  }

  /** The octets of an IPv6 address determine its segments. */
  lemma SegmentsRoundTrip(s: Segments8)
    ensures Ipv6FromOctets(Ipv6Octets(s)) == s
  {
    forall k | 0 <= k < 8 ensures Segment(HighByte(s[k]), LowByte(s[k])) == s[k] {
      SegmentJoins(s[k]);
    }
  }

  predicate SameFamily(a: IpAddr, b: IpAddr)
  {
    a.V4? == b.V4?
  }

  /** `Ipv4Addr::is_link_local` (169.254.0.0/16, RFC 3927 section 1) and
      `Ipv6Addr::is_unicast_link_local` (fe80::/10, RFC 4291 section 2.5.6). */
  predicate IsLinkLocal(a: IpAddr)
  {
    match a
    case V4(o) => o[0] == 169 && o[1] == 254
    case V6(s) => s[0] & 0xffc0 == 0xfe80
  }

  /** `IpAddr::is_loopback`: 127.0.0.0/8 (RFC 1122 section 3.2.1.3) or ::1
      (RFC 4291 section 2.5.3). */
  predicate IsLoopback(a: IpAddr)
  {
    match a
    case V4(o) => o[0] == 127
    case V6(s) => s == [0, 0, 0, 0, 0, 0, 0, 1]
  }

  /** The all-zero address of `like`'s family: 0.0.0.0 or ::. */
  function Unspecified(like: IpAddr): (r: IpAddr)
    ensures SameFamily(r, like)
    ensures r.V4? ==> forall i | 0 <= i < 4 :: r.octets[i] == 0
    ensures r.V6? ==> forall k | 0 <= k < 8 :: r.segments[k] == 0
    ensures !IsLinkLocal(r) && !IsLoopback(r)
  {
    if like.V4? then V4([0, 0, 0, 0]) else V6([0, 0, 0, 0, 0, 0, 0, 0])
  }

  /** An IPv6 address is link-local exactly when its first two bytes are
      fe and 80 to bf. */
  lemma LinkLocalV6Bytes(b: Octets16)
    ensures IsLinkLocal(V6(Ipv6FromOctets(b))) <==> b[0] == 0xfe && b[1] & 0xc0 == 0x80
  {
    assert Ipv6FromOctets(b)[0] == Segment(b[0], b[1]);
  }

  /** The IPv6 loopback address ::1 is fifteen zero bytes and a one. */
  lemma LoopbackV6Bytes(b: Octets16)
    ensures IsLoopback(V6(Ipv6FromOctets(b))) <==> b == [0, 0, 0, 0, 0, 0, 0, 0, 0, 0, 0, 0, 0, 0, 0, 1]
  {
    var one: Segments8 := [0, 0, 0, 0, 0, 0, 0, 1];
    assert Ipv6Octets(one) == [0, 0, 0, 0, 0, 0, 0, 0, 0, 0, 0, 0, 0, 0, 0, 1];
    if Ipv6FromOctets(b) == one {
      assert b == Ipv6Octets(one);
    }
    if b == Ipv6Octets(one) {
      SegmentsRoundTrip(one);
    }
  }
}
