/** Decoding of the C socket-address records the operating system hands
    out (`CSockAddrPtr::try_into` in src/lib.rs). */
module SockAddrs {
  import opened Io
  import opened Net

  /** The family tags, with their Linux values. */
  const AF_INET: nat := 2
  const AF_INET6: nat := 10

  /** A non-null `*const sockaddr`: the leading family tag and the bytes
      that follow it, as the `sin_addr` of a `sockaddr_in` and as the
      `sin6_addr` of a `sockaddr_in6`, each in memory order. Both address
      fields are the network-order bytes the kernel wrote; the decoder only
      reads the one the family tag selects. */
  datatype SockAddr = SockAddr(family: nat, sinAddr: Octets4, sin6Addr: Octets16)

  /** A possibly-null pointer to a socket address. */
  type SockAddrPtr = Option<SockAddr>

  /** The byte order in which the host loads a multi-byte integer. */
  datatype Endian = LittleEndian | BigEndian

  /** The value of the `u32` field `in_addr.s_addr` whose four bytes in
      memory are `mem`, as loaded by a host of byte order `host`. */
  function SAddr(mem: Octets4, host: Endian): bv32
  {
    match host
    case LittleEndian =>
      (mem[0] as bv32) | ((mem[1] as bv32) << 8) | ((mem[2] as bv32) << 16) | ((mem[3] as bv32) << 24)
    case BigEndian =>
      ((mem[0] as bv32) << 24) | ((mem[1] as bv32) << 16) | ((mem[2] as bv32) << 8) | (mem[3] as bv32)
  }

  function ByteOf(s: bv32, shift: bv32): bv8
    requires shift <= 24
  {
    ((s >> shift) & 255) as bv8
  }

  /** The octets the source passes to `Ipv4Addr::new`: the lowest byte of
      the `s_addr` value first, the highest last. */
  function Ipv4FromSAddr(s: bv32): Octets4
  {
    [ByteOf(s, 0), ByteOf(s, 8), ByteOf(s, 16), ByteOf(s, 24)]
  }

  /** The link-local policy applied to every structurally decoded address. */
  function RejectLinkLocal(a: IpAddr): (r: Result<IpAddr>)
    ensures r.Ok? <==> !IsLinkLocal(a)
    ensures r.Ok? ==> r.value == a
    ensures r.Err? ==> r.error == Kind(AddrNotAvailable)
  {
    if IsLinkLocal(a) then Err(Kind(AddrNotAvailable)) else Ok(a)
  }

  /** The decoder as the source writes it, on a host of byte order `host`:
      the IPv4 octets are cut out of the host's value of `s_addr`. */
  function DecodeAsWritten(p: SockAddrPtr, host: Endian): Result<IpAddr>
  {
    match p
    case None => Err(Kind(InvalidData))
    case Some(sa) =>
      if sa.family == AF_INET then RejectLinkLocal(V4(Ipv4FromSAddr(SAddr(sa.sinAddr, host))))
      else if sa.family == AF_INET6 then RejectLinkLocal(V6(Ipv6FromOctets(sa.sin6Addr)))
      else Err(Kind(InvalidData))
  }

  /** The decoder the rest of the model uses: the IPv4 octets are the
      network-order bytes of `sin_addr`, whatever the host's byte order.
      On a little-endian host it is the source's decoder. */
  function Decode(p: SockAddrPtr): (r: Result<IpAddr>)
    // the error cases, each in both directions
    ensures r == Err(Kind(InvalidData)) <==>
              p.None? || (p.value.family != AF_INET && p.value.family != AF_INET6)
    ensures r == Err(Kind(AddrNotAvailable)) <==>
              p.Some? &&
              ((p.value.family == AF_INET && p.value.sinAddr[0] == 169 && p.value.sinAddr[1] == 254) ||
               (p.value.family == AF_INET6 && p.value.sin6Addr[0] == 0xfe && p.value.sin6Addr[1] & 0xc0 == 0x80))
    ensures r.Err? ==> r.error == Kind(InvalidData) || r.error == Kind(AddrNotAvailable)
    // a success carries the address bytes unchanged and in order
    ensures r.Ok? ==> p.Some? && (r.value.V4? <==> p.value.family == AF_INET)
    ensures r.Ok? && r.value.V4? ==> r.value.octets == p.value.sinAddr
    ensures r.Ok? && r.value.V6? ==> p.value.family == AF_INET6 && Ipv6Octets(r.value.segments) == p.value.sin6Addr
    ensures r.Ok? ==> !IsLinkLocal(r.value)
  {
    match p
    case None => Err(Kind(InvalidData))
    case Some(sa) =>
      if sa.family == AF_INET then RejectLinkLocal(V4(sa.sinAddr))
      else if sa.family == AF_INET6 then
        LinkLocalV6Bytes(sa.sin6Addr);
        RejectLinkLocal(V6(Ipv6FromOctets(sa.sin6Addr)))
      else Err(Kind(InvalidData))
  }

  lemma LittleEndianOctets(mem: Octets4)
    ensures Ipv4FromSAddr(SAddr(mem, LittleEndian)) == mem
  {
  }

  /** On a little-endian host the source's decoder is `Decode`. */
  lemma DecodeAsWrittenLittleEndian(p: SockAddrPtr)
    ensures DecodeAsWritten(p, LittleEndian) == Decode(p)
  {
    if p.Some? && p.value.family == AF_INET {
      LittleEndianOctets(p.value.sinAddr);
    }
  }

  /** On a big-endian host the source's decoder reverses the octets of
      every IPv4 address: 127.0.0.1 in memory comes out as 1.0.0.127. */
  lemma DecodeAsWrittenBigEndian()
    ensures var sa := SockAddr(AF_INET, [127, 0, 0, 1], [0, 0, 0, 0, 0, 0, 0, 0, 0, 0, 0, 0, 0, 0, 0, 0]);
            DecodeAsWritten(Some(sa), BigEndian) == Ok(V4([1, 0, 0, 127])) &&
            Decode(Some(sa)) == Ok(V4([127, 0, 0, 1]))
  {
  }

  /** In general, on a big-endian host the source's decoder returns the
      four bytes of `sin_addr` in reverse order, whenever the reversed
      address is not link-local. */
  lemma DecodeAsWrittenBigEndianReverses(sa: SockAddr)
    requires sa.family == AF_INET && !(sa.sinAddr[3] == 169 && sa.sinAddr[2] == 254)
    ensures DecodeAsWritten(Some(sa), BigEndian) ==
              Ok(V4([sa.sinAddr[3], sa.sinAddr[2], sa.sinAddr[1], sa.sinAddr[0]]))
  {
  }

  /** The source's unit test: an `s_addr` whose value is 127 | 1 << 24
      decodes to 127.0.0.1 on either host, since it fixes the value and not
      the bytes in memory. */
  lemma SAddrLoopbackDecodes(sa: SockAddr, host: Endian)
    requires sa.family == AF_INET && SAddr(sa.sinAddr, host) == 127 | (1 << 24)
    ensures DecodeAsWritten(Some(sa), host) == Ok(V4([127, 0, 0, 1]))
  {
  }
}
