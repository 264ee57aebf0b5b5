/** The interface record and its construction from one `ifaddrs` node
    (`Interface`, `TryFrom<&ifaddrs> for Interface` and `broad_dest_addr`
    in src/lib.rs). */
module Interfaces {
  import opened Io
  import opened Net
  import opened SockAddrs

  /** Details about one address of a network interface. */
  datatype Interface = Interface(
    name: string,
    addr: IpAddr,
    netmask: IpAddr,
    broadcast: Option<IpAddr>,
    destination: Option<IpAddr>)
  {
    predicate IsIpv4()
    {
      addr.V4?
    }

    predicate IsIpv6()
    {
      addr.V6?
    }

    predicate IsLoopback()
    {
      Net.IsLoopback(addr)
    }
  }

  /** The `ifa_flags` bits the builder inspects. */
  const IFF_BROADCAST: bv32 := 2
  const IFF_POINTOPOINT: bv32 := 16

  /** One node of the list `getifaddrs` returns, without its `ifa_next`
      link: the name (already text), the flags, and the address, netmask
      and broadcast-or-destination pointers. `ifu` is Linux's `ifa_ifu`
      union, the field the macOS build reads as `ifa_dstaddr`. */
  datatype IfAddrs = IfAddrs(
    name: string,
    flags: bv32,
    addr: SockAddrPtr,
    netmask: SockAddrPtr,
    ifu: SockAddrPtr)

  /** The one auxiliary field both the broadcast and the destination
      address are read from. */
  function BroadDestAddr(n: IfAddrs): SockAddrPtr
  {
    n.ifu
  }

  /** The address `p` decodes to, kept only when it is of `like`'s family. */
  function DecodeSameFamily(p: SockAddrPtr, like: IpAddr): (r: Option<IpAddr>)
    ensures r.Some? <==> Decode(p).Ok? && SameFamily(Decode(p).value, like)
    ensures r.Some? ==> Decode(p) == Ok(r.value)
  {
    match Decode(p)
    case Ok(a) => if SameFamily(a, like) then Some(a) else None
    case Err(_) => None
  }

  /** The broadcast or destination address: the auxiliary field, when the
      flag bit is set and the field decodes to `addr`'s family. */
  function FlaggedAddr(n: IfAddrs, flag: bv32, addr: IpAddr): Option<IpAddr>
  {
    if n.flags & flag != 0 then DecodeSameFamily(BroadDestAddr(n), addr) else None
  }

  /** What every record the builder produces satisfies: the netmask,
      broadcast and destination addresses are of the address's family, and
      no address in it is link-local. */
  predicate WellFormed(i: Interface)
  {
    && !IsLinkLocal(i.addr)
    && SameFamily(i.netmask, i.addr) && !IsLinkLocal(i.netmask)
    && (i.broadcast.Some? ==> SameFamily(i.broadcast.value, i.addr) && !IsLinkLocal(i.broadcast.value))
    && (i.destination.Some? ==> SameFamily(i.destination.value, i.addr) && !IsLinkLocal(i.destination.value))
  }

  /** `Interface::try_from(&ifaddrs)`. */
  function Build(n: IfAddrs): (r: Result<Interface>)
    ensures n.addr.None? ==> r == Err(Kind(NotFound))
    ensures n.addr.Some? ==> (r.Ok? <==> Decode(n.addr).Ok?)
    ensures n.addr.Some? && r.Err? ==> r.error == Decode(n.addr).error
    ensures r.Ok? ==> r.value.name == n.name && Decode(n.addr) == Ok(r.value.addr)
    ensures r.Ok? ==> WellFormed(r.value)
  {
    if n.addr.None? then Err(Kind(NotFound))
    else
      match Decode(n.addr)
      case Err(e) => Err(e)
      case Ok(addr) =>
        var netmask := match DecodeSameFamily(n.netmask, addr)
          case Some(m) => m
          case None => Unspecified(addr);
        Ok(Interface(
          n.name,
          addr,
          netmask,
          FlaggedAddr(n, IFF_BROADCAST, addr),
          FlaggedAddr(n, IFF_POINTOPOINT, addr)))
  }

  /** The netmask is the decoded netmask when that is of the address's
      family, and otherwise the all-zero address of that family; a netmask
      that is null, of another family or link-local never fails the build. */
  lemma BuildNetmask(n: IfAddrs)
    requires Build(n).Ok?
    ensures var i := Build(n).value;
            var m := Decode(n.netmask);
            if m.Ok? && SameFamily(m.value, i.addr) then i.netmask == m.value
            else i.netmask == Unspecified(i.addr)
  {
  }

  /** `broadcast` is set exactly when the broadcast flag is set and the
      auxiliary field decodes to an address of the address's family. */
  lemma BuildBroadcast(n: IfAddrs, a: IpAddr)
    requires Build(n).Ok?
    ensures Build(n).value.broadcast == Some(a) <==>
              n.flags & 2 != 0 && Decode(n.ifu) == Ok(a) && SameFamily(a, Build(n).value.addr)
  {
  }

  /** `destination` follows the same rule with the point-to-point flag. */
  lemma BuildDestination(n: IfAddrs, a: IpAddr)
    requires Build(n).Ok?
    ensures Build(n).value.destination == Some(a) <==>
              n.flags & 16 != 0 && Decode(n.ifu) == Ok(a) && SameFamily(a, Build(n).value.addr)
  {
  }

  /** Both addresses are read from the same field, so with both flags set
      they are present together and equal. */
  lemma BroadcastDestinationAgree(n: IfAddrs)
    requires Build(n).Ok?
    requires n.flags & IFF_BROADCAST != 0 && n.flags & IFF_POINTOPOINT != 0
    ensures Build(n).value.broadcast == Build(n).value.destination
  {
  }

  /** A record is exactly one of IPv4 and IPv6, and in a built record the
      netmask and any broadcast or destination address agree with it. */
  lemma Classification(n: IfAddrs)
    requires Build(n).Ok?
    ensures var i := Build(n).value;
            && (i.IsIpv4() <==> !i.IsIpv6())
            && (i.IsIpv4() <==> i.netmask.V4?)
            && (i.broadcast.Some? ==> (i.IsIpv4() <==> i.broadcast.value.V4?))
            && (i.destination.Some? ==> (i.IsIpv4() <==> i.destination.value.V4?))
  {
  }

  /** Which nodes make a loopback record: an IPv4 address whose first byte
      is 127, or the IPv6 address ::1. Loopback addresses are never
      rejected as link-local. */
  lemma BuildLoopback(n: IfAddrs)
    requires n.addr.Some?
    ensures var sa := n.addr.value;
            (Build(n).Ok? && Build(n).value.IsLoopback()) <==>
              (sa.family == AF_INET && sa.sinAddr[0] == 127) ||
              (sa.family == AF_INET6 && sa.sin6Addr == [0, 0, 0, 0, 0, 0, 0, 0, 0, 0, 0, 0, 0, 0, 0, 1])
  {
    var sa := n.addr.value;
    if sa.family == AF_INET6 {
      LoopbackV6Bytes(sa.sin6Addr);
      LinkLocalV6Bytes(sa.sin6Addr);
    }
  }
}
