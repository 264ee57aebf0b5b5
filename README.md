# get-if-addrs in Dafny

A model of the `get_if_addrs` crate's core (`src/lib.rs`). The crate lists the
local machine's network interface addresses. It asks the C library's
`getifaddrs` for the kernel's linked list of `ifaddrs` nodes and turns each
node into an `Interface` record. A record has a name, an address, a netmask,
and an optional broadcast and an optional point-to-point destination address.
Nodes that cannot be turned into a record are dropped. The list is released
with `freeifaddrs` afterwards.

The model has five modules:

- `Io` (io.dfy): the `io::Error` kinds the crate produces, the OS error code, `Option` and `Result`.
- `Net` (net.dfy): `IpAddr` as four octets or eight 16-bit segments. It also holds the standard-library queries the crate relies on: link-local (169.254.0.0/16, RFC 3927 section 1; fe80::/10, RFC 4291 section 2.5.6), loopback (127.0.0.0/8, RFC 1122 section 3.2.1.3; ::1, RFC 4291 section 2.5.3), the all-zero address, and the conversion between IPv6 bytes and segments.
- `SockAddrs` (sockaddr.dfy): the decoder `CSockAddrPtr::try_into`. A possibly-null `*const sockaddr` is an `Option<SockAddr>`. A `SockAddr` is a family tag plus the `sin_addr` and `sin6_addr` bytes as they lie in memory. The family values are Linux's (`AF_INET` = 2, `AF_INET6` = 10).
- `Interfaces` (interface.dfy): the `Interface` record and its `is_ipv4`, `is_ipv6` and `is_loopback` queries. It also holds the `ifaddrs` node (`IfAddrs`), `broad_dest_addr`, and the builder `TryFrom<&ifaddrs> for Interface` (`Build`).
- `Enumerate` (enumerate.dfy): the driver `get_if_addrs`. `BuildAll` is the pure specification of its `filter_map`. `Libc` is a class for the two C calls. It counts the lists acquired and released. `IfAddrsList` is one acquired list. The driver reads it only through `Count` and `Node`, and both require that the list is not freed. `GetIfAddrs` is the driver method, with the collecting loop and its invariant.

Two error cases are modelled exactly as the code has them, where a more detailed error scheme might be expected:

- Decoding a null pointer and decoding an unknown family tag both fail with `InvalidData`. There are no separate "null record" and "unsupported family" errors.
- When the primary address does not decode, the builder returns the decoder's own error (`InvalidData` or `AddrNotAvailable`). Only a null primary address gives `NotFound`.

## Model

| member | source | states |
|---|---|---|
| `Net.Ipv6FromOctets` | src/lib.rs:173-183 | The eight segments are built from byte pairs, high byte first. The octets of the result are exactly the 16 input bytes, unchanged and in order. |
| `Net.SegmentsRoundTrip` | src/lib.rs:173-183 | The other direction of the round trip: building segments from an address's octets gives that address's segments back. |
| `Net.LinkLocalV6Bytes` | src/lib.rs:184-188 | The fe80::/10 test on the first segment (`& 0xffc0 == 0xfe80`) holds exactly when byte 0 is 0xfe and the top two bits of byte 1 are 10. |
| `Net.LoopbackV6Bytes` | src/lib.rs:52-54 | An IPv6 address built from 16 bytes is ::1 exactly when the bytes are fifteen zeros followed by a one. |
| `Net.Unspecified` | src/lib.rs:70-83 | The netmask fallback is of the same family as the address. Every octet or segment is zero. It is neither link-local nor loopback. |
| `SockAddrs.RejectLinkLocal` | src/lib.rs:165-169 | An address passes exactly when it is not link-local. A rejected one fails with `AddrNotAvailable`. |
| `SockAddrs.Decode` | src/lib.rs:148-193 | `InvalidData` exactly for a null pointer or a tag other than `AF_INET`/`AF_INET6`. `AddrNotAvailable` exactly for 169.254/16 or fe80::/10 bytes. A success has the tag's family, carries the address bytes unchanged and in order, and is never link-local. |
| `SockAddrs.DecodeAsWrittenLittleEndian` | src/lib.rs:156-164 | On a little-endian host, the source's decoder (IPv4 octets cut from the value of `s_addr`, low byte first) is exactly `Decode`. |
| `SockAddrs.DecodeAsWrittenBigEndian` | src/lib.rs:159-164 | On a big-endian host, the source's decoder turns 127.0.0.1 in memory into 1.0.0.127. |
| `SockAddrs.DecodeAsWrittenBigEndianReverses` | src/lib.rs:159-164 | For every `AF_INET` record on a big-endian host, the source's decoder returns the four `sin_addr` bytes in reverse order (unless the reversed address is link-local). |
| `SockAddrs.SAddrLoopbackDecodes` | src/lib.rs:227-235 | The source's unit test on either host: an `AF_INET` record whose `s_addr` value is 0x0100007f (127 plus 1 shifted left by 24) decodes to 127.0.0.1. |
| `Interfaces.DecodeSameFamily` | src/lib.rs:87-99 | The result is present exactly when the pointer decodes to an address of the given family. It is then that decoded address. |
| `Interfaces.Build` | src/lib.rs:57-134 | A null address fails with `NotFound`. Otherwise the build succeeds exactly when the address decodes, whatever the netmask and auxiliary field hold, and a failure carries the decoder's error. A success copies the name, holds the decoded address, and is well formed: netmask, broadcast and destination have the address's family, and none of its addresses is link-local. |
| `Interfaces.BuildNetmask` | src/lib.rs:70-83 | The netmask is the decoded netmask when that decodes to the address's family. Otherwise it is the all-zero address of that family. |
| `Interfaces.BuildBroadcast` | src/lib.rs:85-103 | `broadcast == Some(a)` exactly when `flags & 2 != 0`, the auxiliary field decodes to `a`, and `a` has the address's family. |
| `Interfaces.BuildDestination` | src/lib.rs:105-123 | `destination == Some(a)` exactly when `flags & 16 != 0`, the auxiliary field decodes to `a`, and `a` has the address's family. |
| `Interfaces.BroadcastDestinationAgree` | src/lib.rs:136-144 | Both addresses are read from the one field `broad_dest_addr` returns. So with both flag bits set, `broadcast` and `destination` are equal. |
| `Interfaces.Classification` | src/lib.rs:36-47 | A built record is exactly one of IPv4 and IPv6. `is_ipv4` agrees with the family of the netmask and of any broadcast or destination address. |
| `Interfaces.BuildLoopback` | src/lib.rs:52-54 | A node gives a loopback record exactly when its address is `AF_INET` with first byte 127, or `AF_INET6` ::1. Loopback addresses are never rejected. |
| `Enumerate.BuildAll` | src/lib.rs:205-208 | The collected records are no more than the nodes, and every one is well formed. |
| `Enumerate.BuildAllAppend` | src/lib.rs:205-208 | Collecting over two lists in turn gives the records of the first, then those of the second. |
| `Enumerate.SurvivorsIncrease` | src/lib.rs:205-208 | The positions of the nodes that build form an increasing sequence of list positions, one per record, so the records keep list order. |
| `Enumerate.SurvivorsAreBuilt` | src/lib.rs:205-208 | A list position is among the surviving positions exactly when its node builds. |
| `Enumerate.SurvivorsBuildRecords` | src/lib.rs:205-208 | Record j is the record built by the node at the j-th surviving position. |
| `Enumerate.FailedNodeDropped` | src/lib.rs:207 | A node that fails to build, for example one with a null address, adds nothing and does not disturb the records of the nodes after it. |
| `Enumerate.AllFailedYieldsNothing` | src/lib.rs:205-208 | A list where no node builds yields no records. |
| `Enumerate.LoopbackScenario` | src/lib.rs:205-208 | One node "lo0" with 127.0.0.1, netmask 255.0.0.0 and no broadcast flag yields exactly one record: that address and netmask, no broadcast, no destination. The record is loopback. |
| `Enumerate.LinkLocalScenario` | src/lib.rs:184-188 | A node whose IPv6 address is in fe80::/10 yields no record. |
| `Enumerate.Libc.GetIfAddrs` | src/lib.rs:197-203 | On failure it returns -1, no list, and the kernel's error in `errno`, and nothing is acquired. On success it returns 0 and a fresh, unfreed list of the kernel's nodes, and one more list is acquired. |
| `Enumerate.Libc.FreeIfAddrs` | src/lib.rs:210-212 | It takes a list not yet freed, marks it freed, and counts one more release. |
| `Enumerate.GetIfAddrs` | src/lib.rs:196-215 | If the query fails, the result is `Err` with the OS error code, and nothing is acquired or released. Otherwise the result is `Ok(BuildAll(nodes))`, and exactly one list is acquired and exactly one released. Nodes are read only before the list is freed. |

## Findings

| source | as written | input that shows it | evidently intended | confidence | as-written member | corrected member |
|---|---|---|---|---|---|---|
| src/lib.rs:159-164 | The IPv4 octets are cut from the host's numeric value of `s_addr`, lowest byte first. `s_addr` holds the address in network byte order, so this is right only on little-endian hosts. | An `AF_INET` record holding 127.0.0.1 (bytes 7f 00 00 01 in memory) on a big-endian host decodes to 1.0.0.127. The unit test at lines 227-235 fixes the value of `s_addr`, not its bytes, so it passes on both hosts. | The octets are the network-order bytes of `sin_addr` on every host, as `u32::from_be(s_addr)` would give. | medium: not executed | `SockAddrs.DecodeAsWrittenBigEndian` | `SockAddrs.Decode` |

The as-written decoder is `SockAddrs.DecodeAsWritten`, which takes the host byte order as a parameter. The rest of the model uses `SockAddrs.Decode`. `SockAddrs.DecodeAsWrittenLittleEndian` proves the two are the same on little-endian hosts.

## Left out

- The C calls `getifaddrs` and `freeifaddrs` become the `Libc` class. The kernel's answer is the `reply` field, and the error code is a plain integer. Raw pointers, `mem::uninitialized` and the out-pointer are not modelled.
- The `CLinkedList` walk along `ifa_next` becomes the sequence `IfAddrsList.nodes`, read in order. Pointer chasing is not modelled.
- The interface name goes through `CStr::to_string_lossy`. It is taken as text that the builder copies unchanged, so lossy UTF-8 replacement is not modelled.
- `broad_dest_addr` is a compile-time platform switch: `ifa_ifu` on Linux, `ifa_dstaddr` on macOS. The model has one auxiliary field, `IfAddrs.ifu`, and uses the Linux family values.
- `io::Error` is reduced to its kind, or the OS error code for `last_os_error`. Messages and payloads are not modelled.
- The family tag is an unbounded `nat`. The `sa_family_t` width is not modelled, and neither are the socket-address fields the crate never reads (port, flow info, scope id).
- `Interface::is_ipv4`, `is_ipv6` and `is_loopback` are predicates defined by their bodies. Their properties are stated by `Interfaces.Classification` and `Interfaces.BuildLoopback`.
- `SockAddrs.DecodeAsWritten` (the decoder exactly as written, with the host byte order as a parameter) and `Interfaces.BroadDestAddr` (`broad_dest_addr`) are defined by their bodies and have no contract of their own. Their behaviour is stated by `SockAddrs.DecodeAsWrittenLittleEndian`, `SockAddrs.DecodeAsWrittenBigEndianReverses` and `Interfaces.BroadcastDestinationAgree`.
- examples/simple.rs only prints the records, so it is not part of this model.
- Concurrency and re-entrancy are not modelled. Each call owns its own list, and the code has no shared state.
