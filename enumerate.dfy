/** The enumeration driver (`get_if_addrs` in src/lib.rs): acquire the
    operating system's list, build a record from every node in order,
    drop the nodes that fail, release the list once. */
module Enumerate {
  import opened Io
  import opened Net
  import opened SockAddrs
  import opened Interfaces

  /** The records built from a node, as `filter_map` keeps them: the record
      itself, or nothing when the node fails to build. */
  function Kept(n: IfAddrs): seq<Interface>
  {
    match Build(n)
    case Ok(i) => [i]
    case Err(_) => []
  }

  /** The records `get_if_addrs` collects from the list `nodes`. */
  function BuildAll(nodes: seq<IfAddrs>): (r: seq<Interface>)
    ensures |r| <= |nodes|
    ensures forall j | 0 <= j < |r| :: WellFormed(r[j])
  {
    if nodes == [] then [] else BuildAll(nodes[..|nodes| - 1]) + Kept(nodes[|nodes| - 1])
  }

  /** The positions in `nodes` of the nodes that build, in list order. */
  function Survivors(nodes: seq<IfAddrs>): seq<nat>
  {
    if nodes == [] then []
    else Survivors(nodes[..|nodes| - 1]) + (if Build(nodes[|nodes| - 1]).Ok? then [|nodes| - 1] else [])
  }

  /** Collecting over two lists one after the other collects the records
      of the first, then those of the second. */
  lemma {:induction false} BuildAllAppend(a: seq<IfAddrs>, b: seq<IfAddrs>)
    ensures BuildAll(a + b) == BuildAll(a) + BuildAll(b)
    decreases |b|
  {
    if b == [] {
      assert a + b == a;
    } else {
      var b' := b[..|b| - 1];
      assert (a + b)[..|a + b| - 1] == a + b';
      BuildAllAppend(a, b');
    }
  }

  // Together, the three lemmas below say that the records are exactly the
  // nodes that build, in list order.

  /** The surviving positions are increasing positions of `nodes`, one
      per record. */
  lemma {:induction false} SurvivorsIncrease(nodes: seq<IfAddrs>)
    ensures var s := Survivors(nodes);
            && |s| == |BuildAll(nodes)|
            && (forall j | 0 <= j < |s| :: s[j] < |nodes|)
            && (forall j, k | 0 <= j < k < |s| :: s[j] < s[k])
  {
    if nodes != [] {
      SurvivorsIncrease(nodes[..|nodes| - 1]);
    }
  }

  /** A position survives exactly when its node builds. */
  lemma {:induction false} SurvivorsAreBuilt(nodes: seq<IfAddrs>)
    ensures forall i | 0 <= i < |nodes| :: (i in Survivors(nodes) <==> Build(nodes[i]).Ok?)
  {
    if nodes != [] {
      var init := nodes[..|nodes| - 1];
      SurvivorsAreBuilt(init);
      SurvivorsIncrease(init);
      forall i | 0 <= i < |nodes| - 1
        ensures i in Survivors(nodes) <==> Build(nodes[i]).Ok?
      {
        assert nodes[i] == init[i];
      }
    }
  }

  /** The j-th record is built by the node at the j-th surviving position. */
  lemma {:induction false} SurvivorsBuildRecords(nodes: seq<IfAddrs>)
    ensures |Survivors(nodes)| == |BuildAll(nodes)|
    ensures forall j | 0 <= j < |Survivors(nodes)| ::
              Survivors(nodes)[j] < |nodes| && Build(nodes[Survivors(nodes)[j]]) == Ok(BuildAll(nodes)[j])
  {
    SurvivorsIncrease(nodes);
    if nodes != [] {
      var init, last := nodes[..|nodes| - 1], nodes[|nodes| - 1];
      SurvivorsBuildRecords(init);
      var s0, r0 := Survivors(init), BuildAll(init);
      forall j | 0 <= j < |s0|
        ensures Build(nodes[s0[j]]) == Ok(BuildAll(nodes)[j])
      {
        assert nodes[s0[j]] == init[s0[j]];
      }
    }
  }

  /** A node that fails to build, such as one without an address,
      contributes nothing and does not disturb the nodes after it. */
  lemma FailedNodeDropped(before: seq<IfAddrs>, n: IfAddrs, after: seq<IfAddrs>)
    requires Build(n).Err?
    ensures BuildAll(before + [n] + after) == BuildAll(before) + BuildAll(after)
  {
    assert Kept(n) == [];
    assert BuildAll([n]) == BuildAll([]) + Kept(n) by {
      assert [n][..0] == [];
    }
    BuildAllAppend(before + [n], after);
    BuildAllAppend(before, [n]);
  }

  /** A list in which no node builds yields no records. */
  lemma {:induction false} AllFailedYieldsNothing(nodes: seq<IfAddrs>)
    requires forall i | 0 <= i < |nodes| :: Build(nodes[i]).Err?
    ensures BuildAll(nodes) == []
  {
    if nodes != [] {
      AllFailedYieldsNothing(nodes[..|nodes| - 1]);
    }
  }

  /** One IPv4 loopback node "lo0", 127.0.0.1 with netmask 255.0.0.0 and
      no broadcast flag, yields exactly one loopback record. */
  lemma LoopbackScenario(zeros: Octets16)
    ensures var lo0 := IfAddrs("lo0", 0x49,
                               Some(SockAddr(AF_INET, [127, 0, 0, 1], zeros)),
                               Some(SockAddr(AF_INET, [255, 0, 0, 0], zeros)),
                               None);
            var r := BuildAll([lo0]);
            r == [Interface("lo0", V4([127, 0, 0, 1]), V4([255, 0, 0, 0]), None, None)] &&
            r[0].IsLoopback()
  {
  }

  /** A node whose address is in fe80::/10 yields no record. */
  lemma LinkLocalScenario(n: IfAddrs)
    requires n.addr.Some? && n.addr.value.family == AF_INET6
    requires n.addr.value.sin6Addr[0] == 0xfe && n.addr.value.sin6Addr[1] & 0xc0 == 0x80
    ensures BuildAll([n]) == []
  {
    assert [n][..0] == [];
  }

  /** What the kernel answers a `getifaddrs` call with. */
  datatype OsReply = OsError(errno: int) | OsList(nodes: seq<IfAddrs>)

  /** A list returned by `getifaddrs`, owned by its caller until freed. */
  class IfAddrsList {
    const nodes: seq<IfAddrs>
    var freed: bool

    constructor (nodes: seq<IfAddrs>)
      ensures this.nodes == nodes && !freed
    {
      this.nodes := nodes;
      freed := false;
    }

    /** The number of nodes, found by walking the list; only while it is
        not freed. */
    function Count(): (c: nat)
      requires !freed
      reads this
      ensures c == |nodes|
    {
      |nodes|
    }

    /** Reading a node is only allowed while the list is not freed. */
    function Node(i: nat): IfAddrs
      requires !freed && i < |nodes|
      reads this
    {
      nodes[i]
    }
  }

  /** The C library calls the driver makes, with the kernel's answer to
      the next query and counts of the lists handed out and released. */
  class Libc {
    var reply: OsReply
    var errno: int
    var acquired: nat
    var released: nat

    constructor (reply: OsReply)
      ensures this.reply == reply && acquired == 0 && released == 0
    {
      this.reply := reply;
      errno := 0;
      acquired := 0;
      released := 0;
    }

    /** `getifaddrs`: 0 and a fresh list, or -1 with `errno` set. */
    method GetIfAddrs() returns (rc: int, list: IfAddrsList?)
      modifies this
      ensures reply == old(reply) && released == old(released)
      ensures reply.OsError? ==>
                rc == -1 && list == null && errno == reply.errno && acquired == old(acquired)
      ensures reply.OsList? ==>
                rc == 0 && list != null && fresh(list) && list.nodes == reply.nodes && !list.freed &&
                errno == old(errno) && acquired == old(acquired) + 1
    {
      match reply
      case OsError(e) =>
        rc, list := -1, null;
        errno := e;
      case OsList(nodes) =>
        list := new IfAddrsList(nodes);
        rc := 0;
        acquired := acquired + 1;
    }

    /** `freeifaddrs`: releases a list that has not been released yet. */
    method FreeIfAddrs(list: IfAddrsList)
      requires !list.freed
      modifies this`released, list`freed
      ensures list.freed && released == old(released) + 1
    {
      list.freed := true;
      released := released + 1;
    }
  }

  /** `get_if_addrs`: the records of every node that builds, in list
      order, or the OS error when the query fails; the list is released
      exactly once when it was acquired, and never otherwise. */
  method GetIfAddrs(libc: Libc) returns (r: Result<seq<Interface>>)
    modifies libc
    ensures libc.reply == old(libc.reply)
    ensures match libc.reply
            case OsError(e) => r == Err(Os(e))
            case OsList(nodes) => r == Ok(BuildAll(nodes))
    ensures libc.acquired - old(libc.acquired) == libc.released - old(libc.released)
    ensures libc.acquired - old(libc.acquired) == if libc.reply.OsList? then 1 else 0
  {
    var rc, list := libc.GetIfAddrs();
    if rc != 0 {
      return Err(Os(libc.errno));
    }
    var addrs: seq<Interface> := [];
    var i := 0;
    while i < list.Count()
      invariant 0 <= i <= |list.nodes| && !list.freed
      invariant addrs == BuildAll(list.nodes[..i])
      decreases |list.nodes| - i
    {
      var n := list.Node(i);
      var built := Build(n);
      if built.Ok? {
        addrs := addrs + [built.value];
      }
      assert list.nodes[..i + 1][..i] == list.nodes[..i];
      i := i + 1;
    }
    assert list.nodes[..i] == list.nodes;
    libc.FreeIfAddrs(list);
    return Ok(addrs);
  }
}
