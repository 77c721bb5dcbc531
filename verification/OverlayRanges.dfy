/**
 Which destinations the proxy takes for service addresses, given the pools of
 the root and the blocks of the nodes: the overlays of ProxySetup.go against
 every address that root and nodes ever hand out.
 */
module OverlayRanges {
  import opened Wrappers
  import opened Addresses
  import opened Bytes
  import opened RootAddresses
  import opened RootPools
  import opened NodePools
  import opened GlobalUniqueness
  import opened TranslationTable
  import opened ProxyCacheSpec
  import opened ProxyTunnelSpec

  /** The addresses under one 16-bit prefix of IPv6. */
  const PREFIX16: nat := 256 * P13

  /** 10.30.0.0/16 and fc00::/7, without a configuration file. */
  const BUILT_IN: Overlay := Overlay(SERVICE4_BASE, 65536, 0xFC00 * PREFIX16, 512 * PREFIX16)
  /** 10.30.0.0/16 and fcef::/21, the configuration file that is installed. */
  const INSTALLED: Overlay := Overlay(SERVICE4_BASE, 65536, 0xFCEF * PREFIX16, 8 * P13)

  /** A service address as a packet carries it. */
  function AsIp(k: Kind, a: Addr): Ip
    requires InPool(k, a)
  {
    FromBytesBound(a);
    if Width(k) == 4 then V4(Value(a)) else V6(Value(a))
  }

  lemma Block(n: int, size: int, k: int)
    requires size > 0
    ensures n / size == k <==> k * size <= n < (k + 1) * size
  {
    if n / size < k {
      MulMonotone(n / size + 1, k, size);
    } else if n / size > k {
      MulMonotone(k + 1, n / size, size);
    }
    assert (n / size + 1) * size == n / size * size + size;
  }

  /** The overlays as address ranges. */
  lemma OverlaysAsRanges(n: nat)
    ensures InOverlay(BUILT_IN, V4(n)) <==> SERVICE4_BASE <= n < SERVICE4_BASE + 65536
    ensures InOverlay(INSTALLED, V4(n)) <==> SERVICE4_BASE <= n < SERVICE4_BASE + 65536
    ensures InOverlay(BUILT_IN, V6(n)) <==> 0xFC00 * PREFIX16 <= n < 0xFE00 * PREFIX16
    ensures InOverlay(INSTALLED, V6(n)) <==> 0xFCEF * PREFIX16 <= n < 0xFCEF * PREFIX16 + 8 * P13
  {
    Block(BUILT_IN.net6, BUILT_IN.size6, 126);
    Block(n, BUILT_IN.size6, 126);
    Block(INSTALLED.net6, INSTALLED.size6, 0xFCEF * 32);
    Block(n, INSTALLED.size6, 0xFCEF * 32);
  }

  /** Every service address is taken for one by the built-in overlay; by the installed one only if it is IPv4. */
  lemma ServicesInOverlay(k: Kind, a: Addr)
    requires LooksUp(k) && InPool(k, a)
    ensures InOverlay(BUILT_IN, AsIp(k, a))
    ensures InOverlay(INSTALLED, AsIp(k, a)) <==> k.Service4?
  {
    OverlaysAsRanges(Number(AsIp(k, a)));
    if k.Service4? {
      Service4Block(a);
    } else {
      assert a[0] == a[..6][0] && a[1] == a[..6][1];
      SixteenBytesHigh(a);
    }
  }

  /** A container address is never taken for a service address in IPv4, and always in IPv6 by the built-in overlay. */
  lemma ContainersInOverlay(events: seq<WorldEvent>, i: nat, ip: Ip)
    requires i < |RunWorld(events).nodes|
    ensures Uses4(RunWorld(events).nodes[i], ip) ==> !InOverlay(BUILT_IN, ip) && !InOverlay(INSTALLED, ip)
    ensures Uses6(RunWorld(events).nodes[i], ip) ==> InOverlay(BUILT_IN, ip)
  {
    var m := RunWorld(events).nodes[i];
    assert MemberInv(m);
    AddressesLieInTheBlock(m, ip);
    Subnet6Block(m.subnet6);
    RankBound(Subnet6, m.subnet6);
    if !ip.NoIp? {
      OverlaysAsRanges(Number(ip));
    }
  }

  /**
   What this does to packets. To an IPv6 service the installed overlay drops
   every packet, while the built-in one drops only what it cannot translate
   and what has no source address to carry.
   */
  lemma PacketsToServices(k: Kind, a: Addr, t: Table, c: Lists, pkt: Packet, pick: nat, now: int)
    requires LooksUp(k) && InPool(k, a) && WellFormedPacket(pkt) && pkt.dst == AsIp(k, a)
    requires ValidLists(c) && OneFamily(c) && Typed(t)
    ensures var lost := || (forall e <- t :: !Serves(e, pkt.dst))
                        || (forall e <- t :: !HasNs(e, pkt.src))
                        || WithoutInstanceAddress(t, pkt.src, pkt.version);
            && (Outgoing(BUILT_IN, t, c, pkt, pick, now).0.None? <==> lost)
            && (Outgoing(INSTALLED, t, c, pkt, pick, now).0.None? <==> lost || !k.Service4?)
  {
    ServicesInOverlay(k, a);
    DroppedExactly(BUILT_IN, t, c, pkt, pick, now);
    DroppedExactly(INSTALLED, t, c, pkt, pick, now);
  }

  /** Between containers, IPv4 packets are never translated: both overlays leave them out. */
  lemma PacketsToContainers(events: seq<WorldEvent>, i: nat, t: Table, c: Lists, pkt: Packet, pick: nat, now: int)
    requires i < |RunWorld(events).nodes| && ValidLists(c) && WellFormedPacket(pkt)
    ensures Uses4(RunWorld(events).nodes[i], pkt.dst) ==>
              && Outgoing(BUILT_IN, t, c, pkt, pick, now) == (None, [])
              && Outgoing(INSTALLED, t, c, pkt, pick, now) == (None, [])
  {
    ContainersInOverlay(events, i, pkt.dst);
  }

  // ---------- The address of the tunnel device ----------

  /** 10.19.1.254 and fcef::dead:beef, in both configurations. */
  const TUN4: Addr := [10, 19, 1, 254]
  const TUN6: Addr := [0xFC, 0xEF, 0, 0, 0, 0, 0, 0, 0, 0, 0, 0, 0xDE, 0xAD, 0xBE, 0xEF]

  /** The worker subnets that hold them. */
  const TUN4_SUBNET: Addr := [10, 19, 1, 192]
  const TUN6_SUBNET: Addr := TUN6[..15] + [0]

  /** A node can give the IPv4 address of its tunnel device to a container if and only if it has that subnet. */
  lemma TunnelAddress4Exactly(m: Member)
    requires MemberInv(m)
    ensures Value(TUN4) >= 0
    ensures Usable(m.run.state.p4, V4(Value(TUN4))) <==> m.subnet4 == TUN4_SUBNET
  {
    FourBytes(TUN4);
    Subnet4Block(m.subnet4);
    Subnet4Block(TUN4_SUBNET);
    if Rank(Subnet4, m.subnet4) == Rank(Subnet4, TUN4_SUBNET) {
      RankInjective(Subnet4, m.subnet4, TUN4_SUBNET);
    }
  }

  lemma TunnelValue6()
    ensures InPool(Subnet6, TUN6_SUBNET) && 0 <= Value(TUN6) == Value(TUN6_SUBNET) + 0xEF
  {
    FromBytesBound(TUN6);
    assert TUN6[..|TUN6| - 1] == TUN6_SUBNET[..|TUN6_SUBNET| - 1];
  }

  /** The same for IPv6. */
  lemma TunnelAddress6Exactly(m: Member)
    requires MemberInv(m)
    ensures Value(TUN6) >= 0
    ensures Usable(m.run.state.p6, V6(Value(TUN6))) <==> m.subnet6 == TUN6_SUBNET
  {
    TunnelValue6();
    Subnet6Block(m.subnet6);
    Subnet6Block(TUN6_SUBNET);
    if Rank(Subnet6, m.subnet6) == Rank(Subnet6, TUN6_SUBNET) {
      RankInjective(Subnet6, m.subnet6, TUN6_SUBNET);
    }
  }

  /** So in every run, only a container on one of these two subnets can have an address of the tunnel device. */
  lemma TunnelAddressStaysFree(events: seq<WorldEvent>, i: nat)
    requires i < |RunWorld(events).nodes|
    ensures Value(TUN4) >= 0 && Value(TUN6) >= 0
    ensures var m := RunWorld(events).nodes[i];
            && (Uses4(m, V4(Value(TUN4))) ==> m.subnet4 == TUN4_SUBNET)
            && (Uses6(m, V6(Value(TUN6))) ==> m.subnet6 == TUN6_SUBNET)
  {
    var m := RunWorld(events).nodes[i];
    assert MemberInv(m);
    TunnelAddress4Exactly(m);
    TunnelAddress6Exactly(m);
    if Uses4(m, V4(Value(TUN4))) { AddressesAreUsable(m, V4(Value(TUN4))); }
    if Uses6(m, V6(Value(TUN6))) { AddressesAreUsable(m, V6(Value(TUN6))); }
  }
}
