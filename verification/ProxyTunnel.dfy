/** The tunnel of one node: packets are rewritten in place, the cache and the table change with them. */
module ProxyTunnel {
  import opened Wrappers
  import opened Addresses
  import opened TranslationTable
  import opened ProxyCacheSpec
  import opened ProxyTunnelSpec
  import Environment
  import ProxyCache

  /** A decoded network layer; serializing it overwrites its addresses. */
  class IpPacket {
    const version: Family
    var srcIP: Ip
    var dstIP: Ip

    constructor (version: Family, src: Ip, dst: Ip)
      ensures this.version == version && srcIP == src && dstIP == dst
    {
      this.version, srcIP, dstIP := version, src, dst;
    }

    ghost function View(ports: Ports): Packet
      reads this
    {
      Packet(version, srcIP, dstIP, ports.source, ports.dest)
    }

    /** False stands for the nil packet of a failed serialization; the addresses are overwritten all the same. */
    method SerializePacket(dst: Ip, src: Ip) returns (ok: bool)
      modifies this
      ensures dstIP == dst && srcIP == src
      ensures ok <==> Serializes(version, src, dst)
    {
      dstIP := dst;
      srcIP := src;
      ok := Serializes(version, srcIP, dstIP);
    }
  }

  /** The ports of the transport layer of a packet. */
  datatype Ports = Ports(source: int, dest: int)

  class GoProxyTunnel {
    const overlay: Overlay
    const environment: Environment.EnvironmentManager
    const proxycache: ProxyCache.Cache

    constructor (overlay: Overlay, environment: Environment.EnvironmentManager)
      ensures this.overlay == overlay && this.environment == environment
      ensures fresh(proxycache) && fresh(proxycache.cache)
      ensures proxycache.Valid() && proxycache.View() == NewLists()
    {
      this.overlay, this.environment := overlay, environment;
      proxycache := new ProxyCache.Cache();
    }

    ghost function Table(): TranslationTable.Table
      reads environment.translationTable
    {
      environment.translationTable.translationTable
    }

    method ConvertToInstanceIp(ip: IpPacket) returns (instance: Option<Ip>)
      ensures instance == SenderInstance(Table(), ip.srcIP, ip.version)
    {
      var entry := environment.translationTable.SearchByNsIP(ip.srcIP);
      if entry.None? {
        return None;
      }
      var sips := entry.value.serviceIp;
      var instanceIP := NoIp;
      var i := 0;
      while i < |sips|
        invariant 0 <= i <= |sips|
        invariant instanceIP == InstanceIpOf(sips[..i], ip.version)
      {
        assert sips[..i + 1][..i] == sips[..i];
        if sips[i].ipType.InstanceNumber? {
          instanceIP := if ip.version.F4? then sips[i].address else sips[i].addressV6;
        }
        i := i + 1;
      }
      assert sips[..|sips|] == sips;
      instance := Some(instanceIP);
    }

    /** The cached conversion of a flow, or a new one that replaces it. */
    method ConversionFor(ip: IpPacket, ports: Ports, instance: Ip, listed: TranslationTable.Table, pick: nat, now: int)
      returns (entry: ConversionEntry)
      requires proxycache.Valid() && WellFormedPacket(ip.View(ports))
      requires listed == SearchByServiceIp(Table(), ip.dstIP) != []
      modifies proxycache.cache
      ensures proxycache.Valid()
      ensures var (e, ops) := Convert(Table(), old(proxycache.View()), ip.View(ports), instance, pick, now);
              entry == e && proxycache.View() == Run(old(proxycache.View()), ops)
    {
      ghost var pkt, c := ip.View(ports), proxycache.View();
      var hit := proxycache.RetrieveByServiceIp(ip.srcIP, instance, ports.source, ip.dstIP, ports.dest, now);
      ghost var get := Get(FlowKey(pkt, instance), pkt.sport, pkt.dport, now);
      assert [get][..0] == [] && proxycache.View() == Run(c, [get]);
      if hit.None? || hit.value.dstport < 1 || !IsNamespaceStillValid(hit.value.dstip, listed) {
        var tableEntry := listed[pick % |listed|];
        var entryDstIP := tableEntry.nsipv6;
        if ip.version.F4? {
          entryDstIP := tableEntry.nsip;
        }
        entry := ConversionEntry(ip.srcIP, entryDstIP, ip.dstIP, instance, ports.source, ports.dest);
        assert [get, Add(entry, now)][..1] == [get];
        proxycache.Add(entry, now);
      } else {
        entry := hit.value;
      }
    }

    /**
     Translates an outgoing packet; `reply` is the answer to the table query
     that an unknown destination causes, `pick` the random choice.
     */
    method OutgoingProxy(ip: IpPacket, ports: Ports, reply: Option<seq<TableEntry>>, pick: nat, now: int)
      returns (converted: bool, effects: seq<Environment.Effect>)
      requires proxycache.Valid() && WellFormedPacket(ip.View(ports))
      modifies ip, proxycache.cache, environment.translationTable
      ensures proxycache.Valid()
      ensures InOverlay(overlay, old(ip.dstIP)) ==>
                && Table() == Environment.Resolve(old(Table()), old(ip.dstIP), reply)
                && effects == Environment.ResolveEffects(old(Table()), old(ip.dstIP), reply)
      ensures !InOverlay(overlay, old(ip.dstIP)) ==> Table() == old(Table()) && effects == []
      ensures var (out, ops) := Translate(overlay, Table(), old(proxycache.View()), old(ip.View(ports)), pick, now);
              && ip.View(ports) == (if out.Some? then out.value else old(ip.View(ports)))
              && proxycache.View() == Run(old(proxycache.View()), ops)
      ensures converted <==> Outgoing(overlay, Table(), old(proxycache.View()), old(ip.View(ports)), pick, now).0.Some?
    {
      effects := [];
      if !InOverlay(overlay, ip.dstIP) {
        return false, effects;
      }
      var listed;
      listed, effects := environment.GetTableEntryByServiceIP(ip.dstIP, reply);
      if |listed| < 1 {
        return false, effects;
      }
      var instance := ConvertToInstanceIp(ip);
      if instance.None? {
        return false, effects;
      }
      var entry := ConversionFor(ip, ports, instance.value, listed, pick, now);
      converted := ip.SerializePacket(entry.dstip, entry.srcInstanceIp);
    }

    /** Translates an ingoing packet if there is a reverse conversion; otherwise the packet goes on as it came. */
    method IngoingProxy(ip: IpPacket, ports: Ports, now: int) returns (converted: bool)
      requires proxycache.Valid() && WellFormedPacket(ip.View(ports))
      modifies ip, proxycache.cache
      ensures proxycache.Valid()
      ensures proxycache.View() == Apply(old(proxycache.View()), ReverseGet(old(ip.View(ports)), now))
      ensures var back := TranslateBack(old(proxycache.View()), old(ip.View(ports)));
              && ip.View(ports) == (if back.Some? then back.value else old(ip.View(ports)))
              && (converted <==> back.Some? && Serializes(ip.version, back.value.src, back.value.dst))
      ensures Ingoing(old(proxycache.View()), old(ip.View(ports))) ==
              if converted then ip.View(ports) else old(ip.View(ports))
    {
      var entry := proxycache.RetrieveByInstanceIp(ip.dstIP, ports.dest, ports.source, now);
      if entry.None? {
        return false;
      }
      converted := ip.SerializePacket(entry.value.srcip, entry.value.dstServiceIp);
    }

    method LocateRemoteAddress(ns: Ip) returns (host: Ip, port: int)
      ensures (host, port) == RemoteAddress(Table(), ns)
    {
      var entry := environment.translationTable.SearchByNsIP(ns);
      if entry.Some? {
        return entry.value.nodeip, entry.value.nodeport;
      }
      return ns, -1;
    }

    /**
     One outgoing packet: the tunnel's end is looked up for the address that
     the translation has just written into the packet.
     */
    method OutgoingMessage(ip: IpPacket, ports: Ports, reply: Option<seq<TableEntry>>, pick: nat, now: int)
      returns (sent: Option<(Ip, int)>, effects: seq<Environment.Effect>)
      requires proxycache.Valid() && WellFormedPacket(ip.View(ports))
      modifies ip, proxycache.cache, environment.translationTable
      ensures proxycache.Valid()
      ensures InOverlay(overlay, old(ip.dstIP)) ==>
                && Table() == Environment.Resolve(old(Table()), old(ip.dstIP), reply)
                && effects == Environment.ResolveEffects(old(Table()), old(ip.dstIP), reply)
      ensures !InOverlay(overlay, old(ip.dstIP)) ==> Table() == old(Table()) && effects == []
      ensures var (out, ops) := Outgoing(overlay, Table(), old(proxycache.View()), old(ip.View(ports)), pick, now);
              && sent == (if out.Some? then Some(RemoteAddress(Table(), out.value.dst)) else None)
              && (out.Some? ==> ip.View(ports) == out.value)
              && proxycache.View() == Run(old(proxycache.View()), ops)
    {
      var converted;
      converted, effects := OutgoingProxy(ip, ports, reply, pick, now);
      if !converted {
        return None, effects;
      }
      var host, port := LocateRemoteAddress(ip.dstIP);
      sent := Some((host, port));
    }
  }
}
