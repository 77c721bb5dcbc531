/**
 The translation of packets by the proxy of one node, on values: the node's
 translation table and conversion cache, and the packet's addresses and ports.
 */
module ProxyTunnelSpec {
  import opened Wrappers
  import opened Addresses
  import opened TranslationTable
  import opened ProxyCacheSpec

  datatype Packet = Packet(version: Family, src: Ip, dst: Ip, sport: int, dport: int)

  predicate WellFormedPacket(pkt: Packet)
  {
    && OfFamily(pkt.src, pkt.version) && OfFamily(pkt.dst, pkt.version)
    && IsPort(pkt.sport) && IsPort(pkt.dport)
  }

  type BlockSize = n: nat | n > 0 witness 1

  /** The semantic subnetworks: a network number and the size of its block, for each family. */
  datatype Overlay = Overlay(net4: nat, size4: BlockSize, net6: nat, size6: BlockSize)

  predicate InOverlay(o: Overlay, dst: Ip)
  {
    match dst
    case NoIp => false
    case V4(n) => n / o.size4 == o.net4 / o.size4
    case V6(n) => n / o.size6 == o.net6 / o.size6
  }

  /** The namespace address of an entry in one family. */
  function NsOf(e: TableEntry, f: Family): Ip {
    if f.F4? then e.nsip else e.nsipv6
  }

  /** The address of the last instance-number service address; none if there is no such address. */
  function InstanceIpOf(sips: seq<ServiceIp>, f: Family): Ip
  {
    if sips == [] then NoIp else
    var last := sips[|sips| - 1];
    if last.ipType.InstanceNumber? then (if f.F4? then last.address else last.addressV6)
    else InstanceIpOf(sips[..|sips| - 1], f)
  }

  /** The last instance-number address of a list is taken in the family asked for. */
  lemma {:induction false} InstanceIpOfLast(sips: seq<ServiceIp>, k: nat)
    requires k < |sips| && sips[k].ipType.InstanceNumber?
    requires forall j | k < j < |sips| :: !sips[j].ipType.InstanceNumber?
    ensures InstanceIpOf(sips, F4) == sips[k].address
    ensures InstanceIpOf(sips, F6) == sips[k].addressV6
  {
    if k < |sips| - 1 {
      InstanceIpOfLast(sips[..|sips| - 1], k);
    }
  }

  lemma {:induction false} InstanceIpOfNone(sips: seq<ServiceIp>, f: Family)
    requires forall s <- sips :: !s.ipType.InstanceNumber?
    ensures InstanceIpOf(sips, f) == NoIp
  {
    if sips != [] {
      assert sips[|sips| - 1] in sips;
      InstanceIpOfNone(sips[..|sips| - 1], f);
    }
  }

  /** The position of the last instance-number address of a list. */
  ghost predicate LastInstance(sips: seq<ServiceIp>, k: int) {
    && 0 <= k < |sips| && sips[k].ipType == InstanceNumber
    && forall j | k < j < |sips| :: sips[j].ipType != InstanceNumber
  }

  lemma {:induction false} FindLastInstance(sips: seq<ServiceIp>) returns (k: int)
    ensures k == -1 ==> forall s <- sips :: s.ipType != InstanceNumber
    ensures k != -1 ==> LastInstance(sips, k)
  {
    if sips == [] { return -1; }
    k := |sips| - 1;
    if sips[k].ipType != InstanceNumber {
      k := FindLastInstance(sips[..k]);
    }
  }

  /** The instance address of the container that owns a namespace address. */
  function SenderInstance(t: Table, src: Ip, f: Family): Option<Ip> {
    match SearchByNsIp(t, src)
    case None => None
    case Some(e) => Some(InstanceIpOf(e.serviceIp, f))
  }

  /** The sender is known by the first entry with its namespace address. */
  lemma SenderIsFirst(t: Table, i: nat, src: Ip, f: Family)
    requires i < |t| && (t[i].nsip == src || t[i].nsipv6 == src)
    requires forall j | 0 <= j < i :: t[j].nsip != src && t[j].nsipv6 != src
    ensures SenderInstance(t, src, f) == Some(InstanceIpOf(t[i].serviceIp, f))
  {
    var k := FindNs(t, src);
    assert !(k < i) && !(i < k);
  }

  lemma SenderIsUnknown(t: Table, src: Ip, f: Family)
    ensures SenderInstance(t, src, f).None? <==> forall e <- t :: e.nsip != src && e.nsipv6 != src
  {
    var k := FindNs(t, src);
    if k < |t| {
      assert t[k] in t;
    }
  }

  /**
   The instance address of a sender, from the first entry that has its
   namespace address and the last instance-number address of that entry.
   */
  lemma SenderExactly(t: Table, src: Ip, f: Family)
    requires SenderInstance(t, src, f).Some?
    ensures exists i :: 0 <= i < |t| && (t[i].nsip == src || t[i].nsipv6 == src)
              && (forall j | 0 <= j < i :: t[j].nsip != src && t[j].nsipv6 != src)
              && InstanceOf(t[i].serviceIp, f, SenderInstance(t, src, f).value)
  {
    var i := FindNs(t, src);
    var k := FindLastInstance(t[i].serviceIp);
    if k == -1 {
      InstanceIpOfNone(t[i].serviceIp, f);
    } else {
      InstanceIpOfLast(t[i].serviceIp, k);
    }
  }

  /** No address at all stands for a list without instance numbers. */
  ghost predicate InstanceOf(sips: seq<ServiceIp>, f: Family, ip: Ip) {
    || (exists k :: LastInstance(sips, k) && ip == if f == F4 then sips[k].address else sips[k].addressV6)
    || ((forall s <- sips :: s.ipType != InstanceNumber) && ip == NoIp)
  }

  function FlowKey(pkt: Packet, instance: Ip): Key {
    ByService(pkt.src, instance, pkt.dst)
  }

  /** A cached conversion is used again only for a real port and while its destination is listed. */
  predicate Reusable(hit: Option<ConversionEntry>, listed: Table) {
    hit.Some? && hit.value.dstport >= 1 && IsNamespaceStillValid(hit.value.dstip, listed)
  }

  function NewEntry(pkt: Packet, instance: Ip, listed: Table, pick: nat): ConversionEntry
    requires listed != []
  {
    ConversionEntry(pkt.src, NsOf(listed[pick % |listed|], pkt.version), pkt.dst, instance, pkt.sport, pkt.dport)
  }

  /** The conversion an outgoing packet gets, and the cache operations on the way. */
  function Convert(t: Table, c: Lists, pkt: Packet, instance: Ip, pick: nat, now: int): (r: (ConversionEntry, seq<Op>))
    requires ValidLists(c) && WellFormedPacket(pkt) && SearchByServiceIp(t, pkt.dst) != []
    ensures WellFormedOps(r.1)
  {
    var listed := SearchByServiceIp(t, pkt.dst);
    var get := Get(FlowKey(pkt, instance), pkt.sport, pkt.dport, now);
    var hit := Retrieve(c, FlowKey(pkt, instance), pkt.sport, pkt.dport);
    if Reusable(hit, listed) then
      (hit.value, [get])
    else
      var e := NewEntry(pkt, instance, listed, pick);
      (e, [get, Add(e, now)])
  }

  /** What the addresses of an outgoing packet are overwritten with. */
  function Translate(o: Overlay, t: Table, c: Lists, pkt: Packet, pick: nat, now: int): (r: (Option<Packet>, seq<Op>))
    requires ValidLists(c) && WellFormedPacket(pkt)
    ensures WellFormedOps(r.1)
  {
    if !InOverlay(o, pkt.dst) || SearchByServiceIp(t, pkt.dst) == [] then (None, []) else
    match SenderInstance(t, pkt.src, pkt.version)
    case None => (None, [])
    case Some(instance) =>
      var (e, ops) := Convert(t, c, pkt, instance, pick, now);
      (Some(pkt.(src := e.srcInstanceIp, dst := e.dstip)), ops)
  }

  /** An IPv4 header needs two IPv4 addresses; an IPv6 header takes any two. */
  predicate Serializes(f: Family, src: Ip, dst: Ip) {
    if f.F4? then src.V4? && dst.V4? else !src.NoIp? && !dst.NoIp?
  }

  /** The packet that is sent: none without a translation, or if it cannot be serialized. */
  function Outgoing(o: Overlay, t: Table, c: Lists, pkt: Packet, pick: nat, now: int): (r: (Option<Packet>, seq<Op>))
    requires ValidLists(c) && WellFormedPacket(pkt)
    ensures WellFormedOps(r.1)
  {
    var (out, ops) := Translate(o, t, c, pkt, pick, now);
    (if out.Some? && Serializes(pkt.version, out.value.src, out.value.dst) then out else None, ops)
  }

  function ReverseGet(pkt: Packet, now: int): Op {
    Get(ByInstance(pkt.dst), pkt.dport, pkt.sport, now)
  }

  /** What the addresses of an ingoing packet are overwritten with. */
  function TranslateBack(c: Lists, pkt: Packet): Option<Packet>
    requires ValidLists(c) && WellFormedPacket(pkt)
  {
    match Retrieve(c, ByInstance(pkt.dst), pkt.dport, pkt.sport)
    case None => None
    case Some(e) => Some(pkt.(src := e.dstServiceIp, dst := e.srcip))
  }

  /** A packet without a reverse conversion that can be serialized is delivered as it came. */
  function Ingoing(c: Lists, pkt: Packet): Packet
    requires ValidLists(c) && WellFormedPacket(pkt)
  {
    var back := TranslateBack(c, pkt);
    if back.Some? && Serializes(pkt.version, back.value.src, back.value.dst) then back.value else pkt
  }

  /** The slots of a list without a reverse conversion for the packet. */
  predicate NoReverse(slots: seq<ConversionEntry>, pkt: Packet) {
    forall e <- slots :: !(e.dstport == pkt.sport && e.srcip == pkt.dst)
  }

  /** Without a reverse conversion in the list of its destination port, a packet and the cache stay. */
  lemma IngoingMiss(c: Lists, pkt: Packet, now: int)
    requires ValidLists(c) && WellFormedPacket(pkt) && NoReverse(c[pkt.dport].slots, pkt)
    ensures Ingoing(c, pkt) == pkt && Apply(c, ReverseGet(pkt, now)) == c
  {
  }

  /** With one, the first is used: the packet comes from the service address, and the list is in use now. */
  lemma IngoingHit(c: Lists, pkt: Packet, now: int, i: nat)
    requires ValidLists(c) && WellFormedPacket(pkt) && i < |c[pkt.dport].slots|
    requires c[pkt.dport].slots[i].dstport == pkt.sport && c[pkt.dport].slots[i].srcip == pkt.dst
    requires NoReverse(c[pkt.dport].slots[..i], pkt)
    ensures var service := c[pkt.dport].slots[i].dstServiceIp;
            Ingoing(c, pkt) ==
            if (if pkt.version == F4 then service.V4? else service != NoIp) then pkt.(src := service) else pkt
    ensures Apply(c, ReverseGet(pkt, now)) == c[pkt.dport := c[pkt.dport].(lastUsed := now)]
  {
    FirstMatch(c[pkt.dport].slots, ByInstance(pkt.dst), pkt.sport, i);
  }

  lemma {:induction false} FirstMatch(slots: seq<ConversionEntry>, key: Key, dstport: int, i: nat)
    requires i < |slots| && Matches(slots[i], key, dstport)
    requires forall e <- slots[..i] :: !Matches(e, key, dstport)
    ensures Lookup(slots, key, dstport) == Some(slots[i])
  {
    if i > 0 {
      assert slots[0] in slots[..i] && slots[1..][..i - 1] == slots[..i][1..];
      FirstMatch(slots[1..], key, dstport, i - 1);
    }
  }

  // ---------- Runs of one proxy ----------

  datatype ProxyEvent =
    | Send(t: Table, pkt: Packet, pick: nat, now: int)
    | Receive(pkt: Packet, now: int)
    | Expire(now: int, timeout: int)

  /** Packets are well formed; the table of the moment is typed. */
  ghost predicate RealEvent(e: ProxyEvent)
  {
    match e
    case Send(t, pkt, _, _) => Typed(t) && WellFormedPacket(pkt)
    case Receive(pkt, _) => WellFormedPacket(pkt)
    case Expire(_, _) => true
  }

  function EventOps(o: Overlay, c: Lists, e: ProxyEvent): (ops: seq<Op>)
    requires ValidLists(c) && (e.Send? || e.Receive? ==> WellFormedPacket(e.pkt))
    ensures WellFormedOps(ops)
  {
    match e
    case Send(t, pkt, pick, now) => Outgoing(o, t, c, pkt, pick, now).1
    case Receive(pkt, now) => [ReverseGet(pkt, now)]
    case Expire(now, timeout) => [EvictOld(now, timeout)]
  }

  /** The cache operations of a whole run of a proxy; the table may change between events. */
  ghost function ProxyOps(o: Overlay, events: seq<ProxyEvent>): (ops: seq<Op>)
    requires forall e <- events :: RealEvent(e)
    ensures WellFormedOps(ops)
  {
    if events == [] then [] else
    var before, e := ProxyOps(o, events[..|events| - 1]), events[|events| - 1];
    assert RealEvent(e);
    before + EventOps(o, Run(NewLists(), before), e)
  }

  ghost function ProxyCacheAfter(o: Overlay, events: seq<ProxyEvent>): (c: Lists)
    requires forall e <- events :: RealEvent(e)
    ensures ValidLists(c)
  {
    Run(NewLists(), ProxyOps(o, events))
  }

  predicate SameFamily(x: Ip, y: Ip) {
    (x.V4? && y.V4?) || (x.V6? && y.V6?)
  }

  /** A conversion never leaves the family of its sender. */
  predicate AddsOneFamily(ops: seq<Op>) {
    forall op <- ops :: op.Add? ==> SameFamily(op.e.srcip, op.e.dstip)
  }

  ghost predicate OneFamily(c: Lists)
    requires ValidLists(c)
  {
    forall p | IsPort(p) :: forall e <- c[p].slots :: e == ZERO || SameFamily(e.srcip, e.dstip)
  }

  lemma {:induction false} RunOneFamily(ops: seq<Op>)
    requires WellFormedOps(ops) && AddsOneFamily(ops)
    ensures OneFamily(Run(NewLists(), ops))
  {
    if ops != [] {
      var front, op := ops[..|ops| - 1], ops[|ops| - 1];
      assert op in ops && forall x <- front :: x in ops;
      RunOneFamily(front);
      if op.Add? {
        AddOneFamily(Run(NewLists(), front), op.e, op.now);
      }
    }
  }

  lemma AddOneFamily(c: Lists, e: ConversionEntry, now: int)
    requires ValidLists(c) && OneFamily(c) && IsPort(e.srcport) && SameFamily(e.srcip, e.dstip)
    ensures OneFamily(ProxyCacheSpec.AddEntry(c, e, now))
  {
    var l := c[e.srcport];
    var slots := if l.slots == [] then Zeros(RING_SIZE) else l.slots;
    assert forall i | 0 <= i < |slots| :: slots[i] == ZERO || SameFamily(slots[i].srcip, slots[i].dstip);
    forall x <- AddToList(l, e, now).slots ensures x == ZERO || SameFamily(x.srcip, x.dstip) {
      assert x == e || exists i | 0 <= i < |slots| :: x == slots[i];
    }
  }

  lemma OutgoingAddsOneFamily(o: Overlay, t: Table, c: Lists, pkt: Packet, pick: nat, now: int)
    requires ValidLists(c) && WellFormedPacket(pkt) && Typed(t)
    ensures AddsOneFamily(Outgoing(o, t, c, pkt, pick, now).1)
  {
    var listed := SearchByServiceIp(t, pkt.dst);
    if listed != [] {
      var e := listed[pick % |listed|];
      assert e in listed;
      SearchByServiceIpMembers(t, pkt.dst, e);
    }
  }

  lemma {:induction false} ProxyOneFamily(o: Overlay, events: seq<ProxyEvent>)
    requires forall e <- events :: RealEvent(e)
    ensures AddsOneFamily(ProxyOps(o, events)) && OneFamily(ProxyCacheAfter(o, events))
  {
    if events != [] {
      var front, e := events[..|events| - 1], events[|events| - 1];
      ProxyOneFamily(o, front);
      assert e in events && RealEvent(e);
      if e.Send? {
        OutgoingAddsOneFamily(o, e.t, ProxyCacheAfter(o, front), e.pkt, e.pick, e.now);
      }
    }
    RunOneFamily(ProxyOps(o, events));
  }

  // ---------- Forwarding ----------

  /** When an outgoing packet is translated. */
  lemma TranslatedExactly(o: Overlay, t: Table, c: Lists, pkt: Packet, pick: nat, now: int)
    requires ValidLists(c) && WellFormedPacket(pkt)
    ensures Translate(o, t, c, pkt, pick, now).0.Some? <==>
            && InOverlay(o, pkt.dst)
            && (exists e <- t :: exists s <- e.serviceIp :: s.address == pkt.dst || s.addressV6 == pkt.dst)
            && (exists e <- t :: e.nsip == pkt.src || e.nsipv6 == pkt.src)
  {
    var listed := SearchByServiceIp(t, pkt.dst);
    forall e ensures e in listed <==> e in t && Serves(e, pkt.dst) {
      SearchByServiceIpMembers(t, pkt.dst, e);
    }
    if listed != [] {
      assert listed[0] in listed;
    }
    var i := FindNs(t, pkt.src);
    if i < |t| {
      assert t[i] in t;
    }
  }

  /**
   The table knows the sender, but no instance address that a packet of the
   family can carry: an IPv4 packet needs an IPv4 one, an IPv6 packet any.
   */
  ghost predicate WithoutInstanceAddress(t: Table, src: Ip, f: Family) {
    exists i :: 0 <= i < |t| && (t[i].nsip == src || t[i].nsipv6 == src)
      && (forall j | 0 <= j < i :: t[j].nsip != src && t[j].nsipv6 != src)
      && forall k | LastInstance(t[i].serviceIp, k) ::
           if f == F4 then !t[i].serviceIp[k].address.V4? else t[i].serviceIp[k].addressV6 == NoIp
  }

  lemma WithoutInstanceAddressExactly(t: Table, src: Ip, f: Family)
    ensures WithoutInstanceAddress(t, src, f) <==>
            var instance := SenderInstance(t, src, f);
            instance.Some? && if f.F4? then !instance.value.V4? else instance.value.NoIp?
  {
    var i := FindNs(t, src);
    if i < |t| {
      var sips := t[i].serviceIp;
      var k := FindLastInstance(sips);
      if k == -1 {
        InstanceIpOfNone(sips, f);
      } else {
        InstanceIpOfLast(sips, k);
      }
      forall j | LastInstance(sips, j) ensures j == k { assert !(j < k) && !(k < j); }
    }
  }

  /** What is sent: whatever is in the overlay, has a server and comes from a sender with an instance address. */
  lemma SentCondition(o: Overlay, t: Table, c: Lists, pkt: Packet, pick: nat, now: int)
    requires ValidLists(c) && OneFamily(c) && Typed(t) && WellFormedPacket(pkt)
    ensures Outgoing(o, t, c, pkt, pick, now).0.Some? <==>
            && InOverlay(o, pkt.dst)
            && (exists e <- t :: Serves(e, pkt.dst))
            && var instance := SenderInstance(t, pkt.src, pkt.version);
            && instance.Some? && if pkt.version.F4? then instance.value.V4? else !instance.value.NoIp?
  {
    TranslatedExactly(o, t, c, pkt, pick, now);
    TranslationIsSafe(o, t, c, pkt, pick, now);
    SenderIsUnknown(t, pkt.src, pkt.version);
  }

  /**
   When an outgoing packet is dropped. Caches of one family are all that runs
   leave (ProxyOneFamily).
   */
  lemma DroppedExactly(o: Overlay, t: Table, c: Lists, pkt: Packet, pick: nat, now: int)
    requires ValidLists(c) && OneFamily(c) && Typed(t) && WellFormedPacket(pkt)
    ensures Outgoing(o, t, c, pkt, pick, now).0.None? <==>
            || !InOverlay(o, pkt.dst)
            || (forall e <- t :: forall s <- e.serviceIp :: s.address != pkt.dst && s.addressV6 != pkt.dst)
            || (forall e <- t :: e.nsip != pkt.src && e.nsipv6 != pkt.src)
            || WithoutInstanceAddress(t, pkt.src, pkt.version)
  {
    SentCondition(o, t, c, pkt, pick, now);
    SenderIsUnknown(t, pkt.src, pkt.version);
    WithoutInstanceAddressExactly(t, pkt.src, pkt.version);
    assert (exists e <- t :: Serves(e, pkt.dst)) <==>
           exists e <- t :: exists s <- e.serviceIp :: s.address == pkt.dst || s.addressV6 == pkt.dst;
  }

  /** A namespace address, in one family, of an entry that lists the service address. */
  ghost predicate GoesTo(t: Table, service: Ip, f: Family, ns: Ip) {
    exists e <- t :: ns == (if f == F4 then e.nsip else e.nsipv6)
                     && exists s <- e.serviceIp :: s.address == service || s.addressV6 == service
  }

  /** The last instance-number address, in one family, of the first entry that has the namespace address. */
  ghost predicate ComesFrom(t: Table, ns: Ip, f: Family, ip: Ip) {
    exists i, k :: 0 <= i < |t| && (t[i].nsip == ns || t[i].nsipv6 == ns)
      && (forall j | 0 <= j < i :: t[j].nsip != ns && t[j].nsipv6 != ns)
      && LastInstance(t[i].serviceIp, k)
      && ip == if f == F4 then t[i].serviceIp[k].address else t[i].serviceIp[k].addressV6
  }

  lemma SenderComesFrom(t: Table, ns: Ip, f: Family, ip: Ip)
    requires SenderInstance(t, ns, f) == Some(ip) && ip != NoIp
    ensures ComesFrom(t, ns, f, ip)
    ensures TypedServices(t) ==> if f == F4 then !ip.V6? else !ip.V4?
  {
    SenderExactly(t, ns, f);
    var i :| 0 <= i < |t| && (t[i].nsip == ns || t[i].nsipv6 == ns)
      && (forall j | 0 <= j < i :: t[j].nsip != ns && t[j].nsipv6 != ns) && InstanceOf(t[i].serviceIp, f, ip);
    var k :| LastInstance(t[i].serviceIp, k)
      && ip == if f == F4 then t[i].serviceIp[k].address else t[i].serviceIp[k].addressV6;
    assert t[i] in t && t[i].serviceIp[k] in t[i].serviceIp;
  }

  /**
   Every packet the proxy sends, in any run, goes to a namespace address of
   the packet's family in an entry that lists its service address at that
   moment. It carries its own ports and its sender's instance address, also of
   its family if the table's service addresses are typed.
   */
  lemma ForwardingSafety(o: Overlay, events: seq<ProxyEvent>, t: Table, pkt: Packet, pick: nat, now: int)
    requires forall e <- events :: RealEvent(e)
    requires RealEvent(Send(t, pkt, pick, now))
    ensures var out := Outgoing(o, t, ProxyCacheAfter(o, events), pkt, pick, now).0;
            out.Some? ==>
              && GoesTo(t, pkt.dst, pkt.version, out.value.dst)
              && ComesFrom(t, pkt.src, pkt.version, out.value.src)
              && (if pkt.version == F4 then out.value.dst.V4? else out.value.dst.V6?)
              && (TypedServices(t) ==> if pkt.version == F4 then out.value.src.V4? else out.value.src.V6?)
              && out.value == pkt.(src := out.value.src, dst := out.value.dst)
  {
    ProxyOneFamily(o, events);
    ConvertIsSafe(o, t, ProxyCacheAfter(o, events), pkt, pick, now);
    var out := Outgoing(o, t, ProxyCacheAfter(o, events), pkt, pick, now).0;
    if out.Some? {
      assert Serializes(pkt.version, out.value.src, out.value.dst);
      SenderComesFrom(t, pkt.src, pkt.version, out.value.src);
    }
  }

  /** Service addresses stand in the field of their family. */
  ghost predicate TypedServices(t: Table) {
    forall e <- t :: forall s <- e.serviceIp :: !s.address.V6? && !s.addressV6.V4?
  }

  lemma ConvertIsSafe(o: Overlay, t: Table, c: Lists, pkt: Packet, pick: nat, now: int)
    requires ValidLists(c) && OneFamily(c) && Typed(t) && WellFormedPacket(pkt)
    ensures var out := Outgoing(o, t, c, pkt, pick, now).0;
            out.Some? ==>
              && (exists e :: e in SearchByServiceIp(t, pkt.dst) && out.value.dst == NsOf(e, pkt.version))
              && (exists e <- t :: Serves(e, pkt.dst) && out.value.dst == NsOf(e, pkt.version))
              && Some(out.value.src) == SenderInstance(t, pkt.src, pkt.version)
              && OfFamily(out.value.dst, pkt.version)
  {
    TranslationIsSafe(o, t, c, pkt, pick, now);
  }

  lemma TranslationIsSafe(o: Overlay, t: Table, c: Lists, pkt: Packet, pick: nat, now: int)
    requires ValidLists(c) && OneFamily(c) && Typed(t) && WellFormedPacket(pkt)
    ensures var out := Translate(o, t, c, pkt, pick, now).0;
            out.Some? ==>
              && (exists e :: e in SearchByServiceIp(t, pkt.dst) && out.value.dst == NsOf(e, pkt.version))
              && (exists e <- t :: Serves(e, pkt.dst) && out.value.dst == NsOf(e, pkt.version))
              && Some(out.value.src) == SenderInstance(t, pkt.src, pkt.version)
              && OfFamily(out.value.dst, pkt.version)
  {
    var out := Translate(o, t, c, pkt, pick, now).0;
    if out.Some? {
      var listed := SearchByServiceIp(t, pkt.dst);
      var instance := SenderInstance(t, pkt.src, pkt.version).value;
      var hit := Retrieve(c, FlowKey(pkt, instance), pkt.sport, pkt.dport);
      if Reusable(hit, listed) {
        var e :| e in listed && HasNs(e, hit.value.dstip);
        SearchByServiceIpMembers(t, pkt.dst, e);
        assert SameFamily(hit.value.srcip, hit.value.dstip);
        assert out.value.dst == NsOf(e, pkt.version);
      } else {
        var e := listed[pick % |listed|];
        assert e in listed;
        SearchByServiceIpMembers(t, pkt.dst, e);
        assert out.value.dst == NsOf(e, pkt.version);
      }
    }
  }

  /** Where a forwarded packet is tunnelled to: an invalid port stands for nowhere. */
  function RemoteAddress(t: Table, ns: Ip): (Ip, int) {
    match SearchByNsIp(t, ns)
    case None => (ns, -1)
    case Some(e) => (e.nodeip, e.nodeport)
  }

  /** The tunnel end is the node of the first entry with the address; an unknown address has port -1. */
  lemma RemoteAddressExactly(t: Table, ns: Ip)
    ensures (forall e <- t :: e.nsip != ns && e.nsipv6 != ns) ==> RemoteAddress(t, ns) == (ns, -1)
    ensures (exists e <- t :: e.nsip == ns || e.nsipv6 == ns) ==>
              exists i :: 0 <= i < |t| && (t[i].nsip == ns || t[i].nsipv6 == ns)
                && (forall j | 0 <= j < i :: t[j].nsip != ns && t[j].nsipv6 != ns)
                && RemoteAddress(t, ns) == (t[i].nodeip, t[i].nodeport)
  {
    var i := FindNs(t, ns);
    if i < |t| {
      assert t[i] in t;
    }
  }

  /** No other entry of the table has the namespace address. */
  ghost predicate OwnsAlone(t: Table, e: TableEntry, ns: Ip) {
    e in t && HasNs(e, ns) && forall x <- t | HasNs(x, ns) :: x == e
  }

  /** Where one entry owns its new destination, a packet is tunnelled to that entry's node, and the entry serves it. */
  lemma TunnelledToTheOwner(o: Overlay, events: seq<ProxyEvent>, t: Table, pkt: Packet, pick: nat, now: int,
                            e: TableEntry)
    requires forall e <- events :: RealEvent(e)
    requires RealEvent(Send(t, pkt, pick, now))
    requires var out := Outgoing(o, t, ProxyCacheAfter(o, events), pkt, pick, now).0;
             out.Some? && OwnsAlone(t, e, out.value.dst)
    ensures var out := Outgoing(o, t, ProxyCacheAfter(o, events), pkt, pick, now).0;
            RemoteAddress(t, out.value.dst) == (e.nodeip, e.nodeport) && Serves(e, pkt.dst)
  {
    ForwardingSafety(o, events, t, pkt, pick, now);
    var dst := Outgoing(o, t, ProxyCacheAfter(o, events), pkt, pick, now).0.value.dst;
    var i := FindNs(t, dst);
    var j :| 0 <= j < |t| && t[j] == e;
    assert i <= j && t[i] in t;
    var x :| x in t && Serves(x, pkt.dst) && dst == NsOf(x, pkt.version);
  }

  /** Tables are maps, so for IPv4 that is every entry with the address. */
  lemma OwnersOfIPv4(t: Table, e: TableEntry, ns: Ip)
    requires MapInv(t) && ns.V4?
    ensures OwnsAlone(t, e, ns) <==> e in t && e.nsip == ns
  {
    forall x <- t | HasNs(x, ns) && e in t && e.nsip == ns ensures x == e {
      var i :| 0 <= i < |t| && t[i] == x;
      var j :| 0 <= j < |t| && t[j] == e;
    }
  }

  // ---------- Stickiness ----------

  /** The cached conversion for a pair of ports. */
  function EntryFor(c: Lists, srcport: int, dstport: int): Option<ConversionEntry>
    requires ValidLists(c) && IsPort(srcport)
  {
    var i := FindPort(c[srcport].slots, dstport);
    if i < |c[srcport].slots| then Some(c[srcport].slots[i]) else None
  }

  lemma {:induction false} LookupFirst(slots: seq<ConversionEntry>, key: Key, dstport: int)
    requires var i := FindPort(slots, dstport); i < |slots| && Matches(slots[i], key, dstport)
    ensures Lookup(slots, key, dstport) == Some(slots[FindPort(slots, dstport)])
  {
    if slots[0].dstport != dstport {
      LookupFirst(slots[1..], key, dstport);
    }
  }

  lemma LookupIsEntry(c: Lists, key: Key, srcport: int, dstport: int)
    requires ValidLists(c) && IsPort(srcport) && DistinctPorts(c[srcport].slots) && key.srcip != NoIp
    ensures Retrieve(c, key, srcport, dstport) ==
            (var e := EntryFor(c, srcport, dstport); if e.Some? && Matches(e.value, key, dstport) then e else None)
  {
    var slots := c[srcport].slots;
    var i, r := FindPort(slots, dstport), Lookup(slots, key, dstport);
    if i < |slots| && Matches(slots[i], key, dstport) {
      LookupFirst(slots, key, dstport);
    } else if r.Some? {
      var j :| 0 <= j < |slots| && slots[j] == r.value;
    }
  }

  lemma AddedEntry(c: Lists, e: ConversionEntry, now: int)
    requires ValidLists(c) && IsPort(e.srcport)
    ensures EntryFor(ProxyCacheSpec.AddEntry(c, e, now), e.srcport, e.dstport) == Some(e)
  {
    var l := c[e.srcport];
    var slots := if l.slots == [] then Zeros(RING_SIZE) else l.slots;
    var n := if l.slots == [] then 0 else l.nextEntry;
    var i := FindPort(slots, e.dstport);
    var at := if i < |slots| then i else n;
    FindPortAt(slots[at := e], e.dstport, at);
  }

  /** The conversion that turned pkt into out. */
  predicate Converts(e: ConversionEntry, pkt: Packet, out: Packet) {
    && e.srcip == pkt.src && e.dstServiceIp == pkt.dst && e.dstport == pkt.dport
    && e.srcInstanceIp == out.src && e.dstip == out.dst
  }

  /** After a packet is sent, the cached conversion for its ports is the one it was sent with. */
  lemma SentEntry(o: Overlay, t: Table, c: Lists, pkt: Packet, pick: nat, now: int)
    requires ValidLists(c) && WellFormedPacket(pkt) && DistinctPorts(c[pkt.sport].slots)
    requires Outgoing(o, t, c, pkt, pick, now).0.Some?
    ensures var (out, ops) := Outgoing(o, t, c, pkt, pick, now);
            var e := EntryFor(Run(c, ops), pkt.sport, pkt.dport);
            e.Some? && Converts(e.value, pkt, out.value)
  {
    var listed := SearchByServiceIp(t, pkt.dst);
    var instance := SenderInstance(t, pkt.src, pkt.version).value;
    var get := Get(FlowKey(pkt, instance), pkt.sport, pkt.dport, now);
    var c1 := Apply(c, get);
    assert [get][..0] == [] && Run(c, [get]) == c1;
    LookupIsEntry(c, FlowKey(pkt, instance), pkt.sport, pkt.dport);
    if !Reusable(Retrieve(c, FlowKey(pkt, instance), pkt.sport, pkt.dport), listed) {
      var e := NewEntry(pkt, instance, listed, pick);
      assert [get, Add(e, now)][..1] == [get];
      AddedEntry(c1, e, now);
    }
  }

  lemma {:induction false} LatestOfConcat(ops: seq<Op>, later: seq<Op>, srcport: int, dstport: int)
    requires forall op <- later :: op.Add? ==> !(op.e.srcport == srcport && op.e.dstport == dstport)
    ensures Latest(ops + later, srcport, dstport) == Latest(ops, srcport, dstport)
    decreases |later|
  {
    if later == [] {
      assert ops + later == ops;
    } else {
      assert later[|later| - 1] in later;
      assert (ops + later)[..|ops + later| - 1] == ops + later[..|later| - 1];
      LatestOfConcat(ops, later[..|later| - 1], srcport, dstport);
    }
  }

  lemma {:induction false} RunConcat(c: Lists, ops: seq<Op>, later: seq<Op>)
    requires ValidLists(c) && WellFormedOps(ops) && WellFormedOps(later)
    ensures Run(c, ops + later) == Run(Run(c, ops), later)
    decreases |later|
  {
    if later == [] {
      assert ops + later == ops;
    } else {
      assert (ops + later)[..|ops + later| - 1] == ops + later[..|later| - 1];
      RunConcat(c, ops, later[..|later| - 1]);
    }
  }

  /** Whatever happens on other port pairs, a lookup that still hits finds the conversion of the last packet sent. */
  lemma HitIsLastSent(o: Overlay, ops: seq<Op>, t: Table, pkt: Packet, pick: nat, now: int, later: seq<Op>, key: Key)
    requires WellFormedOps(ops) && WellFormedOps(later) && WellFormedPacket(pkt) && key.srcip != NoIp
    requires Outgoing(o, t, Run(NewLists(), ops), pkt, pick, now).0.Some?
    requires forall op <- later :: op.Add? ==> !(op.e.srcport == pkt.sport && op.e.dstport == pkt.dport)
    ensures var (out, sent) := Outgoing(o, t, Run(NewLists(), ops), pkt, pick, now);
            var hit := Retrieve(Run(Run(Run(NewLists(), ops), sent), later), key, pkt.sport, pkt.dport);
            hit.Some? ==> Converts(hit.value, pkt, out.value)
  {
    var c0 := Run(NewLists(), ops);
    var sent := Outgoing(o, t, c0, pkt, pick, now).1;
    var history := ops + sent;
    RunConcat(NewLists(), ops, sent);
    RunConcat(NewLists(), history, later);
    RunHoldsLatest(ops);
    RunHoldsLatest(history);
    SentEntry(o, t, c0, pkt, pick, now);
    var e := EntryFor(Run(NewLists(), history), pkt.sport, pkt.dport).value;
    assert Latest(history, pkt.sport, pkt.dport) == Some(e);
    LatestOfConcat(history, later, pkt.sport, pkt.dport);
    LastWriterWins(history + later, key, pkt.sport, pkt.dport);
  }

  /** A packet that hits a conversion to a listed address is sent as the conversion says. */
  lemma SentAgain(o: Overlay, t: Table, c: Lists, pkt: Packet, out: Packet, pick: nat, now: int)
    requires ValidLists(c) && WellFormedPacket(pkt) && pkt.dport >= 1 && out == pkt.(src := out.src, dst := out.dst)
    requires Outgoing(o, t, c, pkt, pick, now).0.Some?
    requires var hit := Retrieve(c, FlowKey(pkt, SenderInstance(t, pkt.src, pkt.version).value), pkt.sport, pkt.dport);
             hit.Some? && Converts(hit.value, pkt, out)
    requires IsNamespaceStillValid(out.dst, SearchByServiceIp(t, pkt.dst))
    ensures Outgoing(o, t, c, pkt, pick, now).0 == Some(out)
  {
  }

  /**
   A flow keeps its destination: whatever happens in between on other port
   pairs, and however the table changes, a later packet that still finds its
   conversion goes where the earlier one went if that address is still listed.
   */
  lemma FlowKeepsDestination(o: Overlay, ops: seq<Op>, t: Table, pkt: Packet, pick: nat, now: int,
                             later: seq<Op>, t': Table, pick': nat, now': int)
    requires WellFormedOps(ops) && WellFormedOps(later) && WellFormedPacket(pkt) && pkt.dport >= 1
    requires Outgoing(o, t, Run(NewLists(), ops), pkt, pick, now).0.Some?
    requires forall op <- later :: op.Add? ==> !(op.e.srcport == pkt.sport && op.e.dstport == pkt.dport)
    requires var c := Run(Run(Run(NewLists(), ops), Outgoing(o, t, Run(NewLists(), ops), pkt, pick, now).1), later);
             && Outgoing(o, t', c, pkt, pick', now').0.Some?
             && Retrieve(c, FlowKey(pkt, SenderInstance(t', pkt.src, pkt.version).value), pkt.sport, pkt.dport).Some?
    ensures var (out, sent) := Outgoing(o, t, Run(NewLists(), ops), pkt, pick, now);
            var c := Run(Run(Run(NewLists(), ops), sent), later);
            IsNamespaceStillValid(out.value.dst, SearchByServiceIp(t', pkt.dst)) ==>
              Outgoing(o, t', c, pkt, pick', now').0 == out
  {
    var (out, sent) := Outgoing(o, t, Run(NewLists(), ops), pkt, pick, now);
    var c := Run(Run(Run(NewLists(), ops), sent), later);
    HitIsLastSent(o, ops, t, pkt, pick, now, later, FlowKey(pkt, SenderInstance(t', pkt.src, pkt.version).value));
    if IsNamespaceStillValid(out.value.dst, SearchByServiceIp(t', pkt.dst)) {
      SentAgain(o, t', c, pkt, out.value, pick', now');
    }
  }

  /** The address that a fresh choice gives. */
  function Picked(t: Table, pkt: Packet, pick: nat): Ip
    requires SearchByServiceIp(t, pkt.dst) != []
  {
    var listed := SearchByServiceIp(t, pkt.dst);
    NsOf(listed[pick % |listed|], pkt.version)
  }

  /** A packet for port 0 goes to the picked instance, whatever is cached. */
  lemma PortZeroPicks(o: Overlay, t: Table, c: Lists, pkt: Packet, pick: nat, now: int)
    requires ValidLists(c) && WellFormedPacket(pkt) && pkt.dport == 0
    requires Translate(o, t, c, pkt, pick, now).0.Some?
    ensures SearchByServiceIp(t, pkt.dst) != [] && SenderInstance(t, pkt.src, pkt.version).Some?
    ensures Translate(o, t, c, pkt, pick, now).0 ==
            Some(pkt.(src := SenderInstance(t, pkt.src, pkt.version).value, dst := Picked(t, pkt, pick)))
  {
  }

  /** A packet that is sent goes to a listed address and carries its sender's instance address. */
  lemma SentToListed(o: Overlay, t: Table, c: Lists, pkt: Packet, pick: nat, now: int)
    requires ValidLists(c) && WellFormedPacket(pkt)
    requires Outgoing(o, t, c, pkt, pick, now).0.Some?
    ensures var out := Outgoing(o, t, c, pkt, pick, now).0.value;
            && IsNamespaceStillValid(out.dst, SearchByServiceIp(t, pkt.dst))
            && SenderInstance(t, pkt.src, pkt.version) == Some(out.src)
            && out == pkt.(src := out.src, dst := out.dst)
            && Serializes(pkt.version, out.src, out.dst)
  {
    var listed := SearchByServiceIp(t, pkt.dst);
    assert listed[pick % |listed|] in listed;
  }

  /** Whether a packet is translated does not depend on cache, pick and clock. */
  lemma SecondIsTranslated(o: Overlay, t: Table, c: Lists, c': Lists, pkt: Packet, pick: nat, pick': nat,
                           now: int, now': int)
    requires ValidLists(c) && ValidLists(c') && WellFormedPacket(pkt)
    ensures Translate(o, t, c, pkt, pick, now).0.Some? <==> Translate(o, t, c', pkt, pick', now').0.Some?
  {
    TranslatedExactly(o, t, c, pkt, pick, now);
    TranslatedExactly(o, t, c', pkt, pick', now');
  }

  /** A conversion to a listed address is used again. */
  lemma ConversionReused(o: Overlay, t: Table, c: Lists, pkt: Packet, out: Packet, pick: nat, now: int)
    requires ValidLists(c) && WellFormedPacket(pkt) && pkt.dport >= 1 && out == pkt.(src := out.src, dst := out.dst)
    requires Translate(o, t, c, pkt, pick, now).0.Some? && Serializes(pkt.version, out.src, out.dst)
    requires SenderInstance(t, pkt.src, pkt.version) == Some(out.src)
    requires var hit := Retrieve(c, FlowKey(pkt, out.src), pkt.sport, pkt.dport);
             hit.Some? && Converts(hit.value, pkt, out)
    requires IsNamespaceStillValid(out.dst, SearchByServiceIp(t, pkt.dst))
    ensures Outgoing(o, t, c, pkt, pick, now).0 == Some(out)
  {
  }

  lemma SecondForRealPort(o: Overlay, t: Table, c: Lists, pkt: Packet, pick: nat, pick': nat, now: int, now': int)
    requires ValidLists(c) && WellFormedPacket(pkt) && DistinctPorts(c[pkt.sport].slots) && pkt.dport >= 1
    requires Outgoing(o, t, c, pkt, pick, now).0.Some?
    ensures var (first, ops) := Outgoing(o, t, c, pkt, pick, now);
            Outgoing(o, t, Run(c, ops), pkt, pick', now').0 == first
  {
    var (first, ops) := Outgoing(o, t, c, pkt, pick, now);
    var out, c' := first.value, Run(c, ops);
    SentToListed(o, t, c, pkt, pick, now);
    SentEntry(o, t, c, pkt, pick, now);
    SecondIsTranslated(o, t, c, c', pkt, pick, pick', now, now');
    LookupFirst(c'[pkt.sport].slots, FlowKey(pkt, out.src), pkt.dport);
    ConversionReused(o, t, c', pkt, out, pick', now');
  }

  /**
   Two packets of one flow, one after the other: the second is sent as the
   first if and only if the destination port is not 0 or the two picks choose
   one address. With port 0 the cached conversion is never used again.
   */
  lemma SecondPacketFollows(o: Overlay, t: Table, c: Lists, pkt: Packet, pick: nat, pick': nat, now: int, now': int)
    requires ValidLists(c) && WellFormedPacket(pkt) && DistinctPorts(c[pkt.sport].slots)
    requires Outgoing(o, t, c, pkt, pick, now).0.Some?
    ensures SearchByServiceIp(t, pkt.dst) != []
    ensures var (first, ops) := Outgoing(o, t, c, pkt, pick, now);
            Outgoing(o, t, Run(c, ops), pkt, pick', now').0 == first <==>
            pkt.dport >= 1 || Picked(t, pkt, pick) == Picked(t, pkt, pick')
  {
    SentToListed(o, t, c, pkt, pick, now);
    if pkt.dport >= 1 {
      SecondForRealPort(o, t, c, pkt, pick, pick', now, now');
    } else {
      var c' := Run(c, Outgoing(o, t, c, pkt, pick, now).1);
      SecondIsTranslated(o, t, c, c', pkt, pick, pick', now, now');
      PortZeroPicks(o, t, c, pkt, pick, now);
      PortZeroPicks(o, t, c', pkt, pick', now');
    }
  }
}
