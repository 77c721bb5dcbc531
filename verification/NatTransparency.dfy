/**
 End to end: a request goes from client a to service address S, the chosen
 instance b answers what it receives, and a must see the answer come from S.
 The client and the server node have their own tables and caches, which other
 traffic may change between the four translations.
 */
module NatTransparency {
  import opened Wrappers
  import opened Addresses
  import opened TranslationTable
  import opened ProxyCacheSpec
  import opened ProxyTunnelSpec
  import opened FifoRefinement

  /** The answer to a packet as its receiver sees it. */
  function Answer(pkt: Packet): Packet {
    Packet(pkt.version, pkt.dst, pkt.src, pkt.dport, pkt.sport)
  }

  /** Only container `ns` serves the address `ip`, and it does. */
  ghost predicate OnlyServedBy(t: Table, ip: Ip, ns: Ip, f: Family)
  {
    && (exists e <- t :: Serves(e, ip))
    && (forall e <- t | Serves(e, ip) :: NsOf(e, f) == ns)
  }

  /** No conversion of `ns` for the port pair is for another peer than `peer`. */
  ghost predicate NoOtherFlow(c: Lists, ns: Ip, peer: Ip, srcport: int, dstport: int)
    requires ValidLists(c) && IsPort(srcport)
  {
    forall e <- c[srcport].slots | e.dstport == dstport && e.srcip == ns :: e.dstServiceIp == peer
  }

  /** A request reaches the instance as the client's proxy sent it. */
  lemma RequestArrives(c: Lists, pkt: Packet)
    requires ValidLists(c) && WellFormedPacket(pkt)
    requires NoOtherFlow(c, pkt.dst, pkt.src, pkt.dport, pkt.sport)
    ensures Ingoing(c, pkt) == pkt
  {
  }

  /** The answer to an instance address goes to the one container that has it. */
  lemma AnswerGoesBack(o: Overlay, t: Table, c: Lists, answer: Packet, a: Ip, pick: nat, now: int)
    requires ValidLists(c) && OneFamily(c) && Typed(t) && WellFormedPacket(answer)
    requires InOverlay(o, answer.dst) && OnlyServedBy(t, answer.dst, a, answer.version)
    requires exists e <- t :: HasNs(e, answer.src)
    requires var ib := SenderInstance(t, answer.src, answer.version); ib.Some? && OfFamily(ib.value, answer.version)
    ensures var out := Outgoing(o, t, c, answer, pick, now).0;
            && out.Some?
            && Some(out.value.src) == SenderInstance(t, answer.src, answer.version)
            && out.value == answer.(src := out.value.src, dst := a)
  {
    SentCondition(o, t, c, answer, pick, now);
    ConvertIsSafe(o, t, c, answer, pick, now);
  }

  /** The client's cached conversion turns the answer into one from the service address. */
  lemma AnswerIsRestored(c: Lists, request: Packet, sent: Packet, reply: Packet)
    requires ValidLists(c) && WellFormedPacket(request) && WellFormedPacket(reply)
    requires var e := EntryFor(c, request.sport, request.dport); e.Some? && Converts(e.value, request, sent)
    requires reply.dst == request.src && reply.version == request.version
    requires reply.sport == request.dport && reply.dport == request.sport
    ensures Ingoing(c, reply) == Answer(request)
  {
    LookupFirst(c[request.sport].slots, ByInstance(request.src), request.dport);
  }

  /** What a node must know for an answer from b to the instance address ia of a. */
  ghost predicate KnowsBoth(o: Overlay, t: Table, a: Ip, ia: Ip, b: Ip, f: Family)
  {
    && Typed(t) && OfFamily(ia, f) && InOverlay(o, ia) && OnlyServedBy(t, ia, a, f)
    && (var ib := SenderInstance(t, b, f); ib.Some? && OfFamily(ib.value, f))
  }

  /** What a sees at the end: sent, translated at b's node, answered there, translated at a's node. */
  ghost predicate AnsweredTransparently(o: Overlay, request: Packet, sent: Packet,
                                        cA': Lists, tB: Table, cB: Lists, cB': Lists, pickB: nat, nowB: int)
    requires ValidLists(cA') && ValidLists(cB) && ValidLists(cB')
  {
    && WellFormedPacket(sent)
    && var received := Ingoing(cB, sent);
    && WellFormedPacket(Answer(received))
    && var reply := Outgoing(o, tB, cB', Answer(received), pickB, nowB).0;
    && reply.Some? && WellFormedPacket(reply.value)
    && Ingoing(cA', reply.value) == Answer(request)
  }

  /**
   Transparency over two nodes. `cA` and `cA'` are the client node's caches
   when the request leaves and when the answer arrives, `cB` and `cB'` the
   server node's when the request arrives and when the answer leaves. Nothing
   is said about how the caches came about, so this covers every
   interleaving with other traffic that keeps the client's conversion.
   */
  lemma TwoNodeTransparency(o: Overlay, request: Packet,
                            tA: Table, cA: Lists, pickA: nat, nowA: int, cA': Lists,
                            tB: Table, cB: Lists, cB': Lists, pickB: nat, nowB: int)
    requires WellFormedPacket(request) && Typed(tA)
    requires ValidLists(cA) && ValidLists(cA') && ValidLists(cB) && ValidLists(cB')
    requires OneFamily(cA) && OneFamily(cB') && DistinctPorts(cA[request.sport].slots)
    requires var (sent, ops) := Outgoing(o, tA, cA, request, pickA, nowA);
             && sent.Some?
             && KnowsBoth(o, tB, request.src, sent.value.src, sent.value.dst, request.version)
             && NoOtherFlow(cB, sent.value.dst, sent.value.src, request.dport, request.sport)
             // the client's conversion was neither displaced nor evicted
             && EntryFor(cA', request.sport, request.dport) == EntryFor(Run(cA, ops), request.sport, request.dport)
    ensures AnsweredTransparently(o, request, Outgoing(o, tA, cA, request, pickA, nowA).0.value,
                                  cA', tB, cB, cB', pickB, nowB)
  {
    var sent := Outgoing(o, tA, cA, request, pickA, nowA).0.value;
    ConvertIsSafe(o, tA, cA, request, pickA, nowA);
    RequestArrives(cB, sent);
    assert HasNs(SearchByNsIp(tB, sent.dst).value, sent.dst);
    AnswerGoesBack(o, tB, cB', Answer(sent), request.src, pickB, nowB);
    SentEntry(o, tA, cA, request, pickA, nowA);
    AnswerIsRestored(cA', request, sent, Outgoing(o, tB, cB', Answer(sent), pickB, nowB).0.value);
  }

  /** What both nodes must know for a first contact: sender, instance address, and who serves the destination. */
  ghost predicate ReadyFor(o: Overlay, t: Table, request: Packet)
  {
    && Typed(t) && WellFormedPacket(request) && InOverlay(o, request.dst)
    && (exists e <- t :: Serves(e, request.dst))
    && (var ia := SenderInstance(t, request.src, request.version);
        ia.Some? && OfFamily(ia.value, request.version) && InOverlay(o, ia.value)
        && OnlyServedBy(t, ia.value, request.src, request.version))
    && (forall e <- t | Serves(e, request.dst) ::
          var ib := SenderInstance(t, NsOf(e, request.version), request.version);
          ib.Some? && OfFamily(ib.value, request.version))
  }

  /** The first contact of two nodes with one table: whatever instance is picked, the exchange is transparent. */
  lemma FirstContact(o: Overlay, t: Table, request: Packet, pick: nat, pick': nat, now: int)
    requires ReadyFor(o, t, request)
    ensures var (sent, ops) := Outgoing(o, t, NewLists(), request, pick, now);
            && sent.Some?
            && AnsweredTransparently(o, request, sent.value, Run(NewLists(), ops),
                                     t, NewLists(), NewLists(), pick', now)
  {
    var c := NewLists();
    SentCondition(o, t, c, request, pick, now);
    ConvertIsSafe(o, t, c, request, pick, now);
    var (sent, ops) := Outgoing(o, t, c, request, pick, now);
    assert KnowsBoth(o, t, request.src, sent.value.src, sent.value.dst, request.version);
    TwoNodeTransparency(o, request, t, c, pick, now, Run(c, ops), t, c, c, pick', now);
  }

  /** Such tables exist: client 1 has instance address 101, and 2 with instance address 102 serves 200. */
  lemma FirstContactExample(client: TableEntry, server: TableEntry, o: Overlay)
    requires client.nsip == V4(1) && client.nsipv6 == V6(1)
    requires client.serviceIp == [ServiceIp(InstanceNumber, V4(101), V6(101))]
    requires server.nsip == V4(2) && server.nsipv6 == V6(2)
    requires server.serviceIp == [ServiceIp(RoundRobin, V4(200), V6(200)), ServiceIp(InstanceNumber, V4(102), V6(102))]
    requires o == Overlay(0, 1000, 0, 1000)
    ensures ReadyFor(o, [client, server], Packet(F4, V4(1), V4(200), 40000, 80))
  {
    var t := [client, server];
    assert t[1..] == [server] && server.serviceIp[..1][..0] == [] && client.serviceIp[..0] == [];
    assert FindNs([server], V4(2)) == 0;
    assert SearchByNsIp(t, V4(1)) == Some(client) && SearchByNsIp(t, V4(2)) == Some(server);
    assert SenderInstance(t, V4(1), F4) == Some(V4(101)) && SenderInstance(t, V4(2), F4) == Some(V4(102));
    assert Serves(server, V4(200)) by { assert ServesAt(server.serviceIp[0], V4(200)); }
    assert Serves(client, V4(101)) by { assert ServesAt(client.serviceIp[0], V4(101)); }
  }

  /**
   The same for a new flow, with the conversion's survival put as a bound on
   the other traffic of the client's node: between request and answer, none
   of it uses the port pair, fewer than RING_SIZE conversions are added to the
   list of the client's port, and every eviction comes within the timeout.
   */
  lemma NewFlowTransparency(o: Overlay, request: Packet,
                            tA: Table, ops: seq<Op>, pickA: nat, nowA: int, later: seq<Op>,
                            tB: Table, cB: Lists, cB': Lists, pickB: nat, nowB: int)
    requires WellFormedPacket(request) && Typed(tA) && request.dport >= 1 && nowA > 0
    requires WellFormedOps(ops) && PositivePorts(ops) && AddsOneFamily(ops)
    requires WellFormedOps(later) && PositivePorts(later)
    requires ValidLists(cB) && ValidLists(cB') && OneFamily(cB')
    requires EntryFor(Run(NewLists(), ops), request.sport, request.dport).None?
    requires forall op <- later :: op.Add? ==> !(op.e.srcport == request.sport && op.e.dstport == request.dport)
    requires |AddsAt(later, request.sport)| < RING_SIZE && WithinTimeout(later, nowA)
    requires var sent := Outgoing(o, tA, Run(NewLists(), ops), request, pickA, nowA).0;
             && sent.Some?
             && KnowsBoth(o, tB, request.src, sent.value.src, sent.value.dst, request.version)
             && NoOtherFlow(cB, sent.value.dst, sent.value.src, request.dport, request.sport)
    ensures var (sent, own) := Outgoing(o, tA, Run(NewLists(), ops), request, pickA, nowA);
            AnsweredTransparently(o, request, sent.value, Run(NewLists(), ops + own + later), tB, cB, cB', pickB, nowB)
  {
    var c := Run(NewLists(), ops);
    var own := Outgoing(o, tA, c, request, pickA, nowA).1;
    RunOneFamily(ops);
    RunHoldsLatest(ops);
    RunConcat(NewLists(), ops, own);
    NewFlowSurvives(o, request, tA, ops, pickA, nowA, later);
    TwoNodeTransparency(o, request, tA, c, pickA, nowA, Run(NewLists(), ops + own + later), tB, cB, cB', pickB, nowB);
  }

  lemma NewFlowSurvives(o: Overlay, request: Packet, t: Table, ops: seq<Op>, pick: nat, now: int, later: seq<Op>)
    requires WellFormedPacket(request) && request.dport >= 1 && now > 0
    requires WellFormedOps(ops) && PositivePorts(ops) && WellFormedOps(later) && PositivePorts(later)
    requires EntryFor(Run(NewLists(), ops), request.sport, request.dport).None?
    requires forall op <- later :: op.Add? ==> !(op.e.srcport == request.sport && op.e.dstport == request.dport)
    requires |AddsAt(later, request.sport)| < RING_SIZE && WithinTimeout(later, now)
    requires Outgoing(o, t, Run(NewLists(), ops), request, pick, now).0.Some?
    ensures var own := Outgoing(o, t, Run(NewLists(), ops), request, pick, now).1;
            EntryFor(Run(NewLists(), ops + own + later), request.sport, request.dport) ==
            EntryFor(Run(NewLists(), ops + own), request.sport, request.dport)
  {
    var c := Run(NewLists(), ops);
    var own := Outgoing(o, t, c, request, pick, now).1;
    var listed := SearchByServiceIp(t, request.dst);
    var instance := SenderInstance(t, request.src, request.version).value;
    var e := NewEntry(request, instance, listed, pick);
    var got := ops + [Get(FlowKey(request, instance), request.sport, request.dport, now)];
    RunHoldsLatest(ops);
    LookupIsEntry(c, FlowKey(request, instance), request.sport, request.dport);
    assert ops + own == got + [Add(e, now)];
    assert ops + own + later == got + [Add(e, now)] + later;
    assert got[..|got| - 1] == ops;
    RingRefinesFifo(got, request.sport);
    var l := Run(NewLists(), got)[request.sport];
    forall x <- Queue(l) ensures x.dstport != request.dport { QueueContents(l, x); }
    FlowStaysCached(got, e, now, later);
    AllEntries(got + [Add(e, now)] + later, e, request);
    assert (got + [Add(e, now)])[..|got|] == got;
    AddedEntry(Run(NewLists(), got), e, now);
  }

  lemma AllEntries(ops: seq<Op>, e: ConversionEntry, request: Packet)
    requires WellFormedOps(ops) && WellFormedPacket(request) && e.srcip == request.src
    requires Retrieve(Run(NewLists(), ops), ByInstance(e.srcip), request.sport, request.dport) == Some(e)
    ensures EntryFor(Run(NewLists(), ops), request.sport, request.dport) == Some(e)
  {
    RunHoldsLatest(ops);
    LookupIsEntry(Run(NewLists(), ops), ByInstance(e.srcip), request.sport, request.dport);
  }

  // ---------- Client and instance on one node ----------

  /** Delivery of a sent packet, the answer to it and the answer's delivery, all through one cache. */
  ghost function AnswerTrip(o: Overlay, t: Table, c: Lists, sent: Packet, pick: nat, now: int): Option<Packet>
    requires ValidLists(c) && WellFormedPacket(sent)
  {
    var received := Ingoing(c, sent);
    if !WellFormedPacket(Answer(received)) then None else
    var c' := Apply(c, ReverseGet(sent, now));
    var (reply, ops) := Outgoing(o, t, c', Answer(received), pick, now);
    if reply.None? || !WellFormedPacket(reply.value) then None else
    Some(Ingoing(Run(c', ops), reply.value))
  }

  ghost function RoundTrip(o: Overlay, t: Table, c: Lists, request: Packet, pick: nat, pick': nat, now: int)
    : Option<Packet>
    requires ValidLists(c) && WellFormedPacket(request)
  {
    var (sent, ops) := Outgoing(o, t, c, request, pick, now);
    if sent.None? || !WellFormedPacket(sent.value) then None else AnswerTrip(o, t, Run(c, ops), sent.value, pick', now)
  }

  /** The cache holds nothing for a port pair. */
  ghost predicate Unused(c: Lists, srcport: int, dstport: int)
    requires ValidLists(c) && IsPort(srcport)
  {
    forall e <- c[srcport].slots :: e.dstport != dstport
  }

  /** A history that a proxy can have, and the cache it leaves. */
  ghost predicate ProxyHistory(ops: seq<Op>)
  {
    WellFormedOps(ops) && AddsOneFamily(ops)
  }

  lemma HistoryFacts(ops: seq<Op>, srcport: int)
    requires ProxyHistory(ops) && IsPort(srcport)
    ensures OneFamily(Run(NewLists(), ops)) && DistinctPorts(Run(NewLists(), ops)[srcport].slots)
  {
    RunOneFamily(ops);
    RunHoldsLatest(ops);
  }

  predicate Touches(op: Op, p: int) {
    match op
    case Add(e, _) => e.srcport == p
    case Get(_, srcport, _, _) => srcport == p
    case EvictOld(_, _) => true
  }

  lemma {:induction false} UntouchedList(c: Lists, ops: seq<Op>, p: int)
    requires ValidLists(c) && WellFormedOps(ops) && IsPort(p) && forall op <- ops :: !Touches(op, p)
    ensures Run(c, ops)[p] == c[p]
  {
    if ops != [] {
      assert !Touches(ops[|ops| - 1], p);
      UntouchedList(c, ops[..|ops| - 1], p);
    }
  }

  lemma SendingTouchesOwnPort(o: Overlay, t: Table, c: Lists, pkt: Packet, pick: nat, now: int, k: int)
    requires ValidLists(c) && WellFormedPacket(pkt) && k != pkt.sport
    ensures forall op <- Outgoing(o, t, c, pkt, pick, now).1 :: !Touches(op, k)
  {
  }

  /** Sending touches the list of the packet's own port only, and stays a history. */
  lemma SendingExtends(o: Overlay, t: Table, ops: seq<Op>, pkt: Packet, pick: nat, now: int)
    requires ProxyHistory(ops) && Typed(t) && WellFormedPacket(pkt)
    ensures var c := Run(NewLists(), ops);
            var own := Outgoing(o, t, c, pkt, pick, now).1;
            && ProxyHistory(ops + own) && Run(NewLists(), ops + own) == Run(c, own)
            && forall k | IsPort(k) && k != pkt.sport :: Run(c, own)[k] == c[k]
  {
    var c := Run(NewLists(), ops);
    var own := Outgoing(o, t, c, pkt, pick, now).1;
    OutgoingAddsOneFamily(o, t, c, pkt, pick, now);
    RunConcat(NewLists(), ops, own);
    forall k | IsPort(k) && k != pkt.sport ensures Run(c, own)[k] == c[k] {
      SendingTouchesOwnPort(o, t, c, pkt, pick, now, k);
      UntouchedList(c, own, k);
    }
  }

  lemma ReceivingExtends(ops: seq<Op>, pkt: Packet, now: int)
    requires ProxyHistory(ops) && WellFormedPacket(pkt)
    ensures var c, c' := Run(NewLists(), ops), Run(NewLists(), ops + [ReverseGet(pkt, now)]);
            && ProxyHistory(ops + [ReverseGet(pkt, now)]) && c' == Apply(c, ReverseGet(pkt, now))
            && forall k | IsPort(k) :: c'[k].slots == c[k].slots
  {
    assert (ops + [ReverseGet(pkt, now)])[..|ops|] == ops;
  }

  /** A port pair other than the sender's own stays as it was. */
  lemma SendingKeepsUnused(o: Overlay, t: Table, ops: seq<Op>, pkt: Packet, pick: nat, now: int)
    requires ProxyHistory(ops) && Typed(t) && WellFormedPacket(pkt) && pkt.sport != pkt.dport
    requires Unused(Run(NewLists(), ops), pkt.dport, pkt.sport)
    ensures var c := Run(NewLists(), ops);
            Unused(Run(c, Outgoing(o, t, c, pkt, pick, now).1), pkt.dport, pkt.sport)
  {
    SendingExtends(o, t, ops, pkt, pick, now);
  }

  /** The assumptions about a first exchange on one node. */
  ghost predicate FirstExchange(o: Overlay, t: Table, ops: seq<Op>, request: Packet, pick: nat, now: int)
  {
    && ProxyHistory(ops) && Typed(t) && WellFormedPacket(request) && request.sport >= 1 && request.dport >= 1
    && Unused(Run(NewLists(), ops), request.sport, request.dport)
    && Unused(Run(NewLists(), ops), request.dport, request.sport)
    && var sent := Outgoing(o, t, Run(NewLists(), ops), request, pick, now).0;
    && sent.Some?
    && KnowsBoth(o, t, request.src, sent.value.src, sent.value.dst, request.version)
  }

  /** Everything after the request was sent. */
  lemma TransparentTrip(o: Overlay, t: Table, c: Lists, request: Packet, sent: Packet, pick: nat, now: int)
    requires ValidLists(c) && WellFormedPacket(sent)
    requires var c' := Apply(c, ReverseGet(sent, now));
             && WellFormedPacket(Answer(Ingoing(c, sent)))
             && AnsweredTransparently(o, request, sent,
                                      Run(c', Outgoing(o, t, c', Answer(Ingoing(c, sent)), pick, now).1),
                                      t, c, c', pick, now)
    ensures AnswerTrip(o, t, c, sent, pick, now) == Some(Answer(request))
  {
  }

  /** After the request was sent, delivered and answered: what the answer needs of the caches. */
  lemma DistinctPortsTrip(o: Overlay, t: Table, ops: seq<Op>, request: Packet, sent: Packet,
                          pick: nat, pick': nat, now: int)
    requires FirstExchange(o, t, ops, request, pick, now) && request.sport != request.dport
    requires Outgoing(o, t, Run(NewLists(), ops), request, pick, now).0 == Some(sent) && WellFormedPacket(sent)
    ensures var c1 := Run(Run(NewLists(), ops), Outgoing(o, t, Run(NewLists(), ops), request, pick, now).1);
            AnswerTrip(o, t, c1, sent, pick', now) == Some(Answer(request))
  {
    var c := Run(NewLists(), ops);
    var own := Outgoing(o, t, c, request, pick, now).1;
    var c1, ops2 := Run(c, own), ops + own + [ReverseGet(sent, now)];
    FirstSent(o, t, ops, request, pick, now);
    SendingKeepsUnused(o, t, ops, request, pick, now);
    ReceivingExtends(ops + own, sent, now);
    HistoryFacts(ops, request.sport);
    HistoryFacts(ops2, request.sport);
    RequestArrives(c1, sent);
    SendingExtends(o, t, ops2, Answer(sent), pick', now);
    var c2 := Run(NewLists(), ops2);
    var c3 := Run(c2, Outgoing(o, t, c2, Answer(sent), pick', now).1);
    TwoNodeTransparency(o, request, t, c, pick, now, c3, t, c1, c2, pick', now);
    TransparentTrip(o, t, c1, request, sent, pick', now);
  }

  lemma DistinctPortsRoundTrip(o: Overlay, t: Table, ops: seq<Op>, request: Packet, pick: nat, pick': nat, now: int)
    requires FirstExchange(o, t, ops, request, pick, now) && request.sport != request.dport
    ensures RoundTrip(o, t, Run(NewLists(), ops), request, pick, pick', now) == Some(Answer(request))
  {
    FirstSent(o, t, ops, request, pick, now);
    var sent := Outgoing(o, t, Run(NewLists(), ops), request, pick, now).0.value;
    DistinctPortsTrip(o, t, ops, request, sent, pick, pick', now);
    RoundTripUnfolds(o, t, Run(NewLists(), ops), request, sent, pick, pick', now);
  }

  /** With one port for both directions, the pair's only conversion in the list is the sender's. */
  lemma EqualPortsLookups(o: Overlay, t: Table, ops: seq<Op>, pkt: Packet, pick: nat, now: int, key: Key)
    requires ProxyHistory(ops) && Typed(t) && WellFormedPacket(pkt) && pkt.sport == pkt.dport
    requires Outgoing(o, t, Run(NewLists(), ops), pkt, pick, now).0.Some? && key.srcip != NoIp
    ensures var (out, own) := Outgoing(o, t, Run(NewLists(), ops), pkt, pick, now);
            var c1 := Run(Run(NewLists(), ops), own);
            var e := EntryFor(c1, pkt.sport, pkt.sport);
            && e.Some? && Converts(e.value, pkt, out.value)
            && Retrieve(c1, key, pkt.sport, pkt.sport) == if Matches(e.value, key, pkt.sport) then e else None
  {
    HistoryFacts(ops, pkt.sport);
    SendingExtends(o, t, ops, pkt, pick, now);
    SentEntry(o, t, Run(NewLists(), ops), pkt, pick, now);
    var own := Outgoing(o, t, Run(NewLists(), ops), pkt, pick, now).1;
    HistoryFacts(ops + own, pkt.sport);
    LookupIsEntry(Run(NewLists(), ops + own), key, pkt.sport, pkt.sport);
  }

  /** The answer of another container displaces the conversion of the request. */
  lemma EqualPortsAnswer(o: Overlay, t: Table, ops: seq<Op>, answer: Packet, a: Ip, pick: nat, now: int)
    requires ProxyHistory(ops) && Typed(t) && WellFormedPacket(answer) && answer.sport == answer.dport
    requires KnowsBoth(o, t, a, answer.dst, answer.src, answer.version)
    requires a != answer.src && OfFamily(a, answer.version)
    ensures var c := Run(NewLists(), ops);
            var (reply, own) := Outgoing(o, t, c, answer, pick, now);
            && reply == Some(answer.(src := SenderInstance(t, answer.src, answer.version).value, dst := a))
            && WellFormedPacket(reply.value)
            && Ingoing(Run(c, own), reply.value) == reply.value
  {
    HistoryFacts(ops, answer.sport);
    assert HasNs(SearchByNsIp(t, answer.src).value, answer.src);
    AnswerGoesBack(o, t, Run(NewLists(), ops), answer, a, pick, now);
    EqualPortsLookups(o, t, ops, answer, pick, now, ByInstance(a));
  }

  lemma RoundTripUnfolds(o: Overlay, t: Table, c: Lists, request: Packet, sent: Packet, pick: nat, pick': nat, now: int)
    requires ValidLists(c) && WellFormedPacket(request) && WellFormedPacket(sent)
    requires Outgoing(o, t, c, request, pick, now).0 == Some(sent)
    ensures RoundTrip(o, t, c, request, pick, pick', now) ==
            AnswerTrip(o, t, Run(c, Outgoing(o, t, c, request, pick, now).1), sent, pick', now)
  {
  }

  lemma AnswerTripUnfolds(o: Overlay, t: Table, c: Lists, c': Lists, sent: Packet, answer: Packet, reply: Packet,
                          pick: nat, now: int)
    requires ValidLists(c) && WellFormedPacket(sent) && c' == Apply(c, ReverseGet(sent, now))
    requires Answer(Ingoing(c, sent)) == answer && WellFormedPacket(answer)
    requires Outgoing(o, t, c', answer, pick, now).0 == Some(reply) && WellFormedPacket(reply)
    ensures AnswerTrip(o, t, c, sent, pick, now) ==
            Some(Ingoing(Run(c', Outgoing(o, t, c', answer, pick, now).1), reply))
  {
  }

  /** What the first packet of an exchange is sent as. */
  lemma FirstSent(o: Overlay, t: Table, ops: seq<Op>, request: Packet, pick: nat, now: int)
    requires FirstExchange(o, t, ops, request, pick, now)
    ensures var c := Run(NewLists(), ops);
            var (sent, own) := Outgoing(o, t, c, request, pick, now);
            && sent.Some? && WellFormedPacket(sent.value)
            && sent.value == request.(src := sent.value.src, dst := sent.value.dst)
            && ProxyHistory(ops + own) && Run(NewLists(), ops + own) == Run(c, own)
  {
    HistoryFacts(ops, request.sport);
    ConvertIsSafe(o, t, Run(NewLists(), ops), request, pick, now);
    SendingExtends(o, t, ops, request, pick, now);
  }

  /** With one port for both directions, delivery finds the conversion of the request if it is for its sender. */
  lemma EqualPortsArrival(o: Overlay, t: Table, ops: seq<Op>, request: Packet, pick: nat, now: int)
    requires FirstExchange(o, t, ops, request, pick, now) && request.sport == request.dport
    ensures var (sent, own) := Outgoing(o, t, Run(NewLists(), ops), request, pick, now);
            && sent.Some? && WellFormedPacket(sent.value)
            && Ingoing(Run(Run(NewLists(), ops), own), sent.value) ==
               if sent.value.dst == request.src then Answer(request) else sent.value
  {
    FirstSent(o, t, ops, request, pick, now);
    var sent := Outgoing(o, t, Run(NewLists(), ops), request, pick, now).0.value;
    EqualPortsLookups(o, t, ops, request, pick, now, ByInstance(sent.dst));
  }

  lemma EqualPortsOtherContainer(o: Overlay, t: Table, ops: seq<Op>, request: Packet, pick: nat, pick': nat, now: int)
    requires FirstExchange(o, t, ops, request, pick, now) && request.sport == request.dport
    requires Outgoing(o, t, Run(NewLists(), ops), request, pick, now).0.value.dst != request.src
    ensures var b := Outgoing(o, t, Run(NewLists(), ops), request, pick, now).0.value.dst;
            RoundTrip(o, t, Run(NewLists(), ops), request, pick, pick', now) ==
            Some(Answer(request).(src := SenderInstance(t, b, request.version).value))
  {
    var c := Run(NewLists(), ops);
    var (out, own) := Outgoing(o, t, c, request, pick, now);
    FirstSent(o, t, ops, request, pick, now);
    EqualPortsArrival(o, t, ops, request, pick, now);
    var sent := out.value;
    var c1, ops2 := Run(c, own), ops + own + [ReverseGet(sent, now)];
    ReceivingExtends(ops + own, sent, now);
    var c2 := Run(NewLists(), ops2);
    EqualPortsAnswer(o, t, ops2, Answer(sent), request.src, pick', now);
    RoundTripUnfolds(o, t, c, request, sent, pick, pick', now);
    var reply := Outgoing(o, t, c2, Answer(sent), pick', now).0.value;
    AnswerTripUnfolds(o, t, c1, c2, sent, Answer(sent), reply, pick', now);
  }

  /** The cached conversion serves the same container again. */
  lemma RequestSentAgain(o: Overlay, t: Table, c: Lists, request: Packet, sent: Packet, pick: nat, now: int)
    requires ValidLists(c) && WellFormedPacket(request) && WellFormedPacket(sent) && request.dport >= 1
    requires InOverlay(o, request.dst) && SearchByServiceIp(t, request.dst) != []
    requires SenderInstance(t, request.src, request.version) == Some(sent.src)
    requires sent == request.(src := sent.src, dst := sent.dst)
    requires IsNamespaceStillValid(sent.dst, SearchByServiceIp(t, request.dst))
    requires var e := Retrieve(c, FlowKey(request, sent.src), request.sport, request.dport);
             e.Some? && Converts(e.value, request, sent)
    ensures Outgoing(o, t, c, request, pick, now) ==
            (Some(sent), [Get(FlowKey(request, sent.src), request.sport, request.dport, now)])
  {
  }

  lemma EqualPortsSameContainer(o: Overlay, t: Table, ops: seq<Op>, request: Packet, pick: nat, pick': nat, now: int)
    requires FirstExchange(o, t, ops, request, pick, now) && request.sport == request.dport
    requires Outgoing(o, t, Run(NewLists(), ops), request, pick, now).0.value.dst == request.src
    ensures RoundTrip(o, t, Run(NewLists(), ops), request, pick, pick', now) == Some(Answer(request))
  {
    var c := Run(NewLists(), ops);
    var (out, own) := Outgoing(o, t, c, request, pick, now);
    FirstSent(o, t, ops, request, pick, now);
    EqualPortsArrival(o, t, ops, request, pick, now);
    var sent := out.value;
    var c1, ops2 := Run(c, own), ops + own + [ReverseGet(sent, now)];
    ReceivingExtends(ops + own, sent, now);
    var c2 := Run(NewLists(), ops2);
    RequestIsRepeated(o, t, ops, request, pick, now, c2, pick');
    SameSlotsSameAnswer(c1, Run(c2, Outgoing(o, t, c2, request, pick', now).1), sent);
    RoundTripUnfolds(o, t, c, request, sent, pick, pick', now);
    AnswerTripUnfolds(o, t, c1, c2, sent, request, sent, pick', now);
  }

  lemma RequestIsRepeated(o: Overlay, t: Table, ops: seq<Op>, request: Packet, pick: nat, now: int,
                          c2: Lists, pick': nat)
    requires FirstExchange(o, t, ops, request, pick, now) && request.sport == request.dport && ValidLists(c2)
    requires var own := Outgoing(o, t, Run(NewLists(), ops), request, pick, now).1;
             forall k | IsPort(k) :: c2[k].slots == Run(Run(NewLists(), ops), own)[k].slots
    ensures var (sent, own) := Outgoing(o, t, Run(NewLists(), ops), request, pick, now);
            && Outgoing(o, t, c2, request, pick', now).0 == sent
            && Run(c2, Outgoing(o, t, c2, request, pick', now).1)[request.sport].slots ==
               Run(Run(NewLists(), ops), own)[request.sport].slots
  {
    var c := Run(NewLists(), ops);
    var sent := Outgoing(o, t, c, request, pick, now).0.value;
    FirstSent(o, t, ops, request, pick, now);
    HistoryFacts(ops, request.sport);
    ConvertIsSafe(o, t, c, request, pick, now);
    EqualPortsLookups(o, t, ops, request, pick, now, FlowKey(request, sent.src));
    RequestSentAgain(o, t, c2, request, sent, pick', now);
    var get := Get(FlowKey(request, sent.src), request.sport, request.dport, now);
    assert [get][..0] == [] && Run(c2, [get]) == Apply(c2, get);
  }

  lemma SameSlotsSameAnswer(c: Lists, c': Lists, pkt: Packet)
    requires ValidLists(c) && ValidLists(c') && WellFormedPacket(pkt) && c[pkt.dport].slots == c'[pkt.dport].slots
    ensures Ingoing(c, pkt) == Ingoing(c', pkt)
  {
  }

  /** A first packet goes to the instance that is picked. */
  lemma FirstPick(o: Overlay, t: Table, c: Lists, request: Packet, pick: nat, now: int)
    requires ValidLists(c) && WellFormedPacket(request) && Unused(c, request.sport, request.dport)
    requires Outgoing(o, t, c, request, pick, now).0.Some?
    ensures var listed := SearchByServiceIp(t, request.dst);
            && listed != []
            && Outgoing(o, t, c, request, pick, now).0.value.dst == NsOf(listed[pick % |listed|], request.version)
  {
  }

  /**
   Transparency on one shared node: a first exchange is transparent if and
   only if the two ports differ, or the client addressed the picked instance
   by its own instance address, or client and instance are one container.
   */
  lemma SharedNodeTransparency(o: Overlay, t: Table, ops: seq<Op>, request: Packet, pick: nat, pick': nat, now: int)
    requires FirstExchange(o, t, ops, request, pick, now)
    ensures var listed := SearchByServiceIp(t, request.dst);
            && listed != []
            && var b := NsOf(listed[pick % |listed|], request.version);
            RoundTrip(o, t, Run(NewLists(), ops), request, pick, pick', now) == Some(Answer(request)) <==>
            || request.sport != request.dport
            || SenderInstance(t, b, request.version) == Some(request.dst)
            || b == request.src
  {
    FirstPick(o, t, Run(NewLists(), ops), request, pick, now);
    if request.sport != request.dport {
      DistinctPortsRoundTrip(o, t, ops, request, pick, pick', now);
    } else if Outgoing(o, t, Run(NewLists(), ops), request, pick, now).0.value.dst == request.src {
      EqualPortsSameContainer(o, t, ops, request, pick, pick', now);
    } else {
      EqualPortsOtherContainer(o, t, ops, request, pick, pick', now);
    }
  }
}
