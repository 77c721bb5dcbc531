/**
 The root and all worker nodes together: nodes join with a subnet pair from
 the root, and deploy and detach containers in any interleaving.
 */
module GlobalUniqueness {
  import opened Wrappers
  import opened Bytes
  import opened Addresses
  import opened RootAddresses
  import opened RootPools
  import opened NodePools

  datatype Member = Member(subnet4: Addr, subnet6: Addr, run: NodeRun)

  datatype World = World(pool4: Pool, pool6: Pool, nodes: seq<Member>)

  datatype WorldEvent = Join | At(node: nat, event: NodeEvent)

  function NewWorld(): World {
    World(Pool(Subnet4, Base(Subnet4), []), Pool(Subnet6, Base(Subnet6), []), [])
  }

  /** A subnet assignment fits its address family with room for the whole block. */
  predicate Assignable(a4: Addr, a6: Addr)
  {
    0 <= Value(a4) && Value(a4) + 257 < SPACE4 && 0 <= Value(a6) && Value(a6) + 257 < SPACE6
  }

  function NewMember(a4: Addr, a6: Addr): Member
    requires Assignable(a4, a6)
  {
    Member(a4, a6, NodeRun(NewNode(Value(a4) + 1, Value(a6) + 1), [], []))
  }

  /**
   One subnet request and the start of the node that made it. A request that
   raises starts no node, but an IPv4 subnet already taken stays taken.
   */
  ghost function JoinWorld(w: World): World
    requires OnlyGrows(w.pool4, Subnet4) && OnlyGrows(w.pool6, Subnet6)
  {
    SubnetTaken(w.pool4, Subnet4);
    SubnetTaken(w.pool6, Subnet6);
    var (a4, pool4) := Allocate(w.pool4, {});
    var (a6, pool6) := Allocate(w.pool6, {});
    if a4.Raise? then w
    else if a6.Raise? then w.(pool4 := pool4)
    else
      EverySubnetIsAssignable(a4.value, a6.value);
      World(pool4, pool6, w.nodes + [NewMember(a4.value, a6.value)])
  }

  ghost function StepWorld(w: World, e: WorldEvent): World
    requires WorldInv(w)
  {
    match e
    case Join => JoinWorld(w)
    case At(n, event) =>
      if n < |w.nodes| then
        w.(nodes := w.nodes[n := w.nodes[n].(run := NodeStep(w.nodes[n].run, event))])
      else
        w
  }

  /** A node runs on the block that the root assigned to it. */
  ghost predicate MemberInv(m: Member)
  {
    && InPool(Subnet4, m.subnet4) && InPool(Subnet6, m.subnet6)
    && NodeInv(m.run)
    && m.run.state.p4.bridge == Value(m.subnet4) + 1
    && m.run.state.p6.bridge == Value(m.subnet6) + 1
  }

  /** A root pool whose cache is empty: nodes never give a subnet back. */
  ghost predicate OnlyGrows(p: Pool, k: Kind)
  {
    p.kind == k && p.free == [] && InPool(k, p.next)
  }

  /** The subnets of a node are pool addresses that the frontiers have passed. */
  ghost predicate Placed(m: Member, w: World)
    requires OnlyGrows(w.pool4, Subnet4) && OnlyGrows(w.pool6, Subnet6)
  {
    Below(Subnet4, m.subnet4, w.pool4.next) && Below(Subnet6, m.subnet6, w.pool6.next)
  }

  ghost predicate Apart(m: Member, n: Member) {
    m.subnet4 != n.subnet4 && m.subnet6 != n.subnet6
  }

  /** What concerns the pools and the nodes' subnets only. */
  ghost predicate SubnetsInv(w: World)
  {
    && OnlyGrows(w.pool4, Subnet4) && OnlyGrows(w.pool6, Subnet6)
    && (forall i | 0 <= i < |w.nodes| :: Placed(w.nodes[i], w))
    && (forall i, j | 0 <= i < j < |w.nodes| :: Apart(w.nodes[i], w.nodes[j]))
  }

  ghost predicate MembersInv(nodes: seq<Member>)
  {
    forall i | 0 <= i < |nodes| :: MemberInv(nodes[i])
  }

  ghost predicate WorldInv(w: World)
  {
    SubnetsInv(w) && MembersInv(w.nodes)
  }

  lemma NewWorldInv()
    ensures WorldInv(NewWorld())
  {
    BaseIsFirst(Subnet4);
    BaseIsFirst(Subnet6);
  }

  lemma SixteenByteSpace()
    ensures 0xFDFE * (256 * P13) + 65536 < SPACE6
  {
    assert |THIRTEEN_BYTES| == 13;
    assert Pow256(13) == 0x1_0000_0000_0000_0000_0000_0000_00;
  }

  lemma EverySubnetIsAssignable(a4: Addr, a6: Addr)
    requires InPool(Subnet4, a4) && InPool(Subnet6, a6)
    ensures Assignable(a4, a6)
  {
    Subnet4Block(a4);
    RankBound(Subnet4, a4);
    Subnet6Block(a6);
    RankBound(Subnet6, a6);
    SixteenByteSpace();
  }

  lemma SubnetTaken(p: Pool, k: Kind)
    requires OnlyGrows(p, k) && !LooksUp(k)
    ensures var (a, p') := Allocate(p, {});
            && OnlyGrows(p', k)
            && (a.Raise? ==> p' == p)
            && (a.Ok? ==> InPool(k, a.value)
                          && Rank(k, a.value) == Rank(k, p.next) && Rank(k, p'.next) == Rank(k, p.next) + 1)
  {
    IncreaseAddsOne(k, p.next);
  }

  lemma NewMemberInv(a4: Addr, a6: Addr)
    requires InPool(Subnet4, a4) && InPool(Subnet6, a6) && Assignable(a4, a6)
    ensures MemberInv(NewMember(a4, a6))
  {
    NewNodeInv(Value(a4) + 1, Value(a6) + 1);
  }

  /** Appending a member on the two subnets at the frontier, which then moves past them. */
  lemma AppendKeepsSubnets(w: World, w': World, m: Member)
    requires SubnetsInv(w) && InPool(Subnet4, m.subnet4) && InPool(Subnet6, m.subnet6)
    requires OnlyGrows(w'.pool4, Subnet4) && OnlyGrows(w'.pool6, Subnet6) && w'.nodes == w.nodes + [m]
    requires Rank(Subnet4, m.subnet4) == Rank(Subnet4, w.pool4.next) < Rank(Subnet4, w'.pool4.next)
    requires Rank(Subnet6, m.subnet6) == Rank(Subnet6, w.pool6.next) < Rank(Subnet6, w'.pool6.next)
    ensures SubnetsInv(w')
  {
    forall i | 0 <= i < |w.nodes| ensures Placed(w'.nodes[i], w') && Apart(w'.nodes[i], m) {
      assert w'.nodes[i] == w.nodes[i];
      assert Placed(w.nodes[i], w);
    }
  }

  /** The IPv4 frontier alone moves when the IPv6 pool is exhausted. */
  lemma LoneMoveKeepsSubnets(w: World, pool4: Pool)
    requires SubnetsInv(w) && OnlyGrows(pool4, Subnet4)
    requires Rank(Subnet4, w.pool4.next) <= Rank(Subnet4, pool4.next)
    ensures SubnetsInv(w.(pool4 := pool4))
  {
    var w' := w.(pool4 := pool4);
    forall i | 0 <= i < |w.nodes| ensures Placed(w'.nodes[i], w') {
      assert Placed(w.nodes[i], w);
    }
  }

  /** What a join does, by the outcome of the two requests. */
  lemma JoinCases(w: World)
    requires OnlyGrows(w.pool4, Subnet4) && OnlyGrows(w.pool6, Subnet6)
    ensures var (a4, pool4) := Allocate(w.pool4, {});
            var (a6, pool6) := Allocate(w.pool6, {});
            && (a4.Raise? ==> JoinWorld(w) == w)
            && (a4.Ok? && a6.Raise? ==> JoinWorld(w) == w.(pool4 := pool4))
            && (a4.Ok? && a6.Ok? ==>
                  && Assignable(a4.value, a6.value)
                  && JoinWorld(w) == World(pool4, pool6, w.nodes + [NewMember(a4.value, a6.value)]))
  {
    SubnetTaken(w.pool4, Subnet4);
    SubnetTaken(w.pool6, Subnet6);
    var a4, a6 := Allocate(w.pool4, {}).0, Allocate(w.pool6, {}).0;
    if a4.Ok? && a6.Ok? {
      EverySubnetIsAssignable(a4.value, a6.value);
    }
  }

  lemma JoinKeeps(w: World)
    requires WorldInv(w)
    ensures WorldInv(JoinWorld(w))
  {
    JoinCases(w);
    SubnetTaken(w.pool4, Subnet4);
    SubnetTaken(w.pool6, Subnet6);
    var (a4, pool4) := Allocate(w.pool4, {});
    var a6 := Allocate(w.pool6, {}).0;
    if a4.Ok? && a6.Ok? {
      var m := NewMember(a4.value, a6.value);
      AppendKeepsSubnets(w, JoinWorld(w), m);
      NewMemberInv(a4.value, a6.value);
      MembersAppended(w.nodes, m);
    } else if a4.Ok? {
      LoneMoveKeepsSubnets(w, pool4);
    }
  }

  lemma MembersAppended(nodes: seq<Member>, m: Member)
    requires MembersInv(nodes) && MemberInv(m)
    ensures MembersInv(nodes + [m])
  {
    var appended := nodes + [m];
    forall i | 0 <= i < |appended| ensures MemberInv(appended[i]) {
      assert appended[i] == if i < |nodes| then nodes[i] else m;
    }
  }

  lemma MembersUpdated(nodes: seq<Member>, n: nat, m: Member)
    requires MembersInv(nodes) && MemberInv(m) && n < |nodes|
    ensures MembersInv(nodes[n := m])
  {
    var updated := nodes[n := m];
    forall i | 0 <= i < |updated| ensures MemberInv(updated[i]) {
      assert updated[i] == if i == n then m else nodes[i];
    }
  }

  lemma StepKeepsBridge(r: NodeRun, e: NodeEvent)
    requires NodeShape(r.state)
    ensures NodeStep(r, e).state.p4.bridge == r.state.p4.bridge
    ensures NodeStep(r, e).state.p6.bridge == r.state.p6.bridge
  {
  }

  lemma MemberStepKeeps(m: Member, event: NodeEvent)
    requires MemberInv(m)
    ensures MemberInv(m.(run := NodeStep(m.run, event)))
  {
    NodeStepKeeps(m.run, event);
    StepKeepsBridge(m.run, event);
  }

  lemma ReplaceKeepsSubnets(w: World, n: nat, m: Member)
    requires SubnetsInv(w) && n < |w.nodes|
    requires m.subnet4 == w.nodes[n].subnet4 && m.subnet6 == w.nodes[n].subnet6
    ensures SubnetsInv(w.(nodes := w.nodes[n := m]))
  {
    var w' := w.(nodes := w.nodes[n := m]);
    forall i | 0 <= i < |w.nodes| ensures Placed(w'.nodes[i], w') {
      assert Placed(w.nodes[i], w);
    }
    forall i, j | 0 <= i < j < |w.nodes| ensures Apart(w'.nodes[i], w'.nodes[j]) {
      assert Apart(w.nodes[i], w.nodes[j]);
    }
  }

  lemma WorldStepKeeps(w: World, e: WorldEvent)
    requires WorldInv(w)
    ensures WorldInv(StepWorld(w, e))
  {
    match e
    case Join => JoinKeeps(w);
    case At(n, event) =>
      if n < |w.nodes| {
        MemberStepKeeps(w.nodes[n], event);
        var m := w.nodes[n].(run := NodeStep(w.nodes[n].run, event));
        ReplaceKeepsSubnets(w, n, m);
        MembersUpdated(w.nodes, n, m);
      }
  }

  /** Root and nodes after any interleaving of events. */
  ghost function RunWorld(events: seq<WorldEvent>): (w: World)
    ensures WorldInv(w)
    decreases |events|
  {
    if events == [] then
      NewWorldInv();
      NewWorld()
    else
      var before := RunWorld(events[..|events| - 1]);
      WorldStepKeeps(before, events[|events| - 1]);
      StepWorld(before, events[|events| - 1])
  }

  // ---------- The claims ----------

  /** An IPv4 address in the hands of a container of the node, recorded or not. */
  ghost predicate Uses4(m: Member, ip: Ip)
  {
    ip in Live4(m.run.state).Values || ip in m.run.lost4
  }

  ghost predicate Uses6(m: Member, ip: Ip)
  {
    ip in Live6(m.run.state).Values || ip in m.run.lost6
  }

  lemma AddressesAreUsable(m: Member, ip: Ip)
    requires MemberInv(m)
    ensures Uses4(m, ip) ==> Usable(m.run.state.p4, ip)
    ensures Uses6(m, ip) ==> Usable(m.run.state.p6, ip)
  {
    if Uses4(m, ip) {
      assert ip in Live4(m.run.state).Values || ip in Elements(m.run.lost4);
    }
    if Uses6(m, ip) {
      assert ip in Live6(m.run.state).Values || ip in Elements(m.run.lost6);
    }
  }

  /** Inside the node's block, past the network and bridge addresses, and for IPv4 before the broadcast address. */
  lemma AddressesLieInTheBlock(m: Member, ip: Ip)
    requires MemberInv(m)
    ensures Uses4(m, ip) ==> ip.V4? && Value(m.subnet4) + 2 <= ip.v4 <= Value(m.subnet4) + 62
                             && SUBNET4_BASE <= ip.v4 < SERVICE4_BASE
    ensures Uses6(m, ip) ==> ip.V6? && Value(m.subnet6) + 2 <= ip.v6 <= Value(m.subnet6) + 255
                             && ip.v6 < 0xFDFE * (256 * P13)
  {
    Subnet4Block(m.subnet4);
    Subnet6Block(m.subnet6);
    RankBound(Subnet6, m.subnet6);
    AddressesAreUsable(m, ip);
  }

  /** A node may use exactly the addresses 2 to 62 of its IPv4 block and 2 to 255 of its IPv6 block. */
  lemma UsableExactly(m: Member, n: nat)
    requires MemberInv(m)
    ensures Usable(m.run.state.p4, V4(n)) <==> Value(m.subnet4) + 2 <= n <= Value(m.subnet4) + 62
    ensures Usable(m.run.state.p6, V6(n)) <==> Value(m.subnet6) + 2 <= n <= Value(m.subnet6) + 255
  {
  }

  lemma BlocksApart(w: World, i: nat, j: nat, ip: Ip)
    requires WorldInv(w) && i < |w.nodes| && j < |w.nodes| && i != j
    ensures !(Uses4(w.nodes[i], ip) && Uses4(w.nodes[j], ip))
    ensures !(Uses6(w.nodes[i], ip) && Uses6(w.nodes[j], ip))
  {
    var m, n := w.nodes[i], w.nodes[j];
    assert MemberInv(m) && MemberInv(n) && (Apart(m, n) || Apart(n, m));
    AddressesLieInTheBlock(m, ip);
    AddressesLieInTheBlock(n, ip);
    RankApart(Subnet4, m.subnet4, n.subnet4);
    RankApart(Subnet6, m.subnet6, n.subnet6);
    Subnet4Block(m.subnet4);
    Subnet4Block(n.subnet4);
    Subnet6Block(m.subnet6);
    Subnet6Block(n.subnet6);
  }

  ghost predicate LiveAt(w: World, i: nat, k: Key) {
    i < |w.nodes| && k in w.nodes[i].run.state.deployed
  }

  ghost function ServiceAt(w: World, i: nat, k: Key): Service
    requires LiveAt(w, i, k)
  {
    w.nodes[i].run.state.deployed[k]
  }

  /**
   Over every interleaving of joins, deployments and detachments, two
   containers that run anywhere never share an IPv4 or an IPv6 address.
   */
  lemma GlobalUniqueness(events: seq<WorldEvent>, i: nat, k: Key, j: nat, l: Key)
    ensures var w := RunWorld(events);
            LiveAt(w, i, k) && LiveAt(w, j, l) && (i, k) != (j, l) ==>
              ServiceAt(w, i, k).ip != ServiceAt(w, j, l).ip && ServiceAt(w, i, k).ipv6 != ServiceAt(w, j, l).ipv6
  {
    var w := RunWorld(events);
    if LiveAt(w, i, k) && LiveAt(w, j, l) && (i, k) != (j, l) {
      ContainersApart(w, i, k, j, l);
    }
  }

  lemma ContainersApart(w: World, i: nat, k: Key, j: nat, l: Key)
    requires WorldInv(w) && LiveAt(w, i, k) && LiveAt(w, j, l) && (i, k) != (j, l)
    ensures ServiceAt(w, i, k).ip != ServiceAt(w, j, l).ip && ServiceAt(w, i, k).ipv6 != ServiceAt(w, j, l).ipv6
  {
    var s, t := w.nodes[i].run.state, w.nodes[j].run.state;
    assert Live4(s)[k] == s.deployed[k].ip && Live6(s)[k] == s.deployed[k].ipv6;
    assert Live4(t)[l] == t.deployed[l].ip && Live6(t)[l] == t.deployed[l].ipv6;
    if i != j {
      BlocksApart(w, i, j, s.deployed[k].ip);
      BlocksApart(w, i, j, s.deployed[k].ipv6);
    } else {
      assert MemberInv(w.nodes[i]) && k in Live4(s) && l in Live4(s) && k in Live6(s) && l in Live6(s);
    }
  }

  /** That includes containers whose record was overwritten by a later deployment, among each other too. */
  lemma LostAddressesStayUnique(events: seq<WorldEvent>, i: nat, x: nat, j: nat, y: nat, ip: Ip)
    requires i < |RunWorld(events).nodes| && j < |RunWorld(events).nodes|
    ensures var m, n := RunWorld(events).nodes[i].run, RunWorld(events).nodes[j].run;
            && (x < |m.lost4| ==>
                  && (ip in Live4(n.state).Values ==> m.lost4[x] != ip)
                  && (y < |n.lost4| && (i, x) != (j, y) ==> m.lost4[x] != n.lost4[y]))
            && (x < |m.lost6| ==>
                  && (ip in Live6(n.state).Values ==> m.lost6[x] != ip)
                  && (y < |n.lost6| && (i, x) != (j, y) ==> m.lost6[x] != n.lost6[y]))
  {
    var w := RunWorld(events);
    assert MemberInv(w.nodes[i]);
    LostApart(w, i, x, j, y, ip);
  }

  lemma LostApart(w: World, i: nat, x: nat, j: nat, y: nat, ip: Ip)
    requires WorldInv(w) && i < |w.nodes| && j < |w.nodes|
    ensures var m, n := w.nodes[i].run, w.nodes[j].run;
            && (x < |m.lost4| ==>
                  && (ip in Live4(n.state).Values ==> m.lost4[x] != ip)
                  && (y < |n.lost4| && (i, x) != (j, y) ==> m.lost4[x] != n.lost4[y]))
            && (x < |m.lost6| ==>
                  && (ip in Live6(n.state).Values ==> m.lost6[x] != ip)
                  && (y < |n.lost6| && (i, x) != (j, y) ==> m.lost6[x] != n.lost6[y]))
  {
    var m, n := w.nodes[i].run, w.nodes[j].run;
    if i != j {
      if x < |m.lost4| { BlocksApart(w, i, j, m.lost4[x]); }
      if x < |m.lost6| { BlocksApart(w, i, j, m.lost6[x]); }
    } else {
      assert MemberInv(w.nodes[i]);
      LostInOneNode(m);
    }
  }

  /** On one node: no lost address is live, and none is lost twice. */
  lemma LostInOneNode(r: NodeRun)
    requires NodeInv(r)
    ensures Distinct(r.lost4) && forall ip <- r.lost4 :: ip !in Live4(r.state).Values
    ensures Distinct(r.lost6) && forall ip <- r.lost6 :: ip !in Live6(r.state).Values
  {
    forall ip <- r.lost4 ensures ip !in Live4(r.state).Values { assert ip in Elements(r.lost4); }
    forall ip <- r.lost6 ensures ip !in Live6(r.state).Values { assert ip in Elements(r.lost6); }
  }

  /** Every container address of every run lies in its node's block, clear of the reserved addresses. */
  lemma EveryAddressInItsBlock(events: seq<WorldEvent>, i: nat, ip: Ip)
    requires i < |RunWorld(events).nodes|
    ensures var m := RunWorld(events).nodes[i];
            && (Uses4(m, ip) ==> ip.V4? && Value(m.subnet4) + 2 <= ip.v4 <= Value(m.subnet4) + 62)
            && (Uses6(m, ip) ==> ip.V6? && Value(m.subnet6) + 2 <= ip.v6 <= Value(m.subnet6) + 255)
  {
    AddressesLieInTheBlock(RunWorld(events).nodes[i], ip);
  }

  // ---------- When nodes and containers come up ----------

  /** A join adds a node if and only if neither subnet pool has come to its last address. */
  lemma JoinAddsExactly(events: seq<WorldEvent>)
    ensures var w, w' := RunWorld(events), RunWorld(events + [Join]);
            && (|w'.nodes| == |w.nodes| + 1 <==>
                Rank(Subnet4, w.pool4.next) < Size(Subnet4) - 1 && Rank(Subnet6, w.pool6.next) < Size(Subnet6) - 1)
            && |w.nodes| <= |w'.nodes| <= |w.nodes| + 1
  {
    var w := RunWorld(events);
    assert (events + [Join])[..|events|] == events;
    JoinCases(w);
    SubnetTakenExactly(w.pool4, Subnet4);
    SubnetTakenExactly(w.pool6, Subnet6);
  }

  lemma SubnetTakenExactly(p: Pool, k: Kind)
    requires OnlyGrows(p, k) && !LooksUp(k)
    ensures Allocate(p, {}).0.Ok? <==> Rank(k, p.next) < Size(k) - 1
  {
    IncreaseAddsOne(k, p.next);
    RankBound(k, p.next);
  }

  /**
   After a deployment the container runs if and only if it did before, or all
   calls succeeded and the node had an address of each family available.
   */
  lemma DeploymentRunsExactly(events: seq<WorldEvent>, i: nat, k: Key, ok: set<SysCall>)
    requires i < |RunWorld(events).nodes|
    ensures var w, w' := RunWorld(events), RunWorld(events + [At(i, Deployment(k, ok))]);
            var s := w.nodes[i].run.state;
            LiveAt(w', i, k) <==>
              || LiveAt(w, i, k)
              || (&& (forall call: SysCall :: call in ok)
                  && (exists ip :: Available(s.p4, ip)) && (exists ip :: Available(s.p6, ip)))
  {
    var w := RunWorld(events);
    assert (events + [At(i, Deployment(k, ok))])[..|events|] == events;
    assert MemberInv(w.nodes[i]);
    RecordedExactly(w.nodes[i].run, k, ok);
  }

  lemma RecordedExactly(r: NodeRun, k: Key, ok: set<SysCall>)
    requires NodeInv(r)
    ensures k in NodeStep(r, Deployment(k, ok)).state.deployed <==>
            || k in r.state.deployed
            || (&& (forall call: SysCall :: call in ok)
                && (exists ip :: Available(r.state.p4, ip)) && (exists ip :: Available(r.state.p6, ip)))
  {
    DeploySucceedsExactly(r, k, ok);
    FailedDeployChangesNothing(r, k, ok);
  }

  /** A node that has just joined has addresses of both families. */
  lemma NewNodeHasAddresses(bridge4: nat, bridge6: nat)
    ensures var s := NewNode(bridge4, bridge6);
            (exists ip :: Available(s.p4, ip)) && (exists ip :: Available(s.p6, ip))
  {
    var s := NewNode(bridge4, bridge6);
    assert Available(s.p4, V4(bridge4 + 1)) && Available(s.p6, V6(bridge6 + 1));
  }

  predicate IsNew(m: Member) {
    Value(m.subnet4) >= 0 && Value(m.subnet6) >= 0 &&
    m.run.state == NewNode(Value(m.subnet4) + 1, Value(m.subnet6) + 1)
  }

  lemma JoinedIsNew(w: World)
    requires OnlyGrows(w.pool4, Subnet4) && OnlyGrows(w.pool6, Subnet6)
    ensures |JoinWorld(w).nodes| == |w.nodes| + 1 ==> IsNew(JoinWorld(w).nodes[|w.nodes|])
  {
    JoinCases(w);
    var a4, a6 := Allocate(w.pool4, {}).0, Allocate(w.pool6, {}).0;
    if a4.Ok? && a6.Ok? {
      MemberIsNew(a4.value, a6.value);
      assert JoinWorld(w).nodes[|w.nodes|] == NewMember(a4.value, a6.value);
    }
  }

  lemma MemberIsNew(a4: Addr, a6: Addr)
    requires Assignable(a4, a6)
    ensures IsNew(NewMember(a4, a6))
  {
  }

  lemma FirstJoin()
    ensures var nodes := RunWorld([Join]).nodes;
            |nodes| == 1 && IsNew(nodes[0])
  {
    var w := RunWorld([]);
    assert [Join][..0] == [] && [] + [Join] == [Join];
    BaseIsFirst(Subnet4);
    BaseIsFirst(Subnet6);
    assert |w.nodes| == 0 && w.pool4.next == Base(Subnet4) && w.pool6.next == Base(Subnet6);
    JoinAddsExactly([]);
    JoinedIsNew(w);
  }

  /** So there are runs in which containers run: with all calls succeeding, any one of a first node comes up. */
  lemma FirstContainerRuns(k: Key, ok: set<SysCall>)
    requires forall call: SysCall :: call in ok
    ensures LiveAt(RunWorld([Join] + [At(0, Deployment(k, ok))]), 0, k)
  {
    FirstJoin();
    var m := RunWorld([Join]).nodes[0];
    NewNodeHasAddresses(Value(m.subnet4) + 1, Value(m.subnet6) + 1);
    DeploymentRunsExactly([Join], 0, k, ok);
  }
}
