/**
 The container addresses of one worker node: each family has a counter that
 walks the node's block and a cache of addresses given back. Deployments take
 one address of each family; what fails on the way gives them back.
 */
module NodePools {
  import opened Wrappers
  import opened Addresses

  datatype AddrPool = AddrPool(family: Family, bridge: nat, next: Ip, tot: int, cache: seq<Ip>)

  /** The counter stops at this value. */
  function Limit(f: Family): int {
    if f.F4? then 62 else 255
  }

  ghost predicate PoolShape(p: AddrPool)
  {
    && 1 <= p.tot <= Limit(p.family)
    && p.bridge + 256 < Space(p.family)
    && p.next == FromNumber(p.family, p.bridge + p.tot)
  }

  function NewPool(f: Family, bridge: nat): AddrPool {
    AddrPool(f, bridge, FromNumber(f, bridge + 1), 1, [])
  }

  function Generate(p: AddrPool): (r: (Option<Ip>, AddrPool))
    requires PoolShape(p)
    ensures PoolShape(r.1)
  {
    if p.cache != [] then
      (Some(p.cache[0]), p.(cache := p.cache[1..]))
    else if p.tot < Limit(p.family) then
      (Some(p.next), p.(tot := p.tot + 1, next := FromNumber(p.family, Number(p.next) + 1)))
    else
      (None, p)
  }

  // ---------- One node ----------

  /** Service name and instance number; their text form keys the deployed services. */
  type Key = (string, int)

  datatype Service = Service(ip: Ip, ipv6: Ip)

  datatype NodeState = NodeState(p4: AddrPool, p6: AddrPool, deployed: map<Key, Service>)

  /** The operating-system calls of a deployment, in order. */
  datatype SysCall =
    | CreateVeth | FindPeer | AttachPeer
    | SetAddress4 | DisableDad | SetAddress6 | SetRoutes4 | SetRoutes6 | SetFirewall | OpenPorts4 | OpenPorts6

  const EARLY: set<SysCall> := {CreateVeth, FindPeer, AttachPeer}
  const LATE: set<SysCall> :=
    {SetAddress4, DisableDad, SetAddress6, SetRoutes4, SetRoutes6, SetFirewall, OpenPorts4, OpenPorts6}

  ghost predicate NodeShape(s: NodeState)
  {
    s.p4.family == F4 && s.p6.family == F6 && PoolShape(s.p4) && PoolShape(s.p6)
  }

  function NewNode(bridge4: nat, bridge6: nat): NodeState {
    NodeState(NewPool(F4, bridge4), NewPool(F6, bridge6), map[])
  }

  /** The cache an address goes to is the one of its own family. */
  function Free(s: NodeState, ip: Ip): NodeState {
    match ip
    case NoIp => s
    case V4(_) => s.(p4 := s.p4.(cache := s.p4.cache + [ip]))
    case V6(_) => s.(p6 := s.p6.(cache := s.p6.cache + [ip]))
  }

  /** A deployment for which exactly the calls in `ok` succeed. */
  function Deploy(s: NodeState, key: Key, ok: set<SysCall>): (r: (Option<Service>, NodeState))
    requires NodeShape(s)
    ensures NodeShape(r.1)
  {
    if !(EARLY <= ok) then (None, s) else
    var (ip, p4) := Generate(s.p4);
    if ip.None? then (None, s.(p4 := p4)) else
    var (ipv6, p6) := Generate(s.p6);
    var taken := s.(p4 := p4, p6 := p6);
    if ipv6.None? then (None, Free(taken, ip.value))
    else if !(LATE <= ok) then (None, Free(Free(taken, ip.value), ipv6.value))
    else
      var service := Service(ip.value, ipv6.value);
      (Some(service), taken.(deployed := s.deployed[key := service]))
  }

  function Detach(s: NodeState, key: Key): (r: NodeState)
    requires NodeShape(s)
    ensures NodeShape(r)
  {
    if key in s.deployed then
      var service := s.deployed[key];
      Free(Free(s.(deployed := s.deployed - {key}), service.ip), service.ipv6)
    else
      s
  }

  // ---------- Conservation, one family at a time ----------

  /** The addresses a node may give to containers. */
  ghost predicate Usable(p: AddrPool, ip: Ip)
  {
    OfFamily(ip, p.family) && p.bridge < Number(ip) < p.bridge + Limit(p.family)
  }

  /** The addresses the counter has not reached. */
  ghost predicate Fresh(p: AddrPool, ip: Ip)
  {
    Usable(p, ip) && p.bridge + p.tot <= Number(ip)
  }

  ghost predicate Available(p: AddrPool, ip: Ip)
  {
    ip in p.cache || Fresh(p, ip)
  }

  /**
   Every usable address is exactly one of: fresh, cached, held by one live
   record, or `out`: in the hands of a container without a record.
   */
  ghost predicate FamilyInv(p: AddrPool, live: map<Key, Ip>, out: set<Ip>)
  {
    && PoolShape(p)
    && (forall i, j | 0 <= i < j < |p.cache| :: p.cache[i] != p.cache[j])
    && (forall k, l | k in live && l in live && k != l :: live[k] != live[l])
    && (forall k | k in live :: live[k] !in p.cache && live[k] !in out)
    && (forall ip <- p.cache :: ip !in out)
    && (forall ip | ip in p.cache || ip in out || ip in live.Values :: Usable(p, ip) && !Fresh(p, ip))
    && (forall ip | Usable(p, ip) && !Fresh(p, ip) :: ip in p.cache || ip in out || ip in live.Values)
  }

  lemma NewPoolInv(f: Family, bridge: nat)
    requires bridge + 256 < Space(f)
    ensures FamilyInv(NewPool(f, bridge), map[], {})
  {
  }

  lemma CachedGenerateKeeps(p: AddrPool, live: map<Key, Ip>, out: set<Ip>)
    requires FamilyInv(p, live, out) && p.cache != []
    ensures var ip := p.cache[0];
            && Generate(p) == (Some(ip), p.(cache := p.cache[1..]))
            && FamilyInv(p.(cache := p.cache[1..]), live, out + {ip}) && ip !in out && Available(p, ip)
  {
    var q := p.(cache := p.cache[1..]);
    assert p.cache == [p.cache[0]] + q.cache;
    assert forall x :: Usable(q, x) == Usable(p, x) && Fresh(q, x) == Fresh(p, x);
  }

  lemma FreshGenerateKeeps(p: AddrPool, live: map<Key, Ip>, out: set<Ip>)
    requires FamilyInv(p, live, out) && p.cache == [] && p.tot < Limit(p.family)
    ensures var (ip, q) := Generate(p);
            && ip == Some(p.next) && p.next !in out && Available(p, p.next)
            && FamilyInv(q, live, out + {p.next})
  {
    var q := Generate(p).1;
    assert Fresh(p, p.next);
    assert forall x :: Usable(q, x) == Usable(p, x) && (Fresh(q, x) <==> Fresh(p, x) && x != p.next);
  }

  lemma GenerateKeeps(p: AddrPool, live: map<Key, Ip>, out: set<Ip>)
    requires FamilyInv(p, live, out)
    ensures var (ip, p') := Generate(p);
            && (ip.Some? ==> FamilyInv(p', live, out + {ip.value}) && ip.value !in out && Available(p, ip.value))
            && (ip.None? ==> p' == p)
  {
    if p.cache != [] {
      CachedGenerateKeeps(p, live, out);
    } else if p.tot < Limit(p.family) {
      FreshGenerateKeeps(p, live, out);
    }
  }

  lemma FreeKeeps(p: AddrPool, live: map<Key, Ip>, out: set<Ip>, ip: Ip)
    requires FamilyInv(p, live, out) && ip in out
    ensures FamilyInv(p.(cache := p.cache + [ip]), live, out - {ip})
  {
    var q := p.(cache := p.cache + [ip]);
    assert forall x :: x in q.cache <==> x in p.cache || x == ip;
    assert forall x :: Usable(q, x) == Usable(p, x) && Fresh(q, x) == Fresh(p, x);
  }

  /** Recording an address for a key; what the key held before is without a record from now on. */
  lemma RecordKeeps(p: AddrPool, live: map<Key, Ip>, out: set<Ip>, key: Key, ip: Ip)
    requires FamilyInv(p, live, out) && ip in out
    ensures FamilyInv(p, live[key := ip], out - {ip} + if key in live then {live[key]} else {})
  {
    var live' := live[key := ip];
    forall x ensures x in live'.Values <==> x == ip || (x in live.Values && !(key in live && x == live[key])) {
      if x in live.Values {
        var k :| k in live && live[k] == x;
        assert k != key ==> k in live' && live'[k] == x;
      }
      assert key in live' && live'[key] == ip;
    }
  }

  lemma ForgetKeeps(p: AddrPool, live: map<Key, Ip>, out: set<Ip>, key: Key)
    requires FamilyInv(p, live, out) && key in live
    ensures FamilyInv(p, live - {key}, out + {live[key]})
  {
    forall x ensures x in (live - {key}).Values <==> x in live.Values && x != live[key] {
      if x in live.Values && x != live[key] {
        var k :| k in live && live[k] == x;
        assert k in live - {key};
      }
    }
  }

  /** Taking an address and recording it for a key. */
  lemma TakeKeeps(p: AddrPool, live: map<Key, Ip>, out: set<Ip>, key: Key)
    requires FamilyInv(p, live, out) && Generate(p).0.Some?
    ensures var (ip, p') := Generate(p);
            && OfFamily(ip.value, p.family)
            && FamilyInv(p', live[key := ip.value], out + if key in live then {live[key]} else {})
  {
    GenerateKeeps(p, live, out);
    var (ip, p') := Generate(p);
    RecordKeeps(p', live, out + {ip.value}, key, ip.value);
    assert out + {ip.value} - {ip.value} == out;
  }

  /** Taking an address and giving it back. */
  lemma TakeAndFreeKeeps(p: AddrPool, live: map<Key, Ip>, out: set<Ip>)
    requires FamilyInv(p, live, out) && Generate(p).0.Some?
    ensures var (ip, p') := Generate(p);
            && OfFamily(ip.value, p.family)
            && FamilyInv(p'.(cache := p'.cache + [ip.value]), live, out)
  {
    GenerateKeeps(p, live, out);
    var (ip, p') := Generate(p);
    FreeKeeps(p', live, out + {ip.value}, ip.value);
    assert out + {ip.value} - {ip.value} == out;
  }

  lemma ForgetAndFreeKeeps(p: AddrPool, live: map<Key, Ip>, out: set<Ip>, key: Key)
    requires FamilyInv(p, live, out) && key in live
    ensures OfFamily(live[key], p.family)
    ensures FamilyInv(p.(cache := p.cache + [live[key]]), live - {key}, out)
  {
    ForgetKeeps(p, live, out, key);
    FreeKeeps(p, live - {key}, out + {live[key]}, live[key]);
    assert out + {live[key]} - {live[key]} == out;
  }

  // ---------- Runs of a node ----------

  datatype NodeEvent = Deployment(key: Key, ok: set<SysCall>) | Detachment(key: Key)

  /** A node and the addresses of containers whose record was overwritten, one entry for each of them. */
  datatype NodeRun = NodeRun(state: NodeState, lost4: seq<Ip>, lost6: seq<Ip>)

  function Elements(s: seq<Ip>): set<Ip> {
    set ip | ip in s
  }

  ghost predicate Distinct(s: seq<Ip>) {
    forall i, j | 0 <= i < j < |s| :: s[i] != s[j]
  }

  function Live4(s: NodeState): map<Key, Ip> {
    map k | k in s.deployed :: s.deployed[k].ip
  }

  function Live6(s: NodeState): map<Key, Ip> {
    map k | k in s.deployed :: s.deployed[k].ipv6
  }

  /** A successful deployment over a live key. */
  ghost predicate Overwrites(s: NodeState, e: NodeEvent)
    requires NodeShape(s)
  {
    e.Deployment? && e.key in s.deployed && Deploy(s, e.key, e.ok).0.Some?
  }

  ghost function NodeStep(r: NodeRun, e: NodeEvent): (r': NodeRun)
    requires NodeShape(r.state)
    ensures NodeShape(r'.state)
  {
    match e
    case Deployment(key, ok) =>
      var state := Deploy(r.state, key, ok).1;
      if Overwrites(r.state, e) then
        NodeRun(state, r.lost4 + [r.state.deployed[key].ip], r.lost6 + [r.state.deployed[key].ipv6])
      else
        r.(state := state)
    case Detachment(key) => r.(state := Detach(r.state, key))
  }

  ghost predicate NodeInv(r: NodeRun)
  {
    && NodeShape(r.state)
    && FamilyInv(r.state.p4, Live4(r.state), Elements(r.lost4)) && Distinct(r.lost4)
    && FamilyInv(r.state.p6, Live6(r.state), Elements(r.lost6)) && Distinct(r.lost6)
  }

  lemma NewNodeInv(bridge4: nat, bridge6: nat)
    requires bridge4 + 256 < SPACE4 && bridge6 + 256 < SPACE6
    ensures NodeInv(NodeRun(NewNode(bridge4, bridge6), [], []))
  {
    NewPoolInv(F4, bridge4);
    NewPoolInv(F6, bridge6);
    assert Live4(NewNode(bridge4, bridge6)) == map[] == Live6(NewNode(bridge4, bridge6));
    assert Elements([]) == {};
  }

  lemma DeployKeeps(r: NodeRun, key: Key, ok: set<SysCall>)
    requires NodeInv(r)
    ensures NodeInv(NodeStep(r, Deployment(key, ok)))
  {
    var s := r.state;
    if EARLY <= ok && Generate(s.p4).0.Some? {
      TakeAndFreeKeeps(s.p4, Live4(s), Elements(r.lost4));
      if Generate(s.p6).0.Some? {
        if LATE <= ok {
          DeploySuccessKeeps(r, key, ok);
        } else {
          TakeAndFreeKeeps(s.p6, Live6(s), Elements(r.lost6));
        }
      }
    }
  }

  lemma DeploySuccessShape(r: NodeRun, key: Key, ok: set<SysCall>)
    requires NodeShape(r.state) && Deploy(r.state, key, ok).0.Some?
    ensures var s, r' := r.state, NodeStep(r, Deployment(key, ok));
            var (ip, p4), (ipv6, p6) := Generate(s.p4), Generate(s.p6);
            && ip.Some? && ipv6.Some? && r'.state.p4 == p4 && r'.state.p6 == p6
            && Live4(r'.state) == Live4(s)[key := ip.value]
            && Live6(r'.state) == Live6(s)[key := ipv6.value]
            && r'.lost4 == r.lost4 + (if key in Live4(s) then [Live4(s)[key]] else [])
            && r'.lost6 == r.lost6 + (if key in Live6(s) then [Live6(s)[key]] else [])
  {
  }

  /** What a live key held is not among the lost addresses before it is lost. */
  lemma LoseKeeps(p: AddrPool, live: map<Key, Ip>, lost: seq<Ip>, key: Key)
    requires FamilyInv(p, live, Elements(lost)) && Distinct(lost)
    ensures var lost' := lost + (if key in live then [live[key]] else []);
            Distinct(lost') && Elements(lost') == Elements(lost) + if key in live then {live[key]} else {}
  {
    if key in live {
      assert live[key] !in Elements(lost);
    } else {
      assert lost + [] == lost;
    }
  }

  lemma DeploySuccessKeeps(r: NodeRun, key: Key, ok: set<SysCall>)
    requires NodeInv(r) && Deploy(r.state, key, ok).0.Some?
    ensures NodeInv(NodeStep(r, Deployment(key, ok)))
  {
    DeploySuccessShape(r, key, ok);
    TakeKeeps(r.state.p4, Live4(r.state), Elements(r.lost4), key);
    LoseKeeps(r.state.p4, Live4(r.state), r.lost4, key);
    TakeKeeps(r.state.p6, Live6(r.state), Elements(r.lost6), key);
    LoseKeeps(r.state.p6, Live6(r.state), r.lost6, key);
  }

  lemma DetachShape(s: NodeState, key: Key)
    requires NodeShape(s) && key in s.deployed && s.deployed[key].ip.V4? && s.deployed[key].ipv6.V6?
    ensures var s' := Detach(s, key);
            && s'.p4 == s.p4.(cache := s.p4.cache + [Live4(s)[key]])
            && s'.p6 == s.p6.(cache := s.p6.cache + [Live6(s)[key]])
            && Live4(s') == Live4(s) - {key} && Live6(s') == Live6(s) - {key}
  {
  }

  lemma DetachKeeps(r: NodeRun, key: Key)
    requires NodeInv(r)
    ensures NodeInv(NodeStep(r, Detachment(key)))
  {
    var s := r.state;
    if key in s.deployed {
      ForgetAndFreeKeeps(s.p4, Live4(s), Elements(r.lost4), key);
      ForgetAndFreeKeeps(s.p6, Live6(s), Elements(r.lost6), key);
      DetachShape(s, key);
    }
  }

  lemma NodeStepKeeps(r: NodeRun, e: NodeEvent)
    requires NodeInv(r)
    ensures NodeInv(NodeStep(r, e))
  {
    match e
    case Deployment(key, ok) => DeployKeeps(r, key, ok);
    case Detachment(key) => DetachKeeps(r, key);
  }

  ghost function RunNode(r: NodeRun, events: seq<NodeEvent>): (r': NodeRun)
    requires NodeShape(r.state)
    ensures NodeShape(r'.state)
    decreases |events|
  {
    if events == [] then r else RunNode(NodeStep(r, events[0]), events[1..])
  }

  ghost predicate NeverOverwrites(r: NodeRun, events: seq<NodeEvent>)
    requires NodeShape(r.state)
    decreases |events|
  {
    events == [] || (!Overwrites(r.state, events[0]) && NeverOverwrites(NodeStep(r, events[0]), events[1..]))
  }

  /** Over every run, fresh, cached, live and lost addresses partition the node's block. */
  lemma {:induction false} NodeConservation(r: NodeRun, events: seq<NodeEvent>)
    requires NodeInv(r)
    ensures NodeInv(RunNode(r, events))
    decreases |events|
  {
    if events != [] {
      NodeStepKeeps(r, events[0]);
      NodeConservation(NodeStep(r, events[0]), events[1..]);
    }
  }

  /** Addresses are lost if and only if a live key is deployed over. */
  lemma {:induction false} LostExactlyByOverwriting(r: NodeRun, events: seq<NodeEvent>)
    requires NodeShape(r.state)
    ensures r.lost4 <= RunNode(r, events).lost4 && r.lost6 <= RunNode(r, events).lost6
    ensures r.lost4 == [] ==> (RunNode(r, events).lost4 == [] <==> NeverOverwrites(r, events))
    ensures r.lost6 == [] ==> (RunNode(r, events).lost6 == [] <==> NeverOverwrites(r, events))
    decreases |events|
  {
    if events != [] {
      LostExactlyByOverwriting(NodeStep(r, events[0]), events[1..]);
      if Overwrites(r.state, events[0]) {
        assert r.state.deployed[events[0].key].ip in NodeStep(r, events[0]).lost4;
        assert r.state.deployed[events[0].key].ipv6 in NodeStep(r, events[0]).lost6;
      }
    }
  }

  // ---------- What one call leaves behind ----------

  ghost predicate SameAvailability(s: NodeState, t: NodeState)
  {
    && (forall ip :: Available(s.p4, ip) <==> Available(t.p4, ip))
    && (forall ip :: Available(s.p6, ip) <==> Available(t.p6, ip))
  }

  lemma GenerateThenFree(p: AddrPool)
    requires PoolShape(p) && forall i | 0 <= i < |p.cache| :: Usable(p, p.cache[i])
    ensures var (ip, p') := Generate(p);
            && (ip.Some? ==> forall x :: Available(p'.(cache := p'.cache + [ip.value]), x) <==> Available(p, x))
            && (ip.Some? ==> OfFamily(ip.value, p.family))
            && (ip.None? ==> p' == p)
  {
    var (ip, p') := Generate(p);
    if ip.Some? {
      var q := p'.(cache := p'.cache + [ip.value]);
      assert forall x :: x in q.cache <==> x in p'.cache || x == ip.value;
      if p.cache != [] {
        assert p.cache == [p.cache[0]] + p.cache[1..];
      }
      forall x ensures Available(q, x) <==> Available(p, x) {
        assert Usable(q, x) == Usable(p, x);
      }
    }
  }

  /** Every failing exit leaves the available addresses of both families and the records as they were. */
  lemma FailedDeployChangesNothing(r: NodeRun, key: Key, ok: set<SysCall>)
    requires NodeInv(r)
    ensures var (service, s') := Deploy(r.state, key, ok);
            service.None? ==> SameAvailability(r.state, s') && s'.deployed == r.state.deployed
  {
    GenerateThenFree(r.state.p4);
    GenerateThenFree(r.state.p6);
  }

  /** A deployment succeeds exactly when every call does and both families have an address left. */
  lemma DeploySucceedsExactly(r: NodeRun, key: Key, ok: set<SysCall>)
    requires NodeInv(r)
    ensures Deploy(r.state, key, ok).0.Some? <==>
            && (forall call: SysCall :: call in ok)
            && (exists ip :: Available(r.state.p4, ip)) && (exists ip :: Available(r.state.p6, ip))
  {
    AvailabilityDecides(r.state.p4);
    AvailabilityDecides(r.state.p6);
    CallsInTwoParts(ok);
  }

  /** The calls before the first address is taken and those after the second are all there are. */
  lemma CallsInTwoParts(ok: set<SysCall>)
    ensures EARLY <= ok && LATE <= ok <==> forall call: SysCall :: call in ok
  {
    forall call: SysCall ensures call in EARLY || call in LATE {
      match call {
        case CreateVeth => case FindPeer => case AttachPeer =>
        case SetAddress4 => case DisableDad => case SetAddress6 => case SetRoutes4 => case SetRoutes6 =>
        case SetFirewall => case OpenPorts4 => case OpenPorts6 =>
      }
    }
  }

  /** If any one call fails, addresses and records are as before. */
  lemma AnyFailedCallIsUndone(r: NodeRun, key: Key, ok: set<SysCall>, call: SysCall)
    requires NodeInv(r) && call !in ok
    ensures var (service, s') := Deploy(r.state, key, ok);
            service.None? && SameAvailability(r.state, s') && s'.deployed == r.state.deployed
  {
    DeploySucceedsExactly(r, key, ok);
    FailedDeployChangesNothing(r, key, ok);
  }

  /** One address was taken and given back: it is now the last one in the cache. */
  predicate TakenAndFreed(p: AddrPool, p': AddrPool)
  {
    if p.cache != [] then p' == p.(cache := p.cache[1..] + [p.cache[0]])
    else p'.cache == [p.next] && p'.tot == p.tot + 1 && p'.bridge == p.bridge && p'.family == p.family
  }

  /**
   Where a failing call leaves the pools: before the first address is taken as
   they were, after the second with one address of each family freed again.
   */
  lemma FailedCallExactly(r: NodeRun, key: Key, ok: set<SysCall>)
    requires NodeInv(r) && !(forall call: SysCall :: call in ok)
    ensures CreateVeth !in ok || FindPeer !in ok || AttachPeer !in ok ==> Deploy(r.state, key, ok) == (None, r.state)
    ensures CreateVeth in ok && FindPeer in ok && AttachPeer in ok
            && (exists ip :: Available(r.state.p4, ip)) && (exists ip :: Available(r.state.p6, ip)) ==>
              var s' := Deploy(r.state, key, ok).1;
              TakenAndFreed(r.state.p4, s'.p4) && TakenAndFreed(r.state.p6, s'.p6)
  {
    AvailabilityDecides(r.state.p4);
    AvailabilityDecides(r.state.p6);
    CallsInTwoParts(ok);
    GenerateAndFree(r.state.p4);
    GenerateAndFree(r.state.p6);
  }

  lemma GenerateAndFree(p: AddrPool)
    requires PoolShape(p) && forall i | 0 <= i < |p.cache| :: Usable(p, p.cache[i])
    ensures var (ip, p') := Generate(p);
            ip.Some? ==> TakenAndFreed(p, p'.(cache := p'.cache + [ip.value])) && OfFamily(ip.value, p.family)
  {
  }

  lemma AvailabilityDecides(p: AddrPool)
    requires PoolShape(p)
    ensures Generate(p).0.Some? <==> exists ip :: Available(p, ip)
  {
    if p.cache != [] {
      assert Available(p, p.cache[0]);
    } else if p.tot < Limit(p.family) {
      assert Available(p, p.next);
    }
  }

  /** Deploying a key that is not live and detaching it returns both addresses. */
  lemma DeployThenDetach(r: NodeRun, key: Key, ok: set<SysCall>)
    requires NodeInv(r) && key !in r.state.deployed
    ensures var s' := Detach(Deploy(r.state, key, ok).1, key);
            SameAvailability(r.state, s') && s'.deployed == r.state.deployed
  {
    GenerateThenFree(r.state.p4);
    GenerateThenFree(r.state.p6);
    var (service, s') := Deploy(r.state, key, ok);
    if service.Some? {
      assert s'.deployed - {key} == r.state.deployed;
    }
  }
}
