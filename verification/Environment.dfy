/**
 The environment manager of a node: its container addresses, its deployed
 services and its translation table, changed in place. Operating-system calls
 are given as the set of those that succeed, a table query by its reply.
 */
module Environment {
  import opened Wrappers
  import opened Addresses
  import opened NodePools
  import opened TranslationTable

  /** The table a lookup by service address leaves: a miss adds the reply of a query. */
  function Resolve(t: Table, ip: Ip, reply: Option<seq<TableEntry>>): Table {
    if SearchByServiceIp(t, ip) != [] || reply.None? then t else AddAll(t, reply.value)
  }

  /** What a lookup tells the rest of the node: a job in use, and interests to register. */
  datatype Effect = InUse(job: string) | InterestInJob(job: string) | InterestInAddress(ip: Ip)

  /** A hit reports the first entry's job; a query registers interest in the first entry's job and in the address. */
  function ResolveEffects(t: Table, ip: Ip, reply: Option<seq<TableEntry>>): seq<Effect> {
    var found := SearchByServiceIp(t, ip);
    if found != [] then [InUse(found[0].jobName)]
    else if reply.None? then []
    else if reply.value == [] then [InterestInAddress(ip)]
    else [InterestInJob(reply.value[0].jobName), InterestInAddress(ip)]
  }

  /** The table after a container with address `ip` is detached from a service. */
  function TableAfterDetach(t: Table, ip: Ip, service: string, interested: bool): Table {
    var removed := RemoveNs(t, ip);
    if interested then removed else RemoveJob(removed, service)
  }

  // ---------- What these mean ----------

  /** Some entry of the table lists the service address. */
  predicate Known(t: Table, ip: Ip) {
    exists e <- t :: exists s <- e.serviceIp :: s.address == ip || s.addressV6 == ip
  }

  lemma KnownIsFound(t: Table, ip: Ip)
    ensures Known(t, ip) <==> SearchByServiceIp(t, ip) != []
  {
    forall e { SearchByServiceIpMembers(t, ip, e); }
    var found := SearchByServiceIp(t, ip);
    if found != [] {
      assert found[0] in found;
    }
  }

  /** A hit and a failed query leave the table; a miss that is answered folds the whole response into it. */
  lemma LookupLearns(t: Table, ip: Ip, reply: Option<seq<TableEntry>>)
    requires MapInv(t) && (reply.Some? ==> forall e <- reply.value :: TypedEntry(e))
    ensures Known(t, ip) || reply.None? ==> Resolve(t, ip, reply) == t
    ensures !Known(t, ip) && reply.Some? ==>
              && MapInv(Resolve(t, ip, reply))
              && AsMap(Resolve(t, ip, reply)) == MapAddAll(AsMap(t), reply.value)
  {
    KnownIsFound(t, ip);
    if reply.Some? {
      AddAllAsMap(t, reply.value);
    }
  }

  /**
   After a miss, every valid entry of the response whose address no later one
   repeats is in the table, and the answer has it if and only if it lists the
   service address.
   */
  lemma LearnedEntries(t: Table, ip: Ip, response: seq<TableEntry>, i: nat)
    requires MapInv(t) && !Known(t, ip) && forall e <- response :: TypedEntry(e)
    requires i < |response| && IsValid(response[i])
    requires forall j | i < j < |response| :: response[j].nsip != response[i].nsip
    ensures var after := Resolve(t, ip, Some(response));
            && response[i] in after
            && (response[i] in SearchByServiceIp(after, ip) <==>
                exists s <- response[i].serviceIp :: s.address == ip || s.addressV6 == ip)
  {
    var after := Resolve(t, ip, Some(response));
    LookupLearns(t, ip, Some(response));
    LastEntryStays(AsMap(t), response, i);
    AsMapHolds(after, response[i].nsip, response[i]);
    SearchByServiceIpMembers(after, ip, response[i]);
  }

  /** A hit reports the job of the first entry that lists the address, and registers nothing. */
  lemma HitReportsUse(t: Table, ip: Ip, reply: Option<seq<TableEntry>>, i: nat)
    requires i < |t| && exists s <- t[i].serviceIp :: s.address == ip || s.addressV6 == ip
    requires forall j | 0 <= j < i :: !exists s <- t[j].serviceIp :: s.address == ip || s.addressV6 == ip
    ensures ResolveEffects(t, ip, reply) == [InUse(t[i].jobName)]
  {
    FirstFound(t, ip, i);
  }

  lemma {:induction false} FirstFound(t: Table, ip: Ip, i: nat)
    requires i < |t| && exists s <- t[i].serviceIp :: s.address == ip || s.addressV6 == ip
    requires forall j | 0 <= j < i :: !exists s <- t[j].serviceIp :: s.address == ip || s.addressV6 == ip
    ensures SearchByServiceIp(t, ip) != [] && SearchByServiceIp(t, ip)[0] == t[i]
  {
    var e := t[0];
    var here := Repeats(e, e.serviceIp, ip);
    RepeatsMembers(e, e.serviceIp, ip, e);
    if here != [] {
      assert here[0] in here;
      RepeatsMembers(e, e.serviceIp, ip, here[0]);
    }
    if i > 0 {
      FirstFound(t[1..], ip, i - 1);
    }
  }

  /** A miss registers interest in the address if the query succeeded, and first in the job if it brought entries. */
  lemma MissRegisters(t: Table, ip: Ip, reply: Option<seq<TableEntry>>)
    requires !Known(t, ip)
    ensures var effects := ResolveEffects(t, ip, reply);
            && (InterestInAddress(ip) in effects <==> reply.Some?)
            && (forall job :: InterestInJob(job) in effects <==>
                  reply.Some? && reply.value != [] && job == reply.value[0].jobName)
            && (forall job :: InUse(job) !in effects)
            && |effects| == if reply.None? then 0 else if reply.value == [] then 1 else 2
  {
    KnownIsFound(t, ip);
  }

  /** Detaching drops the container's entry, and the service's entries unless interest is registered; nothing else. */
  lemma DetachLeaves(t: Table, ip: Ip, service: string, interested: bool, e: TableEntry)
    requires MapInv(t) && ip.V4?
    ensures e in TableAfterDetach(t, ip, service, interested) <==>
            e in t && e.nsip != ip && (interested || e.jobName != service)
  {
    RemoveNsMembers(t, ip);
    var removed := RemoveNs(t, ip);
    if !interested {
      RemoveJobFromCount(removed, service, 0, e);
      assert e in RemoveJob(removed, service) <==> multiset(RemoveJob(removed, service))[e] > 0;
      assert e in removed <==> multiset(removed)[e] > 0;
    }
  }

  class EnvironmentManager {
    const hostBridgeIP: Ip
    const hostBridgeIPv6: Ip
    const translationTable: TableManager
    var nextContainerIP: Ip
    var nextContainerIPv6: Ip
    var totNextAddr: int
    var totNextAddrv6: int
    var addrCache: seq<Ip>
    var addrCachev6: seq<Ip>
    var deployedServices: map<Key, Service>

    ghost function View(): NodeState
      requires hostBridgeIP.V4? && hostBridgeIPv6.V6?
      reads this
    {
      NodeState(AddrPool(F4, hostBridgeIP.v4, nextContainerIP, totNextAddr, addrCache),
                AddrPool(F6, hostBridgeIPv6.v6, nextContainerIPv6, totNextAddrv6, addrCachev6),
                deployedServices)
    }

    ghost predicate Valid()
      reads this
    {
      hostBridgeIP.V4? && hostBridgeIPv6.V6? && NodeShape(View())
    }

    /** Sets a node up on the subnets it was assigned; the bridge takes the first address of each. */
    constructor (subnet4: Ip, subnet6: Ip)
      requires subnet4.V4? && subnet4.v4 + 257 < SPACE4
      requires subnet6.V6? && subnet6.v6 + 257 < SPACE6
      ensures Valid() && fresh(translationTable) && translationTable.translationTable == []
      ensures View() == NewNode(subnet4.v4 + 1, subnet6.v6 + 1)
    {
      hostBridgeIP := NextIPv4(subnet4, 1);
      hostBridgeIPv6 := NextIPv6(subnet6, 1);
      nextContainerIP := NextIPv4(NextIPv4(subnet4, 1), 1);
      nextContainerIPv6 := NextIPv6(NextIPv6(subnet6, 1), 1);
      totNextAddr, totNextAddrv6 := 1, 1;
      addrCache, addrCachev6 := [], [];
      deployedServices := map[];
      translationTable := new TableManager();
    }

    // ---------- Addresses ----------

    method GenerateAddress() returns (r: Option<Ip>)
      requires Valid()
      modifies this
      ensures Valid() && r == Generate(old(View()).p4).0
      ensures View() == old(View()).(p4 := Generate(old(View()).p4).1)
    {
      if |addrCache| > 0 {
        r := Some(addrCache[0]);
        addrCache := addrCache[1..];
      } else {
        var result := nextContainerIP;
        if totNextAddr < 62 {
          totNextAddr := totNextAddr + 1;
        } else {
          return None;
        }
        nextContainerIP := NextIPv4(nextContainerIP, 1);
        r := Some(result);
      }
    }

    method GenerateIPv6Address() returns (r: Option<Ip>)
      requires Valid()
      modifies this
      ensures Valid() && r == Generate(old(View()).p6).0
      ensures View() == old(View()).(p6 := Generate(old(View()).p6).1)
    {
      if |addrCachev6| > 0 {
        r := Some(addrCachev6[0]);
        addrCachev6 := addrCachev6[1..];
      } else {
        var result := nextContainerIPv6;
        if totNextAddrv6 < 255 {
          totNextAddrv6 := totNextAddrv6 + 1;
        } else {
          return None;
        }
        nextContainerIPv6 := NextIPv6(nextContainerIPv6, 1);
        r := Some(result);
      }
    }

    method FreeContainerAddress(ip: Ip)
      requires Valid()
      modifies this
      ensures Valid() && View() == Free(old(View()), ip)
    {
      if ip.V4? {
        addrCache := addrCache + [ip];
      } else if ip.V6? {
        addrCachev6 := addrCachev6 + [ip];
      }
    }

    method FreeBoth(ip: Ip, ipv6: Ip)
      requires Valid()
      modifies this
      ensures Valid() && View() == Free(Free(old(View()), ip), ipv6)
    {
      FreeContainerAddress(ip);
      FreeContainerAddress(ipv6);
    }

    // ---------- Deployment ----------

    method DeployNetwork(sname: string, instance: int, ok: set<SysCall>) returns (r: Option<Service>)
      requires Valid()
      modifies this
      ensures Valid() && (r, View()) == Deploy(old(View()), (sname, instance), ok)
    {
      if CreateVeth !in ok { return None; }
      if FindPeer !in ok { return None; }
      if AttachPeer !in ok { return None; }
      var ip := GenerateAddress();
      if ip.None? { return None; }
      var ipv6 := GenerateIPv6Address();
      if ipv6.None? {
        FreeContainerAddress(ip.value);
        return None;
      }
      if SetAddress4 !in ok { FreeBoth(ip.value, ipv6.value); return None; }
      if DisableDad !in ok { FreeBoth(ip.value, ipv6.value); return None; }
      if SetAddress6 !in ok { FreeBoth(ip.value, ipv6.value); return None; }
      if SetRoutes4 !in ok { FreeBoth(ip.value, ipv6.value); return None; }
      if SetRoutes6 !in ok { FreeBoth(ip.value, ipv6.value); return None; }
      if SetFirewall !in ok { FreeBoth(ip.value, ipv6.value); return None; }
      if OpenPorts4 !in ok { FreeBoth(ip.value, ipv6.value); return None; }
      if OpenPorts6 !in ok { FreeBoth(ip.value, ipv6.value); return None; }
      var service := Service(ip.value, ipv6.value);
      deployedServices := deployedServices[(sname, instance) := service];
      r := Some(service);
    }

    method DetachContainer(sname: string, instance: int, interested: bool)
      requires Valid()
      modifies this, translationTable
      ensures Valid() && View() == Detach(old(View()), (sname, instance))
      ensures translationTable.translationTable ==
              if (sname, instance) in old(deployedServices)
              then TableAfterDetach(old(translationTable.translationTable),
                                    old(deployedServices)[(sname, instance)].ip, sname, interested)
              else old(translationTable.translationTable)
    {
      var key := (sname, instance);
      if key in deployedServices {
        var s := deployedServices[key];
        var _ := translationTable.RemoveByNsip(s.ip);
        deployedServices := deployedServices - {key};
        FreeContainerAddress(s.ip);
        FreeContainerAddress(s.ipv6);
        if !interested {
          translationTable.RemoveByJobName(sname);
        }
      }
    }

    // ---------- Translation table ----------

    method AddTableQueryEntry(e: TableEntry)
      modifies translationTable
      ensures translationTable.translationTable ==
              TranslationTable.AddTableQueryEntry(old(translationTable.translationTable), e)
    {
      var _ := translationTable.RemoveByNsip(e.nsip);
      var _ := translationTable.Add(e);
    }

    method AddEntries(entries: seq<TableEntry>)
      modifies translationTable
      ensures translationTable.translationTable == AddAll(old(translationTable.translationTable), entries)
    {
      var i := 0;
      while i < |entries|
        invariant 0 <= i <= |entries|
        invariant AddAll(translationTable.translationTable, entries[i..]) ==
                  AddAll(old(translationTable.translationTable), entries)
      {
        assert entries[i..][1..] == entries[i + 1..];
        AddTableQueryEntry(entries[i]);
        i := i + 1;
      }
    }

    method RefreshServiceTable(job: string, reply: Option<seq<TableEntry>>)
      modifies translationTable
      ensures translationTable.translationTable == Refresh(old(translationTable.translationTable), job, reply)
    {
      if reply.Some? {
        translationTable.RemoveByJobName(job);
        AddEntries(reply.value);
      }
    }

    method GetTableEntryByServiceIP(ip: Ip, reply: Option<seq<TableEntry>>) returns (table: Table, effects: seq<Effect>)
      modifies translationTable
      ensures translationTable.translationTable == Resolve(old(translationTable.translationTable), ip, reply)
      ensures table == SearchByServiceIp(translationTable.translationTable, ip)
      ensures effects == ResolveEffects(old(translationTable.translationTable), ip, reply)
    {
      effects := [];
      table := translationTable.SearchByServiceIP(ip);
      if |table| > 0 {
        return table, [InUse(table[0].jobName)];
      }
      if reply.Some? {
        if |reply.value| > 0 {
          effects := [InterestInJob(reply.value[0].jobName)];
        }
        AddEntries(reply.value);
        table := translationTable.SearchByServiceIP(ip);
        effects := effects + [InterestInAddress(ip)];
      }
    }
  }
}
