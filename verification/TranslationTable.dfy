/** The translation table of a node: an unordered slice of entries, searched by scanning. */
module TranslationTable {
  import opened Wrappers
  import opened Addresses
  import opened SwapDelete

  datatype ServiceIpType = InstanceNumber | Closest | RoundRobin

  datatype ServiceIp = ServiceIp(ipType: ServiceIpType, address: Ip, addressV6: Ip)

  datatype TableEntry = TableEntry(
    jobName: string, appname: string, appns: string, servicename: string, servicenamespace: string,
    instancenumber: int, cluster: int, nodeip: Ip, nodeport: int, nsip: Ip, nsipv6: Ip,
    serviceIp: seq<ServiceIp>)

  type Table = seq<TableEntry>

  // ---------- Validity ----------

  predicate IsAlphanumeric(c: char) {
    'a' <= c <= 'z' || 'A' <= c <= 'Z' || '0' <= c <= '9'
  }

  predicate IsName(s: string) {
    1 <= |s| <= 30 && forall c <- s :: IsAlphanumeric(c)
  }

  predicate IsValid(e: TableEntry)
  {
    && IsName(e.appname) && IsName(e.appns) && IsName(e.servicename) && IsName(e.servicenamespace)
    && e.instancenumber >= 0 && e.cluster >= 0
    && e.nodeip != NoIp && e.nsip != NoIp && e.nsipv6 != NoIp
    && |e.serviceIp| >= 1
  }

  // ---------- Searches ----------

  predicate HasNs(e: TableEntry, ip: Ip) {
    e.nsip == ip || e.nsipv6 == ip
  }

  /** The first entry with a namespace address, or the table's length. */
  function FindNs(t: Table, ip: Ip): (i: nat)
    ensures i <= |t| && (i < |t| ==> HasNs(t[i], ip))
    ensures forall j | 0 <= j < i :: !HasNs(t[j], ip)
  {
    if t == [] then 0 else if HasNs(t[0], ip) then 0 else 1 + FindNs(t[1..], ip)
  }

  function SearchByNsIp(t: Table, ip: Ip): Option<TableEntry> {
    var i := FindNs(t, ip);
    if i < |t| then Some(t[i]) else None
  }

  predicate ServesAt(s: ServiceIp, ip: Ip) {
    s.address == ip || s.addressV6 == ip
  }

  /** An entry once for every one of its service addresses that matches. */
  function Repeats(e: TableEntry, sips: seq<ServiceIp>, ip: Ip): Table
  {
    if sips == [] then []
    else (if ServesAt(sips[0], ip) then [e] else []) + Repeats(e, sips[1..], ip)
  }

  predicate Serves(e: TableEntry, ip: Ip) {
    exists s <- e.serviceIp :: ServesAt(s, ip)
  }

  function SearchByServiceIp(t: Table, ip: Ip): Table
  {
    if t == [] then [] else Repeats(t[0], t[0].serviceIp, ip) + SearchByServiceIp(t[1..], ip)
  }

  lemma {:induction false} RepeatsMembers(e: TableEntry, sips: seq<ServiceIp>, ip: Ip, x: TableEntry)
    ensures x in Repeats(e, sips, ip) <==> x == e && exists s <- sips :: ServesAt(s, ip)
  {
    if sips != [] {
      RepeatsMembers(e, sips[1..], ip, x);
      assert sips == [sips[0]] + sips[1..];
    }
  }

  /** The entries that list a service address are found, and no others. */
  lemma {:induction false} SearchByServiceIpMembers(t: Table, ip: Ip, x: TableEntry)
    ensures x in SearchByServiceIp(t, ip) <==>
            x in t && exists s <- x.serviceIp :: s.address == ip || s.addressV6 == ip
    ensures x in SearchByServiceIp(t, ip) <==> x in t && Serves(x, ip)
  {
    if t != [] {
      RepeatsMembers(t[0], t[0].serviceIp, ip, x);
      SearchByServiceIpMembers(t[1..], ip, x);
      assert t == [t[0]] + t[1..];
    }
  }

  /** The service addresses of an entry that match, by their positions. */
  function Matching(sips: seq<ServiceIp>, ip: Ip): set<int> {
    set j | 0 <= j < |sips| && (sips[j].address == ip || sips[j].addressV6 == ip)
  }

  lemma {:induction false} RepeatsAppend(e: TableEntry, sips: seq<ServiceIp>, s: ServiceIp, ip: Ip)
    ensures Repeats(e, sips + [s], ip) ==
            Repeats(e, sips, ip) + if s.address == ip || s.addressV6 == ip then [e] else []
  {
    if sips == [] {
      assert sips + [s] == [s];
      assert [s][1..] == [];
    } else {
      RepeatsAppend(e, sips[1..], s, ip);
      assert (sips + [s])[1..] == sips[1..] + [s];
    }
  }

  /** An entry is found once for each of its matching service addresses. */
  lemma {:induction false} RepeatsExactly(e: TableEntry, sips: seq<ServiceIp>, ip: Ip)
    ensures Repeats(e, sips, ip) == seq(|Matching(sips, ip)|, _ => e)
  {
    if sips != [] {
      var front, s := sips[..|sips| - 1], sips[|sips| - 1];
      assert sips == front + [s];
      RepeatsAppend(e, front, s, ip);
      RepeatsExactly(e, front, ip);
      MatchingAppend(sips, ip);
    }
  }

  lemma MatchingAppend(sips: seq<ServiceIp>, ip: Ip)
    requires sips != []
    ensures var n := |sips| - 1;
            |Matching(sips, ip)| ==
            |Matching(sips[..n], ip)| + if sips[n].address == ip || sips[n].addressV6 == ip then 1 else 0
  {
    var n := |sips| - 1;
    var more, fewer := Matching(sips, ip), Matching(sips[..n], ip);
    if n in more {
      assert more == fewer + {n};
    } else {
      assert more == fewer;
    }
  }

  lemma {:induction false} SearchConcat(s: Table, t: Table, ip: Ip)
    ensures SearchByServiceIp(s + t, ip) == SearchByServiceIp(s, ip) + SearchByServiceIp(t, ip)
  {
    if s == [] {
      assert s + t == t;
    } else {
      SearchConcat(s[1..], t, ip);
      assert (s + t)[0] == s[0] && (s + t)[1..] == s[1..] + t;
      Regroup(Repeats(s[0], s[0].serviceIp, ip), SearchByServiceIp(s[1..], ip), SearchByServiceIp(t, ip));
    }
  }

  /** The answer to a search goes through the table in its order. */
  lemma SearchInOrder(s: Table, e: TableEntry, t: Table, ip: Ip)
    ensures SearchByServiceIp(s + [e] + t, ip) ==
            SearchByServiceIp(s, ip) + seq(|Matching(e.serviceIp, ip)|, _ => e) + SearchByServiceIp(t, ip)
  {
    SearchConcat(s + [e], t, ip);
    SearchConcat(s, [e], ip);
    RepeatsExactly(e, e.serviceIp, ip);
    assert SearchByServiceIp([e], ip) == Repeats(e, e.serviceIp, ip);
  }

  predicate IsNamespaceStillValid(nsip: Ip, t: Table)
  {
    exists e <- t :: HasNs(e, nsip)
  }

  // ---------- Removal ----------

  function RemoveNs(t: Table, ip: Ip): Table {
    var i := FindNs(t, ip);
    if i < |t| then Swap(t, i) else t
  }

  /** What the scan for a job leaves from index i on: after a removal it looks at the same index again. */
  function RemoveJobFrom(t: Table, job: string, i: nat): Table
    requires i <= |t|
    decreases |t| - i
  {
    if i == |t| then t
    else if t[i].jobName == job then RemoveJobFrom(Swap(t, i), job, i)
    else RemoveJobFrom(t, job, i + 1)
  }

  function RemoveJob(t: Table, job: string): Table {
    RemoveJobFrom(t, job, 0)
  }

  /** The entries of other jobs, in order. */
  function Others(t: Table, job: string): Table
  {
    if t == [] then [] else
    (if t[0].jobName == job then [] else [t[0]]) + Others(t[1..], job)
  }

  lemma CountOfConcat(first: Table, rest: Table, e: TableEntry)
    ensures multiset(first + rest)[e] == multiset(first)[e] + multiset(rest)[e]
  {
  }

  lemma {:induction false} OthersCount(t: Table, job: string, e: TableEntry)
    ensures multiset(Others(t, job))[e] == if e.jobName == job then 0 else multiset(t)[e]
  {
    if t != [] {
      OthersCount(t[1..], job, e);
      assert t == [t[0]] + t[1..];
      CountOfConcat([t[0]], t[1..], e);
      CountOfConcat(if t[0].jobName == job then [] else [t[0]], Others(t[1..], job), e);
    }
  }

  lemma {:induction false} RemoveJobFromCount(t: Table, job: string, i: nat, e: TableEntry)
    requires i <= |t| && forall j | 0 <= j < i :: t[j].jobName != job
    ensures multiset(RemoveJobFrom(t, job, i))[e] == if e.jobName == job then 0 else multiset(t)[e]
    decreases |t| - i
  {
    if i == |t| {
      if e.jobName == job {
        assert e !in t;
      }
    } else if t[i].jobName == job {
      SwapRemovesOne(t, i);
      RemoveJobFromCount(Swap(t, i), job, i, e);
    } else {
      RemoveJobFromCount(t, job, i + 1, e);
    }
  }

  /** Removing a job leaves exactly the multiset of entries with other job names. */
  lemma RemoveJobLeavesOthers(t: Table, job: string)
    ensures multiset(RemoveJob(t, job)) == multiset(Others(t, job))
  {
    forall e ensures multiset(RemoveJob(t, job))[e] == multiset(Others(t, job))[e] {
      OthersCount(t, job, e);
      RemoveJobFromCount(t, job, 0, e);
    }
  }

  // ---------- Insertion and refresh ----------

  function AddEntry(t: Table, e: TableEntry): Table {
    if IsValid(e) then t + [e] else t
  }

  function AddTableQueryEntry(t: Table, e: TableEntry): Table {
    AddEntry(RemoveNs(t, e.nsip), e)
  }

  function AddAll(t: Table, response: seq<TableEntry>): Table
    decreases |response|
  {
    if response == [] then t else AddAll(AddTableQueryEntry(t, response[0]), response[1..])
  }

  /** A refresh whose query failed changes nothing. */
  function Refresh(t: Table, job: string, reply: Option<seq<TableEntry>>): Table {
    match reply
    case None => t
    case Some(response) => AddAll(RemoveJob(t, job), response)
  }

  // ---------- The table as a map ----------

  /** Namespace addresses are of the family of their field, as the allocators hand them out. */
  predicate TypedEntry(e: TableEntry) {
    !e.nsip.V6? && !e.nsipv6.V4?
  }

  ghost predicate Typed(t: Table) {
    forall e <- t :: e.nsip.V4? && e.nsipv6.V6?
  }

  ghost predicate UniqueNs(t: Table) {
    forall i, j | 0 <= i < j < |t| :: t[i].nsip != t[j].nsip
  }

  ghost predicate MapInv(t: Table) {
    Typed(t) && UniqueNs(t)
  }

  type NsMap = map<Ip, TableEntry>

  /** The entry for each IPv4 namespace address. */
  function AsMap(t: Table): NsMap
  {
    if t == [] then map[] else AsMap(t[..|t| - 1])[t[|t| - 1].nsip := t[|t| - 1]]
  }

  predicate Has(m: NsMap, ip: Ip, e: TableEntry) {
    ip in m && m[ip] == e
  }

  lemma {:induction false} AsMapHolds(t: Table, ip: Ip, e: TableEntry)
    requires UniqueNs(t)
    ensures Has(AsMap(t), ip, e) <==> e in t && e.nsip == ip
  {
    if t != [] {
      var front := t[..|t| - 1];
      AsMapHolds(front, ip, e);
      assert t == front + [t[|t| - 1]];
      assert forall x <- front :: x.nsip != t[|t| - 1].nsip;
    }
  }

  /** A map is determined by its pairs. */
  lemma MapsEqual(m: NsMap, n: NsMap)
    requires forall ip, e :: Has(m, ip, e) <==> Has(n, ip, e)
    ensures m == n
  {
    assert forall ip | ip in m :: Has(m, ip, m[ip]);
    assert forall ip | ip in n :: Has(n, ip, n[ip]);
  }

  function MapAdd(m: NsMap, e: TableEntry): NsMap {
    var dropped := m - {e.nsip};
    if IsValid(e) then dropped[e.nsip := e] else dropped
  }

  function MapAddAll(m: NsMap, response: seq<TableEntry>): NsMap
    decreases |response|
  {
    if response == [] then m else MapAddAll(MapAdd(m, response[0]), response[1..])
  }

  function MapDropJob(m: NsMap, job: string): NsMap {
    map ip | ip in m && m[ip].jobName != job :: m[ip]
  }

  lemma RemoveNsMembers(t: Table, ip: Ip)
    requires MapInv(t) && !ip.V6?
    ensures MapInv(RemoveNs(t, ip))
    ensures forall e :: e in RemoveNs(t, ip) <==> e in t && e.nsip != ip
  {
    var i := FindNs(t, ip);
    if i < |t| {
      assert forall j, k | 0 <= j < k < |t| :: t[j] != t[k];
      SwapMembers(t, i);
      var r := Swap(t, i);
      assert forall j | 0 <= j < |r| :: r[j] == if j == i then t[|t| - 1] else t[j];
    }
  }

  lemma RemoveNsAsMap(t: Table, ip: Ip)
    requires MapInv(t) && !ip.V6?
    ensures MapInv(RemoveNs(t, ip)) && AsMap(RemoveNs(t, ip)) == AsMap(t) - {ip}
    ensures forall e <- RemoveNs(t, ip) :: e in t && e.nsip != ip
  {
    var r, m := RemoveNs(t, ip), AsMap(t) - {ip};
    RemoveNsMembers(t, ip);
    forall k, e ensures Has(AsMap(r), k, e) <==> Has(m, k, e) {
      AsMapHolds(r, k, e);
      AsMapHolds(t, k, e);
    }
    MapsEqual(AsMap(r), m);
  }

  lemma AppendAsMap(r: Table, e: TableEntry)
    requires MapInv(r) && e.nsip.V4? && e.nsipv6.V6? && forall x <- r :: x.nsip != e.nsip
    ensures MapInv(r + [e]) && AsMap(r + [e]) == AsMap(r)[e.nsip := e]
  {
    assert (r + [e])[..|r|] == r;
  }

  lemma AddAsMap(t: Table, e: TableEntry)
    requires MapInv(t) && TypedEntry(e)
    ensures MapInv(AddTableQueryEntry(t, e)) && AsMap(AddTableQueryEntry(t, e)) == MapAdd(AsMap(t), e)
  {
    RemoveNsAsMap(t, e.nsip);
    if IsValid(e) {
      AppendAsMap(RemoveNs(t, e.nsip), e);
    }
  }

  lemma {:induction false} AddAllAsMap(t: Table, response: seq<TableEntry>)
    requires MapInv(t) && forall e <- response :: TypedEntry(e)
    ensures MapInv(AddAll(t, response)) && AsMap(AddAll(t, response)) == MapAddAll(AsMap(t), response)
    decreases |response|
  {
    if response != [] {
      AddAsMap(t, response[0]);
      AddAllAsMap(AddTableQueryEntry(t, response[0]), response[1..]);
    }
  }

  lemma {:induction false} RemoveJobKeepsInv(t: Table, job: string, i: nat)
    requires MapInv(t) && i <= |t|
    ensures MapInv(RemoveJobFrom(t, job, i))
    decreases |t| - i
  {
    if i < |t| {
      if t[i].jobName == job {
        var r := Swap(t, i);
        assert forall j | 0 <= j < |r| :: r[j] == if j == i then t[|t| - 1] else t[j];
        RemoveJobKeepsInv(r, job, i);
      } else {
        RemoveJobKeepsInv(t, job, i + 1);
      }
    }
  }

  lemma RemoveJobAsMap(t: Table, job: string)
    requires MapInv(t)
    ensures MapInv(RemoveJob(t, job)) && AsMap(RemoveJob(t, job)) == MapDropJob(AsMap(t), job)
  {
    var r, m := RemoveJob(t, job), MapDropJob(AsMap(t), job);
    RemoveJobKeepsInv(t, job, 0);
    forall ip, e ensures Has(AsMap(r), ip, e) <==> Has(m, ip, e) {
      AsMapHolds(r, ip, e);
      AsMapHolds(t, ip, e);
      RemoveJobFromCount(t, job, 0, e);
      assert e in r <==> multiset(r)[e] > 0;
      assert e in t <==> multiset(t)[e] > 0;
    }
    MapsEqual(AsMap(r), m);
  }

  /**
   A successful refresh deletes the job's keys and then folds the response in
   order: drop the key, insert the entry if it is valid.
   */
  lemma RefreshIsAFold(t: Table, job: string, response: seq<TableEntry>)
    requires MapInv(t) && forall e <- response :: TypedEntry(e)
    ensures MapInv(Refresh(t, job, Some(response)))
    ensures AsMap(Refresh(t, job, Some(response))) == MapAddAll(MapDropJob(AsMap(t), job), response)
  {
    RemoveJobAsMap(t, job);
    AddAllAsMap(RemoveJob(t, job), response);
  }

  lemma {:induction false} FoldLeavesOthers(m: NsMap, response: seq<TableEntry>, ip: Ip)
    requires forall e <- response :: e.nsip != ip
    ensures ip in MapAddAll(m, response) <==> ip in m
    ensures ip in m ==> MapAddAll(m, response)[ip] == m[ip]
    decreases |response|
  {
    if response != [] {
      FoldLeavesOthers(MapAdd(m, response[0]), response[1..], ip);
    }
  }

  /** A refresh leaves other jobs' entries alone unless the response names their address. */
  lemma RefreshLeavesOtherJobs(t: Table, job: string, response: seq<TableEntry>, e: TableEntry)
    requires MapInv(t) && forall x <- response :: TypedEntry(x)
    requires e.jobName != job && forall x <- response :: x.nsip != e.nsip
    ensures e in Refresh(t, job, Some(response)) <==> e in t
  {
    RefreshIsAFold(t, job, response);
    FoldLeavesOthers(MapDropJob(AsMap(t), job), response, e.nsip);
    AsMapHolds(t, e.nsip, e);
    AsMapHolds(Refresh(t, job, Some(response)), e.nsip, e);
  }

  /** Of the entries with one address, a response leaves the last one, if that is valid. */
  lemma {:induction false} LastEntryStays(m: NsMap, response: seq<TableEntry>, i: nat)
    requires i < |response| && IsValid(response[i])
    requires forall j | i < j < |response| :: response[j].nsip != response[i].nsip
    ensures Has(MapAddAll(m, response), response[i].nsip, response[i])
    decreases |response|
  {
    var rest := response[1..];
    if i == 0 {
      assert forall e <- rest :: exists j | 0 < j < |response| :: response[j] == e;
      FoldLeavesOthers(MapAdd(m, response[0]), rest, response[0].nsip);
    } else {
      assert rest[i - 1] == response[i] && forall j | i - 1 < j < |rest| :: rest[j] == response[j + 1];
      LastEntryStays(MapAdd(m, response[0]), rest, i - 1);
    }
  }

  // ---------- Runs ----------

  /** What a node does to its table: query results, refreshes, lost interest, detached containers. */
  datatype TableEvent =
    | Learn(entries: seq<TableEntry>)
    | Renew(job: string, reply: Option<seq<TableEntry>>)
    | Forget(job: string)
    | Drop(nsip: Ip)

  predicate TypedEvent(e: TableEvent)
  {
    match e
    case Learn(entries) => forall x <- entries :: TypedEntry(x)
    case Renew(_, reply) => reply.Some? ==> forall x <- reply.value :: TypedEntry(x)
    case Forget(_) => true
    case Drop(nsip) => !nsip.V6?
  }

  function ApplyToTable(t: Table, e: TableEvent): Table
  {
    match e
    case Learn(entries) => AddAll(t, entries)
    case Renew(job, reply) => Refresh(t, job, reply)
    case Forget(job) => RemoveJob(t, job)
    case Drop(nsip) => RemoveNs(t, nsip)
  }

  function ApplyToMap(m: NsMap, e: TableEvent): NsMap
  {
    match e
    case Learn(entries) => MapAddAll(m, entries)
    case Renew(job, reply) => if reply.Some? then MapAddAll(MapDropJob(m, job), reply.value) else m
    case Forget(job) => MapDropJob(m, job)
    case Drop(nsip) => m - {nsip}
  }

  function TableAfter(events: seq<TableEvent>): Table
  {
    if events == [] then [] else ApplyToTable(TableAfter(events[..|events| - 1]), events[|events| - 1])
  }

  function MapAfter(events: seq<TableEvent>): NsMap
  {
    if events == [] then map[] else ApplyToMap(MapAfter(events[..|events| - 1]), events[|events| - 1])
  }

  /** Over every run, the slice with its swaps is a map from namespace addresses to entries. */
  lemma {:induction false} TableIsAMap(events: seq<TableEvent>)
    requires forall e <- events :: TypedEvent(e)
    ensures MapInv(TableAfter(events)) && AsMap(TableAfter(events)) == MapAfter(events)
  {
    if events != [] {
      var front, e := events[..|events| - 1], events[|events| - 1];
      assert TypedEvent(e);
      TableIsAMap(front);
      match e
      case Learn(entries) => AddAllAsMap(TableAfter(front), entries);
      case Renew(job, reply) => if reply.Some? { RefreshIsAFold(TableAfter(front), job, reply.value); }
      case Forget(job) => RemoveJobAsMap(TableAfter(front), job);
      case Drop(nsip) => RemoveNsAsMap(TableAfter(front), nsip);
    }
  }

  /**
   On any table without repeated addresses, adding an entry keeps it that way
   if and only if the entry with its address, if there is one, is the first
   that the removal finds. Typing is one way to make sure of that.
   */
  lemma AddKeepsUniqueExactly(t: Table, e: TableEntry)
    requires UniqueNs(t) && IsValid(e)
    ensures UniqueNs(AddTableQueryEntry(t, e)) <==>
            forall j | 0 <= j < |t| && t[j].nsip == e.nsip :: FindNs(t, e.nsip) == j
  {
    var r := RemoveNs(t, e.nsip);
    assert AddTableQueryEntry(t, e) == r + [e];
    RemovalClears(t, e.nsip);
    AppendUnique(r, e);
  }

  /** What a removal leaves has no other entry with the address if and only if it found the entry it was for. */
  lemma RemovalClears(t: Table, ip: Ip)
    requires UniqueNs(t)
    ensures UniqueNs(RemoveNs(t, ip))
    ensures (forall k | 0 <= k < |RemoveNs(t, ip)| :: RemoveNs(t, ip)[k].nsip != ip) <==>
            forall j | 0 <= j < |t| && t[j].nsip == ip :: FindNs(t, ip) == j
  {
    var i, r := FindNs(t, ip), RemoveNs(t, ip);
    if i < |t| {
      SwapUnique(t, i);
      forall j | 0 <= j < |t| && t[j].nsip == ip && i != j ensures exists k | 0 <= k < |r| :: r[k].nsip == ip {
        assert r[if j == |t| - 1 then i else j] == t[j];
      }
    } else {
      forall j | 0 <= j < |t| ensures t[j].nsip != ip { assert !HasNs(t[j], ip); }
    }
  }

  lemma SwapUnique(t: Table, i: nat)
    requires UniqueNs(t) && i < |t|
    ensures UniqueNs(Swap(t, i))
    ensures forall k | 0 <= k < |t| - 1 :: Swap(t, i)[k] == t[if k == i then |t| - 1 else k]
  {
  }

  lemma AppendUnique(r: Table, e: TableEntry)
    requires UniqueNs(r)
    ensures UniqueNs(r + [e]) <==> forall k | 0 <= k < |r| :: r[k].nsip != e.nsip
  {
    forall k | 0 <= k < |r| && r[k].nsip == e.nsip ensures !UniqueNs(r + [e]) {
      assert (r + [e])[k].nsip == (r + [e])[|r|].nsip;
    }
  }

  /** An entry whose second address is another's first one shields it from the removal. */
  lemma UntypedEntryRepeatsAddress(x: Ip, e1: TableEntry, e2: TableEntry)
    requires e1.nsip != x && e1.nsipv6 == x && e2.nsip == x && IsValid(e2)
    ensures UniqueNs([e1, e2]) && AddTableQueryEntry([e1, e2], e2) == [e2, e2]
  {
    assert FindNs([e1, e2], x) == 0;
    assert Swap([e1, e2], 0) == [e2];
  }

  lemma SearchStep(t: Table, i: nat, ip: Ip)
    requires i < |t|
    ensures SearchByServiceIp(t[i..], ip) == Repeats(t[i], t[i].serviceIp, ip) + SearchByServiceIp(t[i + 1..], ip)
  {
    assert t[i..][1..] == t[i + 1..];
  }

  lemma Regroup(a: Table, b: Table, c: Table)
    ensures a + (b + c) == a + b + c
  {
  }

  // ---------- The table of a node, changed in place ----------

  class TableManager {
    var translationTable: Table

    constructor ()
      ensures translationTable == []
    {
      translationTable := [];
    }

    method Add(e: TableEntry) returns (ok: bool)
      modifies this
      ensures ok <==>
              && (forall name <- [e.appname, e.appns, e.servicename, e.servicenamespace] ::
                    && 1 <= |name| <= 30
                    && forall c <- name :: 'a' <= c <= 'z' || 'A' <= c <= 'Z' || '0' <= c <= '9')
              && e.instancenumber >= 0 && e.cluster >= 0
              && NoIp !in {e.nodeip, e.nsip, e.nsipv6} && e.serviceIp != []
      ensures translationTable == if ok then old(translationTable) + [e] else old(translationTable)
      ensures translationTable == AddEntry(old(translationTable), e)
    {
      ok := IsValid(e);
      if ok {
        translationTable := translationTable + [e];
      }
    }

    method RemoveByIndex(index: int) returns (ok: bool)
      requires -1 <= index < |translationTable|
      modifies this
      ensures ok <==> index >= 0
      ensures translationTable == if index >= 0 then Swap(old(translationTable), index) else old(translationTable)
    {
      if index > -1 {
        translationTable := translationTable[index := translationTable[|translationTable| - 1]];
        translationTable := translationTable[..|translationTable| - 1];
        return true;
      }
      return false;
    }

    method RemoveByNsip(nsip: Ip) returns (ok: bool)
      modifies this
      ensures translationTable == RemoveNs(old(translationTable), nsip)
      ensures ok <==> exists e <- old(translationTable) :: HasNs(e, nsip)
    {
      var found, i := -1, 0;
      while i < |translationTable|
        invariant 0 <= i <= |translationTable| && found == -1
        invariant forall j | 0 <= j < i :: !HasNs(translationTable[j], nsip)
      {
        if HasNs(translationTable[i], nsip) {
          found := i;
          break;
        }
        i := i + 1;
      }
      ok := RemoveByIndex(found);
    }

    method RemoveByJobName(job: string)
      modifies this
      ensures translationTable == RemoveJob(old(translationTable), job)
    {
      var elems, i := |translationTable|, 0;
      while i < elems
        invariant 0 <= i <= elems == |translationTable|
        invariant RemoveJobFrom(translationTable, job, i) == RemoveJob(old(translationTable), job)
        decreases elems - i
      {
        if translationTable[i].jobName == job {
          var _ := RemoveByIndex(i);
          elems := elems - 1;
          i := i - 1;
        }
        i := i + 1;
      }
    }

    method SearchByServiceIP(ip: Ip) returns (result: Table)
      ensures result == SearchByServiceIp(translationTable, ip)
    {
      result := [];
      var i := 0;
      while i < |translationTable|
        invariant 0 <= i <= |translationTable|
        invariant result + SearchByServiceIp(translationTable[i..], ip) == SearchByServiceIp(translationTable, ip)
      {
        SearchStep(translationTable, i, ip);
        ghost var e := translationTable[i];
        Regroup(result, Repeats(e, e.serviceIp, ip), SearchByServiceIp(translationTable[i + 1..], ip));
        result := AppendMatches(result, translationTable[i], ip);
        i := i + 1;
      }
    }

    /** The inner loop: the entry goes in once for every address that matches. */
    static method AppendMatches(result: Table, e: TableEntry, ip: Ip) returns (r: Table)
      ensures r == result + Repeats(e, e.serviceIp, ip)
    {
      r := result;
      var j := 0;
      while j < |e.serviceIp|
        invariant 0 <= j <= |e.serviceIp|
        invariant r + Repeats(e, e.serviceIp[j..], ip) == result + Repeats(e, e.serviceIp, ip)
      {
        ghost var rest := Repeats(e, e.serviceIp[j + 1..], ip);
        assert e.serviceIp[j..][1..] == e.serviceIp[j + 1..];
        if ServesAt(e.serviceIp[j], ip) {
          assert r + ([e] + rest) == r + [e] + rest;
          r := r + [e];
        } else {
          assert [] + rest == rest;
        }
        j := j + 1;
      }
    }

    method SearchByNsIP(ip: Ip) returns (result: Option<TableEntry>)
      ensures result == SearchByNsIp(translationTable, ip)
    {
      var i := 0;
      while i < |translationTable|
        invariant 0 <= i <= |translationTable|
        invariant forall j | 0 <= j < i :: !HasNs(translationTable[j], ip)
      {
        if HasNs(translationTable[i], ip) {
          return Some(translationTable[i]);
        }
        i := i + 1;
      }
      result := None;
    }
  }
}
