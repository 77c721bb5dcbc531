/**
 What clusters and root keep over runs of their handlers: lists without
 repetition in every run, and, as long as the root takes callers for the
 clusters they are, an interest at the root for every job that a cluster caches.
 */
module ClusterCoherence {
  import opened Wrappers
  import opened ClusterSpec

  // ---------- Well-formed in every run ----------

  ghost predicate JobsInv(db: Jobs)
  {
    forall name | name in db ::
      && db[name].name == name
      && UniqueNumbers(db[name].instances)
      && NoDup(db[name].interested)
  }

  ghost predicate RecordsInv(records: seq<ClusterRecord>)
  {
    && (forall i, j | 0 <= i < j < |records| :: records[i].id != records[j].id)
    && (forall i | 0 <= i < |records| :: NoDup(records[i].interests))
  }

  ghost predicate WellFormed(w: World)
  {
    && JobsInv(w.root.jobs) && RecordsInv(w.root.records)
    && forall c | c in w.clusters :: JobsInv(w.clusters[c])
  }

  lemma StoreKeeps(db: Jobs, job: Job)
    requires JobsInv(db)
    ensures JobsInv(InsertJob(db, job)) && JobsInv(Store(db, job))
    ensures Store(db, job).Keys == db.Keys + {job.name} == InsertJob(db, job).Keys
  {
    UpsertAllUnique(InsertJob(db, job)[job.name].instances, job.instances);
  }

  lemma UpdateKeeps(db: Jobs, name: string, xs: seq<Instance>)
    requires JobsInv(db)
    ensures JobsInv(UpsertInstances(db, name, xs)) && UpsertInstances(db, name, xs).Keys == db.Keys
  {
    if name in db {
      UpsertAllUnique(db[name].instances, xs);
    }
  }

  lemma RenewKeeps(db: Jobs, job: Job)
    requires JobsInv(db)
    ensures JobsInv(UpdateJob(db, job))
    ensures UpdateJob(db, job).Keys == db.Keys + if job.name == "" then {} else {job.name}
  {
    StoreKeeps(db, job);
    UpdateKeeps(db, job.name, job.instances);
  }

  lemma RemoveInstanceKeeps(db: Jobs, name: string, number: int)
    requires JobsInv(db)
    ensures JobsInv(RemoveInstance(db, name, number)) && RemoveInstance(db, name, number).Keys <= db.Keys
  {
    if name in db {
      PullUnique(db[name].instances, number);
    }
  }

  lemma CleanInstanceKeeps(db: Jobs, name: string, number: int)
    requires JobsInv(db)
    ensures JobsInv(CleanInstance(db, name, number))
  {
    if name in db {
      PullUnique(db[name].instances, number);
    }
  }

  lemma InterestKeeps(db: Jobs, name: string, client: string)
    requires JobsInv(db)
    ensures JobsInv(AddInterest(db, name, client)) && AddInterest(db, name, client).Keys == db.Keys
    ensures JobsInv(DropInterest(db, name, client)) && DropInterest(db, name, client).Keys == db.Keys
  {
    if name in db {
      RemoveFirstNoDup(db[name].interested, client);
    }
  }

  lemma ReportKeeps(db: Jobs, name: string, status: string, number: int, worker: string, net: NetInfo)
    requires JobsInv(db)
    ensures JobsInv(ReportDeployed(db, name, status, number, worker, net))
    ensures ReportDeployed(db, name, status, number, worker, net).Keys == db.Keys
  {
  }

  lemma RelocateKeeps(db: Jobs, name: string, number: int, worker: string, ip: string, port: string)
    requires JobsInv(db)
    ensures JobsInv(Relocate(db, name, number, worker, ip, port))
    ensures Relocate(db, name, number, worker, ip, port).Keys == db.Keys
  {
  }

  // ---------- The records of the root ----------

  /** Another list for one cluster is the list of that cluster and leaves the other lists alone. */
  lemma ListAfter(records: seq<ClusterRecord>, id: string, list: seq<Option<string>>, c: string)
    requires FindId(records, id) < |records|
    ensures ListOf(WithList(records, id, list), c) == if c == id then list else ListOf(records, c)
  {
    FindIdAt(WithList(records, id, list), c, FindId(records, c));
  }

  lemma WithListKeeps(records: seq<ClusterRecord>, id: string, list: seq<Option<string>>)
    requires RecordsInv(records) && NoDup(list)
    ensures RecordsInv(WithList(records, id, list))
  {
  }

  lemma ListNoDup(records: seq<ClusterRecord>, id: string)
    requires RecordsInv(records)
    ensures NoDup(ListOf(records, id))
  {
  }

  lemma AddClusterKeeps(records: seq<ClusterRecord>, id: string, address: string, port: string, c: string)
    requires RecordsInv(records)
    ensures RecordsInv(AddCluster(records, id, address, port))
    ensures ListOf(AddCluster(records, id, address, port), c) == ListOf(records, c)
  {
    var i, after := FindId(records, id), AddCluster(records, id, address, port);
    if i == |records| && c == id {
      FindIdAt(after, c, i);
    } else if i == |records| {
      FindIdAt(after, c, if FindId(records, c) < |records| then FindId(records, c) else |after|);
    } else {
      FindIdAt(after, c, FindId(records, c));
    }
  }

  lemma TakenForAnId(records: seq<ClusterRecord>, address: string)
    ensures TakenFor(records, address).Some? ==> FindId(records, TakenFor(records, address).value) < |records|
  {
  }

  /** A query adds the name to the list of the cluster that the caller is taken for, and to no other. */
  lemma QueryRegisters(root: Root, caller: string, name: Option<string>, c: string, n: string)
    requires JobsInv(root.jobs) && RecordsInv(root.records)
    ensures var (job, after) := TableQuery(root, caller, name);
            && after.jobs == root.jobs && RecordsInv(after.records)
            && (job.Some? <==> TakenFor(root.records, caller).Some? && name.Some? && name.value in root.jobs)
            && (job.Some? ==> job.value.name == name.value && UniqueNumbers(job.value.instances))
            && (Lists(after, c, n) <==>
                Lists(root, c, n) || (job.Some? && n == job.value.name && TakenFor(root.records, caller) == Some(c)))
  {
    TakenForAnId(root.records, caller);
    match TakenFor(root.records, caller)
    case None =>
    case Some(id) =>
      var added := if name.None? || name.value !in root.jobs then None else Some(root.jobs[name.value].name);
      var list := AddOnce(ListOf(root.records, id), added);
      ListNoDup(root.records, id);
      WithListKeeps(root.records, id, list);
      ListAfter(root.records, id, list, c);
  }

  /** A withdrawal that arrives removes the name from the list of the cluster that the peer is taken for. */
  lemma DeregisterRemoves(root: Root, peer: string, name: string, c: string, n: string)
    requires RecordsInv(root.records)
    ensures var after := Deregister(root, peer, name);
            && after.jobs == root.jobs && RecordsInv(after.records)
            && (Lists(after, c, n) <==>
                Lists(root, c, n) && !(n == name && TakenFor(root.records, peer) == Some(c)))
  {
    TakenForAnId(root.records, peer);
    match TakenFor(root.records, peer)
    case None =>
    case Some(id) =>
      var before := ListOf(root.records, id);
      ListNoDup(root.records, id);
      RemoveFirstNoDup(before, Some(name));
      WithListKeeps(root.records, id, RemoveFirst(before, Some(name)));
      ListAfter(root.records, id, RemoveFirst(before, Some(name)), c);
      RemoveFirstMembers(before, Some(name), Some(n));
  }

  /** Who is told of a change is who is listed. */
  lemma NotifiedAreListed(root: Root, c: string, name: string)
    requires RecordsInv(root.records)
    ensures c in Notified(root, name) <==> Lists(root, c, name)
  {
    var i := FindId(root.records, c);
    if i < |root.records| {
      assert root.records[i] in root.records;
    }
    if r :| r in root.records && r.id == c && Some(name) in r.interests {
      var j :| 0 <= j < |root.records| && root.records[j] == r;
      assert i == j;
    }
  }

  // ---------- One step ----------

  /** The root answers with a job. */
  predicate Answers(root: Root, caller: string, name: Option<string>) {
    TakenFor(root.records, caller).Some? && name.Some? && name.value in root.jobs
  }

  /** What a query leaves: the asking cluster has the job, and the cluster that it is taken for is listed. */
  ghost predicate Asked(w: World, w': World, c: string, caller: string, name: Option<string>, stored: bool)
  {
    var answered := Answers(w.root, caller, name);
    && WellFormed(w')
    && (forall d, n :: n in Cached(w', d) <==>
                       n in Cached(w, d) || (answered && stored && d == c && n == name.value))
    && (forall d, n :: Lists(w'.root, d, n) <==>
                       || Lists(w.root, d, n)
                       || (answered && n == name.value && TakenFor(w.root.records, caller) == Some(d)))
  }

  /** The root's part of a query. */
  lemma QueryAsks(w: World, caller: string, name: Option<string>)
    requires WellFormed(w)
    ensures var (job, root) := TableQuery(w.root, caller, name);
            && WellFormed(w.(root := root))
            && (job.Some? <==> Answers(w.root, caller, name))
            && (job.Some? ==> job.value.name == name.value && UniqueNumbers(job.value.instances))
            && (forall d, n :: Lists(root, d, n) <==>
                  || Lists(w.root, d, n)
                  || (job.Some? && n == name.value && TakenFor(w.root.records, caller) == Some(d)))
  {
    QueryRegisters(w.root, caller, name, "", "");
    forall d, n { QueryRegisters(w.root, caller, name, d, n); }
  }

  /** The cluster's part: what it stores is the job it was told of, if anything. */
  lemma StoringAsks(w: World, c: string, caller: string, name: Option<string>, db: Jobs, stored: bool)
    requires WellFormed(w) && Answers(w.root, caller, name) && JobsInv(db)
    requires db.Keys == Cached(w, c).Keys + if stored then {name.value} else {}
    ensures Asked(w, WithCache(w.(root := TableQuery(w.root, caller, name).1), c, db), c, caller, name, stored)
  {
    QueryAsks(w, caller, name);
    var asked := w.(root := TableQuery(w.root, caller, name).1);
    CacheOnly(asked, c, db);
    forall n ensures n in db <==> n in Cached(w, c) || (stored && n == name.value) {
      assert n in db.Keys <==> n in Cached(w, c).Keys || (stored && n == name.value);
    }
  }

  lemma FetchAsks(w: World, c: string, caller: string, name: Option<string>)
    requires WellFormed(w)
    ensures Asked(w, Fetch(w, c, caller, name), c, caller, name, true)
  {
    QueryAsks(w, caller, name);
    if Answers(w.root, caller, name) {
      var job := TableQuery(w.root, caller, name).0.value;
      StoreKeeps(Cached(w, c), job);
      StoringAsks(w, c, caller, name, Store(Cached(w, c), job), true);
    }
  }

  lemma RenewAsks(w: World, c: string, caller: string, name: string)
    requires WellFormed(w)
    ensures Asked(w, Renew(w, c, caller, name), c, caller, Some(name), name != "")
  {
    QueryAsks(w, caller, Some(name));
    if Answers(w.root, caller, Some(name)) {
      var job := TableQuery(w.root, caller, Some(name)).0.value;
      RenewKeeps(Cached(w, c), job);
      StoringAsks(w, c, caller, Some(name), UpdateJob(Cached(w, c), job), name != "");
    }
  }

  /** Neither caches nor lists change. */
  ghost predicate SameHoldings(w: World, w': World)
  {
    && WellFormed(w')
    && (forall d, n :: n in Cached(w', d) <==> n in Cached(w, d))
    && (forall d, n :: Lists(w'.root, d, n) <==> Lists(w.root, d, n))
  }

  lemma EnlistHolds(w: World, c: string, name: Option<string>, client: string)
    requires WellFormed(w)
    ensures SameHoldings(w, Enlist(w, c, name, client))
  {
    if name.Some? {
      InterestKeeps(Cached(w, c), name.value, client);
      CacheOnly(w, c, AddInterest(Cached(w, c), name.value, client));
    }
  }

  lemma CacheOnly(w: World, c: string, db: Jobs)
    requires WellFormed(w) && JobsInv(db)
    ensures WellFormed(WithCache(w, c, db)) && WithCache(w, c, db).root == w.root
    ensures forall d :: Cached(WithCache(w, c, db), d) == if d == c then db else Cached(w, d)
  {
  }

  /** A query that is answered in the cluster changes no holdings, another one asks the root. */
  lemma ResolveAsks(w: World, c: string, caller: string, local: Option<string>, remote: Option<string>, client: string)
    requires WellFormed(w)
    ensures local.Some? ==> SameHoldings(w, Resolve(w, c, caller, local, remote, client))
    ensures local.None? ==> Asked(w, Resolve(w, c, caller, local, remote, client), c, caller, remote, true)
  {
    if local.Some? {
      EnlistHolds(w, c, local, client);
    } else {
      FetchAsks(w, c, caller, remote);
      EnlistHolds(Fetch(w, c, caller, remote), c, remote, client);
    }
  }

  /** The job has no other interested worker. */
  predicate LastWorker(db: Jobs, name: string, client: string) {
    Workers(db, name) == [] || Workers(db, name) == [client]
  }

  lemma LastWorkerExactly(db: Jobs, name: string, client: string)
    ensures LastWorker(db, name, client) <==>
            !RemovalRaises(db, name, client) && Workers(DropInterest(db, name, client), name) == []
  {
    var s := Workers(db, name);
    if s != [] && client in s && RemoveFirst(s, client) == [] {
      assert s == [s[0]] + s[1..];
    }
  }

  /** The last worker's withdrawal drops the job, and the interest of the cluster that the peer is taken for. */
  ghost predicate Dropped(w: World, w': World, c: string, peer: string, name: string, told: bool)
  {
    && WellFormed(w')
    && (forall d, n :: n in Cached(w', d) <==> n in Cached(w, d) && !(d == c && n == name))
    && (forall d, n :: Lists(w'.root, d, n) <==>
                       Lists(w.root, d, n) && !(told && n == name && TakenFor(w.root.records, peer) == Some(d)))
  }

  lemma WithdrawDrops(w: World, c: string, peer: string, name: string, client: string, reachable: bool)
    requires WellFormed(w)
    ensures var w' := Withdrawn(w, c, peer, name, client, reachable);
            if LastWorker(Cached(w, c), name, client) then Dropped(w, w', c, peer, name, reachable)
            else SameHoldings(w, w')
  {
    var db := DropInterest(Cached(w, c), name, client);
    LastWorkerExactly(Cached(w, c), name, client);
    InterestKeeps(Cached(w, c), name, client);
    if LastWorker(Cached(w, c), name, client) {
      var told := if reachable then w.(root := Deregister(w.root, peer, name)) else w;
      DeregisterRemoves(w.root, peer, name, c, name);
      forall d, n { DeregisterRemoves(w.root, peer, name, d, n); }
      CacheOnly(told, c, db - {name});
    } else if !RemovalRaises(Cached(w, c), name, client) {
      CacheOnly(w, c, db);
    }
  }

  /** No cache gains a job and no list loses one. */
  ghost predicate NothingNew(w: World, w': World)
  {
    && WellFormed(w')
    && (forall d, n :: n in Cached(w', d) ==> n in Cached(w, d))
    && (forall d, n :: Lists(w.root, d, n) ==> Lists(w'.root, d, n))
  }

  predicate AsksOrWithdraws(e: Event) {
    e.QueryByName? || e.QueryByIp? || e.DeploymentNotice? || e.CreateService? || e.Withdraw?
  }

  lemma ShrinkIsNothingNew(w: World, c: string, db: Jobs)
    requires WellFormed(w) && JobsInv(db) && db.Keys <= Cached(w, c).Keys
    ensures NothingNew(w, WithCache(w, c, db))
  {
    CacheOnly(w, c, db);
    forall n | n in db ensures n in Cached(w, c) { assert n in db.Keys; }
  }

  lemma RootJobsNothingNew(w: World, jobs: Jobs)
    requires WellFormed(w) && JobsInv(jobs)
    ensures NothingNew(w, WithRootJobs(w, jobs))
  {
  }

  lemma RootStepIsNothingNew(w: World, e: Event)
    requires WellFormed(w)
    requires e.RootInsertJob? || e.RootRemoveJob? || e.RootUpsertInstance? || e.RootNetStatus? || e.RootCleanInstance?
    ensures NothingNew(w, Step(w, e))
  {
    var jobs := w.root.jobs;
    match e
    case RootInsertJob(job) => RootJobsNothingNew(w, jobs[job.name := job.(instances := [], interested := [])]);
    case RootRemoveJob(name) => RootJobsNothingNew(w, jobs - {name});
    case RootUpsertInstance(name, x) =>
      UpdateKeeps(jobs, name, [x]);
      RootJobsNothingNew(w, UpsertInstances(jobs, name, [x]));
    case RootNetStatus(name, x) =>
      UpdateKeeps(jobs, name, [x]);
      RootJobsNothingNew(w, UpdateNet(jobs, name, x));
    case RootCleanInstance(name, number) =>
      CleanInstanceKeeps(jobs, name, number);
      RootJobsNothingNew(w, CleanInstance(jobs, name, number));
  }

  lemma RegistrationIsNothingNew(w: World, c: string, address: string, port: string)
    requires WellFormed(w)
    ensures NothingNew(w, Step(w, RegisterCluster(c, address, port)))
  {
    AddClusterKeeps(w.root.records, c, address, port, c);
    forall d, n | Lists(w.root, d, n) ensures Lists(Step(w, RegisterCluster(c, address, port)).root, d, n) {
      AddClusterKeeps(w.root.records, c, address, port, d);
    }
  }

  lemma OtherStepIsNothingNew(w: World, e: Event)
    requires WellFormed(w) && !AsksOrWithdraws(e)
    ensures NothingNew(w, Step(w, e))
  {
    match e
    case RegisterCluster(c, address, port) => RegistrationIsNothingNew(w, c, address, port);
    case RestartCluster(c) => ShrinkIsNothingNew(w, c, map[]);
    case UndeploymentNotice(c, name, number) =>
      RemoveInstanceKeeps(Cached(w, c), name, number);
      if number >= -1 { ShrinkIsNothingNew(w, c, RemoveInstance(Cached(w, c), name, number)); }
    case RemoveService(c, name) => ShrinkIsNothingNew(w, c, Cached(w, c) - {name});
    case WorkerReport(c, name, status, number, worker, net) =>
      ReportKeeps(Cached(w, c), name, status, number, worker, net);
      ShrinkIsNothingNew(w, c, ReportDeployed(Cached(w, c), name, status, number, worker, net));
    case AddressReport(c, name, number, worker, ip, port) =>
      RelocateKeeps(Cached(w, c), name, number, worker, ip, port);
      ShrinkIsNothingNew(w, c, Relocate(Cached(w, c), name, number, worker, ip, port));
    case _ => RootStepIsNothingNew(w, e);
  }

  lemma StepKeepsWellFormed(w: World, e: Event)
    requires WellFormed(w)
    ensures WellFormed(Step(w, e))
  {
    match e
    case QueryByName(c, caller, name, client) =>
      ResolveAsks(w, c, caller, if name in Cached(w, c) then Some(name) else None, Some(name), client);
    case QueryByIp(c, caller, ip, client) =>
      ResolveAsks(w, c, caller, FindByIp(Cached(w, c), ip), FindByIp(w.root.jobs, ip), client);
    case DeploymentNotice(c, caller, name) => RenewAsks(w, c, caller, name);
    case CreateService(c, caller, name) => FetchAsks(w, c, caller, Some(name));
    case Withdraw(c, peer, name, client, reachable) => WithdrawDrops(w, c, peer, name, client, reachable);
    case _ => OtherStepIsNothingNew(w, e);
  }

  // ---------- Coherence and its exact condition ----------

  /** The root lists every cluster for every job that the cluster caches. */
  ghost predicate Coherent(w: World)
  {
    forall c, name | name in Cached(w, c) :: Lists(w.root, c, name)
  }

  /** The root takes a cluster that is answered for itself, or lists it anyway. */
  predicate AskedAsItself(w: World, c: string, caller: string, name: Option<string>)
  {
    Answers(w.root, caller, name) ==> TakenFor(w.root.records, caller) == Some(c) || Lists(w.root, c, name.value)
  }

  /** What has to hold before a step. Only queries to the root and last withdrawals can go wrong. */
  ghost predicate Safe(w: World, e: Event)
  {
    match e
    case QueryByName(c, caller, name, _) => name in Cached(w, c) || AskedAsItself(w, c, caller, Some(name))
    case QueryByIp(c, caller, ip, _) =>
      FindByIp(Cached(w, c), ip).Some? || AskedAsItself(w, c, caller, FindByIp(w.root.jobs, ip))
    case DeploymentNotice(c, caller, name) => name == "" || AskedAsItself(w, c, caller, Some(name))
    case CreateService(c, caller, name) => AskedAsItself(w, c, caller, Some(name))
    case Withdraw(c, peer, name, client, reachable) =>
      reachable && LastWorker(Cached(w, c), name, client) ==>
        var d := TakenFor(w.root.records, peer);
        d.None? || d.value == c || name !in Cached(w, d.value)
    case _ => true
  }

  lemma NothingNewKeeps(w: World, w': World)
    requires Coherent(w) && NothingNew(w, w')
    ensures Coherent(w')
  {
  }

  lemma AskedExactly(w: World, w': World, c: string, caller: string, name: Option<string>, stored: bool)
    requires Coherent(w) && Asked(w, w', c, caller, name, stored)
    ensures Coherent(w') <==> !stored || AskedAsItself(w, c, caller, name)
  {
    if Answers(w.root, caller, name) && stored {
      assert name.value in Cached(w', c);
    }
  }

  lemma DroppedExactly(w: World, w': World, c: string, peer: string, name: string, told: bool)
    requires Coherent(w) && Dropped(w, w', c, peer, name, told)
    ensures var d := TakenFor(w.root.records, peer);
            Coherent(w') <==> !told || d.None? || d.value == c || name !in Cached(w, d.value)
  {
    var d := TakenFor(w.root.records, peer);
    if told && d.Some? && d.value != c && name in Cached(w, d.value) {
      assert name in Cached(w', d.value) && !Lists(w'.root, d.value, name);
    }
  }

  /** A step keeps coherence if and only if it is safe. */
  lemma StepCoherentExactly(w: World, e: Event)
    requires WellFormed(w) && Coherent(w)
    ensures Coherent(Step(w, e)) <==> Safe(w, e)
  {
    match e
    case QueryByName(c, caller, name, client) =>
      var local := if name in Cached(w, c) then Some(name) else None;
      ResolveAsks(w, c, caller, local, Some(name), client);
      if local.None? { AskedExactly(w, Step(w, e), c, caller, Some(name), true); }
    case QueryByIp(c, caller, ip, client) =>
      var local, remote := FindByIp(Cached(w, c), ip), FindByIp(w.root.jobs, ip);
      ResolveAsks(w, c, caller, local, remote, client);
      if local.None? { AskedExactly(w, Step(w, e), c, caller, remote, true); }
    case DeploymentNotice(c, caller, name) =>
      RenewAsks(w, c, caller, name);
      AskedExactly(w, Step(w, e), c, caller, Some(name), name != "");
    case CreateService(c, caller, name) =>
      FetchAsks(w, c, caller, Some(name));
      AskedExactly(w, Step(w, e), c, caller, Some(name), true);
    case Withdraw(c, peer, name, client, reachable) =>
      WithdrawDrops(w, c, peer, name, client, reachable);
      if LastWorker(Cached(w, c), name, client) { DroppedExactly(w, Step(w, e), c, peer, name, reachable); }
    case _ =>
      OtherStepIsNothingNew(w, e);
      NothingNewKeeps(w, Step(w, e));
  }

  // ---------- Runs ----------

  const NEW: World := World(Root(map[], []), map[])

  /**
   After every sequence of handler steps, interest lists hold nobody twice,
   clusters are recorded once, and instance numbers are unique within a job.
   */
  ghost function Run(events: seq<Event>): (w: World)
    ensures WellFormed(w)
    decreases |events|
  {
    if events == [] then NEW else
    var before := Run(events[..|events| - 1]);
    StepKeepsWellFormed(before, events[|events| - 1]);
    Step(before, events[|events| - 1])
  }

  ghost predicate CoherentThroughout(events: seq<Event>)
    decreases |events|
  {
    Coherent(Run(events)) && (events == [] || CoherentThroughout(events[..|events| - 1]))
  }

  ghost predicate SafeThroughout(events: seq<Event>)
    decreases |events|
  {
    if events == [] then true else
    var front := events[..|events| - 1];
    SafeThroughout(front) && Safe(Run(front), events[|events| - 1])
  }

  /** A run is coherent all the way if and only if all its steps are safe. */
  lemma {:induction false} RunCoherentExactly(events: seq<Event>)
    ensures CoherentThroughout(events) <==> SafeThroughout(events)
    decreases |events|
  {
    if events != [] {
      var front := events[..|events| - 1];
      RunCoherentExactly(front);
      if CoherentThroughout(front) {
        assert Coherent(Run(front));
        StepCoherentExactly(Run(front), events[|events| - 1]);
      }
    }
  }

  /** In such a run, every cluster that caches a job is told about its changes. */
  lemma CachingClustersAreNotified(events: seq<Event>, cluster: string, name: string)
    requires SafeThroughout(events)
    ensures name in Cached(Run(events), cluster) ==> cluster in Notified(Run(events).root, name)
  {
    RunCoherentExactly(events);
    NotifiedAreListed(Run(events).root, cluster, name);
  }

  // ---------- Who is safe ----------

  ghost predicate DistinctAddresses(records: seq<ClusterRecord>)
  {
    forall i, j | 0 <= i < j < |records| :: records[i].address != records[j].address
  }

  /** Every registered address finds its own cluster if and only if no two clusters share one. */
  lemma OwnAddressesExactly(records: seq<ClusterRecord>)
    requires RecordsInv(records)
    ensures (forall i | 0 <= i < |records| :: TakenFor(records, records[i].address) == Some(records[i].id))
            <==> DistinctAddresses(records)
  {
    forall i | 0 <= i < |records| && DistinctAddresses(records)
      ensures TakenFor(records, records[i].address) == Some(records[i].id)
    {
      var k := FindAddress(records, records[i].address);
      assert k <= i;
    }
    if i, j :| 0 <= i < j < |records| && records[i].address == records[j].address {
      assert FindAddress(records, records[j].address) <= i;
    }
  }

  /** The cluster is registered with the address. */
  predicate RegisteredAt(records: seq<ClusterRecord>, c: string, address: string) {
    var i := FindId(records, c);
    i < |records| && records[i].address == address
  }

  /** What the step says of where it comes from is what the cluster is registered with. */
  predicate FromItsAddress(w: World, e: Event)
  {
    match e
    case QueryByName(c, caller, _, _) => RegisteredAt(w.root.records, c, caller)
    case QueryByIp(c, caller, _, _) => RegisteredAt(w.root.records, c, caller)
    case DeploymentNotice(c, caller, _) => RegisteredAt(w.root.records, c, caller)
    case CreateService(c, caller, _) => RegisteredAt(w.root.records, c, caller)
    case Withdraw(c, peer, _, _, _) => RegisteredAt(w.root.records, c, peer)
    case _ => true
  }

  /** With addresses of their own, from which they ask and withdraw, clusters are safe. */
  lemma OwnAddressesAreSafe(w: World, e: Event)
    requires WellFormed(w) && DistinctAddresses(w.root.records) && FromItsAddress(w, e)
    ensures Safe(w, e)
  {
    var records := w.root.records;
    OwnAddressesExactly(records);
    forall c, address | RegisteredAt(records, c, address) ensures TakenFor(records, address) == Some(c) {
      assert records[FindId(records, c)].address == address;
    }
  }

  ghost predicate OwnAddressesThroughout(events: seq<Event>)
    decreases |events|
  {
    if events == [] then true else
    var front := events[..|events| - 1];
    && OwnAddressesThroughout(front)
    && DistinctAddresses(Run(front).root.records) && FromItsAddress(Run(front), events[|events| - 1])
  }

  /** So runs of clusters with addresses of their own are coherent all the way. */
  lemma {:induction false} OwnAddressRunsAreCoherent(events: seq<Event>)
    requires OwnAddressesThroughout(events)
    ensures SafeThroughout(events) && CoherentThroughout(events)
    decreases |events|
  {
    if events != [] {
      var front := events[..|events| - 1];
      OwnAddressRunsAreCoherent(front);
      OwnAddressesAreSafe(Run(front), events[|events| - 1]);
    }
    RunCoherentExactly(events);
  }

  lemma TwoRegistrations(a: string, b: string, address: string, p: string, q: string, job: Job)
    requires a != b
    ensures var w := Run([RegisterCluster(a, address, p), RegisterCluster(b, address, q), RootInsertJob(job)]);
            && w.root.records == [ClusterRecord(a, address, p, []), ClusterRecord(b, address, q, [])]
            && w.clusters == map[] && job.name in w.root.jobs
  {
    var e1, e2, e3 := RegisterCluster(a, address, p), RegisterCluster(b, address, q), RootInsertJob(job);
    assert [e1, e2, e3][..2] == [e1, e2] && [e1, e2][..1] == [e1] && [e1][..0] == [];
    var ra := ClusterRecord(a, address, p, []);
    assert Run([e1]).root.records == [ra];
    assert [ra][1..] == [] && FindId([ra], b) == 1;
  }

  lemma SharedRecords(ra: ClusterRecord, rb: ClusterRecord)
    requires ra.id != rb.id && ra.address == rb.address && ra.interests == rb.interests == []
    ensures TakenFor([ra, rb], rb.address) == Some(ra.id)
    ensures ListOf([ra, rb], ra.id) == [] && ListOf([ra, rb], rb.id) == []
  {
    FindIdAt([ra, rb], rb.id, 1);
  }

  /** Two clusters share an address; the second asks for a job and is not told of its changes. */
  lemma SharedAddressIsNotNotified(a: string, b: string, address: string, p: string, q: string, job: Job,
                                   client: string)
    requires a != b
    ensures var before := [RegisterCluster(a, address, p), RegisterCluster(b, address, q), RootInsertJob(job)];
            var w := Run(before + [QueryByName(b, address, job.name, client)]);
            && job.name in Cached(w, b)
            && a in Notified(w.root, job.name) && b !in Notified(w.root, job.name)
  {
    var before := [RegisterCluster(a, address, p), RegisterCluster(b, address, q), RootInsertJob(job)];
    var e := QueryByName(b, address, job.name, client);
    assert (before + [e])[..|before|] == before;
    var w := Run(before);
    TwoRegistrations(a, b, address, p, q, job);
    SharedRecords(ClusterRecord(a, address, p, []), ClusterRecord(b, address, q, []));
    assert Cached(w, b) == map[] && !Lists(w.root, a, job.name) && !Lists(w.root, b, job.name);
    ResolveAsks(w, b, address, None, Some(job.name), client);
    NotifiedAreListed(Step(w, e).root, a, job.name);
    NotifiedAreListed(Step(w, e).root, b, job.name);
  }

  // ---------- Single steps ----------

  /**
   One withdrawal suffices for the worker: unless it raises, the worker is off
   the list afterwards, and with the last one the cluster drops the job. Its
   interest at the root then ends if and only if the root was reached and
   takes the peer for the cluster, or there was none.
   */
  lemma OneWithdrawalSuffices(events: seq<Event>, c: string, peer: string, name: string, client: string,
                              reachable: bool)
    requires !RemovalRaises(Cached(Run(events), c), name, client)
    ensures var w := Run(events);
            var w' := Step(w, Withdraw(c, peer, name, client, reachable));
            && client !in Workers(Cached(w', c), name)
            && (forall other | other != client ::
                  other in Workers(Cached(w', c), name) <==> other in Workers(Cached(w, c), name))
            && (name in Cached(w', c) <==> exists other <- Workers(Cached(w, c), name) :: other != client)
            && (name !in Cached(w', c) ==>
                  (c in Notified(w'.root, name) <==>
                   c in Notified(w.root, name) && !(reachable && TakenFor(w.root.records, peer) == Some(c))))
  {
    var w := Run(events);
    var w' := Step(w, Withdraw(c, peer, name, client, reachable));
    var db := Cached(w, c);
    WithdrawalOfWorker(w, c, peer, name, client, reachable);
    WithdrawDrops(w, c, peer, name, client, reachable);
    NotifiedAreListed(w.root, c, name);
    NotifiedAreListed(w'.root, c, name);
    LastWorkerExactly(db, name, client);
  }

  lemma WithdrawalOfWorker(w: World, c: string, peer: string, name: string, client: string, reachable: bool)
    requires WellFormed(w) && !RemovalRaises(Cached(w, c), name, client)
    ensures var w' := Withdrawn(w, c, peer, name, client, reachable);
            && client !in Workers(Cached(w', c), name)
            && (forall other | other != client ::
                  other in Workers(Cached(w', c), name) <==> other in Workers(Cached(w, c), name))
            && (name in Cached(w', c) <==> exists other <- Workers(Cached(w, c), name) :: other != client)
  {
    var db := Cached(w, c);
    forall other { RemoveFirstMembers(Workers(db, name), client, other); }
    var left := RemoveFirst(Workers(db, name), client);
    if left != [] {
      assert left[0] in left;
    }
  }

  /**
   A query by name that reaches the root from an address it knows, for a job
   that the root has, ends with the job cached and the worker on its list; a
   job that was not cached arrives with exactly the root's instances. The
   cluster is listed if and only if it was or the root takes it for itself.
   */
  lemma QueryCachesTheJob(events: seq<Event>, c: string, caller: string, name: string, client: string)
    requires TakenFor(Run(events).root.records, caller).Some? && name in Run(events).root.jobs
    ensures var w := Run(events);
            var w' := Step(w, QueryByName(c, caller, name, client));
            && name in Cached(w', c)
            && client in Workers(Cached(w', c), name)
            && Cached(w', c)[name].instances ==
               (if name in Cached(w, c) then Cached(w, c) else w.root.jobs)[name].instances
            && (c in Notified(w'.root, name) <==>
                || c in Notified(w.root, name)
                || (name !in Cached(w, c) && TakenFor(w.root.records, caller) == Some(c)))
  {
    var w := Run(events);
    var w' := Step(w, QueryByName(c, caller, name, client));
    QueryStores(w, c, caller, name, client);
    ResolveAsks(w, c, caller, if name in Cached(w, c) then Some(name) else None, Some(name), client);
    NotifiedAreListed(w.root, c, name);
    NotifiedAreListed(w'.root, c, name);
  }

  lemma QueryStores(w: World, c: string, caller: string, name: string, client: string)
    requires WellFormed(w) && TakenFor(w.root.records, caller).Some? && name in w.root.jobs
    ensures var w' := Step(w, QueryByName(c, caller, name, client));
            && name in Cached(w', c)
            && client in Workers(Cached(w', c), name)
            && Cached(w', c)[name].instances ==
               (if name in Cached(w, c) then Cached(w, c) else w.root.jobs)[name].instances
  {
    var xs := w.root.jobs[name].instances;
    assert [] + xs == xs;
    UpsertAllFresh([], xs);
  }

  /** The cluster's copy shows every instance of the root's list with its network fields. */
  ghost predicate ShowsAll(copy: seq<Instance>, xs: seq<Instance>) {
    forall x <- xs :: Find(copy, x.number).Some? && Find(copy, x.number).value.net == x.net
  }

  /**
   A deployment notice brings the cluster's copy up to date if and only if
   the job was cached before, or the root has no instances: the insert path
   stores an empty list.
   */
  lemma NoticeBringsInstances(events: seq<Event>, c: string, caller: string, name: string)
    requires TakenFor(Run(events).root.records, caller).Some? && name in Run(events).root.jobs && name != ""
    ensures var w := Run(events);
            var w' := Step(w, DeploymentNotice(c, caller, name));
            var xs := w.root.jobs[name].instances;
            && name in Cached(w', c)
            && (ShowsAll(Cached(w', c)[name].instances, xs) <==> name in Cached(w, c) || xs == [])
  {
    var w := Run(events);
    var w' := Step(w, DeploymentNotice(c, caller, name));
    var xs := w.root.jobs[name].instances;
    assert w.root.jobs[name].name == name;
    if name in Cached(w, c) {
      UpsertedShowsAll(Cached(w, c)[name].instances, xs);
    } else if xs != [] {
      assert xs[0] in xs && Find(Cached(w', c)[name].instances, xs[0].number).None?;
    }
  }

  lemma UpsertedShowsAll(s: seq<Instance>, xs: seq<Instance>)
    requires UniqueNumbers(xs)
    ensures ShowsAll(UpsertAll(s, xs), xs)
  {
    forall x <- xs
      ensures Find(UpsertAll(s, xs), x.number).Some? && Find(UpsertAll(s, xs), x.number).value.net == x.net
    {
      var i :| 0 <= i < |xs| && xs[i] == x;
      FindNumberAt(xs, x.number, i);
      UpsertAllFind(s, xs, x.number);
    }
  }
}
