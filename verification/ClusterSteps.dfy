/**
 What each handler of a cluster and of the root does to every job, in every
 world that a run can reach: the job it is about, field by field, and all
 other jobs as they were.
 */
module ClusterSteps {
  import opened Wrappers
  import opened ClusterSpec
  import opened ClusterCoherence

  function JobAt(w: World, c: string, name: string): Option<Job> {
    if c in w.clusters && name in w.clusters[c] then Some(w.clusters[c][name]) else None
  }

  function RootJob(w: World, name: string): Option<Job> {
    if name in w.root.jobs then Some(w.root.jobs[name]) else None
  }

  function At(db: Jobs, name: string): Option<Job> {
    if name in db then Some(db[name]) else None
  }

  ghost predicate OthersStay(db: Jobs, db': Jobs, name: string) {
    forall n | n != name :: At(db', n) == At(db, n)
  }

  lemma CacheOf(w: World, c: string, name: string)
    requires WellFormed(w)
    ensures JobAt(w, c, name) == At(Cached(w, c), name)
    ensures JobsInv(Cached(w, c)) && JobsInv(w.root.jobs)
    ensures At(Cached(w, c), name).Some? ==>
              At(Cached(w, c), name).value.name == name && UniqueNumbers(At(Cached(w, c), name).value.instances)
    ensures name in w.root.jobs ==> w.root.jobs[name].name == name && UniqueNumbers(w.root.jobs[name].instances)
  {
  }

  /** A cluster's new job collection in the world. */
  lemma Placed(w: World, c: string, db: Jobs, name: string)
    requires OthersStay(Cached(w, c), db, name)
    ensures var w' := WithCache(w, c, db);
            w'.root == w.root && OtherJobsStay(w, w', c, name) && JobAt(w', c, name) == At(db, name)
  {
    var w' := WithCache(w, c, db);
    forall d, n | !(d == c && n == name) ensures JobAt(w', d, n) == JobAt(w, d, n) {
      if d == c {
        assert At(db, n) == At(Cached(w, c), n);
      }
    }
  }

  /** Nothing else changes, at this cluster or another. */
  ghost predicate OtherJobsStay(w: World, w': World, c: string, name: string) {
    forall d, n | !(d == c && n == name) :: JobAt(w', d, n) == JobAt(w, d, n)
  }

  ghost predicate OtherRootJobsStay(w: World, w': World, name: string) {
    && w'.clusters == w.clusters && w'.root.records == w.root.records
    && forall n | n != name :: RootJob(w', n) == RootJob(w, n)
  }

  // ---------- Instance lists ----------

  /**
   `after` has the instances of `before`, with the network fields of the one in
   xs that has their number, and those of xs that were unknown.
   */
  ghost predicate Merged(before: seq<Instance>, xs: seq<Instance>, after: seq<Instance>)
  {
    && UniqueNumbers(after)
    && NumbersOf(after) == NumbersOf(before) + NumbersOf(xs)
    && (forall x <- before, y <- after | y.number == x.number :: y == x.(net := y.net))
    && (forall x <- before, y <- after | y.number == x.number && x.number !in NumbersOf(xs) :: y == x)
    && (forall x <- xs, y <- after | y.number == x.number :: y.net == x.net)
    && (forall x <- xs, y <- after | y.number == x.number && x.number !in NumbersOf(before) :: y == x)
  }

  ghost function NumbersOf(s: seq<Instance>): iset<int> {
    iset x <- s :: x.number
  }

  lemma NumbersFound(s: seq<Instance>, n: int)
    requires UniqueNumbers(s)
    ensures n in NumbersOf(s) <==> Find(s, n).Some?
    ensures Find(s, n).Some? ==> Find(s, n).value in s && Find(s, n).value.number == n
    ensures forall x <- s | x.number == n :: Find(s, n) == Some(x)
  {
    var i := FindNumber(s, n);
    if i < |s| {
      assert s[i] in s;
    }
  }

  lemma UpsertAllMerges(s: seq<Instance>, xs: seq<Instance>)
    requires UniqueNumbers(s) && UniqueNumbers(xs)
    ensures Merged(s, xs, UpsertAll(s, xs))
  {
    var after := UpsertAll(s, xs);
    UpsertAllUnique(s, xs);
    forall n
      ensures n in NumbersOf(s) <==> Find(s, n).Some?
      ensures n in NumbersOf(xs) <==> Find(xs, n).Some?
      ensures n in NumbersOf(after) <==> n in NumbersOf(s) || n in NumbersOf(xs)
    {
      NumbersFound(s, n);
      NumbersFound(xs, n);
      NumbersFound(after, n);
      UpsertAllFind(s, xs, n);
    }
    forall y <- after
      ensures forall x <- s | y.number == x.number :: y == x.(net := y.net)
      ensures forall x <- s | y.number == x.number && x.number !in NumbersOf(xs) :: y == x
      ensures forall x <- xs | y.number == x.number :: y.net == x.net
      ensures forall x <- xs | y.number == x.number && x.number !in NumbersOf(s) :: y == x
    {
      NumbersFound(s, y.number);
      NumbersFound(xs, y.number);
      NumbersFound(after, y.number);
      UpsertAllFind(s, xs, y.number);
    }
  }

  /** `after` has the instances of `before` with another number. */
  ghost predicate Without(before: seq<Instance>, number: int, after: seq<Instance>)
  {
    && UniqueNumbers(after)
    && forall x :: x in after <==> x in before && x.number != number
  }

  lemma PullLeaves(s: seq<Instance>, number: int)
    requires UniqueNumbers(s)
    ensures Without(s, number, Pull(s, number))
    ensures Pull(s, number) != [] <==> exists x <- s :: x.number != number
  {
    PullUnique(s, number);
    forall x { PullMembers(s, number, x); }
    var left := Pull(s, number);
    if left != [] {
      assert left[0] in left;
    }
  }

  /** The same instances, but for the one with the number. */
  ghost predicate SameBut(before: seq<Instance>, number: int, after: seq<Instance>)
  {
    && |after| == |before|
    && forall i | 0 <= i < |before| && before[i].number != number :: after[i] == before[i]
  }

  // ---------- Notices and reports at a cluster ----------

  /**
   An undeployment: the job stays if and only if some instance has another
   number, with exactly those instances and with its addresses, workers and
   status as before. -1 drops the job, a lower number is refused.
   */
  lemma UndeploymentExactly(w: World, c: string, name: string, number: int)
    requires WellFormed(w)
    ensures var w' := Step(w, UndeploymentNotice(c, name, number));
            && w'.root == w.root && OtherJobsStay(w, w', c, name)
            && match JobAt(w, c, name)
               case None => JobAt(w', c, name).None?
               case Some(job) =>
                 if number < -1 then JobAt(w', c, name) == Some(job)
                 else if number == -1 then JobAt(w', c, name).None?
                 else
                   && (JobAt(w', c, name).Some? <==> exists x <- job.instances :: x.number != number)
                   && (JobAt(w', c, name).Some? ==>
                         var left := JobAt(w', c, name).value.instances;
                         && JobAt(w', c, name) == Some(job.(instances := left))
                         && Without(job.instances, number, left))
  {
    CacheOf(w, c, name);
    RemoveInstanceExactly(Cached(w, c), name, number);
    Placed(w, c, RemoveInstance(Cached(w, c), name, number), name);
  }

  lemma RemoveInstanceExactly(db: Jobs, name: string, number: int)
    requires JobsInv(db)
    ensures var db' := RemoveInstance(db, name, number);
            && OthersStay(db, db', name)
            && match At(db, name)
               case None => At(db', name).None?
               case Some(job) =>
                 if number <= -1 then At(db', name).None?
                 else
                   && (At(db', name).Some? <==> exists x <- job.instances :: x.number != number)
                   && (At(db', name).Some? ==>
                         var left := At(db', name).value.instances;
                         && At(db', name) == Some(job.(instances := left))
                         && Without(job.instances, number, left))
  {
    if name in db {
      PullLeaves(db[name].instances, number);
    }
  }

  /** In a run: what an undeployment leaves of a job with further instances. */
  lemma UndeploymentInARun(events: seq<Event>, c: string, name: string, number: int, other: Instance)
    requires JobAt(Run(events), c, name).Some? && number >= 0
    requires other in JobAt(Run(events), c, name).value.instances && other.number != number
    ensures var job := JobAt(Run(events), c, name).value;
            var after := JobAt(Run(events + [UndeploymentNotice(c, name, number)]), c, name);
            && after.Some? && other in after.value.instances
            && (forall x <- after.value.instances :: x.number != number)
            && after.value.interested == job.interested && after.value.addresses == job.addresses
            && after.value.status == job.status
  {
    assert (events + [UndeploymentNotice(c, name, number)])[..|events|] == events;
    UndeploymentExactly(Run(events), c, name, number);
  }

  /** A worker's report sets the job's status, and worker and network fields of the instance it names. */
  lemma WorkerReportExactly(w: World, c: string, name: string, status: string, number: int, worker: string,
                            net: NetInfo)
    requires WellFormed(w)
    ensures var w' := Step(w, WorkerReport(c, name, status, number, worker, net));
            && w'.root == w.root && OtherJobsStay(w, w', c, name)
            && match JobAt(w, c, name)
               case None => JobAt(w', c, name).None?
               case Some(job) =>
                 && JobAt(w', c, name).Some?
                 && var list := JobAt(w', c, name).value.instances;
                 && JobAt(w', c, name).value == job.(status := Some(status), instances := list)
                 && SameBut(job.instances, number, list)
                 && forall i | 0 <= i < |list| && job.instances[i].number == number ::
                      list[i] == Instance(number, job.instances[i].addresses, worker, net)
  {
  }

  /** A changed address touches worker and host of the instance it names; the namespace addresses stay. */
  lemma AddressReportExactly(w: World, c: string, name: string, number: int, worker: string, ip: string, port: string)
    requires WellFormed(w)
    ensures var w' := Step(w, AddressReport(c, name, number, worker, ip, port));
            && w'.root == w.root && OtherJobsStay(w, w', c, name)
            && match JobAt(w, c, name)
               case None => JobAt(w', c, name).None?
               case Some(job) =>
                 && JobAt(w', c, name).Some?
                 && var list := JobAt(w', c, name).value.instances;
                 && JobAt(w', c, name).value == job.(instances := list)
                 && SameBut(job.instances, number, list)
                 && forall i | 0 <= i < |list| && job.instances[i].number == number ::
                      var net := job.instances[i].net;
                      list[i] == Instance(number, job.instances[i].addresses, worker,
                                          NetInfo(net.namespaceIp, net.namespaceIpV6, ip, port))
  {
  }

  /** The root has the job and knows the address. */
  ghost predicate Answered(w: World, caller: string, name: string) {
    name in w.root.jobs && exists r <- w.root.records :: r.address == caller
  }

  lemma AnsweredExactly(w: World, caller: string, name: string)
    ensures Answered(w, caller, name) <==> Answers(w.root, caller, Some(name))
    ensures Answered(w, caller, name) ==>
              && TableQuery(w.root, caller, Some(name)).0 == Some(w.root.jobs[name])
    ensures !Answered(w, caller, name) ==> TableQuery(w.root, caller, Some(name)).0 == None
    ensures TableQuery(w.root, caller, Some(name)).1.jobs == w.root.jobs
  {
    var i := FindAddress(w.root.records, caller);
    if i < |w.root.records| {
      assert w.root.records[i] in w.root.records;
    }
  }

  /**
   A deployment notice merges the root's instances into a cached job and keeps
   its addresses, workers and status. A job that was not cached gets the root's
   service addresses and neither instances nor workers.
   */
  lemma DeploymentExactly(w: World, c: string, caller: string, name: string)
    requires WellFormed(w)
    ensures var w' := Step(w, DeploymentNotice(c, caller, name));
            && w'.root.jobs == w.root.jobs && OtherJobsStay(w, w', c, name)
            && (!Answered(w, caller, name) || name == "" ==> JobAt(w', c, name) == JobAt(w, c, name))
            && (Answered(w, caller, name) && name != "" ==>
                  match JobAt(w, c, name)
                  case None => JobAt(w', c, name) == Some(Job(name, w.root.jobs[name].addresses, [], [], None))
                  case Some(job) =>
                    && JobAt(w', c, name).Some?
                    && var list := JobAt(w', c, name).value.instances;
                    && JobAt(w', c, name).value == job.(instances := list)
                    && Merged(job.instances, w.root.jobs[name].instances, list))
  {
    AnsweredExactly(w, caller, name);
    CacheOf(w, c, name);
    if Answered(w, caller, name) {
      var db, job := Cached(w, c), w.root.jobs[name];
      if name in db {
        UpsertAllMerges(db[name].instances, job.instances);
      }
      Placed(w.(root := TableQuery(w.root, caller, Some(name)).1), c, UpdateJob(db, job), name);
    }
  }

  /**
   What is stored of a job that the root is asked for: a cached one gets the
   root's service addresses and merges its instances, another one is copied
   without workers and status.
   */
  ghost predicate Stored(known: Job, before: Option<Job>, after: Option<Job>)
  {
    match before
    case None => after == Some(Job(known.name, known.addresses, known.instances, [], None))
    case Some(job) =>
      && after.Some?
      && after.value == job.(addresses := known.addresses, instances := after.value.instances)
      && Merged(job.instances, known.instances, after.value.instances)
  }

  lemma StoreExactly(db: Jobs, job: Job)
    requires JobsInv(db) && UniqueNumbers(job.instances)
    ensures OthersStay(db, Store(db, job), job.name)
    ensures Stored(job, At(db, job.name), At(Store(db, job), job.name))
  {
    if job.name in db {
      UpsertAllMerges(db[job.name].instances, job.instances);
    } else {
      assert [] + job.instances == job.instances;
      UpsertAllFresh([], job.instances);
    }
  }

  /** The root is asked for the job: what this does to the cluster's jobs. */
  ghost predicate Fetched(w: World, w': World, c: string, caller: string, name: string)
  {
    && w'.root.jobs == w.root.jobs && OtherJobsStay(w, w', c, name)
    && (!Answered(w, caller, name) ==> JobAt(w', c, name) == JobAt(w, c, name))
    && (Answered(w, caller, name) ==> Stored(w.root.jobs[name], JobAt(w, c, name), JobAt(w', c, name)))
  }

  lemma FetchExactly(w: World, c: string, caller: string, name: string)
    requires WellFormed(w)
    ensures Fetched(w, Fetch(w, c, caller, Some(name)), c, caller, name)
  {
    AnsweredExactly(w, caller, name);
    CacheOf(w, c, name);
    if Answered(w, caller, name) {
      StoreExactly(Cached(w, c), w.root.jobs[name]);
      Placed(w.(root := TableQuery(w.root, caller, Some(name)).1), c, Store(Cached(w, c), w.root.jobs[name]), name);
    }
  }

  /** Creating a service asks the root in every case, also for a cached job. */
  lemma CreateServiceFetches(w: World, c: string, caller: string, name: string)
    ensures Step(w, CreateService(c, caller, name)) == Fetch(w, c, caller, Some(name))
  {
  }

  /** The worker is on the list once. */
  function WithWorker(job: Job, client: string): Job {
    job.(interested := if client in job.interested then job.interested else job.interested + [client])
  }

  lemma EnlistExactly(w: World, c: string, name: string, client: string)
    requires WellFormed(w)
    ensures var w' := Enlist(w, c, Some(name), client);
            && w'.root == w.root && OtherJobsStay(w, w', c, name)
            && match JobAt(w, c, name)
               case None => JobAt(w', c, name).None?
               case Some(job) => JobAt(w', c, name) == Some(WithWorker(job, client))
  {
    CacheOf(w, c, name);
    Placed(w, c, AddInterest(Cached(w, c), name, client), name);
  }

  /** A query by name for a cached job adds the worker, once, and nothing else; the root is not asked. */
  lemma CachedQueryExactly(w: World, c: string, caller: string, name: string, client: string)
    requires WellFormed(w) && JobAt(w, c, name).Some?
    ensures var w' := Step(w, QueryByName(c, caller, name, client));
            && w'.root == w.root && OtherJobsStay(w, w', c, name)
            && JobAt(w', c, name) == Some(WithWorker(JobAt(w, c, name).value, client))
  {
    EnlistExactly(w, c, name, client);
  }

  /** Any other job is copied from the root, if it answers, with this worker. */
  lemma UncachedQueryExactly(w: World, c: string, caller: string, name: string, client: string)
    requires WellFormed(w) && JobAt(w, c, name).None?
    ensures var w' := Step(w, QueryByName(c, caller, name, client));
            && w'.root.jobs == w.root.jobs && OtherJobsStay(w, w', c, name)
            && JobAt(w', c, name) ==
               if !Answered(w, caller, name) then None
               else Some(Job(name, w.root.jobs[name].addresses, w.root.jobs[name].instances, [client], None))
  {
    var asked := Fetch(w, c, caller, Some(name));
    CacheOf(w, c, name);
    FetchExactly(w, c, caller, name);
    FetchAsks(w, c, caller, Some(name));
    EnlistExactly(asked, c, name, client);
    var w' := Enlist(asked, c, Some(name), client);
    assert Step(w, QueryByName(c, caller, name, client)) == w';
    StaysInTurn(w, asked, w', c, name);
    assert [] + [client] == [client];
  }

  lemma StaysInTurn(w: World, t: World, u: World, c: string, name: string)
    requires OtherJobsStay(w, t, c, name) && OtherJobsStay(t, u, c, name)
    ensures OtherJobsStay(w, u, c, name)
  {
  }

  /** A query by address is one by the name of a job with that address, at the cluster or else at the root. */
  lemma QueryByIpExactly(w: World, c: string, caller: string, ip: string, client: string)
    requires WellFormed(w)
    ensures var w' := Step(w, QueryByIp(c, caller, ip, client));
            var has := (job: Job) => ip in job.addresses || exists x <- job.instances :: ip in x.addresses;
            if exists n :: JobAt(w, c, n).Some? && has(JobAt(w, c, n).value) then
              exists n :: JobAt(w, c, n).Some? && has(JobAt(w, c, n).value)
                          && w' == Step(w, QueryByName(c, caller, n, client))
            else if exists n :: RootJob(w, n).Some? && has(RootJob(w, n).value) then
              exists n :: RootJob(w, n).Some? && has(RootJob(w, n).value)
                          && w' == Enlist(Fetch(w, c, caller, Some(n)), c, Some(n), client)
            else
              w'.root.jobs == w.root.jobs && forall d, n :: JobAt(w', d, n) == JobAt(w, d, n)
  {
    var local, remote := FindByIp(Cached(w, c), ip), FindByIp(w.root.jobs, ip);
    if local.Some? {
      assert JobAt(w, c, local.value).Some? && HasAddress(JobAt(w, c, local.value).value, ip);
    } else if remote.Some? {
      assert RootJob(w, remote.value).Some? && HasAddress(RootJob(w, remote.value).value, ip);
    }
    forall n | JobAt(w, c, n).Some? ensures local.None? ==> !HasAddress(JobAt(w, c, n).value, ip) {
      assert n in Cached(w, c);
    }
    forall n | RootJob(w, n).Some? ensures remote.None? ==> !HasAddress(RootJob(w, n).value, ip) {
      assert n in w.root.jobs;
    }
  }

  // ---------- The end of an interest ----------

  lemma FirstOccurrence<T>(s: seq<T>, x: T) returns (k: nat)
    ensures k <= |s| && (k < |s| ==> s[k] == x) && forall j | 0 <= j < k :: s[j] != x
  {
    k := 0;
    while k < |s| && s[k] != x
      invariant k <= |s| && forall j | 0 <= j < k :: s[j] != x
    {
      k := k + 1;
    }
  }

  lemma {:induction false} RemoveFirstAt<T>(s: seq<T>, x: T, k: nat)
    requires k <= |s| && (k < |s| ==> s[k] == x) && forall j | 0 <= j < k :: s[j] != x
    ensures RemoveFirst(s, x) == s[..k] + if k < |s| then s[k + 1..] else []
  {
    if k > 0 {
      RemoveFirstAt(s[1..], x, k - 1);
      assert s[..k] == [s[0]] + s[1..][..k - 1];
    }
  }

  /** Removing from a list takes one occurrence, the first. */
  lemma RemoveFirstExactly<T>(s: seq<T>, x: T) returns (k: nat)
    ensures k < |s| ==> s[k] == x && (forall j | 0 <= j < k :: s[j] != x) && RemoveFirst(s, x) == s[..k] + s[k + 1..]
    ensures k >= |s| ==> x !in s && RemoveFirst(s, x) == s
  {
    k := FirstOccurrence(s, x);
    RemoveFirstAt(s, x, k);
  }

  lemma DropInterestExactly(db: Jobs, name: string, client: string)
    requires name in db
    ensures var db' := DropInterest(db, name, client);
            && OthersStay(db, db', name) && name in db'
            && db'[name] == db[name].(interested := db'[name].interested)
            && (client in db[name].interested ==>
                  exists k :: 0 <= k < |db[name].interested| && db[name].interested[k] == client
                              && db'[name].interested == db[name].interested[..k] + db[name].interested[k + 1..])
  {
    var k := RemoveFirstExactly(db[name].interested, client);
  }

  /** A withdrawal that raises changes nothing. */
  lemma WithdrawalRaises(w: World, c: string, peer: string, name: string, client: string, reachable: bool)
    requires JobAt(w, c, name).Some?
    requires JobAt(w, c, name).value.interested != [] && client !in JobAt(w, c, name).value.interested
    ensures Step(w, Withdraw(c, peer, name, client, reachable)) == w
  {
  }

  /** One that leaves other workers takes this one off the list, and the root is not told. */
  lemma WithdrawalLeavesOthers(w: World, c: string, peer: string, name: string, client: string, reachable: bool)
    requires WellFormed(w) && JobAt(w, c, name).Some? && client in JobAt(w, c, name).value.interested
    requires exists other <- JobAt(w, c, name).value.interested :: other != client
    ensures var job, w' := JobAt(w, c, name).value, Step(w, Withdraw(c, peer, name, client, reachable));
            && w'.root == w.root && OtherJobsStay(w, w', c, name) && JobAt(w', c, name).Some?
            && var left := JobAt(w', c, name).value.interested;
            && JobAt(w', c, name).value == job.(interested := left)
            && exists k :: 0 <= k < |job.interested| && job.interested[k] == client
                           && left == job.interested[..k] + job.interested[k + 1..]
  {
    CacheOf(w, c, name);
    DropInterestExactly(Cached(w, c), name, client);
    LastWorkerExactly(Cached(w, c), name, client);
    Placed(w, c, DropInterest(Cached(w, c), name, client), name);
  }

  /** Any other one drops the job, cached or not, and the root is told if it can be reached. */
  lemma LastWithdrawalDrops(w: World, c: string, peer: string, name: string, client: string, reachable: bool)
    requires WellFormed(w)
    requires JobAt(w, c, name).None? || JobAt(w, c, name).value.interested in [[], [client]]
    ensures var w' := Step(w, Withdraw(c, peer, name, client, reachable));
            && OtherJobsStay(w, w', c, name) && JobAt(w', c, name).None?
            && w'.root == if reachable then Deregister(w.root, peer, name) else w.root
  {
    var db := Cached(w, c);
    CacheOf(w, c, name);
    LastWorkerExactly(db, name, client);
    if name in db {
      DropInterestExactly(db, name, client);
    }
    var told := if reachable then w.(root := Deregister(w.root, peer, name)) else w;
    Placed(told, c, DropInterest(db, name, client) - {name}, name);
  }

  lemma RemoveServiceExactly(w: World, c: string, name: string)
    ensures var w' := Step(w, RemoveService(c, name));
            w'.root == w.root && OtherJobsStay(w, w', c, name) && JobAt(w', c, name).None?
  {
    Placed(w, c, Cached(w, c) - {name}, name);
  }

  /** A restarted cluster has no jobs; the root still lists its interests. */
  lemma RestartExactly(w: World, c: string)
    ensures var w' := Step(w, RestartCluster(c));
            w'.root == w.root && forall d, n :: JobAt(w', d, n) == if d == c then None else JobAt(w, d, n)
  {
  }

  // ---------- The records of the root ----------

  /** The first record with an address. */
  ghost predicate FirstAt(records: seq<ClusterRecord>, address: string, i: nat) {
    && i < |records| && records[i].address == address
    && forall j | 0 <= j < i :: records[j].address != address
  }

  lemma FirstIsTaken(records: seq<ClusterRecord>, address: string, i: nat)
    requires RecordsInv(records) && FirstAt(records, address, i)
    ensures TakenFor(records, address) == Some(records[i].id)
    ensures FindId(records, records[i].id) == i && ListOf(records, records[i].id) == records[i].interests
  {
    var k := FindAddress(records, address);
    assert !(k < i) && !(i < k);
    FindIdAt(records, records[i].id, i);
  }

  /**
   A query at the root: the caller is the first cluster with its address. It
   gets the job of the name and is listed for it once; for an unknown job the
   null name is listed. From an unknown address nothing happens.
   */
  lemma RootQueryExactly(root: Root, caller: string, name: Option<string>, i: nat)
    requires JobsInv(root.jobs) && RecordsInv(root.records) && FirstAt(root.records, caller, i)
    ensures var (job, after) := TableQuery(root, caller, name);
            var known := name.Some? && name.value in root.jobs;
            var entry := if known then name else None;
            var list := root.records[i].interests;
            && job == (if known then Some(root.jobs[name.value]) else None)
            && after.jobs == root.jobs
            && after.records == root.records[i := root.records[i].(
                 interests := if entry in list then list else list + [entry])]
  {
    FirstIsTaken(root.records, caller, i);
  }

  lemma UnknownCallerExactly(root: Root, caller: string, name: Option<string>)
    requires forall i | 0 <= i < |root.records| :: root.records[i].address != caller
    ensures TableQuery(root, caller, name) == (None, root)
    ensures forall n :: Deregister(root, caller, n) == root
  {
  }

  /** A withdrawal at the root takes the name off the list of the first cluster with the peer's address. */
  lemma DeregisterExactly(root: Root, peer: string, name: string, i: nat)
    requires RecordsInv(root.records) && FirstAt(root.records, peer, i)
    ensures var list, after := root.records[i].interests, Deregister(root, peer, name);
            && after.jobs == root.jobs
            && (Some(name) !in list ==> after.records == root.records)
            && (Some(name) in list ==>
                  exists k :: 0 <= k < |list| && list[k] == Some(name)
                              && after.records ==
                                 root.records[i := root.records[i].(interests := list[..k] + list[k + 1..])])
  {
    FirstIsTaken(root.records, peer, i);
    var k := RemoveFirstExactly(root.records[i].interests, Some(name));
    if k >= |root.records[i].interests| {
      assert root.records == root.records[i := root.records[i].(interests := root.records[i].interests)];
    }
  }

  /** A cluster that registers again gets the new address and port, in its place; a new one has no interests. */
  lemma RegistrationExactly(w: World, c: string, address: string, port: string)
    requires WellFormed(w)
    ensures var records, w' := w.root.records, Step(w, RegisterCluster(c, address, port));
            && w'.clusters == w.clusters && w'.root.jobs == w.root.jobs
            && (forall i | 0 <= i < |records| && records[i].id == c ::
                  w'.root.records == records[i := ClusterRecord(c, address, port, records[i].interests)])
            && ((forall r <- records :: r.id != c) ==>
                  w'.root.records == records + [ClusterRecord(c, address, port, [])])
  {
    var i := FindId(w.root.records, c);
    if i < |w.root.records| {
      assert w.root.records[i] in w.root.records;
    }
  }

  // ---------- The jobs of the root ----------

  lemma RootStepExactly(w: World, name: string, jobs: Jobs)
    requires OthersStay(w.root.jobs, jobs, name)
    ensures var w' := WithRootJobs(w, jobs);
            OtherRootJobsStay(w, w', name) && RootJob(w', name) == At(jobs, name)
  {
    forall n | n != name ensures RootJob(WithRootJobs(w, jobs), n) == RootJob(w, n) {
      assert At(jobs, n) == At(w.root.jobs, n);
    }
  }

  /** A job at the root starts without instances, also one that is deployed again. */
  lemma RootInsertExactly(w: World, job: Job)
    ensures var w' := Step(w, RootInsertJob(job));
            && OtherRootJobsStay(w, w', job.name)
            && RootJob(w', job.name) == Some(Job(job.name, job.addresses, [], [], job.status))
  {
    RootStepExactly(w, job.name, w.root.jobs[job.name := job.(instances := [], interested := [])]);
  }

  lemma RootRemoveExactly(w: World, name: string)
    ensures var w' := Step(w, RootRemoveJob(name));
            OtherRootJobsStay(w, w', name) && RootJob(w', name).None?
  {
    RootStepExactly(w, name, w.root.jobs - {name});
  }

  lemma UpsertOneExactly(db: Jobs, name: string, x: Instance)
    requires JobsInv(db)
    ensures var db' := UpsertInstances(db, name, [x]);
            && OthersStay(db, db', name)
            && match At(db, name)
               case None => At(db', name).None?
               case Some(job) =>
                 && At(db', name).Some?
                 && At(db', name).value == job.(instances := At(db', name).value.instances)
                 && Merged(job.instances, [x], At(db', name).value.instances)
  {
    if name in db {
      UpsertAllMerges(db[name].instances, [x]);
    }
  }

  lemma RootUpsertExactly(w: World, name: string, x: Instance)
    requires WellFormed(w)
    ensures var w' := Step(w, RootUpsertInstance(name, x));
            && OtherRootJobsStay(w, w', name)
            && match RootJob(w, name)
               case None => RootJob(w', name).None?
               case Some(job) =>
                 && RootJob(w', name).Some?
                 && RootJob(w', name).value == job.(instances := RootJob(w', name).value.instances)
                 && Merged(job.instances, [x], RootJob(w', name).value.instances)
  {
    UpsertOneExactly(w.root.jobs, name, x);
    RootStepExactly(w, name, UpsertInstances(w.root.jobs, name, [x]));
  }

  /** A network status overwrites the network fields of a known instance; an unknown one is left out. */
  lemma RootNetStatusExactly(w: World, name: string, x: Instance)
    requires WellFormed(w)
    ensures var w' := Step(w, RootNetStatus(name, x));
            && OtherRootJobsStay(w, w', name)
            && match RootJob(w, name)
               case None => RootJob(w', name).None?
               case Some(job) =>
                 && RootJob(w', name).Some?
                 && var list := RootJob(w', name).value.instances;
                 && RootJob(w', name).value == job.(instances := list)
                 && SameBut(job.instances, x.number, list)
                 && forall i | 0 <= i < |list| && job.instances[i].number == x.number ::
                      list[i] == job.instances[i].(net := x.net)
  {
    UpdateNetExactly(w.root.jobs, name, x);
    RootStepExactly(w, name, UpdateNet(w.root.jobs, name, x));
  }

  lemma UpdateNetExactly(db: Jobs, name: string, x: Instance)
    requires JobsInv(db)
    ensures var db' := UpdateNet(db, name, x);
            && OthersStay(db, db', name)
            && match At(db, name)
               case None => At(db', name).None?
               case Some(job) =>
                 && At(db', name).Some?
                 && var list := At(db', name).value.instances;
                 && At(db', name).value == job.(instances := list)
                 && SameBut(job.instances, x.number, list)
                 && forall i | 0 <= i < |list| && job.instances[i].number == x.number ::
                      list[i] == job.instances[i].(net := x.net)
  {
    if name in db {
      assert [x][1..] == [] && UpsertAll(db[name].instances, [x]) == UpsertAll(Upsert(db[name].instances, x), []);
    }
  }

  lemma CleanInstanceExactly(db: Jobs, name: string, number: int)
    requires JobsInv(db)
    ensures var db' := CleanInstance(db, name, number);
            && OthersStay(db, db', name)
            && match At(db, name)
               case None => At(db', name).None?
               case Some(job) =>
                 && At(db', name).Some?
                 && var left := At(db', name).value.instances;
                 && At(db', name).value == job.(instances := left)
                 && if number == -1 then left == [] else Without(job.instances, number, left)
  {
    if name in db {
      PullLeaves(db[name].instances, number);
    }
  }

  /** -1 clears the list of instances, any other number takes its instance off; the job stays. */
  lemma RootCleanExactly(w: World, name: string, number: int)
    requires WellFormed(w)
    ensures var w' := Step(w, RootCleanInstance(name, number));
            && OtherRootJobsStay(w, w', name)
            && match RootJob(w, name)
               case None => RootJob(w', name).None?
               case Some(job) =>
                 && RootJob(w', name).Some?
                 && var left := RootJob(w', name).value.instances;
                 && RootJob(w', name).value == job.(instances := left)
                 && if number == -1 then left == [] else Without(job.instances, number, left)
  {
    CleanInstanceExactly(w.root.jobs, name, number);
    RootStepExactly(w, name, CleanInstance(w.root.jobs, name, number));
  }
}
