/**
 Jobs, instances and interest lists at a cluster and at the root, on values.
 Each handler of either service manager is one step.
 */
module ClusterSpec {
  import opened Wrappers

  datatype NetInfo = NetInfo(namespaceIp: string, namespaceIpV6: string, hostIp: string, hostPort: string)

  /** `addresses` are its instance addresses, IPv4 and IPv6. */
  datatype Instance = Instance(number: int, addresses: set<string>, worker: string, net: NetInfo)

  /**
   `addresses` are the service addresses, IPv4 and IPv6; `interested` are the
   worker nodes that asked for the job. A worker's report sets the status.
   */
  datatype Job = Job(
    name: string, addresses: set<string>, instances: seq<Instance>, interested: seq<string>, status: Option<string>)

  type Jobs = map<string, Job>

  // ---------- Instance lists ----------

  /** The first instance with a number, or the length of the list. */
  function FindNumber(instances: seq<Instance>, number: int): (i: nat)
    ensures i <= |instances| && (i < |instances| ==> instances[i].number == number)
    ensures forall j | 0 <= j < i :: instances[j].number != number
  {
    if instances == [] then 0 else if instances[0].number == number then 0 else 1 + FindNumber(instances[1..], number)
  }

  /** An upsert: network fields are overwritten in place, an unknown number is appended. */
  function Upsert(instances: seq<Instance>, x: Instance): seq<Instance> {
    var i := FindNumber(instances, x.number);
    if i < |instances| then instances[i := instances[i].(net := x.net)] else instances + [x]
  }

  function UpsertAll(instances: seq<Instance>, xs: seq<Instance>): seq<Instance>
    decreases |xs|
  {
    if xs == [] then instances else UpsertAll(Upsert(instances, xs[0]), xs[1..])
  }

  /** A pull removes every instance with the number. */
  function Pull(instances: seq<Instance>, number: int): seq<Instance> {
    if instances == [] then []
    else (if instances[0].number == number then [] else [instances[0]]) + Pull(instances[1..], number)
  }

  /** The report of a worker about its instance. */
  function Reported(instances: seq<Instance>, number: int, worker: string, net: NetInfo): seq<Instance> {
    var i := FindNumber(instances, number);
    if i < |instances| then instances[i := instances[i].(worker := worker, net := net)] else instances
  }

  /** A changed host address of an instance. */
  function Relocated(instances: seq<Instance>, number: int, worker: string, ip: string, port: string): seq<Instance> {
    var i := FindNumber(instances, number);
    if i < |instances|
    then instances[i := instances[i].(worker := worker, net := instances[i].net.(hostIp := ip, hostPort := port))]
    else instances
  }

  function Find(instances: seq<Instance>, number: int): Option<Instance> {
    var i := FindNumber(instances, number);
    if i < |instances| then Some(instances[i]) else None
  }

  lemma {:induction false} FindNumberAt(s: seq<Instance>, number: int, i: nat)
    requires i <= |s| && (i < |s| ==> s[i].number == number)
    requires forall j | 0 <= j < i :: s[j].number != number
    ensures FindNumber(s, number) == i
  {
    var k := FindNumber(s, number);
    assert !(k < i) && !(i < k);
  }

  /** Replacing an instance by one with its number changes the lookup of that number only. */
  lemma ReplacedFind(s: seq<Instance>, x: Instance, n: int)
    requires FindNumber(s, x.number) < |s|
    ensures Find(s[FindNumber(s, x.number) := x], n) == if n == x.number then Some(x) else Find(s, n)
  {
    var i := FindNumber(s, x.number);
    FindNumberAt(s[i := x], n, if n == x.number then i else FindNumber(s, n));
  }

  /** An upsert adds an unknown instance as it is; of a known one it changes nothing but the network fields. */
  lemma UpsertFind(s: seq<Instance>, x: Instance, n: int)
    ensures Find(Upsert(s, x), n) ==
            if n != x.number then Find(s, n)
            else match Find(s, n) case None => Some(x) case Some(old_) => Some(old_.(net := x.net))
  {
    var i := FindNumber(s, x.number);
    if i < |s| {
      ReplacedFind(s, s[i].(net := x.net), n);
    } else {
      var k := FindNumber(s, n);
      FindNumberAt(s + [x], n, if n == x.number then |s| else if k < |s| then k else |s| + 1);
    }
  }

  /** A report changes worker and network fields of the instance it names, if there is one, and nothing else. */
  lemma ReportedFind(s: seq<Instance>, number: int, worker: string, net: NetInfo, n: int)
    ensures Find(Reported(s, number, worker, net), n) ==
            match Find(s, n)
            case None => None
            case Some(old_) => Some(if n == number then old_.(worker := worker, net := net) else old_)
  {
    var i := FindNumber(s, number);
    if i < |s| {
      ReplacedFind(s, s[i].(worker := worker, net := net), n);
    }
  }

  /** A changed address touches worker and host of the instance it names, if there is one, and nothing else. */
  lemma RelocatedFind(s: seq<Instance>, number: int, worker: string, ip: string, port: string, n: int)
    ensures Find(Relocated(s, number, worker, ip, port), n) ==
            match Find(s, n)
            case None => None
            case Some(old_) =>
              if n != number then Some(old_)
              else Some(old_.(worker := worker, net := old_.net.(hostIp := ip, hostPort := port)))
  {
    var i := FindNumber(s, number);
    if i < |s| {
      ReplacedFind(s, s[i].(worker := worker, net := s[i].net.(hostIp := ip, hostPort := port)), n);
    }
  }

  ghost predicate UniqueNumbers(instances: seq<Instance>) {
    forall i, j | 0 <= i < j < |instances| :: instances[i].number != instances[j].number
  }

  lemma UpsertUnique(instances: seq<Instance>, x: Instance)
    requires UniqueNumbers(instances)
    ensures UniqueNumbers(Upsert(instances, x))
  {
  }

  lemma {:induction false} UpsertAllUnique(instances: seq<Instance>, xs: seq<Instance>)
    requires UniqueNumbers(instances)
    ensures UniqueNumbers(UpsertAll(instances, xs))
    decreases |xs|
  {
    if xs != [] {
      UpsertUnique(instances, xs[0]);
      UpsertAllUnique(Upsert(instances, xs[0]), xs[1..]);
    }
  }

  /**
   After upserting a list, every instance of it is found with its network
   fields: a known one is otherwise as before, an unknown one as in the list.
   */
  lemma {:induction false} UpsertAllFind(s: seq<Instance>, xs: seq<Instance>, n: int)
    requires UniqueNumbers(xs)
    ensures Find(UpsertAll(s, xs), n) ==
            match (Find(s, n), Find(xs, n))
            case (_, None) => Find(s, n)
            case (None, Some(x)) => Some(x)
            case (Some(old_), Some(x)) => Some(old_.(net := x.net))
    decreases |xs|
  {
    if xs != [] {
      UpsertFind(s, xs[0], n);
      UpsertAllFind(Upsert(s, xs[0]), xs[1..], n);
      if xs[0].number == n {
        FindNumberAt(xs[1..], n, |xs| - 1);
      }
    }
  }

  /** With unique numbers, an instance is found under its number, and nothing else is found. */
  lemma FindExactly(s: seq<Instance>, n: int, x: Instance)
    requires UniqueNumbers(s)
    ensures Find(s, n) == Some(x) <==> x in s && x.number == n
    ensures Find(s, n) == None <==> forall y <- s :: y.number != n
  {
    var i := FindNumber(s, n);
    if i < |s| {
      assert s[i] in s;
    }
    if x in s && x.number == n {
      var j :| 0 <= j < |s| && s[j] == x;
      assert i <= j;
    }
  }

  /** Upserted into an empty list, a list arrives unchanged. */
  lemma {:induction false} UpsertAllFresh(s: seq<Instance>, xs: seq<Instance>)
    requires UniqueNumbers(s + xs)
    ensures UpsertAll(s, xs) == s + xs
    decreases |xs|
  {
    if xs == [] {
      assert s + xs == s;
    } else {
      var whole := s + xs;
      assert whole[|s|] == xs[0] && forall j | 0 <= j < |s| :: whole[j] == s[j];
      FindNumberAt(s, xs[0].number, |s|);
      assert s + [xs[0]] + xs[1..] == whole;
      UpsertAllFresh(s + [xs[0]], xs[1..]);
    }
  }

  lemma {:induction false} PullMembers(instances: seq<Instance>, number: int, x: Instance)
    ensures x in Pull(instances, number) <==> x in instances && x.number != number
  {
    if instances != [] {
      PullMembers(instances[1..], number, x);
      assert instances == [instances[0]] + instances[1..];
    }
  }

  lemma {:induction false} PullUnique(instances: seq<Instance>, number: int)
    requires UniqueNumbers(instances)
    ensures UniqueNumbers(Pull(instances, number))
  {
    if instances != [] {
      var rest := Pull(instances[1..], number);
      PullUnique(instances[1..], number);
      forall k | 0 <= k < |rest| ensures rest[k].number != instances[0].number {
        PullMembers(instances[1..], number, rest[k]);
      }
    }
  }

  // ---------- Lists without repetition ----------

  ghost predicate NoDup<T>(s: seq<T>) {
    forall i, j | 0 <= i < j < |s| :: s[i] != s[j]
  }

  function AddOnce<T(==)>(s: seq<T>, x: T): seq<T> {
    if x in s then s else s + [x]
  }

  /** list.remove: the first occurrence goes. */
  function RemoveFirst<T(==)>(s: seq<T>, x: T): seq<T> {
    if s == [] then [] else if s[0] == x then s[1..] else [s[0]] + RemoveFirst(s[1..], x)
  }

  lemma {:induction false} RemoveFirstMembers<T>(s: seq<T>, x: T, y: T)
    ensures y in RemoveFirst(s, x) ==> y in s
    ensures y != x && y in s ==> y in RemoveFirst(s, x)
    ensures NoDup(s) && y == x ==> y !in RemoveFirst(s, x)
  {
    if s != [] {
      RemoveFirstMembers(s[1..], x, y);
      assert s == [s[0]] + s[1..];
    }
  }

  lemma {:induction false} RemoveFirstNoDup<T>(s: seq<T>, x: T)
    requires NoDup(s)
    ensures NoDup(RemoveFirst(s, x))
  {
    if s != [] && s[0] != x {
      var rest := RemoveFirst(s[1..], x);
      RemoveFirstNoDup(s[1..], x);
      forall k | 0 <= k < |rest| ensures rest[k] != s[0] {
        RemoveFirstMembers(s[1..], x, rest[k]);
      }
    }
  }

  // ---------- A cluster's job collection ----------

  /** An existing job keeps its instances and interested workers. */
  function InsertJob(db: Jobs, job: Job): Jobs {
    if job.name in db then db[job.name := db[job.name].(addresses := job.addresses)]
    else db[job.name := Job(job.name, job.addresses, [], [], None)]
  }

  function UpsertInstances(db: Jobs, name: string, xs: seq<Instance>): Jobs {
    if name in db then db[name := db[name].(instances := UpsertAll(db[name].instances, xs))] else db
  }

  function Store(db: Jobs, job: Job): Jobs {
    UpsertInstances(InsertJob(db, job), job.name, job.instances)
  }

  /** A job that is not cached yet is inserted without its instances. */
  function UpdateJob(db: Jobs, job: Job): Jobs {
    if job.name == "" then db
    else if job.name in db then UpsertInstances(db, job.name, job.instances)
    else InsertJob(db, job)
  }

  function RemoveInstance(db: Jobs, name: string, number: int): Jobs {
    if number <= -1 then db - {name}
    else if name !in db then db
    else
      var left := Pull(db[name].instances, number);
      if left == [] then db - {name} else db[name := db[name].(instances := left)]
  }

  function Workers(db: Jobs, name: string): seq<string> {
    if name in db then db[name].interested else []
  }

  function AddInterest(db: Jobs, name: string, client: string): Jobs {
    if name in db then db[name := db[name].(interested := AddOnce(db[name].interested, client))] else db
  }

  /** Removing a worker that is not on a non-empty list raises. */
  predicate RemovalRaises(db: Jobs, name: string, client: string) {
    Workers(db, name) != [] && client !in Workers(db, name)
  }

  function DropInterest(db: Jobs, name: string, client: string): Jobs {
    if name in db then db[name := db[name].(interested := RemoveFirst(db[name].interested, client))] else db
  }

  function ReportDeployed(db: Jobs, name: string, status: string, number: int, worker: string, net: NetInfo): Jobs {
    if name in db
    then db[name := db[name].(status := Some(status), instances := Reported(db[name].instances, number, worker, net))]
    else db
  }

  function Relocate(db: Jobs, name: string, number: int, worker: string, ip: string, port: string): Jobs {
    if name in db
    then db[name := db[name].(instances := Relocated(db[name].instances, number, worker, ip, port))]
    else db
  }

  /** Unlike an upsert, this leaves out an unknown number. */
  function UpdateNet(db: Jobs, name: string, x: Instance): Jobs {
    if name in db && FindNumber(db[name].instances, x.number) < |db[name].instances|
    then UpsertInstances(db, name, [x])
    else db
  }

  /** A job with the address among its service or instance addresses. */
  predicate HasAddress(job: Job, ip: string) {
    ip in job.addresses || exists x <- job.instances :: ip in x.addresses
  }

  ghost function FindByIp(db: Jobs, ip: string): (r: Option<string>)
    ensures r.Some? ==> r.value in db
  {
    if name :| name in db && HasAddress(db[name], ip) then Some(name) else None
  }

  // ---------- The root ----------

  /** What the root keeps of a cluster. Interest lists may hold a null name: that of a job it did not find. */
  datatype ClusterRecord = ClusterRecord(id: string, address: string, port: string, interests: seq<Option<string>>)

  datatype Root = Root(jobs: Jobs, records: seq<ClusterRecord>)

  function FindId(records: seq<ClusterRecord>, id: string): (i: nat)
    ensures i <= |records| && (i < |records| ==> records[i].id == id)
    ensures forall j | 0 <= j < i :: records[j].id != id
  {
    if records == [] then 0 else if records[0].id == id then 0 else 1 + FindId(records[1..], id)
  }

  lemma {:induction false} FindIdAt(records: seq<ClusterRecord>, id: string, i: nat)
    requires i <= |records| && (i < |records| ==> records[i].id == id)
    requires forall j | 0 <= j < i :: records[j].id != id
    ensures FindId(records, id) == i
  {
    var k := FindId(records, id);
    assert !(k < i) && !(i < k);
  }

  function FindAddress(records: seq<ClusterRecord>, address: string): (i: nat)
    ensures i <= |records| && (i < |records| ==> records[i].address == address)
    ensures forall j | 0 <= j < i :: records[j].address != address
  {
    if records == [] then 0 else if records[0].address == address then 0 else 1 + FindAddress(records[1..], address)
  }

  /** The root takes a caller for the first cluster that is registered with the caller's address. */
  function TakenFor(records: seq<ClusterRecord>, address: string): Option<string> {
    var i := FindAddress(records, address);
    if i < |records| then Some(records[i].id) else None
  }

  function ListOf(records: seq<ClusterRecord>, id: string): seq<Option<string>> {
    var i := FindId(records, id);
    if i < |records| then records[i].interests else []
  }

  /** The root lists the cluster as interested in the job. */
  predicate Lists(root: Root, cluster: string, name: string) {
    Some(name) in ListOf(root.records, cluster)
  }

  /** A cluster that registers again keeps its place and its interests. */
  function AddCluster(records: seq<ClusterRecord>, id: string, address: string, port: string): seq<ClusterRecord> {
    var i := FindId(records, id);
    if i < |records| then records[i := records[i].(address := address, port := port)]
    else records + [ClusterRecord(id, address, port, [])]
  }

  function WithList(records: seq<ClusterRecord>, id: string, list: seq<Option<string>>): seq<ClusterRecord> {
    var i := FindId(records, id);
    if i < |records| then records[i := records[i].(interests := list)] else records
  }

  function RegisterInterest(root: Root, cluster: string, name: Option<string>): Root {
    root.(records := WithList(root.records, cluster, AddOnce(ListOf(root.records, cluster), name)))
  }

  function RemoveRootInterest(root: Root, cluster: string, name: string): Root {
    root.(records := WithList(root.records, cluster, RemoveFirst(ListOf(root.records, cluster), Some(name))))
  }

  /** A withdrawal carries no identity but the address it comes from. */
  function Deregister(root: Root, peer: string, name: string): Root {
    match TakenFor(root.records, peer)
    case None => root
    case Some(cluster) => RemoveRootInterest(root, cluster, name)
  }

  /** A query from an unknown address is refused; one for an unknown job registers the null name. */
  function TableQuery(root: Root, caller: string, name: Option<string>): (Option<Job>, Root) {
    match TakenFor(root.records, caller)
    case None => (None, root)
    case Some(cluster) =>
      if name.None? || name.value !in root.jobs then (None, RegisterInterest(root, cluster, None))
      else (Some(root.jobs[name.value]), RegisterInterest(root, cluster, Some(root.jobs[name.value].name)))
  }

  /** The clusters that are told about a change of a job. */
  function Notified(root: Root, name: string): set<string> {
    set r | r in root.records && Some(name) in r.interests :: r.id
  }

  // ---------- Both together ----------

  datatype World = World(root: Root, clusters: map<string, Jobs>)

  /**
   `caller` is the address a cluster reports with a query, `peer` the one its
   withdrawal comes from. A notice with a number below -1 is refused; as a
   deployment notice is not about its number, that one is left out here.
   */
  datatype Event =
    | RegisterCluster(cluster: string, address: string, port: string)
    | RestartCluster(cluster: string)
    | QueryByName(cluster: string, caller: string, name: string, client: string)
    | QueryByIp(cluster: string, caller: string, ip: string, client: string)
    | Withdraw(cluster: string, peer: string, name: string, client: string, rootReachable: bool)
    | DeploymentNotice(cluster: string, caller: string, name: string)
    | UndeploymentNotice(cluster: string, name: string, number: int)
    | CreateService(cluster: string, caller: string, name: string)
    | RemoveService(cluster: string, name: string)
    | WorkerReport(cluster: string, name: string, status: string, number: int, worker: string, net: NetInfo)
    | AddressReport(cluster: string, name: string, number: int, worker: string, ip: string, port: string)
    | RootInsertJob(job: Job)
    | RootRemoveJob(name: string)
    | RootUpsertInstance(name: string, instance: Instance)
    | RootNetStatus(name: string, instance: Instance)
    | RootCleanInstance(name: string, number: int)

  function Cached(w: World, cluster: string): Jobs {
    if cluster in w.clusters then w.clusters[cluster] else map[]
  }

  function WithCache(w: World, cluster: string, db: Jobs): World {
    w.(clusters := w.clusters[cluster := db])
  }

  /** A cluster asks the root about a job and stores what it is told. */
  function Fetch(w: World, cluster: string, caller: string, name: Option<string>): World {
    var (job, root) := TableQuery(w.root, caller, name);
    var asked := w.(root := root);
    if job.None? then asked else WithCache(asked, cluster, Store(Cached(w, cluster), job.value))
  }

  /** The same after a deployment notice, with an update for the insertion. */
  function Renew(w: World, cluster: string, caller: string, name: string): World {
    var (job, root) := TableQuery(w.root, caller, Some(name));
    var asked := w.(root := root);
    if job.None? then asked else WithCache(asked, cluster, UpdateJob(Cached(w, cluster), job.value))
  }

  /** The worker is added to the interested ones of a cached job. */
  function Enlist(w: World, cluster: string, name: Option<string>, client: string): World {
    match name
    case None => w
    case Some(n) => WithCache(w, cluster, AddInterest(Cached(w, cluster), n, client))
  }

  /** Resolution at the cluster or else at the root, and then the interest of the worker. */
  function Resolve(w: World, cluster: string, caller: string, local: Option<string>, remote: Option<string>,
                   client: string): World
  {
    if local.Some? then Enlist(w, cluster, local, client)
    else Enlist(Fetch(w, cluster, caller, remote), cluster, remote, client)
  }

  /** With its last interested worker a job is dropped, and the root is told. */
  function Withdrawn(w: World, cluster: string, peer: string, name: string, client: string, rootReachable: bool): World
  {
    if RemovalRaises(Cached(w, cluster), name, client) then w else
    var db := DropInterest(Cached(w, cluster), name, client);
    if Workers(db, name) != [] then WithCache(w, cluster, db)
    else
      var told := if rootReachable then w.(root := Deregister(w.root, peer, name)) else w;
      WithCache(told, cluster, db - {name})
  }

  ghost function Step(w: World, e: Event): World {
    match e
    case RegisterCluster(c, address, port) =>
      w.(root := w.root.(records := AddCluster(w.root.records, c, address, port)))
    case RestartCluster(c) => WithCache(w, c, map[])
    case QueryByName(c, caller, name, client) =>
      Resolve(w, c, caller, if name in Cached(w, c) then Some(name) else None, Some(name), client)
    case QueryByIp(c, caller, ip, client) =>
      Resolve(w, c, caller, FindByIp(Cached(w, c), ip), FindByIp(w.root.jobs, ip), client)
    case Withdraw(c, peer, name, client, rootReachable) => Withdrawn(w, c, peer, name, client, rootReachable)
    case DeploymentNotice(c, caller, name) => Renew(w, c, caller, name)
    case UndeploymentNotice(c, name, number) =>
      if number < -1 then w else WithCache(w, c, RemoveInstance(Cached(w, c), name, number))
    case CreateService(c, caller, name) => Fetch(w, c, caller, Some(name))
    case RemoveService(c, name) => WithCache(w, c, Cached(w, c) - {name})
    case WorkerReport(c, name, status, number, worker, net) =>
      WithCache(w, c, ReportDeployed(Cached(w, c), name, status, number, worker, net))
    case AddressReport(c, name, number, worker, ip, port) =>
      WithCache(w, c, Relocate(Cached(w, c), name, number, worker, ip, port))
    case RootInsertJob(job) => WithRootJobs(w, w.root.jobs[job.name := job.(instances := [], interested := [])])
    case RootRemoveJob(name) => WithRootJobs(w, w.root.jobs - {name})
    case RootUpsertInstance(name, x) => WithRootJobs(w, UpsertInstances(w.root.jobs, name, [x]))
    case RootNetStatus(name, x) => WithRootJobs(w, UpdateNet(w.root.jobs, name, x))
    case RootCleanInstance(name, number) => WithRootJobs(w, CleanInstance(w.root.jobs, name, number))
  }

  function WithRootJobs(w: World, jobs: Jobs): World {
    w.(root := w.root.(jobs := jobs))
  }

  /** Number -1 clears the list. */
  function CleanInstance(db: Jobs, name: string, number: int): Jobs {
    if name !in db then db else
    var left := if number == -1 then [] else Pull(db[name].instances, number);
    db[name := db[name].(instances := left)]
  }
}
