/** The job collection of a cluster and the interest lists of the root, changed in place. */
module ClusterManager {
  import opened Wrappers
  import opened ClusterSpec

  class RootStore {
    var jobs: Jobs
    var clusters: seq<ClusterRecord>

    function View(): Root
      reads this
    {
      Root(jobs, clusters)
    }

    // ---------- Cluster records ----------

    method MongoClusterAdd(id: string, address: string, port: string)
      modifies this`clusters
      ensures clusters == AddCluster(old(clusters), id, address, port)
    {
      var i := FindCluster(id);
      if i < |clusters| {
        clusters := clusters[i := clusters[i].(address := address, port := port)];
      } else {
        clusters := clusters + [ClusterRecord(id, address, port, [])];
      }
    }

    method FindCluster(id: string) returns (i: nat)
      ensures i == FindId(clusters, id)
    {
      i := 0;
      while i < |clusters| && clusters[i].id != id
        invariant i <= |clusters|
        invariant forall j | 0 <= j < i :: clusters[j].id != id
      {
        i := i + 1;
      }
      FindIdAt(clusters, id, i);
    }

    method MongoGetClusterByIp(address: string) returns (id: Option<string>)
      ensures id == TakenFor(clusters, address)
    {
      var i := 0;
      while i < |clusters|
        invariant 0 <= i <= |clusters|
        invariant forall j | 0 <= j < i :: clusters[j].address != address
      {
        if clusters[i].address == address {
          assert FindAddress(clusters, address) == i;
          return Some(clusters[i].id);
        }
        i := i + 1;
      }
      id := None;
    }

    // ---------- Interests ----------

    /** Needs a recorded cluster, as the code does. */
    method RegisterClusterJobInterest(cluster: string, name: Option<string>)
      requires FindId(clusters, cluster) < |clusters|
      modifies this`clusters
      ensures View() == RegisterInterest(old(View()), cluster, name)
    {
      var i := FindCluster(cluster);
      var list := clusters[i].interests;
      if name in list {
        assert clusters == clusters[i := clusters[i].(interests := list)];
        return;
      }
      list := list + [name];
      clusters := clusters[i := clusters[i].(interests := list)];
    }

    method RemoveClusterJobInterest(cluster: string, name: string)
      requires FindId(clusters, cluster) < |clusters|
      modifies this`clusters
      ensures View() == RemoveRootInterest(old(View()), cluster, name)
    {
      var i := FindCluster(cluster);
      var list := clusters[i].interests;
      if Some(name) in list {
        list := RemoveFirst(list, Some(name));
        clusters := clusters[i := clusters[i].(interests := list)];
      } else {
        AbsentStays(list, Some(name));
        assert clusters == clusters[i := clusters[i].(interests := list)];
      }
    }

    /** deregister_interest; an unknown peer gets a 404. */
    method DeregisterInterest(peer: string, name: string) returns (status: int)
      modifies this`clusters
      ensures View() == Deregister(old(View()), peer, name)
      ensures status == if TakenFor(old(clusters), peer).Some? then 200 else 404
    {
      var cluster := MongoGetClusterByIp(peer);
      if cluster.None? {
        return 404;
      }
      RemoveClusterJobInterest(cluster.value, name);
      status := 200;
    }

    /** get_service_instances. */
    method GetServiceInstances(caller: string, name: Option<string>) returns (job: Option<Job>)
      modifies this`clusters
      ensures (job, View()) == TableQuery(old(View()), caller, name)
    {
      var cluster := MongoGetClusterByIp(caller);
      if cluster.None? {
        return None;
      }
      if name.Some? && name.value in jobs {
        job := Some(jobs[name.value]);
        RegisterClusterJobInterest(cluster.value, Some(job.value.name));
      } else {
        job := None;
        RegisterClusterJobInterest(cluster.value, None);
      }
    }
  }

  lemma {:induction false} AbsentStays<T>(s: seq<T>, x: T)
    requires x !in s
    ensures RemoveFirst(s, x) == s
  {
    if s != [] {
      AbsentStays(s[1..], x);
    }
  }

  /** Upserting the first instance and then the rest is upserting them all. */
  lemma UpsertInTurn(db: Jobs, name: string, xs: seq<Instance>)
    requires xs != []
    ensures UpsertInstances(UpsertInstances(db, name, [xs[0]]), name, xs[1..]) == UpsertInstances(db, name, xs)
  {
    if name in db {
      var list := db[name].instances;
      assert [xs[0]][1..] == [] && UpsertAll(list, [xs[0]]) == UpsertAll(Upsert(list, xs[0]), []);
      assert UpsertInstances(db, name, [xs[0]])[name].instances == Upsert(list, xs[0]);
    }
  }

  class ClusterStore {
    /** The address that the cluster reports to the root. */
    const address: string
    const root: RootStore
    var jobs: Jobs

    constructor (address: string, root: RootStore)
      ensures this.address == address && this.root == root && jobs == map[]
    {
      this.address, this.root, jobs := address, root, map[];
    }

    // ---------- Jobs and instances ----------

    method MongoInsertJob(job: Job)
      modifies this
      ensures jobs == InsertJob(old(jobs), job)
    {
      if job.name in jobs {
        jobs := jobs[job.name := jobs[job.name].(addresses := job.addresses)];
      } else {
        jobs := jobs[job.name := Job(job.name, job.addresses, [], [], None)];
      }
    }

    method MongoUpdateJobInstance(name: string, x: Instance)
      modifies this
      ensures jobs == UpsertInstances(old(jobs), name, [x])
    {
      if name in jobs {
        var list := jobs[name].instances;
        assert [x][1..] == [] && UpsertAll(list, [x]) == UpsertAll(Upsert(list, x), []);
        var i := FindNumber(list, x.number);
        if i < |list| {
          list := list[i := list[i].(net := x.net)];
        } else {
          list := list + [x];
        }
        jobs := jobs[name := jobs[name].(instances := list)];
      }
    }

    method UpdateInstances(name: string, xs: seq<Instance>)
      modifies this
      ensures jobs == UpsertInstances(old(jobs), name, xs)
    {
      var i := 0;
      while i < |xs|
        invariant 0 <= i <= |xs|
        invariant name in jobs <==> name in old(jobs)
        invariant UpsertInstances(jobs, name, xs[i..]) == UpsertInstances(old(jobs), name, xs)
      {
        ghost var before := jobs;
        MongoUpdateJobInstance(name, xs[i]);
        assert xs[i..][1..] == xs[i + 1..];
        UpsertInTurn(before, name, xs[i..]);
        i := i + 1;
      }
      if name in jobs {
        assert jobs == jobs[name := jobs[name].(instances := jobs[name].instances)];
      }
    }

    method MongoUpdateJob(job: Job)
      modifies this
      ensures jobs == UpdateJob(old(jobs), job)
    {
      if job.name == "" {
        return;
      }
      if job.name in jobs {
        UpdateInstances(job.name, job.instances);
      } else {
        MongoInsertJob(job);
      }
    }

    method MongoRemoveJobInstance(name: string, number: int)
      modifies this
      ensures jobs == RemoveInstance(old(jobs), name, number)
    {
      var delete := false;
      if number > -1 {
        if name in jobs {
          jobs := jobs[name := jobs[name].(instances := Pull(jobs[name].instances, number))];
          if |jobs[name].instances| < 1 {
            delete := true;
          }
        }
      } else {
        delete := true;
      }
      if delete {
        jobs := jobs - {name};
      }
    }

    method MongoUpdateJobDeployed(name: string, status: string, number: int, worker: string, net: NetInfo)
      returns (job: Option<Job>)
      modifies this
      ensures jobs == ReportDeployed(old(jobs), name, status, number, worker, net)
      ensures job == if name in old(jobs) then Some(jobs[name]) else None
    {
      if name !in jobs {
        return None;
      }
      var list := jobs[name].instances;
      var i := 0;
      while i < |list|
        invariant 0 <= i <= |list| && list == jobs[name].instances
        invariant forall j | 0 <= j < i :: list[j].number != number
      {
        if list[i].number == number {
          assert FindNumber(list, number) == i;
          list := list[i := list[i].(worker := worker, net := net)];
          break;
        }
        i := i + 1;
      }
      jobs := jobs[name := jobs[name].(status := Some(status), instances := list)];
      job := Some(jobs[name]);
    }

    method MongoUpdateJobAddress(name: string, number: int, worker: string, ip: string, port: string)
      returns (job: Option<Job>)
      modifies this
      ensures jobs == Relocate(old(jobs), name, number, worker, ip, port)
      ensures job == if Find(old(Instances(name)), number).Some? then Some(jobs[name]) else None
    {
      if name !in jobs {
        return None;
      }
      var list := jobs[name].instances;
      var i := FindNumber(list, number);
      if i == |list| {
        assert jobs == jobs[name := jobs[name].(instances := list)];
        return None;
      }
      list := list[i := list[i].(worker := worker, net := list[i].net.(hostIp := ip, hostPort := port))];
      jobs := jobs[name := jobs[name].(instances := list)];
      job := Some(jobs[name]);
    }

    function Instances(name: string): seq<Instance>
      reads this
    {
      if name in jobs then jobs[name].instances else []
    }

    // ---------- Resolution ----------

    /** The miss path: ask the root, insert the job, upsert its instances one by one. */
    method FetchFromRoot(name: Option<string>) returns (job: Option<Job>)
      modifies this, root`clusters
      ensures (job, root.View()) == TableQuery(old(root.View()), address, name)
      ensures jobs == if job.Some? then Store(old(jobs), job.value) else old(jobs)
    {
      job := root.GetServiceInstances(address, name);
      if job.Some? {
        MongoInsertJob(job.value);
        UpdateInstances(job.value.name, job.value.instances);
      }
    }

    /** The job's instances and service addresses. */
    method ServiceResolution(name: string) returns (resolved: Option<(seq<Instance>, set<string>)>)
      modifies this, root`clusters
      ensures name in old(jobs) ==>
                && jobs == old(jobs) && root.View() == old(root.View())
                && resolved == Some((old(jobs)[name].instances, old(jobs)[name].addresses))
      ensures name !in old(jobs) ==>
                var (job, r) := TableQuery(old(root.View()), address, Some(name));
                && root.View() == r
                && jobs == (if job.Some? then Store(old(jobs), job.value) else old(jobs))
                && resolved == (if job.Some? then Some((job.value.instances, job.value.addresses)) else None)
    {
      if name in jobs {
        return Some((jobs[name].instances, jobs[name].addresses));
      }
      var job := FetchFromRoot(Some(name));
      resolved := if job.Some? then Some((job.value.instances, job.value.addresses)) else None;
    }

    // ---------- Interests ----------

    method AddInterestOf(name: string, client: string)
      modifies this
      ensures jobs == AddInterest(old(jobs), name, client)
    {
      if client !in Workers(jobs, name) {
        var interested := Workers(jobs, name) + [client];
        if name in jobs {
          jobs := jobs[name := jobs[name].(interested := interested)];
        }
      }
    }

    /** remove_interest; it raises before any change. The root sees the peer address of the request only. */
    method RemoveInterestOf(name: string, client: string, peer: string, rootReachable: bool) returns (raised: bool)
      modifies this, root`clusters
      ensures raised <==> name in old(jobs) && old(jobs)[name].interested != []
                          && client !in old(jobs)[name].interested
      ensures raised ==> jobs == old(jobs) && root.View() == old(root.View())
      ensures !raised ==>
                var db := DropInterest(old(jobs), name, client);
                if Workers(db, name) != [] then jobs == db && root.View() == old(root.View())
                else
                  && jobs == db - {name}
                  && root.View() == if rootReachable then Deregister(old(root.View()), peer, name) else old(root.View())
    {
      var interested := Workers(jobs, name);
      if |interested| > 0 {
        if client !in interested {
          return true;
        }
        jobs := jobs[name := jobs[name].(interested := RemoveFirst(interested, client))];
      } else if name in jobs {
        assert DropInterest(jobs, name, client) == jobs;
      }
      if |Workers(jobs, name)| == 0 {
        if rootReachable {
          var _ := root.DeregisterInterest(peer, name);
        }
        jobs := jobs - {name};
      }
      raised := false;
    }
  }
}
