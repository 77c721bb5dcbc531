/**
 The addresses of jobs and their instances over deployments that mix chosen
 round-robin addresses with allocated ones. Production code gives no service
 address back, and the allocator's own lookup finds nothing.
 */
module ServiceAddresses {
  import opened Wrappers
  import opened RootAddresses
  import opened RootPools

  /** `jobs` has the service address of each job, `instances` pairs of a job and the address of an instance. */
  datatype Book = Book(pool: Pool, jobs: map<string, Addr>, instances: set<(string, Addr)>)

  /**
   A chosen address has the form the code asks for; others raise and change
   nothing. An instance whose number is known, or whose job is not, gets an
   address that is not stored.
   */
  datatype Event =
    | Deploy(job: string, chosen: Option<Addr>)
    | DeployInstance(job: string, known: bool)
    | UndeployInstance(job: string, address: Addr)
    | Remove(job: string)

  predicate Owns(b: Book, job: string, a: Addr) {
    (job in b.jobs && b.jobs[job] == a) || (job, a) in b.instances
  }

  /** The job that the lookup by address finds; service addresses come before instance addresses. */
  ghost function FindByIp(b: Book, a: Addr): (r: Option<string>)
    ensures r.Some? ==> Owns(b, r.value, a)
    ensures r.None? ==> forall job :: !Owns(b, job, a)
  {
    if job :| job in b.jobs && b.jobs[job] == a then Some(job)
    else if pair :| pair in b.instances && pair.1 == a then
      assert pair == (pair.0, a);
      Some(pair.0)
    else None
  }

  /** A job that is deployed starts without instances. */
  function WithService(b: Book, job: string, a: Addr): Book {
    b.(jobs := b.jobs[job := a], instances := set pair | pair in b.instances && pair.0 != job)
  }

  /** The allocation that a deployment or a new instance makes. */
  function NewAddress(b: Book): (r: (Result<Addr>, Book))
    requires WellFormed(b.pool)
    ensures WellFormed(r.1.pool) && r.1.pool.kind == b.pool.kind
  {
    var (r, pool) := Allocate(b.pool, {});
    (r, b.(pool := pool))
  }

  /** A chosen address is refused if another job is found with it. */
  ghost function Step(b: Book, e: Event): (b': Book)
    requires WellFormed(b.pool)
    ensures WellFormed(b'.pool) && b'.pool.kind == b.pool.kind
  {
    match e
    case Deploy(job, Some(a)) =>
      var found := FindByIp(b, a);
      if found.Some? && found.value != job then b else WithService(b, job, a)
    case Deploy(job, None) =>
      var (a, b') := NewAddress(b);
      if a.Raise? then b' else WithService(b', job, a.value)
    case DeployInstance(job, known) =>
      var (a, b') := NewAddress(b);
      if a.Raise? || known || job !in b.jobs then b' else b'.(instances := b'.instances + {(job, a.value)})
    case UndeployInstance(job, a) => b.(instances := b.instances - {(job, a)})
    case Remove(job) =>
      if exists pair <- b.instances :: pair.0 == job then b else b.(jobs := b.jobs - {job})
  }

  // ---------- Separate jobs ----------

  /** No two jobs share an address. */
  ghost predicate Separate(b: Book) {
    forall m, n, a | Owns(b, m, a) && Owns(b, n, a) :: m == n
  }

  /** The address that the next allocation gives out. */
  function NextAddress(p: Pool): Addr {
    if p.free != [] then p.free[0] else p.next
  }

  lemma NewAddressIsNext(b: Book)
    requires WellFormed(b.pool)
    ensures NewAddress(b).0.Ok? ==> NewAddress(b).0.value == NextAddress(b.pool)
    ensures NewAddress(b).0.Ok? <==> b.pool.free != [] || Rank(b.pool.kind, b.pool.next) < Size(b.pool.kind) - 1
  {
    IncreaseAddsOne(b.pool.kind, b.pool.next);
    RankBound(b.pool.kind, b.pool.next);
  }

  /** Another job has the address. */
  ghost predicate Foreign(b: Book, job: string, a: Addr) {
    exists other :: other != job && Owns(b, other, a)
  }

  /** The pool is not exhausted. */
  predicate HasNext(p: Pool)
    requires WellFormed(p)
  {
    p.free != [] || Rank(p.kind, p.next) < Size(p.kind) - 1
  }

  /** What has to hold before a step: the next address must not be another job's. */
  ghost predicate Safe(b: Book, e: Event)
    requires WellFormed(b.pool)
  {
    match e
    case Deploy(job, None) => HasNext(b.pool) ==> !Foreign(b, job, NextAddress(b.pool))
    case DeployInstance(job, known) =>
      HasNext(b.pool) && !known && job in b.jobs ==> !Foreign(b, job, NextAddress(b.pool))
    case _ => true
  }

  /** What a job owns once it has a new service address. */
  lemma ServiceOwners(b: Book, job: string, a: Addr)
    ensures forall n, x :: Owns(WithService(b, job, a), n, x) <==> if n == job then x == a else Owns(b, n, x)
  {
  }

  lemma ServiceExactly(b: Book, job: string, a: Addr)
    requires Separate(b)
    ensures Separate(WithService(b, job, a)) <==> !Foreign(b, job, a)
  {
    ServiceOwners(b, job, a);
    assert Owns(WithService(b, job, a), job, a);
    if other :| other != job && Owns(b, other, a) {
      assert Owns(WithService(b, job, a), other, a);
    }
  }

  lemma InstanceExactly(b: Book, job: string, a: Addr)
    requires Separate(b)
    ensures Separate(b.(instances := b.instances + {(job, a)})) <==> !Foreign(b, job, a)
  {
    var b' := b.(instances := b.instances + {(job, a)});
    assert forall n, x :: Owns(b', n, x) <==> Owns(b, n, x) || (n == job && x == a);
    assert Owns(b', job, a);
    if other :| other != job && Owns(b, other, a) {
      assert Owns(b', other, a);
    }
  }

  /** Addresses that are owned before a step that only takes some away. */
  lemma FewerStaySeparate(b: Book, b': Book)
    requires Separate(b) && forall n, a :: Owns(b', n, a) ==> Owns(b, n, a)
    ensures Separate(b')
  {
  }

  lemma ChosenStaysSeparate(b: Book, job: string, a: Addr)
    requires WellFormed(b.pool) && Separate(b)
    ensures Separate(Step(b, Deploy(job, Some(a))))
  {
    var found := FindByIp(b, a);
    if found.None? || found.value == job {
      ServiceExactly(b, job, a);
    }
  }

  /** A step keeps jobs separate if and only if it does not issue an address that another job has. */
  lemma StepSeparateExactly(b: Book, e: Event)
    requires WellFormed(b.pool) && Separate(b)
    ensures Separate(Step(b, e)) <==> Safe(b, e)
  {
    NewAddressIsNext(b);
    var (r, b') := NewAddress(b);
    match e
    case Deploy(job, Some(a)) => ChosenStaysSeparate(b, job, a);
    case Deploy(job, None) =>
      SameOwners(b, b', job, NextAddress(b.pool));
      if r.Ok? { ServiceExactly(b', job, r.value); }
    case DeployInstance(job, known) =>
      SameOwners(b, b', job, NextAddress(b.pool));
      if r.Ok? { InstanceExactly(b', job, r.value); }
    case UndeployInstance(job, a) => FewerStaySeparate(b, Step(b, e));
    case Remove(job) => FewerStaySeparate(b, Step(b, e));
  }

  /** The pool owns nothing. */
  lemma SameOwners(b: Book, b': Book, job: string, a: Addr)
    requires b' == b.(pool := b'.pool)
    ensures Separate(b) <==> Separate(b')
    ensures Foreign(b, job, a) <==> Foreign(b', job, a)
  {
    assert forall n, x :: Owns(b, n, x) <==> Owns(b', n, x);
  }

  // ---------- What each step does ----------

  /** A chosen address takes effect if and only if no other job has it; then the job starts without instances. */
  lemma ChosenExactly(b: Book, job: string, a: Addr)
    requires WellFormed(b.pool) && Separate(b)
    ensures var b' := Step(b, Deploy(job, Some(a)));
            && b'.pool == b.pool
            && if exists other | other != job :: (other in b.jobs && b.jobs[other] == a) || (other, a) in b.instances
               then b' == b
               else
                 && b'.jobs == b.jobs[job := a]
                 && forall pair :: pair in b'.instances <==> pair in b.instances && pair.0 != job
  {
    var found := FindByIp(b, a);
    if found.Some? && found.value != job {
      assert Owns(b, found.value, a);
    } else {
      forall other | other != job ensures !(other in b.jobs && b.jobs[other] == a) && (other, a) !in b.instances {
        assert !Owns(b, other, a) by { assert found.Some? ==> Owns(b, job, a); }
      }
    }
  }

  /** Without a choice the job gets the next address of the pool; an exhausted pool leaves it as it was. */
  lemma AllocatedExactly(b: Book, job: string)
    requires WellFormed(b.pool)
    ensures var b', (r, pool) := Step(b, Deploy(job, None)), Allocate(b.pool, {});
            && b'.pool == pool
            && (r.Raise? ==> b'.jobs == b.jobs && b'.instances == b.instances)
            && (r.Ok? ==>
                  && b'.jobs == b.jobs[job := r.value]
                  && forall pair :: pair in b'.instances <==> pair in b.instances && pair.0 != job)
  {
  }

  /** An instance uses up an address in every case; it is stored for a new number of a known job. */
  lemma InstanceStoredExactly(b: Book, job: string, known: bool)
    requires WellFormed(b.pool)
    ensures var b', (r, pool) := Step(b, DeployInstance(job, known)), Allocate(b.pool, {});
            && b'.pool == pool && b'.jobs == b.jobs
            && forall pair :: pair in b'.instances <==>
                 pair in b.instances || (r == Ok(pair.1) && pair.0 == job && !known && job in b.jobs)
  {
  }

  /** No address comes back: a job goes only without instances, an instance only from its job. */
  lemma RemovalsExactly(b: Book, job: string, a: Addr)
    requires WellFormed(b.pool)
    ensures var b' := Step(b, UndeployInstance(job, a));
            && b'.pool == b.pool && b'.jobs == b.jobs
            && forall pair :: pair in b'.instances <==> pair in b.instances && pair != (job, a)
    ensures var b' := Step(b, Remove(job));
            && b'.pool == b.pool && b'.instances == b.instances
            && (forall other | other != job :: other in b'.jobs <==> other in b.jobs)
            && (forall other | other in b'.jobs :: b'.jobs[other] == b.jobs[other])
            && (job in b'.jobs <==> job in b.jobs && exists x :: (job, x) in b.instances)
  {
    if pair :| pair in b.instances && pair.0 == job {
      assert pair == (job, pair.1);
    }
  }

  // ---------- Runs ----------

  ghost function Run(k: Kind, events: seq<Event>): (b: Book)
    ensures WellFormed(b.pool) && b.pool.kind == k
    decreases |events|
  {
    if events == [] then
      BaseIsFirst(k);
      Book(Pool(k, Base(k), []), map[], {})
    else
      Step(Run(k, events[..|events| - 1]), events[|events| - 1])
  }

  ghost predicate SeparateThroughout(k: Kind, events: seq<Event>)
    decreases |events|
  {
    Separate(Run(k, events)) && (events == [] || SeparateThroughout(k, events[..|events| - 1]))
  }

  ghost predicate SafeThroughout(k: Kind, events: seq<Event>)
    decreases |events|
  {
    if events == [] then true else
    var front := events[..|events| - 1];
    SafeThroughout(k, front) && Safe(Run(k, front), events[|events| - 1])
  }

  /** In every run, jobs are separate all the way if and only if no allocation comes upon another job's address. */
  lemma {:induction false} JobsSeparateExactly(k: Kind, events: seq<Event>)
    ensures SeparateThroughout(k, events) <==> SafeThroughout(k, events)
    decreases |events|
  {
    if events != [] {
      var front := events[..|events| - 1];
      JobsSeparateExactly(k, front);
      if SeparateThroughout(k, front) {
        assert Separate(Run(k, front));
        StepSeparateExactly(Run(k, front), events[|events| - 1]);
      }
    }
  }

  // ---------- Which choices are safe ----------

  /** No allocation can come upon the address any more. */
  ghost predicate Behind(p: Pool, a: Addr)
    requires WellFormed(p)
  {
    p.free == [] && (InPool(p.kind, a) ==> Below(p.kind, a, p.next))
  }

  ghost predicate AllBehind(b: Book)
    requires WellFormed(b.pool)
  {
    b.pool.free == [] && forall n, a | Owns(b, n, a) :: Behind(b.pool, a)
  }

  /** Every chosen address lies outside the pool or behind the frontier when it is chosen. */
  ghost predicate ChosenBehind(k: Kind, events: seq<Event>)
    decreases |events|
  {
    if events == [] then true else
    var front, e := events[..|events| - 1], events[|events| - 1];
    ChosenBehind(k, front) && (e.Deploy? && e.chosen.Some? ==> Behind(Run(k, front).pool, e.chosen.value))
  }

  /** The frontier moves past the address it gives out, and behind stays behind. */
  lemma AllocationMovesOn(b: Book, a: Addr)
    requires WellFormed(b.pool) && b.pool.free == []
    ensures var (r, b') := NewAddress(b);
            && b'.pool.free == [] && b' == b.(pool := b'.pool)
            && (r.Ok? ==> Behind(b'.pool, r.value))
            && (Behind(b.pool, a) ==> Behind(b'.pool, a))
  {
    if Increase(b.pool.kind, b.pool.next).Ok? {
      BelowSuccessor(b.pool.kind, b.pool.next);
    }
  }

  lemma StepAllBehind(b: Book, e: Event)
    requires WellFormed(b.pool) && AllBehind(b)
    requires e.Deploy? && e.chosen.Some? ==> Behind(b.pool, e.chosen.value)
    ensures AllBehind(Step(b, e)) && Safe(b, e)
  {
    var b', r := Step(b, e), NewAddress(b).0;
    NewAddressIsNext(b);
    AllocationMovesOn(b, b.pool.next);
    forall n, a | Owns(b', n, a) ensures Behind(b'.pool, a) {
      AllocationMovesOn(b, a);
      assert Owns(b, n, a) || (e.Deploy? && e.chosen == Some(a)) || r == Ok(a);
    }
    assert !Behind(b.pool, b.pool.next);
  }

  /** Then no two jobs ever share an address. */
  lemma {:induction false} ChosenBehindIsSeparate(k: Kind, events: seq<Event>)
    requires ChosenBehind(k, events)
    ensures AllBehind(Run(k, events)) && SafeThroughout(k, events) && SeparateThroughout(k, events)
    decreases |events|
  {
    if events != [] {
      var front := events[..|events| - 1];
      ChosenBehindIsSeparate(k, front);
      StepAllBehind(Run(k, front), events[|events| - 1]);
    }
    JobsSeparateExactly(k, events);
  }

  /** Otherwise they can: a job chooses the first address of a new pool, the next one is given it. */
  lemma ChosenThenIssued(m: string, n: string)
    requires m != n
    ensures !Separate(Run(Service4, [Deploy(m, Some([10, 30, 0, 0])), Deploy(n, None)]))
  {
    var a: Addr := [10, 30, 0, 0];
    var first, second := Deploy(m, Some(a)), Deploy(n, None);
    assert [first, second][..1] == [first] && [first][..0] == [];
    var new_ := Run(Service4, []);
    assert forall job :: !Owns(new_, job, a);
    var b := Run(Service4, [first]);
    assert b == WithService(new_, m, a) && Owns(b, m, a);
    assert NextAddress(b.pool) == a && Foreign(b, n, a);
    ChosenStaysSeparate(new_, m, a);
    StepSeparateExactly(b, second);
  }
}
