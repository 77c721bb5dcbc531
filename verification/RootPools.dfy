/**
 Allocation and release at the root: a frontier that only moves up, and a
 first-in first-out cache of released addresses.
 */
module RootPools {
  import opened Wrappers
  import opened Bytes
  import opened RootAddresses

  datatype Pool = Pool(kind: Kind, next: Addr, free: seq<Addr>)

  ghost predicate WellFormed(p: Pool)
  {
    InPool(p.kind, p.next) && forall a <- p.free :: InPool(p.kind, a)
  }

  /** Subnet allocation takes the frontier as it is; the others look every address up. */
  predicate LooksUp(k: Kind) {
    !k.Subnet4? && !k.Subnet6?
  }

  // ---------- Allocation ----------

  /** Walk the frontier past the addresses that jobs already use. */
  function Scan(k: Kind, next: Addr, used: set<Addr>): (r: (Result<Addr>, Addr))
    requires InPool(k, next)
    ensures InPool(k, r.1) && Rank(k, next) <= Rank(k, r.1)
    decreases Size(k) - Rank(k, next)
  {
    IncreaseAddsOne(k, next);
    RankBound(k, next);
    match Increase(k, next)
    case Raise(e) => (Raise(e), next)
    case Ok(after) => if next in used then Scan(k, after, used) else (Ok(next), after)
  }

  function Allocate(p: Pool, used: set<Addr>): (r: (Result<Addr>, Pool))
    requires WellFormed(p)
    ensures WellFormed(r.1) && r.1.kind == p.kind
  {
    if p.free != [] then
      (Ok(p.free[0]), p.(free := p.free[1..]))
    else
      var (r, next) := Scan(p.kind, p.next, if LooksUp(p.kind) then used else {});
      (r, p.(next := next))
  }

  /** Addresses that the frontier has passed. */
  ghost predicate Below(k: Kind, a: Addr, next: Addr)
    requires InPool(k, next)
  {
    InPool(k, a) && Rank(k, a) < Rank(k, next)
  }

  /** The frontier passes exactly one address in a step. */
  lemma BelowSuccessor(k: Kind, next: Addr)
    requires InPool(k, next) && Increase(k, next).Ok?
    ensures var after := Increase(k, next).value;
            InPool(k, after) && forall a :: Below(k, a, after) <==> Below(k, a, next) || a == next
  {
    IncreaseAddsOne(k, next);
    var after := Increase(k, next).value;
    forall a ensures Below(k, a, after) <==> Below(k, a, next) || a == next {
      if Below(k, a, after) && !Below(k, a, next) {
        RankInjective(k, a, next);
      }
    }
  }

  /**
   The allocation loop returns the least address at or above the frontier that
   is not in use and leaves the frontier just past it. It raises exactly when
   every address below the pool's last one is in use, with the frontier there.
   */
  lemma {:induction false} ScanTakesLeastUnused(k: Kind, next: Addr, used: set<Addr>)
    requires InPool(k, next)
    ensures var (r, after) := Scan(k, next, used);
            && (forall a | Below(k, a, next) :: Below(k, a, after))
            && (forall a | Below(k, a, after) && !Below(k, a, next) && r != Ok(a) :: a in used)
            && (r.Ok? ==>
                  && r.value !in used && Below(k, r.value, after) && !Below(k, r.value, next)
                  && Rank(k, after) == Rank(k, r.value) + 1)
            && (r.Raise? ==> r.error == ExhaustedAddressSpace && Rank(k, after) == Size(k) - 1)
    decreases Size(k) - Rank(k, next)
  {
    IncreaseAddsOne(k, next);
    RankBound(k, next);
    if Increase(k, next).Ok? {
      BelowSuccessor(k, next);
      if next in used {
        ScanTakesLeastUnused(k, Increase(k, next).value, used);
      }
    }
  }

  /** The allocator raises if and only if nothing below the last address is left to issue. */
  lemma ScanRaisesExactlyWhenExhausted(k: Kind, next: Addr, used: set<Addr>)
    requires InPool(k, next)
    ensures Scan(k, next, used).0.Raise? <==>
            forall a | InPool(k, a) && Rank(k, next) <= Rank(k, a) < Size(k) - 1 :: a in used
  {
    ScanTakesLeastUnused(k, next, used);
    var (r, after) := Scan(k, next, used);
    RankBound(k, after);
    forall a | InPool(k, a) && Rank(k, next) <= Rank(k, a) && r.Raise? && Rank(k, a) < Size(k) - 1
      ensures a in used
    {
      assert Below(k, a, after) && !Below(k, a, next);
    }
  }

  /** x allocations in a row, up to the first that raises. */
  function AllocateMany(p: Pool, used: set<Addr>, x: nat): (r: (seq<Addr>, Pool))
    requires WellFormed(p)
    ensures WellFormed(r.1) && r.1.kind == p.kind && |r.0| <= x
    decreases x
  {
    if x == 0 then
      ([], p)
    else
      var (r, p') := Allocate(p, used);
      if r.Raise? then ([], p') else
      var (rest, p'') := AllocateMany(p', used, x - 1);
      ([r.value] + rest, p'')
  }

  /** A released address is issued before any other, the oldest release first. */
  lemma {:induction false} ReleasedComeFirst(p: Pool, used: set<Addr>)
    requires WellFormed(p)
    ensures AllocateMany(p, used, |p.free|) == (p.free, Pool(p.kind, p.next, []))
    decreases |p.free|
  {
    if p.free != [] {
      ReleasedComeFirst(Allocate(p, used).1, used);
      assert p.free == [p.free[0]] + p.free[1..];
    }
  }

  /**
   With no released address, a service or round-robin pool issues the least
   address at or above the frontier that is not in use; a worker subnet pool
   issues the frontier itself, whatever is in use.
   */
  lemma FrontierAllocation(p: Pool, used: set<Addr>)
    requires WellFormed(p) && p.free == []
    ensures var (r, p') := Allocate(p, used);
            var avoided := if p.kind == Subnet4 || p.kind == Subnet6 then {} else used;
            && p'.free == []
            && (r.Ok? ==>
                  && InPool(p.kind, r.value) && r.value !in avoided
                  && Rank(p.kind, p.next) <= Rank(p.kind, r.value) == Rank(p.kind, p'.next) - 1
                  && forall a | InPool(p.kind, a) && Rank(p.kind, p.next) <= Rank(p.kind, a) < Rank(p.kind, r.value) ::
                       a in avoided)
  {
    var avoided := if p.kind == Subnet4 || p.kind == Subnet6 then {} else used;
    ScanTakesLeastUnused(p.kind, p.next, avoided);
    var (r, after) := Scan(p.kind, p.next, avoided);
    forall a | r.Ok? && InPool(p.kind, a) && Rank(p.kind, p.next) <= Rank(p.kind, a) < Rank(p.kind, r.value)
      ensures a in avoided
    {
      assert Below(p.kind, a, after) && !Below(p.kind, a, p.next);
    }
  }

  /** It raises exactly when no such address is left below the pool's last one, and stops there. */
  lemma FrontierRaises(p: Pool, used: set<Addr>)
    requires WellFormed(p) && p.free == []
    ensures var (r, p') := Allocate(p, used);
            var avoided := if p.kind == Subnet4 || p.kind == Subnet6 then {} else used;
            && (r.Raise? ==> r.error == ExhaustedAddressSpace && Rank(p.kind, p'.next) == Size(p.kind) - 1)
            && (r.Raise? <==>
                  forall a | InPool(p.kind, a) && Rank(p.kind, p.next) <= Rank(p.kind, a) < Size(p.kind) - 1 ::
                    a in avoided)
  {
    var avoided := if p.kind == Subnet4 || p.kind == Subnet6 then {} else used;
    ScanTakesLeastUnused(p.kind, p.next, avoided);
    ScanRaisesExactlyWhenExhausted(p.kind, p.next, avoided);
  }

  // ---------- Release ----------

  function TenPow(n: int): int {
    if n < 10 then 10 else if n < 100 then 100 else 1000
  }

  /** The number read off the decimal texts of the bytes, written one after the other. */
  function DecimalConcat(s: seq<int>): int {
    if s == [] then 0 else DecimalConcat(s[..|s| - 1]) * TenPow(s[|s| - 1]) + s[|s| - 1]
  }

  /** The bytes that the order assertion of a release reads. */
  function OrderBytes(k: Kind, addr: Addr): seq<int>
    requires |addr| == Width(k)
  {
    match k
    case Service4 => addr[2..]
    case Service6 => addr[6..]
    case RoundRobin6 => addr[6..]
    case Subnet4 => addr[1..]
    case Subnet6 => addr[..15]
  }

  /** The order assertion: the address must be before the frontier. */
  predicate OrderAccepts(k: Kind, addr: Addr, next: Addr)
    requires |addr| == |next| == Width(k)
  {
    DecimalConcat(OrderBytes(k, addr)) < DecimalConcat(OrderBytes(k, next))
  }

  /** The range assertions of a release and the store's assertions. */
  predicate RangeAccepts(k: Kind, addr: Addr)
    requires |addr| == Width(k)
  {
    match k
    case Service4 =>
      addr[1] == 30 && 0 <= addr[2] < 256 && 0 <= addr[3] < 256 && (forall n <- addr :: 0 <= n < 254)
    case Service6 => addr[0] == 253 && addr[1] == 255 && (addr[2] == 0 || addr[2] == 8) && AreBytes(addr)
    case RoundRobin6 => false // the root has no operation that releases these
    case Subnet4 => 17 < addr[1] < 30 && 0 <= addr[2] < 256 && addr[3] in {0, 64, 128} && AreBytes(addr)
    case Subnet6 => 252 <= addr[0] < 254 && AreBytes(addr)
  }

  predicate ReleaseAccepts(k: Kind, addr: Addr, next: Addr)
    requires |addr| == |next| == Width(k)
  {
    RangeAccepts(k, addr) && OrderAccepts(k, addr, next)
  }

  function Release(p: Pool, addr: Addr): (Result<()>, Pool)
    requires |addr| == |p.next| == Width(p.kind)
  {
    if ReleaseAccepts(p.kind, addr, p.next) then
      (Ok(()), p.(free := p.free + [addr]))
    else
      (Raise(AssertionFailed), p)
  }

  lemma DecimalConcat2(s: seq<int>)
    requires |s| == 2
    ensures DecimalConcat(s) == s[0] * TenPow(s[1]) + s[1]
  {
    assert s[..1][..0] == [];
    assert DecimalConcat(s[..1]) == s[0];
  }

  /**
   What the range assertions of a release let through beside the pool: for IPv4
   another first octet, but no subnet that ends in 192.
   */
  lemma RangeAcceptsExactly4(addr: Addr)
    requires |addr| == 4
    ensures RangeAccepts(Service4, addr) <==> InPool(Service4, [10] + addr[1..]) && 0 <= addr[0] < 254
    ensures RangeAccepts(Subnet4, addr) <==>
            InPool(Subnet4, [10] + addr[1..]) && 0 <= addr[0] < 256 && addr[3] != 192
  {
    var b := [10] + addr[1..];
    assert b[1] == addr[1] && b[2] == addr[2] && b[3] == addr[3];
    assert AreBytes(b) <==> 0 <= b[1] < 256 && 0 <= b[2] < 256 && 0 <= b[3] < 256;
    assert addr == [addr[0], addr[1], addr[2], addr[3]];
    assert addr[0] in addr && addr[1] in addr && addr[2] in addr && addr[3] in addr;
  }

  /** For IPv6 services any fourth to sixth byte, for subnets any last byte and the prefixes from fdfe::. */
  lemma RangeAcceptsExactly6(addr: Addr)
    requires |addr| == 16
    ensures RangeAccepts(Service6, addr) <==>
            AreBytes(addr) && InPool(Service6, addr[..3] + [0, 0, 0] + addr[6..])
    ensures !RangeAccepts(RoundRobin6, addr)
    ensures RangeAccepts(Subnet6, addr) <==>
            AreBytes(addr) && (InPool(Subnet6, addr[..15] + [0]) || (addr[0] == 253 && addr[1] >= 254))
  {
    if AreBytes(addr) {
      var b, c := addr[..3] + [0, 0, 0] + addr[6..], addr[..15] + [0];
      assert b[..6] == [addr[0], addr[1], addr[2], 0, 0, 0];
      assert b[..6][0] == addr[0] && b[..6][1] == addr[1] && b[..6][2] == addr[2];
      assert AreBytes(b) && AreBytes(c) && c[0] == addr[0] && c[1] == addr[1];
    }
  }

  /** An accepted release is issued again after the releases before it. */
  lemma ReleasedComesBack(p: Pool, addr: Addr, used: set<Addr>)
    requires WellFormed(p) && InPool(p.kind, addr) && Release(p, addr).0.Ok?
    ensures AllocateMany(Release(p, addr).1, used, |p.free| + 1) == (p.free + [addr], Pool(p.kind, p.next, []))
  {
    ReleasedComeFirst(Release(p, addr).1, used);
  }

  // ---------- Runs ----------

  datatype Event = New(used: set<Addr>) | Clear(addr: Addr)

  /** A pool with the addresses its callers hold and those it passed over as in use. */
  datatype Ledger = Ledger(pool: Pool, held: set<Addr>, skipped: set<Addr>)

  ghost function PassedOver(k: Kind, from: Addr, to: Addr, used: set<Addr>): set<Addr>
    requires InPool(k, from) && InPool(k, to)
  {
    set a | a in used && Below(k, a, to) && !Below(k, a, from)
  }

  /** Callers give back only what they hold, so the release of any other address is no step. */
  ghost function Step(l: Ledger, e: Event): Ledger
    requires Conserved(l)
  {
    ConservedIsWellFormed(l);
    match e
    case New(used) =>
      var (r, pool) := Allocate(l.pool, used);
      var taken := if r.Ok? then {r.value} else {};
      var passed := PassedOver(pool.kind, l.pool.next, pool.next, if LooksUp(pool.kind) then used else {}) - taken;
      Ledger(pool, l.held + taken, l.skipped + passed)
    case Clear(addr) =>
      if addr !in l.held then l else
      HeldInPool(l, addr);
      var (r, pool) := Release(l.pool, addr);
      if r.Ok? then Ledger(pool, l.held - {addr}, l.skipped) else l
  }

  /** The parts are apart and together are the whole; nothing is free twice. */
  ghost predicate Partitions<T(!new)>(held: set<T>, free: seq<T>, skipped: set<T>, whole: iset<T>)
  {
    && (forall i, j | 0 <= i < j < |free| :: free[i] != free[j])
    && (forall a <- free :: a !in held && a !in skipped)
    && held !! skipped
    && (forall a :: a in held || a in free || a in skipped <==> a in whole)
  }

  lemma FirstIsTaken<T(!new)>(held: set<T>, free: seq<T>, skipped: set<T>, whole: iset<T>)
    requires Partitions(held, free, skipped, whole) && free != []
    ensures Partitions(held + {free[0]}, free[1..], skipped, whole)
  {
    assert free == [free[0]] + free[1..];
  }

  lemma WholeGrows<T(!new)>(held: set<T>, skipped: set<T>, whole: iset<T>, taken: set<T>, passed: set<T>,
                            grown: iset<T>)
    requires Partitions(held, [], skipped, whole) && taken !! passed
    requires forall a :: a in grown <==> a in whole || a in taken || a in passed
    requires forall a :: a in taken || a in passed ==> a !in whole
    ensures Partitions(held + taken, [], skipped + passed, grown)
  {
  }

  /** Giving back keeps the partition if and only if it was held. */
  lemma GivenBackExactly<T(!new)>(held: set<T>, free: seq<T>, skipped: set<T>, whole: iset<T>, a: T)
    requires Partitions(held, free, skipped, whole)
    ensures Partitions(held - {a}, free + [a], skipped, whole) <==> a in held
  {
    var free' := free + [a];
    assert forall x :: x in free' <==> x in free || x == a;
    if a in free {
      var i :| 0 <= i < |free| && free[i] == a;
      assert free'[i] == free'[|free|];
    }
  }

  /** The addresses that the frontier has passed. */
  ghost function AllBelow(k: Kind, next: Addr): iset<Addr>
    requires InPool(k, next)
  {
    iset a | Below(k, a, next)
  }

  /** Held, released and passed-over addresses are apart and are all the pool below the frontier. */
  ghost predicate Conserved(l: Ledger)
  {
    && InPool(l.pool.kind, l.pool.next)
    && Partitions(l.held, l.pool.free, l.skipped, AllBelow(l.pool.kind, l.pool.next))
  }

  lemma ConservedIsWellFormed(l: Ledger)
    requires Conserved(l)
    ensures WellFormed(l.pool)
  {
    forall a <- l.pool.free ensures InPool(l.pool.kind, a) {
      assert a in AllBelow(l.pool.kind, l.pool.next);
    }
  }

  lemma AllocationConserves(l: Ledger, used: set<Addr>)
    requires Conserved(l)
    ensures Conserved(Step(l, New(used)))
  {
    if l.pool.free != [] {
      CachedAllocationConserves(l, used);
    } else {
      FrontierAllocationConserves(l, used);
    }
  }

  lemma CachedAllocationConserves(l: Ledger, used: set<Addr>)
    requires Conserved(l) && l.pool.free != []
    ensures Conserved(Step(l, New(used)))
  {
    ConservedIsWellFormed(l);
    FirstIsTaken(l.held, l.pool.free, l.skipped, AllBelow(l.pool.kind, l.pool.next));
    assert PassedOver(l.pool.kind, l.pool.next, l.pool.next, used) == {};
    assert Step(l, New(used)) == Ledger(l.pool.(free := l.pool.free[1..]), l.held + {l.pool.free[0]}, l.skipped);
  }

  /** The addresses between two frontiers are the one issued, if any, and those passed over. */
  lemma ScanPasses(k: Kind, next: Addr, used: set<Addr>)
    requires InPool(k, next)
    ensures var (r, after) := Scan(k, next, used);
            var taken := if r.Ok? then {r.value} else {};
            var passed := PassedOver(k, next, after, used) - taken;
            && (forall a :: a in AllBelow(k, after) <==> a in AllBelow(k, next) || a in taken || a in passed)
            && (forall a :: a in taken || a in passed ==> a !in AllBelow(k, next))
  {
    ScanTakesLeastUnused(k, next, used);
  }

  lemma FrontierAllocationConserves(l: Ledger, used: set<Addr>)
    requires Conserved(l) && l.pool.free == []
    ensures Conserved(Step(l, New(used)))
  {
    ConservedIsWellFormed(l);
    var k, next := l.pool.kind, l.pool.next;
    var looked := if LooksUp(k) then used else {};
    var (r, after) := Scan(k, next, looked);
    var taken := if r.Ok? then {r.value} else {};
    var passed := PassedOver(k, next, after, looked) - taken;
    ScanPasses(k, next, looked);
    WholeGrows(l.held, l.skipped, AllBelow(k, next), taken, passed, AllBelow(k, after));
    assert Step(l, New(used)) == Ledger(Pool(k, after, []), l.held + taken, l.skipped + passed);
  }

  /** The ledger after a release that the root accepts, whoever makes it. */
  ghost function Released(l: Ledger, addr: Addr): Ledger
    requires Conserved(l) && |addr| == Width(l.pool.kind)
  {
    Ledger(Release(l.pool, addr).1, l.held - {addr}, l.skipped)
  }

  /**
   What callers must observe: an accepted release keeps the pool partitioned
   if and only if the caller held the address.
   */
  lemma ReleaseConservesExactly(l: Ledger, addr: Addr)
    requires Conserved(l) && |addr| == Width(l.pool.kind) && ReleaseAccepts(l.pool.kind, addr, l.pool.next)
    ensures Conserved(Released(l, addr)) <==> addr in l.held
  {
    GivenBackExactly(l.held, l.pool.free, l.skipped, AllBelow(l.pool.kind, l.pool.next), addr);
  }

  lemma ReleaseConserves(l: Ledger, addr: Addr)
    requires Conserved(l) && addr in l.held
    ensures Conserved(Step(l, Clear(addr)))
  {
    HeldInPool(l, addr);
    if ReleaseAccepts(l.pool.kind, addr, l.pool.next) {
      ReleaseConservesExactly(l, addr);
    }
  }

  lemma HeldInPool(l: Ledger, addr: Addr)
    requires Conserved(l) && addr in l.held
    ensures Below(l.pool.kind, addr, l.pool.next)
  {
    assert addr in AllBelow(l.pool.kind, l.pool.next);
  }

  /** The ledger after a run of a new pool; every run leaves the pool partitioned. */
  ghost function Run(k: Kind, events: seq<Event>): (l: Ledger)
    ensures Conserved(l) && WellFormed(l.pool) && l.pool.kind == k
    decreases |events|
  {
    if events == [] then
      NothingBelowBase(k);
      Ledger(Pool(k, Base(k), []), {}, {})
    else
      var before, e := Run(k, events[..|events| - 1]), events[|events| - 1];
      StepConserves(before, e);
      ConservedIsWellFormed(Step(before, e));
      Step(before, e)
  }

  lemma NothingBelowBase(k: Kind)
    ensures InPool(k, Base(k)) && AllBelow(k, Base(k)) == iset{}
  {
    BaseIsFirst(k);
    forall a | InPool(k, a) ensures Rank(k, a) >= 0 { RankBound(k, a); }
  }

  lemma StepConserves(l: Ledger, e: Event)
    requires Conserved(l)
    ensures Conserved(Step(l, e)) && Step(l, e).pool.kind == l.pool.kind
  {
    match e
    case New(used) => AllocationConserves(l, used);
    case Clear(addr) => if addr in l.held { ReleaseConserves(l, addr); }
  }

  /** No run issues an address that is still held, nor ever the pool's last address. */
  lemma NeverIssuedTwice(k: Kind, events: seq<Event>, used: set<Addr>)
    ensures var l := Run(k, events);
            var r := Allocate(l.pool, used).0;
            r.Ok? ==> InPool(k, r.value) && r.value !in l.held && Rank(k, r.value) < Size(k) - 1
  {
    IssuedIsNew(Run(k, events), used);
  }

  lemma IssuedIsNew(l: Ledger, used: set<Addr>)
    requires Conserved(l) && WellFormed(l.pool)
    ensures var k, r := l.pool.kind, Allocate(l.pool, used).0;
            r.Ok? ==> InPool(k, r.value) && r.value !in l.held && Rank(k, r.value) < Size(k) - 1
  {
    var k, next := l.pool.kind, l.pool.next;
    RankBound(k, next);
    if l.pool.free == [] {
      var looked := if LooksUp(k) then used else {};
      var (r, after) := Scan(k, next, looked);
      ScanTakesLeastUnused(k, next, looked);
      RankBound(k, after);
      if r.Ok? {
        assert r.value !in AllBelow(k, next);
      }
    } else {
      assert l.pool.free[0] in l.pool.free;
      assert l.pool.free[0] in AllBelow(k, next);
    }
  }

  /** What a run passes over was in use, and with no address ever in use nothing is passed over. */
  lemma {:induction false} SkippedWereInUse(k: Kind, events: seq<Event>, a: Addr)
    ensures a in Run(k, events).skipped ==> exists e <- events :: e.New? && a in e.used
    decreases |events|
  {
    if events != [] && a in Run(k, events).skipped {
      var front, e := events[..|events| - 1], events[|events| - 1];
      SkippedWereInUse(k, front, a);
      if a !in Run(k, front).skipped {
        assert e in events && e.New? && a in e.used;
      }
    }
  }

  /** A worker subnet that ends in 192 stays held: no continuation of the run gives it back, so none issues it again. */
  lemma {:induction false} LastQuarterStaysHeld(events: seq<Event>, later: seq<Event>, a: Addr)
    requires |a| == 4 && a[3] == 192
    ensures a in Run(Subnet4, events).held ==> a in Run(Subnet4, events + later).held
    decreases |later|
  {
    if later == [] {
      assert events + later == events;
    } else {
      var front, e := later[..|later| - 1], later[|later| - 1];
      LastQuarterStaysHeld(events, front, a);
      assert (events + later)[..|events + later| - 1] == events + front;
      if a in Run(Subnet4, events).held {
        LastQuarterStays(Run(Subnet4, events + front), e, a);
      }
    }
  }

  lemma LastQuarterStays(l: Ledger, e: Event, a: Addr)
    requires Conserved(l) && l.pool.kind == Subnet4 && |a| == 4 && a[3] == 192 && a in l.held
    ensures a in Step(l, e).held
  {
    ConservedIsWellFormed(l);
  }

  /** Every frontier that a run stores passes the store's checks. */
  lemma FrontierPassesStore(k: Kind, events: seq<Event>)
    ensures StoreAccepts(k, Run(k, events).pool.next)
  {
    PoolPassesStore(k, Run(k, events).pool.next);
  }

  /** The number of addresses behind one issued address. */
  function BlockSize(k: Kind): int {
    match k
    case Subnet4 => 64
    case Subnet6 => 256
    case _ => 1
  }

  /** The blocks of different pool addresses do not overlap, within a pool or across pools of one family. */
  lemma PoolBlocksApart(k: Kind, a: Addr, l: Kind, b: Addr)
    requires InPool(k, a) && InPool(l, b) && Width(k) == Width(l)
    requires (k, a) != (l, b)
    ensures Value(a) + BlockSize(k) <= Value(b) || Value(b) + BlockSize(l) <= Value(a)
    ensures k == l == Subnet4 ==> Value(a) + 64 <= Value(b) || Value(b) + 64 <= Value(a)
    ensures k == l == Subnet6 ==> Value(a) + 256 <= Value(b) || Value(b) + 256 <= Value(a)
  {
    if k == l {
      SamePoolApart(k, a, b);
    } else if k.Subnet4? {
      Subnet4Block(a);
      Service4Block(b);
    } else if l.Subnet4? {
      Subnet4Block(b);
      Service4Block(a);
    } else if k.Subnet6? {
      Subnet6BelowServices(a, l, b);
    } else if l.Subnet6? {
      Subnet6BelowServices(b, k, a);
    } else {
      if Value(a) == Value(b) {
        FromBytesInjective(a, b);
        PoolsDisjoint(k, l, a);
      }
    }
  }

  /** So nothing that any two runs of any two pools have issued overlaps. */
  lemma IssuedBlocksApart(k: Kind, events: seq<Event>, a: Addr, l: Kind, others: seq<Event>, b: Addr)
    ensures a in Run(k, events).held && b in Run(l, others).held && Width(k) == Width(l) && (k, a) != (l, b) ==>
              Value(a) + BlockSize(k) <= Value(b) || Value(b) + BlockSize(l) <= Value(a)
  {
    if a in Run(k, events).held && b in Run(l, others).held && Width(k) == Width(l) && (k, a) != (l, b) {
      HeldInPool(Run(k, events), a);
      HeldInPool(Run(l, others), b);
      PoolBlocksApart(k, a, l, b);
    }
  }

  lemma SamePoolApart(k: Kind, a: Addr, b: Addr)
    requires InPool(k, a) && InPool(k, b) && a != b
    ensures Value(a) + BlockSize(k) <= Value(b) || Value(b) + BlockSize(k) <= Value(a)
  {
    if k.Subnet4? {
      Subnet4Block(a);
      Subnet4Block(b);
      RankApart(k, a, b);
    } else if k.Subnet6? {
      Subnet6Block(a);
      Subnet6Block(b);
      RankApart(k, a, b);
    } else if Value(a) == Value(b) {
      FromBytesInjective(a, b);
    }
  }

  lemma RankApart(k: Kind, a: Addr, b: Addr)
    requires InPool(k, a) && InPool(k, b) && a != b
    ensures Rank(k, a) != Rank(k, b)
  {
    if Rank(k, a) == Rank(k, b) {
      RankInjective(k, a, b);
    }
  }

  /** Without the discipline a pool does issue one address twice: give 10.18.0.0 back two times. */
  lemma DoubleReleaseIssuesTwice()
    ensures var p0 := Pool(Subnet4, [10, 18, 0, 64], []);
            var p1 := Release(p0, [10, 18, 0, 0]).1;
            var p2 := Release(p1, [10, 18, 0, 0]).1;
            && WellFormed(p2)
            && AllocateMany(p2, {}, 2).0 == [[10, 18, 0, 0], [10, 18, 0, 0]]
  {
    var a: Addr, b: Addr := [10, 18, 0, 0], [10, 18, 0, 64];
    var s, t := a[1..], b[1..];
    assert s[..2] == [18, 0] == t[..2];
    DecimalConcat2(s[..2]);
    assert DecimalConcat(s) == DecimalConcat([18, 0]) * 10 + 0;
    assert DecimalConcat(t) == DecimalConcat([18, 0]) * 100 + 64;
    var p2 := Pool(Subnet4, b, [a, a]);
    assert Release(Release(Pool(Subnet4, b, []), a).1, a).1 == p2;
    var p3 := Allocate(p2, {}).1;
    assert p3 == Pool(Subnet4, b, [a]);
    assert Allocate(p3, {}).0 == Ok(a);
    assert AllocateMany(p3, {}, 1).0 == [a];
  }
}
