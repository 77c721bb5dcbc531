/**
 The preview of the next addresses against what allocations then return. The
 two look addresses up in different forms, text and bytes, so each has its own
 set of addresses that its lookup finds: `shown` and `used`.
 */
module RootPreview {
  import opened Wrappers
  import opened RootAddresses
  import opened RootPools

  function PreviewFrom(k: Kind, next: Addr, shown: set<Addr>, x: nat): seq<Addr>
    requires InPool(k, next)
    decreases Size(k) - Rank(k, next)
  {
    IncreaseAddsOne(k, next);
    RankBound(k, next);
    if x == 0 then [] else
    var here := if next in shown then [] else [next];
    match Increase(k, next)
    case Raise(_) => here
    case Ok(after) => here + PreviewFrom(k, after, shown, x - |here|)
  }

  lemma PreviewStep(k: Kind, next: Addr, shown: set<Addr>, x: nat)
    requires InPool(k, next) && x > 0
    ensures 0 <= Rank(k, next) < Size(k)
    ensures var here := if next in shown then [] else [next];
            match Increase(k, next)
            case Raise(_) => PreviewFrom(k, next, shown, x) == here
            case Ok(after) =>
              && InPool(k, after) && Rank(k, after) == Rank(k, next) + 1
              && PreviewFrom(k, next, shown, x) == here + PreviewFrom(k, after, shown, x - |here|)
  {
    IncreaseAddsOne(k, next);
    RankBound(k, next);
  }

  function Listing(p: Pool, shown: set<Addr>, x: nat): seq<Addr>
    requires WellFormed(p)
  {
    if x <= |p.free| then p.free[..x] else p.free + PreviewFrom(p.kind, p.next, shown, x - |p.free|)
  }

  /** A limit of 0 asks the store for every cached address. */
  function Preview(p: Pool, shown: set<Addr>, x: nat): seq<Addr>
    requires WellFormed(p)
  {
    if x == 0 then p.free else Listing(p, shown, x)
  }

  // ---------- What a preview must show ----------

  /** The allocations' results, in order; a list cut short may end with the address `top` that is never issued. */
  predicate Shows(list: seq<Addr>, got: seq<Addr>, top: Addr, x: nat)
  {
    list == got || (|got| < x && list == got + [top])
  }

  /** The list shows what x allocations return. */
  predicate ShowsAllocations(list: seq<Addr>, p: Pool, used: set<Addr>, x: nat)
    requires WellFormed(p)
  {
    var (got, after) := AllocateMany(p, used, x);
    Shows(list, got, after.next, x)
  }

  /** From `next` to before `end`. */
  ghost predicate Between(k: Kind, next: Addr, end: Addr, a: Addr)
    requires InPool(k, next) && InPool(k, end)
  {
    Below(k, a, end) && !Below(k, a, next)
  }

  /** Both lookups say the same of every address from `next` to before `end`. */
  ghost predicate Agree(k: Kind, next: Addr, end: Addr, shown: set<Addr>, used: set<Addr>)
    requires InPool(k, next) && InPool(k, end)
  {
    forall a | Between(k, next, end, a) :: a in shown <==> a in used
  }

  /** Allocations stop short only with the frontier at the pool's last address. */
  lemma {:induction false} ShortOnlyAtTheTop(p: Pool, used: set<Addr>, x: nat)
    requires WellFormed(p)
    ensures var (got, after) := AllocateMany(p, used, x);
            |got| < x ==> Rank(p.kind, after.next) == Size(p.kind) - 1
    decreases x
  {
    if x > 0 {
      var (r, p') := Allocate(p, used);
      if r.Ok? {
        ShortOnlyAtTheTop(p', used, x - 1);
      } else {
        ScanTakesLeastUnused(p.kind, p.next, if LooksUp(p.kind) then used else {});
      }
    }
  }

  // ---------- From the frontier ----------

  /** x allocations from the frontier, one address at a time. */
  function IssueFrom(k: Kind, next: Addr, used: set<Addr>, x: nat): (r: (seq<Addr>, Addr))
    requires InPool(k, next)
    ensures InPool(k, r.1) && Rank(k, next) <= Rank(k, r.1) && |r.0| <= x
    decreases Size(k) - Rank(k, next)
  {
    IncreaseAddsOne(k, next);
    RankBound(k, next);
    if x == 0 then ([], next) else
    match Increase(k, next)
    case Raise(_) => ([], next)
    case Ok(after) =>
      var here := if next in used then [] else [next];
      var (rest, end) := IssueFrom(k, after, used, x - |here|);
      (here + rest, end)
  }

  lemma IssueStep(k: Kind, next: Addr, used: set<Addr>, x: nat)
    requires InPool(k, next) && x > 0 && Increase(k, next).Ok?
    ensures var after := Increase(k, next).value;
            var here := if next in used then [] else [next];
            && InPool(k, after)
            && IssueFrom(k, next, used, x) ==
               (here + IssueFrom(k, after, used, x - |here|).0, IssueFrom(k, after, used, x - |here|).1)
  {
    IncreaseAddsOne(k, next);
  }

  lemma AllocateFromFrontierStep(p: Pool, q: Pool, used: set<Addr>, x: nat)
    requires WellFormed(p) && WellFormed(q) && p.free == [] && LooksUp(p.kind) && x > 0
    requires Increase(p.kind, p.next).Ok? && q == p.(next := Increase(p.kind, p.next).value)
    requires var rest := if p.next in used then x else x - 1;
             AllocateMany(q, used, rest) ==
             (IssueFrom(q.kind, q.next, used, rest).0, q.(next := IssueFrom(q.kind, q.next, used, rest).1))
    ensures AllocateMany(p, used, x) ==
            (IssueFrom(p.kind, p.next, used, x).0, p.(next := IssueFrom(p.kind, p.next, used, x).1))
  {
    IssueStep(p.kind, p.next, used, x);
    AllocateAtFrontier(p, q, used);
    if p.next in used {
      SameFirstAllocation(p, q, used, x);
      EmptyPrefix(IssueFrom(q.kind, q.next, used, x).0);
    } else {
      FirstAllocation(p, p.next, q, used, x);
    }
  }

  lemma {:induction false} AllocateFromFrontier(p: Pool, used: set<Addr>, x: nat)
    requires WellFormed(p) && p.free == [] && LooksUp(p.kind)
    ensures AllocateMany(p, used, x) ==
            (IssueFrom(p.kind, p.next, used, x).0, p.(next := IssueFrom(p.kind, p.next, used, x).1))
    decreases Size(p.kind) - Rank(p.kind, p.next)
  {
    if x > 0 {
      PreviewStep(p.kind, p.next, used, x);
      if Increase(p.kind, p.next).Ok? {
        var q := p.(next := Increase(p.kind, p.next).value);
        AllocateFromFrontier(q, used, if p.next in used then x else x - 1);
        AllocateFromFrontierStep(p, q, used, x);
      }
    }
  }

  /** An allocation from the frontier takes it, or goes on behind it. */
  lemma AllocateAtFrontier(p: Pool, q: Pool, used: set<Addr>)
    requires WellFormed(p) && WellFormed(q) && p.free == [] && LooksUp(p.kind)
    requires Increase(p.kind, p.next).Ok? && q == p.(next := Increase(p.kind, p.next).value)
    ensures Allocate(p, used) == if p.next in used then Allocate(q, used) else (Ok(p.next), q)
  {
  }

  lemma FirstAllocation(p: Pool, a: Addr, q: Pool, used: set<Addr>, x: nat)
    requires WellFormed(p) && WellFormed(q) && Allocate(p, used) == (Ok(a), q) && x > 0
    ensures AllocateMany(p, used, x) == ([a] + AllocateMany(q, used, x - 1).0, AllocateMany(q, used, x - 1).1)
  {
  }

  lemma SameFirstAllocation(p: Pool, q: Pool, used: set<Addr>, x: nat)
    requires WellFormed(p) && WellFormed(q) && Allocate(p, used) == Allocate(q, used) && x > 0
    ensures AllocateMany(p, used, x) == AllocateMany(q, used, x)
  {
  }

  /** Everything issued is at or past the frontier, and so is everything listed. */
  lemma {:induction false} NothingEarlier(k: Kind, next: Addr, looked: set<Addr>, x: nat, a: Addr)
    requires InPool(k, next)
    ensures a in PreviewFrom(k, next, looked, x) || a in IssueFrom(k, next, looked, x).0 ==>
              InPool(k, a) && Rank(k, next) <= Rank(k, a)
    decreases Size(k) - Rank(k, next)
  {
    if x > 0 {
      PreviewStep(k, next, looked, x);
      if Increase(k, next).Ok? {
        IssueStep(k, next, looked, x);
        NothingEarlier(k, Increase(k, next).value, looked, if next in looked then x else x - 1, a);
      }
    }
  }

  lemma ResultMissing(list: seq<Addr>, got: seq<Addr>, top: Addr, x: nat)
    requires got != [] && got[0] !in list
    ensures !Shows(list, got, top, x)
  {
    assert got[0] in got && got[0] in got + [top];
  }

  lemma ListedInVain(list: seq<Addr>, got: seq<Addr>, top: Addr, x: nat)
    requires list != [] && list[0] !in got && list[0] != top
    ensures !Shows(list, got, top, x)
  {
    assert list[0] in list;
  }

  /** When only the list leaves the frontier out, it misses the first result. */
  lemma ShownAtFrontier(k: Kind, next: Addr, shown: set<Addr>, used: set<Addr>, x: nat)
    requires InPool(k, next) && x > 0 && Increase(k, next).Ok? && next in shown && next !in used
    ensures var (got, end) := IssueFrom(k, next, used, x);
            !Shows(PreviewFrom(k, next, shown, x), got, end, x)
  {
    PreviewStep(k, next, shown, x);
    IssueStep(k, next, used, x);
    NothingEarlier(k, Increase(k, next).value, shown, x, next);
    var (got, end) := IssueFrom(k, next, used, x);
    ResultMissing(PreviewFrom(k, next, shown, x), got, end, x);
  }

  /** When only the allocations leave it out, the list starts with an address that is not issued. */
  lemma UsedAtFrontier(k: Kind, next: Addr, shown: set<Addr>, used: set<Addr>, x: nat)
    requires InPool(k, next) && x > 0 && Increase(k, next).Ok? && next !in shown && next in used
    ensures var (got, end) := IssueFrom(k, next, used, x);
            !Shows(PreviewFrom(k, next, shown, x), got, end, x)
  {
    PreviewStep(k, next, shown, x);
    IssueStep(k, next, used, x);
    NothingEarlier(k, Increase(k, next).value, used, x, next);
    var (got, end) := IssueFrom(k, next, used, x);
    ListedInVain(PreviewFrom(k, next, shown, x), got, end, x);
  }

  lemma FrontierIsPassed(k: Kind, next: Addr, used: set<Addr>, x: nat)
    requires InPool(k, next) && x > 0 && Increase(k, next).Ok?
    ensures Below(k, next, IssueFrom(k, next, used, x).1)
  {
    PreviewStep(k, next, used, x);
    IssueStep(k, next, used, x);
  }

  lemma BetweenStep(k: Kind, next: Addr, end: Addr, a: Addr)
    requires InPool(k, next) && InPool(k, end) && Increase(k, next).Ok? && Below(k, next, end)
    ensures InPool(k, Increase(k, next).value)
    ensures Between(k, next, end, a) <==> a == next || Between(k, Increase(k, next).value, end, a)
    ensures !Between(k, Increase(k, next).value, end, next)
  {
    BelowSuccessor(k, next);
  }

  /** What is agreed about the frontier leaves the addresses behind it. */
  lemma AgreeStep(k: Kind, next: Addr, end: Addr, shown: set<Addr>, used: set<Addr>)
    requires InPool(k, next) && InPool(k, end) && Increase(k, next).Ok? && Below(k, next, end)
    ensures InPool(k, Increase(k, next).value)
    ensures Agree(k, next, end, shown, used) <==>
            (next in shown <==> next in used) && Agree(k, Increase(k, next).value, end, shown, used)
  {
    BetweenStep(k, next, end, next);
    var after := Increase(k, next).value;
    forall a ensures Between(k, next, end, a) <==> a == next || Between(k, after, end, a) {
      BetweenStep(k, next, end, a);
    }
  }

  lemma ShowsStep(here: seq<Addr>, list: seq<Addr>, got: seq<Addr>, top: Addr, x: nat)
    requires |here| <= x
    ensures Shows(here + list, here + got, top, x) <==> Shows(list, got, top, x - |here|)
  {
    assert here + got + [top] == here + (got + [top]);
    assert (here + list)[|here|..] == list && (here + got)[|here|..] == got;
    assert (here + (got + [top]))[|here|..] == got + [top];
  }

  /** What is known behind the frontier holds from the frontier on, if the lookups agree about it. */
  lemma FrontierShowsStep(k: Kind, next: Addr, here: seq<Addr>, shown: set<Addr>, used: set<Addr>, x: nat)
    requires InPool(k, next) && x > 0 && Increase(k, next).Ok? && (next in shown <==> next in used)
    requires here == if next in used then [] else [next]
    requires InPool(k, Increase(k, next).value)
    requires var after := Increase(k, next).value;
             var (got, end) := IssueFrom(k, after, used, x - |here|);
             Shows(PreviewFrom(k, after, shown, x - |here|), got, end, x - |here|) <==>
             Agree(k, after, end, shown, used)
    ensures var (got, end) := IssueFrom(k, next, used, x);
            Shows(PreviewFrom(k, next, shown, x), got, end, x) <==> Agree(k, next, end, shown, used)
  {
    var after := Increase(k, next).value;
    var (got, end) := IssueFrom(k, after, used, x - |here|);
    PreviewStep(k, next, shown, x);
    IssueStep(k, next, used, x);
    ShowsStep(here, PreviewFrom(k, after, shown, x - |here|), got, end, x);
    FrontierIsPassed(k, next, used, x);
    AgreeStep(k, next, end, shown, used);
  }

  lemma FrontierDiffers(k: Kind, next: Addr, shown: set<Addr>, used: set<Addr>, x: nat)
    requires InPool(k, next) && x > 0 && Increase(k, next).Ok? && !(next in shown <==> next in used)
    ensures var (got, end) := IssueFrom(k, next, used, x);
            !Shows(PreviewFrom(k, next, shown, x), got, end, x) && !Agree(k, next, end, shown, used)
  {
    FrontierIsPassed(k, next, used, x);
    AgreeStep(k, next, IssueFrom(k, next, used, x).1, shown, used);
    if next in shown {
      ShownAtFrontier(k, next, shown, used, x);
    } else {
      UsedAtFrontier(k, next, shown, used, x);
    }
  }

  lemma {:induction false} FrontierShows(k: Kind, next: Addr, shown: set<Addr>, used: set<Addr>, x: nat)
    requires InPool(k, next)
    ensures var (got, end) := IssueFrom(k, next, used, x);
            Shows(PreviewFrom(k, next, shown, x), got, end, x) <==> Agree(k, next, end, shown, used)
    decreases Size(k) - Rank(k, next)
  {
    if x > 0 {
      PreviewStep(k, next, shown, x);
      if Increase(k, next).Ok? {
        if next in shown <==> next in used {
          var after, here := Increase(k, next).value, if next in used then [] else [next];
          FrontierShows(k, after, shown, used, x - |here|);
          FrontierShowsStep(k, next, here, shown, used, x);
        } else {
          FrontierDiffers(k, next, shown, used, x);
        }
      }
    }
  }

  // ---------- With cached addresses ----------

  lemma UncachedListing(p: Pool, shown: set<Addr>, x: nat)
    requires WellFormed(p) && p.free == []
    ensures Listing(p, shown, x) == PreviewFrom(p.kind, p.next, shown, x)
  {
    var more := PreviewFrom(p.kind, p.next, shown, x);
    if x == 0 {
      assert more == [];
    } else {
      EmptyPrefix(more);
      assert Listing(p, shown, x) == [] + more;
    }
  }

  lemma EmptyPrefix(s: seq<Addr>)
    ensures [] + s == s
  {
  }

  lemma UncachedListingShows(p: Pool, shown: set<Addr>, used: set<Addr>, x: nat)
    requires WellFormed(p) && LooksUp(p.kind) && p.free == []
    ensures ShowsAllocations(Listing(p, shown, x), p, used, x) <==>
            Agree(p.kind, p.next, AllocateMany(p, used, x).1.next, shown, used)
  {
    UncachedListing(p, shown, x);
    AllocateFromFrontier(p, used, x);
    FrontierShows(p.kind, p.next, shown, used, x);
  }

  lemma CachedAllocation(p: Pool, q: Pool, used: set<Addr>, x: nat)
    requires WellFormed(p) && WellFormed(q) && p.free != [] && q == p.(free := p.free[1..]) && x > 0
    ensures AllocateMany(p, used, x) == ([p.free[0]] + AllocateMany(q, used, x - 1).0, AllocateMany(q, used, x - 1).1)
  {
    FirstAllocation(p, p.free[0], q, used, x);
  }

  lemma {:induction false} ListingShows(p: Pool, shown: set<Addr>, used: set<Addr>, x: nat)
    requires WellFormed(p) && LooksUp(p.kind)
    ensures ShowsAllocations(Listing(p, shown, x), p, used, x) <==>
            Agree(p.kind, p.next, AllocateMany(p, used, x).1.next, shown, used)
    decreases |p.free|
  {
    if p.free == [] {
      UncachedListingShows(p, shown, used, x);
    } else if x > 0 {
      var q := p.(free := p.free[1..]);
      ListingStep(p, q, shown, x);
      ListingShows(q, shown, used, x - 1);
      CachedAllocation(p, q, used, x);
      var (got, after) := AllocateMany(q, used, x - 1);
      ShowsStep([p.free[0]], Listing(q, shown, x - 1), got, after.next, x);
    }
  }

  /** A cached address is listed before everything else. */
  lemma ListingStep(p: Pool, q: Pool, shown: set<Addr>, x: nat)
    requires WellFormed(p) && WellFormed(q) && p.free != [] && x > 0 && q == p.(free := p.free[1..])
    ensures Listing(p, shown, x) == [p.free[0]] + Listing(q, shown, x - 1)
  {
    assert p.free == [p.free[0]] + q.free;
    if x <= |p.free| {
      assert p.free[..x] == [p.free[0]] + q.free[..x - 1];
    } else {
      var more := PreviewFrom(p.kind, p.next, shown, x - |p.free|);
      assert p.free + more == [p.free[0]] + (q.free + more);
    }
  }

  /**
   The preview lists, in order, what the next x allocations return, except
   that a list cut short may end with the never-issued last address, if and
   only if the two lookups agree about every address that the allocations pass;
   for x == 0 nothing must be cached either.
   */
  lemma PreviewAgreesWithAllocation(p: Pool, shown: set<Addr>, used: set<Addr>, x: nat)
    requires WellFormed(p) && LooksUp(p.kind)
    ensures ShowsAllocations(Preview(p, shown, x), p, used, x) <==>
            && (x >= 1 || p.free == [])
            && Agree(p.kind, p.next, AllocateMany(p, used, x).1.next, shown, used)
  {
    ListingShows(p, shown, used, x);
  }

  // ---------- A lookup that finds nothing ----------

  /** An allocation then takes the frontier, unless that is the last address. */
  lemma BlindAllocation(p: Pool)
    requires WellFormed(p) && p.free == []
    ensures var (r, q) := Allocate(p, {});
            && q.kind == p.kind && q.free == []
            && Rank(p.kind, p.next) < Size(p.kind)
            && (r.Ok? <==> Rank(p.kind, p.next) < Size(p.kind) - 1)
            && Rank(p.kind, q.next) == Rank(p.kind, p.next) + if r.Ok? then 1 else 0
  {
    RankBound(p.kind, p.next);
    IncreaseAddsOne(p.kind, p.next);
  }

  lemma NextAllocations(p: Pool, used: set<Addr>, x: nat)
    requires WellFormed(p) && x > 0
    ensures var (r, q) := Allocate(p, used);
            AllocateMany(p, used, x).1 == if r.Ok? then AllocateMany(q, used, x - 1).1 else q
  {
  }

  lemma {:induction false} BlindAllocationsFromFrontier(p: Pool, x: nat)
    requires WellFormed(p) && p.free == []
    ensures var moved := Rank(p.kind, p.next) + x;
            Rank(p.kind, AllocateMany(p, {}, x).1.next) == if moved < Size(p.kind) then moved else Size(p.kind) - 1
    decreases x
  {
    BlindAllocation(p);
    if x == 0 {
      assert AllocateMany(p, {}, x).1 == p;
    } else {
      NextAllocations(p, {}, x);
      var (r, q) := Allocate(p, {});
      if r.Ok? {
        BlindAllocationsFromFrontier(q, x - 1);
      }
    }
  }

  /** So x allocations move the frontier by x, less those that the cache serves, up to the last address. */
  lemma {:induction false} BlindAllocations(p: Pool, x: nat)
    requires WellFormed(p)
    ensures var moved := Rank(p.kind, p.next) + if x <= |p.free| then 0 else x - |p.free|;
            Rank(p.kind, AllocateMany(p, {}, x).1.next) == if moved < Size(p.kind) then moved else Size(p.kind) - 1
    decreases |p.free|
  {
    RankBound(p.kind, p.next);
    if p.free == [] {
      BlindAllocationsFromFrontier(p, x);
    } else if x > 0 {
      var q := p.(free := p.free[1..]);
      CachedAllocation(p, q, {}, x);
      BlindAllocations(q, x - 1);
    }
  }

  /** An address within x of the frontier that the cache leaves to be issued. */
  ghost predicate WithinReach(p: Pool, x: nat, a: Addr)
    requires WellFormed(p)
  {
    && InPool(p.kind, a)
    && 0 <= Rank(p.kind, a) - Rank(p.kind, p.next) < x - |p.free|
    && Rank(p.kind, a) < Size(p.kind) - 1
  }

  lemma BlindReach(p: Pool, x: nat, a: Addr)
    requires WellFormed(p)
    ensures Between(p.kind, p.next, AllocateMany(p, {}, x).1.next, a) <==> WithinReach(p, x, a)
  {
    BlindAllocations(p, x);
    RankBound(p.kind, p.next);
  }

  /**
   As the source has it, the allocator's lookup compares bytes with texts and
   finds nothing: the preview then agrees with the allocations if and only if
   its own lookup finds no address that they can reach.
   */
  lemma PreviewOfBlindAllocation(p: Pool, shown: set<Addr>, x: nat)
    requires WellFormed(p) && LooksUp(p.kind)
    ensures ShowsAllocations(Preview(p, shown, x), p, {}, x) <==>
            (x >= 1 || p.free == []) && forall a | a in shown :: !WithinReach(p, x, a)
  {
    PreviewAgreesWithAllocation(p, shown, {}, x);
    forall a ensures Between(p.kind, p.next, AllocateMany(p, {}, x).1.next, a) <==> WithinReach(p, x, a) {
      BlindReach(p, x, a);
    }
  }

  // ---------- Addresses of jobs ----------

  lemma IssuedHere(next: Addr, used: set<Addr>, rest: seq<Addr>, a: Addr)
    ensures a in (if next in used then [] else [next]) + rest <==> (a == next && next !in used) || a in rest
  {
  }

  lemma IssuedStep(k: Kind, next: Addr, used: set<Addr>, x: nat, rest: nat, a: Addr)
    requires InPool(k, next) && x > 0 && Increase(k, next).Ok? && InPool(k, Increase(k, next).value)
    requires rest == if next in used then x else x - 1
    requires var (got, end) := IssueFrom(k, Increase(k, next).value, used, rest);
             a in got <==> Between(k, Increase(k, next).value, end, a) && a !in used
    ensures var (got, end) := IssueFrom(k, next, used, x);
            a in got <==> Between(k, next, end, a) && a !in used
  {
    IssueStep(k, next, used, x);
    FrontierIsPassed(k, next, used, x);
    var (got, end) := IssueFrom(k, Increase(k, next).value, used, rest);
    IssuedHere(next, used, got, a);
    BetweenStep(k, next, end, a);
  }

  /** From the frontier, exactly the passed addresses that the lookup does not find are issued. */
  lemma {:induction false} IssuedExactly(k: Kind, next: Addr, used: set<Addr>, x: nat, a: Addr)
    requires InPool(k, next)
    ensures var (got, end) := IssueFrom(k, next, used, x);
            a in got <==> Between(k, next, end, a) && a !in used
    decreases Size(k) - Rank(k, next)
  {
    if x > 0 {
      PreviewStep(k, next, used, x);
      if Increase(k, next).Ok? {
        var rest := if next in used then x else x - 1;
        IssuedExactly(k, Increase(k, next).value, used, rest, a);
        IssuedStep(k, next, used, x, rest, a);
      }
    }
  }

  /** None of the addresses that x allocations can take belongs to a job without the lookup finding it. */
  ghost predicate JobsAreFound(p: Pool, used: set<Addr>, jobs: set<Addr>, x: nat)
    requires WellFormed(p)
  {
    && (forall i | 0 <= i < x && i < |p.free| :: p.free[i] !in jobs)
    && (forall a | Between(p.kind, p.next, AllocateMany(p, used, x).1.next, a) && a in jobs :: a in used)
  }

  lemma UncachedFreeOfJobs(p: Pool, used: set<Addr>, jobs: set<Addr>, x: nat)
    requires WellFormed(p) && LooksUp(p.kind) && p.free == []
    ensures (forall a <- AllocateMany(p, used, x).0 :: a !in jobs) <==> JobsAreFound(p, used, jobs, x)
  {
    AllocateFromFrontier(p, used, x);
    var (got, after) := AllocateMany(p, used, x);
    forall a ensures a in got <==> Between(p.kind, p.next, after.next, a) && a !in used {
      IssuedExactly(p.kind, p.next, used, x, a);
    }
  }

  lemma CachedJobs(p: Pool, q: Pool, used: set<Addr>, jobs: set<Addr>, x: nat)
    requires WellFormed(p) && WellFormed(q) && p.free != [] && q == p.(free := p.free[1..]) && x > 0
    ensures JobsAreFound(p, used, jobs, x) <==> p.free[0] !in jobs && JobsAreFound(q, used, jobs, x - 1)
    ensures forall a :: a in AllocateMany(p, used, x).0 <==> a == p.free[0] || a in AllocateMany(q, used, x - 1).0
  {
    CachedAllocation(p, q, used, x);
    CachedFreeOfJobs(p.free, q.free, jobs, x);
  }

  /**
   No issued address belongs to a job if and only if no cached address among
   those taken does and the lookup finds every job's address that the
   allocations pass.
   */
  lemma {:induction false} IssuedFreeOfJobs(p: Pool, used: set<Addr>, jobs: set<Addr>, x: nat)
    requires WellFormed(p) && LooksUp(p.kind)
    ensures (forall a <- AllocateMany(p, used, x).0 :: a !in jobs) <==> JobsAreFound(p, used, jobs, x)
    decreases |p.free|
  {
    if p.free == [] {
      UncachedFreeOfJobs(p, used, jobs, x);
    } else if x > 0 {
      var q := p.(free := p.free[1..]);
      IssuedFreeOfJobs(q, used, jobs, x - 1);
      CachedJobs(p, q, used, jobs, x);
    }
  }

  lemma CachedFreeOfJobs(free: seq<Addr>, rest: seq<Addr>, jobs: set<Addr>, x: nat)
    requires free != [] && rest == free[1..] && x > 0
    ensures (forall i | 0 <= i < x && i < |free| :: free[i] !in jobs) <==>
            free[0] !in jobs && forall i | 0 <= i < x - 1 && i < |rest| :: rest[i] !in jobs
  {
    if forall i | 0 <= i < x && i < |free| :: free[i] !in jobs {
      forall i | 0 <= i < x - 1 && i < |rest| ensures rest[i] !in jobs { assert rest[i] == free[i + 1]; }
    }
    if free[0] !in jobs && forall i | 0 <= i < x - 1 && i < |rest| :: rest[i] !in jobs {
      forall i | 0 <= i < x && i < |free| ensures free[i] !in jobs { assert i > 0 ==> free[i] == rest[i - 1]; }
    }
  }

  /** With a lookup that finds nothing, that is: if and only if no job has an address within reach. */
  lemma BlindIssuesJobAddresses(p: Pool, jobs: set<Addr>, x: nat)
    requires WellFormed(p) && LooksUp(p.kind)
    ensures (forall a <- AllocateMany(p, {}, x).0 :: a !in jobs) <==>
            && (forall i | 0 <= i < x && i < |p.free| :: p.free[i] !in jobs)
            && (forall a | a in jobs :: !WithinReach(p, x, a))
  {
    IssuedFreeOfJobs(p, {}, jobs, x);
    forall a ensures Between(p.kind, p.next, AllocateMany(p, {}, x).1.next, a) <==> WithinReach(p, x, a) {
      BlindReach(p, x, a);
    }
  }

  /** A job has chosen 10.30.0.0: the preview lists the address behind it, an allocation returns the job's own. */
  lemma ChosenAddressIsIssued()
    ensures var p := Pool(Service4, [10, 30, 0, 0], []);
            && WellFormed(p)
            && Preview(p, {[10, 30, 0, 0]}, 1) == [[10, 30, 0, 1]]
            && Allocate(p, {}).0 == Ok([10, 30, 0, 0])
  {
    var a: Addr, b: Addr := [10, 30, 0, 0], [10, 30, 0, 1];
    var p := Pool(Service4, a, []);
    assert Increase(Service4, a) == Ok(b);
    PreviewStep(Service4, a, {a}, 1);
    PreviewOfOne(Service4, b, {a});
    assert Preview(p, {a}, 1) == [] + PreviewFrom(Service4, a, {a}, 1) == [b];
    BlindAllocation(p);
  }

  lemma PreviewOfOne(k: Kind, next: Addr, shown: set<Addr>)
    requires InPool(k, next) && next !in shown
    ensures PreviewFrom(k, next, shown, 1) == [next]
  {
    PreviewStep(k, next, shown, 1);
    if Increase(k, next).Ok? {
      assert PreviewFrom(k, Increase(k, next).value, shown, 0) == [];
    }
  }
}
