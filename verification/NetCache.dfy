/**
 The root's netcache collection for one pool, and the operations of
 subnetwork_management.py on it. A method changes the stored documents; its
 contract says how the pool they stand for changes.
 */
module NetCache {
  import opened Wrappers
  import opened Bytes
  import opened RootAddresses
  import opened RootPools
  import opened RootPreview

  class Store {
    const kind: Kind
    /** The frontier document; there is none before the first allocation. */
    var nextDoc: Option<Addr>
    /** The cached free addresses, oldest first. */
    var free: seq<Addr>

    function Frontier(): Addr
      reads this
    {
      match nextDoc
      case None => Base(kind)
      case Some(addr) => addr
    }

    function View(): Pool
      reads this
    {
      Pool(kind, Frontier(), free)
    }

    constructor (kind: Kind)
      ensures this.kind == kind && WellFormed(View())
      ensures View() == Pool(kind, Base(kind), [])
    {
      this.kind, nextDoc, free := kind, None, [];
      BaseIsFirst(kind);
    }

    // ---------- Documents ----------

    method PopFree() returns (addr: Option<Addr>)
      modifies this
      ensures old(free) == [] ==> addr == None && View() == old(View())
      ensures old(free) != [] ==> addr == Some(old(free)[0]) && View() == old(View()).(free := old(free)[1..])
    {
      if free == [] {
        return None;
      }
      addr := Some(free[0]);
      free := free[1..];
    }

    /** Reads the frontier; the first read stores it. */
    method GetNext() returns (addr: Addr)
      modifies this
      ensures View() == old(View()) && addr == View().next
      ensures nextDoc == Some(addr)
    {
      match nextDoc
      case None =>
        addr := Base(kind);
        nextDoc := Some(addr);
      case Some(a) =>
        addr := a;
    }

    method UpdateNext(addr: Addr)
      requires StoreAccepts(kind, addr)
      requires nextDoc.Some?
      modifies this
      ensures View() == old(View()).(next := addr) && nextDoc == Some(addr)
    {
      nextDoc := Some(addr);
    }

    // ---------- Allocation ----------

    /** new_instance_ip, new_instance_ip_v6 and new_rr_ip_v6. */
    method NewServiceAddress(used: set<Addr>) returns (r: Result<Addr>)
      requires LooksUp(kind) && WellFormed(View())
      modifies this
      ensures WellFormed(View()) && (r, View()) == Allocate(old(View()), used)
    {
      var addr := PopFree();
      assert addr.None? ==> free == [];
      while addr.None?
        invariant WellFormed(View())
        invariant addr.None? ==> free == [] && Allocate(View(), used) == Allocate(old(View()), used)
        invariant addr.Some? ==> (Ok(addr.value), View()) == Allocate(old(View()), used)
        decreases addr.None?, Size(kind) - Rank(kind, Frontier())
      {
        var candidate := GetNext();
        IncreaseAddsOne(kind, candidate);
        RankBound(kind, candidate);
        var next := Increase(kind, candidate);
        if next.Raise? {
          return next;
        }
        PoolPassesStore(kind, next.value);
        UpdateNext(next.value);
        if candidate !in used {
          addr := Some(candidate);
        }
      }
      r := Ok(addr.value);
    }

    /** new_subnetwork_addr and new_subnetwork_addr_v6. */
    method NewSubnetwork() returns (r: Result<Addr>)
      requires !LooksUp(kind) && WellFormed(View())
      modifies this
      ensures WellFormed(View()) && (r, View()) == Allocate(old(View()), {})
    {
      var addr := PopFree();
      if addr.None? {
        var candidate := GetNext();
        IncreaseAddsOne(kind, candidate);
        var next := Increase(kind, candidate);
        if next.Raise? {
          return next;
        }
        PoolPassesStore(kind, next.value);
        UpdateNext(next.value);
        addr := Some(candidate);
      }
      r := Ok(addr.value);
    }

    // ---------- Release ----------

    /** The clear operations; a refused release leaves pool and cache as they were. */
    method Clear(addr: Addr) returns (r: Result<()>)
      requires |addr| == Width(kind) && WellFormed(View())
      modifies this
      ensures (r, View()) == Release(old(View()), addr)
      ensures r.Raise? ==> View() == old(View())
    {
      var next := GetNext();
      if !ReleaseAccepts(kind, addr, next) {
        return Raise(AssertionFailed);
      }
      free := free + [addr];
      r := Ok(());
    }

    // ---------- Preview ----------

    /** get_next_available_ip and get_next_available_ip_v6. */
    method NextAvailable(x: nat, used: set<Addr>) returns (ips: seq<Addr>)
      requires LooksUp(kind) && WellFormed(View())
      modifies this
      ensures View() == old(View())
      ensures ips == Preview(View(), used, x)
    {
      ips := if x == 0 || |free| <= x then free else free[..x];
      if |ips| < x {
        var next := GetNext();
        ips := ExtendFrom(kind, next, ips, x, used);
      }
    }

    /** Lists unused addresses from the frontier on, without moving it. */
    static method ExtendFrom(kind: Kind, next: Addr, cached: seq<Addr>, x: nat, used: set<Addr>)
      returns (ips: seq<Addr>)
      requires InPool(kind, next) && |cached| < x
      ensures ips == cached + PreviewFrom(kind, next, used, x - |cached|)
    {
      ips := cached;
      ghost var goal := cached + PreviewFrom(kind, next, used, x - |cached|);
      var addr, more := next, true;
      while |ips| < x && more
        invariant |ips| <= x && InPool(kind, addr)
        invariant goal == ips + if more then PreviewFrom(kind, addr, used, x - |ips|) else []
        decreases more, Size(kind) - Rank(kind, addr)
      {
        PreviewStep(kind, addr, used, x - |ips|);
        ghost var before := ips;
        if addr !in used {
          ips := ips + [addr];
        }
        var after := Increase(kind, addr);
        if after.Ok? {
          Regroup(before, if addr in used then [] else [addr], PreviewFrom(kind, after.value, used, x - |ips|));
          addr := after.value;
        } else {
          more := false;
        }
      }
    }
  }

  lemma Regroup(a: seq<Addr>, b: seq<Addr>, c: seq<Addr>)
    ensures a + (b + c) == a + b + c && a + [] == a
  {
  }
}
