/** The conversion cache as the proxy keeps it: an array of rings, changed in place. */
module ProxyCache {
  import opened Wrappers
  import opened Addresses
  import opened ProxyCacheSpec

  lemma LookupStep(slots: seq<ConversionEntry>, i: nat, key: Key, dstport: int)
    requires i < |slots|
    ensures Lookup(slots[i..], key, dstport) ==
            if Matches(slots[i], key, dstport) then Some(slots[i]) else Lookup(slots[i + 1..], key, dstport)
  {
    assert slots[i..][1..] == slots[i + 1..];
  }

  class Cache {
    const cache: array<ConversionList>

    ghost predicate Valid()
      reads this, cache
    {
      ValidLists(cache[..])
    }

    ghost function View(): Lists
      reads this, cache
    {
      cache[..]
    }

    constructor ()
      ensures Valid() && fresh(cache) && View() == NewLists()
      ensures cache.Length == 65536 && forall p | 0 <= p < 65536 :: cache[p].slots == [] && cache[p].lastUsed == 0
    {
      cache := new ConversionList[PORTS](_ => EMPTY);
      new;
      assert cache[..] == NewLists();
    }

    method Add(e: ConversionEntry, now: int)
      requires Valid() && IsPort(e.srcport)
      modifies cache
      ensures Valid() && View() == AddEntry(old(View()), e, now)
    {
      ghost var before := View();
      var elem := cache[e.srcport];
      if |elem.slots| == 0 {
        cache[e.srcport] := elem.(nextEntry := 0, slots := Zeros(RING_SIZE));
      }
      AddToConversionList(e, now);
      assert View() == AddEntry(before, e, now);
    }

    /** Needs the port's ring to be made already. */
    method AddToConversionList(e: ConversionEntry, now: int)
      requires Valid() && IsPort(e.srcport) && cache[e.srcport].slots != []
      modifies cache
      ensures View() == AddEntry(old(View()), e, now)
    {
      var elem := cache[e.srcport];
      var exists_, position := false, 0;
      var i := 0;
      while i < |elem.slots|
        invariant 0 <= i <= |elem.slots| && !exists_
        invariant forall j | 0 <= j < i :: elem.slots[j].dstport != e.dstport
      {
        if elem.slots[i].dstport == e.dstport {
          exists_, position := true, i;
          break;
        }
        i := i + 1;
      }
      if exists_ {
        elem := elem.(lastUsed := now, slots := elem.slots[position := e]);
      } else {
        elem := elem.(lastUsed := now, slots := elem.slots[elem.nextEntry := e],
                      nextEntry := (elem.nextEntry + 1) % RING_SIZE);
      }
      cache[e.srcport] := elem;
      assert View() == AddEntry(old(View()), e, now);
    }

    method RetrieveByServiceIp(srcip: Ip, instanceIp: Ip, srcport: int, dstServiceIp: Ip, dstport: int, now: int)
      returns (r: Option<ConversionEntry>)
      requires Valid() && IsPort(srcport)
      modifies cache
      ensures Valid() && r == Retrieve(old(View()), ByService(srcip, instanceIp, dstServiceIp), srcport, dstport)
      ensures View() == AfterRetrieve(old(View()), ByService(srcip, instanceIp, dstServiceIp), srcport, dstport, now)
    {
      r := RetrieveMatching(ByService(srcip, instanceIp, dstServiceIp), srcport, dstport, now);
    }

    method RetrieveByInstanceIp(srcip: Ip, srcport: int, dstport: int, now: int)
      returns (r: Option<ConversionEntry>)
      requires Valid() && IsPort(srcport)
      modifies cache
      ensures Valid() && r == Retrieve(old(View()), ByInstance(srcip), srcport, dstport)
      ensures View() == AfterRetrieve(old(View()), ByInstance(srcip), srcport, dstport, now)
    {
      r := RetrieveMatching(ByInstance(srcip), srcport, dstport, now);
    }

    /** The scan both lookups make. */
    method RetrieveMatching(key: Key, srcport: int, dstport: int, now: int) returns (r: Option<ConversionEntry>)
      requires Valid() && IsPort(srcport)
      modifies cache
      ensures Valid() && r == Retrieve(old(View()), key, srcport, dstport)
      ensures View() == AfterRetrieve(old(View()), key, srcport, dstport, now)
    {
      ghost var before := cache[..];
      var elem := cache[srcport];
      r := None;
      var i := 0;
      assert elem.slots[i..] == elem.slots;
      while i < |elem.slots|
        invariant 0 <= i <= |elem.slots| && r.None? && cache[..] == before
        invariant Lookup(elem.slots[i..], key, dstport) == Lookup(elem.slots, key, dstport)
      {
        LookupStep(elem.slots, i, key, dstport);
        if Matches(elem.slots[i], key, dstport) {
          r := Some(elem.slots[i]);
          break;
        }
        i := i + 1;
      }
      assert r == Lookup(elem.slots, key, dstport) by {
        if r.None? { assert elem.slots[i..] == []; }
      }
      if r.Some? {
        cache[srcport] := elem.(lastUsed := now);
      }
      assert cache[..] == before[srcport := Touch(elem, r.Some?, now)];
    }

    method EvictOldEntries(now: int, timeout: int)
      requires Valid()
      modifies cache
      ensures Valid() && View() == Evict(old(View()), now, timeout)
    {
      for i := 0 to cache.Length
        invariant forall j | 0 <= j < i :: cache[j] == EvictList(old(cache[j]), now, timeout)
        invariant forall j | i <= j < cache.Length :: cache[j] == old(cache[j])
      {
        var lastUsed := cache[i].lastUsed;
        if lastUsed != 0 && now - lastUsed > timeout {
          cache[i] := cache[i].(lastUsed := 0);
          cache[i] := cache[i].(nextEntry := 0);
          cache[i] := cache[i].(slots := []);
        }
      }
      assert View() == Evict(old(View()), now, timeout);
    }
  }
}
