/**
 The conversion cache of the proxy, on values: one ring of conversion entries
 per source port. The class ProxyCache.Cache works on this in place.
 */
module ProxyCacheSpec {
  import opened Wrappers
  import opened Addresses

  datatype ConversionEntry = ConversionEntry(
    srcip: Ip, dstip: Ip, dstServiceIp: Ip, srcInstanceIp: Ip, srcport: int, dstport: int)

  /** A slot of a ring that was made but never filled. */
  const ZERO: ConversionEntry := ConversionEntry(NoIp, NoIp, NoIp, NoIp, 0, 0)

  const PORTS: nat := 65536
  const RING_SIZE: nat := 10

  /** `slots` is empty exactly while the list is nil; `lastUsed` is in Unix seconds, 0 for never. */
  datatype ConversionList = ConversionList(nextEntry: nat, lastUsed: int, slots: seq<ConversionEntry>)

  const EMPTY: ConversionList := ConversionList(0, 0, [])

  type Lists = seq<ConversionList>

  // ---------- Operations ----------

  function Zeros(n: nat): (s: seq<ConversionEntry>)
    ensures |s| == n && forall i | 0 <= i < n :: s[i] == ZERO
  {
    seq(n, _ => ZERO)
  }

  /** The first slot for a destination port, or the number of slots. */
  function FindPort(slots: seq<ConversionEntry>, dstport: int): (i: nat)
    ensures i <= |slots|
    ensures i < |slots| ==> slots[i].dstport == dstport
    ensures forall j | 0 <= j < i :: slots[j].dstport != dstport
  {
    if slots == [] then 0
    else if slots[0].dstport == dstport then 0
    else 1 + FindPort(slots[1..], dstport)
  }

  /** FindPort is determined by its position when ports are distinct. */
  lemma {:induction false} FindPortAt(s: seq<ConversionEntry>, d: int, i: nat)
    requires i <= |s| && (i < |s| ==> s[i].dstport == d)
    requires forall j | 0 <= j < i :: s[j].dstport != d
    ensures FindPort(s, d) == i
  {
    var k := FindPort(s, d);
    assert !(k < i) && !(i < k);
  }

  predicate RingShape(l: ConversionList)
  {
    l.slots == [] || (|l.slots| == RING_SIZE && l.nextEntry < RING_SIZE)
  }

  function AddToList(l: ConversionList, e: ConversionEntry, now: int): (r: ConversionList)
    requires RingShape(l)
    ensures RingShape(r) && r.slots != []
  {
    var slots := if l.slots == [] then Zeros(RING_SIZE) else l.slots;
    var next := if l.slots == [] then 0 else l.nextEntry;
    var i := FindPort(slots, e.dstport);
    if i < |slots| then
      ConversionList(next, now, slots[i := e])
    else
      ConversionList((next + 1) % RING_SIZE, now, slots[next := e])
  }

  /** A lookup key: the addresses a slot must carry besides its destination port. */
  datatype Key =
    | ByService(srcip: Ip, instanceIp: Ip, dstServiceIp: Ip)
    | ByInstance(srcip: Ip)

  predicate Matches(e: ConversionEntry, key: Key, dstport: int)
  {
    && e.dstport == dstport
    && e.srcip == key.srcip
    && (key.ByService? ==> e.dstServiceIp == key.dstServiceIp && e.srcInstanceIp == key.instanceIp)
  }

  function Lookup(slots: seq<ConversionEntry>, key: Key, dstport: int): (r: Option<ConversionEntry>)
    ensures r.Some? ==> r.value in slots && Matches(r.value, key, dstport)
    ensures r.None? ==> forall e <- slots :: !Matches(e, key, dstport)
  {
    if slots == [] then None
    else if Matches(slots[0], key, dstport) then Some(slots[0])
    else Lookup(slots[1..], key, dstport)
  }

  function Touch(l: ConversionList, hit: bool, now: int): ConversionList {
    if hit then l.(lastUsed := now) else l
  }

  predicate Stale(l: ConversionList, now: int, timeout: int)
  {
    l.lastUsed != 0 && now - l.lastUsed > timeout
  }

  function EvictList(l: ConversionList, now: int, timeout: int): ConversionList {
    if Stale(l, now, timeout) then EMPTY else l
  }

  predicate ValidLists(c: Lists)
  {
    |c| == PORTS && forall p | 0 <= p < |c| :: RingShape(c[p])
  }

  predicate IsPort(p: int) { 0 <= p < PORTS }

  function AddEntry(c: Lists, e: ConversionEntry, now: int): (r: Lists)
    requires ValidLists(c) && IsPort(e.srcport)
    ensures ValidLists(r)
  {
    c[e.srcport := AddToList(c[e.srcport], e, now)]
  }

  function Retrieve(c: Lists, key: Key, srcport: int, dstport: int): Option<ConversionEntry>
    requires ValidLists(c) && IsPort(srcport)
  {
    Lookup(c[srcport].slots, key, dstport)
  }

  function AfterRetrieve(c: Lists, key: Key, srcport: int, dstport: int, now: int): (r: Lists)
    requires ValidLists(c) && IsPort(srcport)
    ensures ValidLists(r)
  {
    c[srcport := Touch(c[srcport], Retrieve(c, key, srcport, dstport).Some?, now)]
  }

  function Evict(c: Lists, now: int, timeout: int): (r: Lists)
    requires ValidLists(c)
    ensures ValidLists(r)
  {
    seq(|c|, i requires 0 <= i < |c| => EvictList(c[i], now, timeout))
  }

  // ---------- Runs ----------

  datatype Op =
    | Add(e: ConversionEntry, now: int)
    | Get(key: Key, srcport: int, dstport: int, now: int)
    | EvictOld(now: int, timeout: int)

  /** What callers pass: real ports, and lookup keys with a real source address. */
  predicate WellFormedOp(op: Op)
  {
    match op
    case Add(e, _) => IsPort(e.srcport) && IsPort(e.dstport)
    case Get(key, srcport, _, _) => IsPort(srcport) && key.srcip != NoIp
    case EvictOld(_, _) => true
  }

  predicate WellFormedOps(ops: seq<Op>)
  {
    forall op <- ops :: WellFormedOp(op)
  }

  function Apply(c: Lists, op: Op): (r: Lists)
    requires ValidLists(c) && WellFormedOp(op)
    ensures ValidLists(r)
  {
    match op
    case Add(e, now) => AddEntry(c, e, now)
    case Get(key, srcport, dstport, now) => AfterRetrieve(c, key, srcport, dstport, now)
    case EvictOld(now, timeout) => Evict(c, now, timeout)
  }

  /** The cache after a history that starts from c. */
  function Run(c: Lists, ops: seq<Op>): (r: Lists)
    requires ValidLists(c) && WellFormedOps(ops)
    ensures ValidLists(r)
  {
    if ops == [] then c else Apply(Run(c, ops[..|ops| - 1]), ops[|ops| - 1])
  }

  function NewLists(): (c: Lists)
    ensures ValidLists(c)
  {
    seq(PORTS, _ => EMPTY)
  }

  // ---------- Last writer wins ----------

  /** The last entry a history adds for a pair of ports. */
  function Latest(ops: seq<Op>, srcport: int, dstport: int): Option<ConversionEntry>
  {
    if ops == [] then None else
    var op := ops[|ops| - 1];
    if op.Add? && op.e.srcport == srcport && op.e.dstport == dstport then Some(op.e)
    else Latest(ops[..|ops| - 1], srcport, dstport)
  }

  /** Within a ring, a repeated destination port is a slot that was never filled. */
  predicate DistinctPorts(slots: seq<ConversionEntry>)
  {
    forall i, j | 0 <= i < j < |slots| && slots[i].dstport == slots[j].dstport :: slots[j] == ZERO
  }

  ghost predicate HoldsLatest(c: Lists, ops: seq<Op>)
    requires ValidLists(c)
  {
    forall p | IsPort(p) ::
      && DistinctPorts(c[p].slots)
      && forall e <- c[p].slots :: e == ZERO || Latest(ops, p, e.dstport) == Some(e)
  }

  lemma {:induction false} RunHoldsLatest(ops: seq<Op>)
    requires WellFormedOps(ops)
    ensures HoldsLatest(Run(NewLists(), ops), ops)
  {
    if ops != [] {
      var front, op := ops[..|ops| - 1], ops[|ops| - 1];
      RunHoldsLatest(front);
      var c := Run(NewLists(), front);
      if op.Add? {
        AddHoldsLatest(c, front, op);
      }
    }
  }

  /** The history goes on with an addition: the latest entry changes for its pair of ports only. */
  lemma LatestAfterAdd(ops: seq<Op>, op: Op, srcport: int, dstport: int)
    requires op.Add?
    ensures Latest(ops + [op], srcport, dstport) ==
            if op.e.srcport == srcport && op.e.dstport == dstport then Some(op.e) else Latest(ops, srcport, dstport)
  {
    assert (ops + [op])[..|ops|] == ops;
  }

  /** Adding keeps ports distinct, and every slot is the new entry or an old one for another port. */
  lemma AddedSlots(l: ConversionList, e: ConversionEntry, now: int)
    requires RingShape(l) && DistinctPorts(l.slots)
    ensures DistinctPorts(AddToList(l, e, now).slots)
    ensures forall x <- AddToList(l, e, now).slots :: x == e || x == ZERO || (x in l.slots && x.dstport != e.dstport)
  {
    var slots := if l.slots == [] then Zeros(RING_SIZE) else l.slots;
    var next := if l.slots == [] then 0 else l.nextEntry;
    assert DistinctPorts(slots);
    var i := FindPort(slots, e.dstport);
    var at := if i < |slots| then i else next;
    var r := AddToList(l, e, now).slots;
    assert r == slots[at := e];
    forall k | 0 <= k < |r| && k != at ensures r[k] == ZERO || (r[k] in l.slots && r[k].dstport != e.dstport) {
      assert r[k] == slots[k];
    }
  }

  lemma AddHoldsLatest(c: Lists, ops: seq<Op>, op: Op)
    requires ValidLists(c) && HoldsLatest(c, ops) && op.Add? && WellFormedOp(op)
    ensures HoldsLatest(Apply(c, op), ops + [op])
  {
    var p := op.e.srcport;
    AddedSlots(c[p], op.e, op.now);
    forall q, x | IsPort(q) && x in Apply(c, op)[q].slots
      ensures x == ZERO || Latest(ops + [op], q, x.dstport) == Some(x)
    {
      LatestAfterAdd(ops, op, q, x.dstport);
    }
  }

  /** Whatever the history, a hit of either lookup is the latest entry added for the pair of ports. */
  lemma LastWriterWins(ops: seq<Op>, key: Key, srcport: int, dstport: int)
    requires WellFormedOps(ops) && IsPort(srcport) && key.srcip != NoIp
    ensures var hit := Retrieve(Run(NewLists(), ops), key, srcport, dstport);
            hit.Some? ==> hit == Latest(ops, srcport, dstport)
  {
    RunHoldsLatest(ops);
  }

  /** Hence the forward and the reverse lookup never disagree about a pair of ports. */
  lemma LookupsAgree(ops: seq<Op>, forward: Key, reverse: Key, srcport: int, dstport: int)
    requires WellFormedOps(ops) && IsPort(srcport)
    requires forward.ByService? && reverse.ByInstance? && forward.srcip != NoIp && reverse.srcip != NoIp
    ensures var c := Run(NewLists(), ops);
            var f, r := Retrieve(c, forward, srcport, dstport), Retrieve(c, reverse, srcport, dstport);
            f.Some? && r.Some? ==> f == r && forward.srcip == reverse.srcip
  {
    LastWriterWins(ops, forward, srcport, dstport);
    LastWriterWins(ops, reverse, srcport, dstport);
  }

  // ---------- Eviction ----------

  /** When a history last added to or hit a port's list since the list was last emptied; 0 for never. */
  function LastUse(c: Lists, ops: seq<Op>, p: int): int
    requires ValidLists(c) && WellFormedOps(ops) && IsPort(p)
  {
    if ops == [] then 0 else
    var front, op := ops[..|ops| - 1], ops[|ops| - 1];
    match op
    case Add(e, now) => if e.srcport == p then now else LastUse(c, front, p)
    case Get(key, srcport, dstport, now) =>
      if srcport == p && Retrieve(Run(c, front), key, srcport, dstport).Some? then now else LastUse(c, front, p)
    case EvictOld(now, timeout) =>
      if LastUse(c, front, p) != 0 && now - LastUse(c, front, p) > timeout then 0 else LastUse(c, front, p)
  }

  predicate PositiveClock(ops: seq<Op>)
  {
    forall op <- ops :: op.now > 0
  }

  lemma {:induction false} RunLastUse(ops: seq<Op>, p: int)
    requires WellFormedOps(ops) && PositiveClock(ops) && IsPort(p)
    ensures var l := Run(NewLists(), ops)[p];
            && l.lastUsed == LastUse(NewLists(), ops, p) >= 0
            && (l.slots == [] <==> l.lastUsed == 0)
            && (l.slots == [] ==> l == EMPTY)
  {
    if ops != [] {
      RunLastUse(ops[..|ops| - 1], p);
    }
  }

  /** An eviction drops exactly the lists that were idle for longer than the timeout. */
  lemma EvictionDropsExactlyTheIdle(ops: seq<Op>, now: int, timeout: int, p: int)
    requires WellFormedOps(ops) && PositiveClock(ops) && IsPort(p)
    ensures var before := Run(NewLists(), ops);
            var after := Apply(before, EvictOld(now, timeout));
            var used := LastUse(NewLists(), ops, p);
            && (used > 0 && now - used > timeout ==> after[p] == EMPTY != before[p])
            && (used > 0 && now - used <= timeout ==> after[p] == before[p] != EMPTY)
            && (used == 0 ==> after[p] == before[p] == EMPTY)
  {
    RunLastUse(ops, p);
  }
}
