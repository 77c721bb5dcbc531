/**
 The ring of a source port refines a bounded first-in first-out queue of
 entries with distinct destination ports.
 */
module FifoRefinement {
  import opened Wrappers
  import opened Addresses
  import opened ProxyCacheSpec

  /** The simple form: oldest entry first. */
  datatype Fifo = Fifo(queue: seq<ConversionEntry>, lastUsed: int)

  function Push(q: seq<ConversionEntry>, e: ConversionEntry): (r: seq<ConversionEntry>)
  {
    var i := FindPort(q, e.dstport);
    if i < |q| then q[i := e]
    else if |q| < RING_SIZE then q + [e]
    else q[1..] + [e]
  }

  function FifoApply(f: Fifo, op: Op, p: int): Fifo
  {
    match op
    case Add(e, now) => if e.srcport == p then Fifo(Push(f.queue, e), now) else f
    case Get(key, srcport, dstport, now) =>
      if srcport == p && Lookup(f.queue, key, dstport).Some? then f.(lastUsed := now) else f
    case EvictOld(now, timeout) =>
      if f.lastUsed != 0 && now - f.lastUsed > timeout then Fifo([], 0) else f
  }

  function FifoRun(ops: seq<Op>, p: int): Fifo
  {
    if ops == [] then Fifo([], 0) else FifoApply(FifoRun(ops[..|ops| - 1], p), ops[|ops| - 1], p)
  }

  // ---------- Rotations ----------

  function Rotate<T>(s: seq<T>, n: nat): (r: seq<T>)
    requires n <= |s|
    ensures |r| == |s|
    ensures forall j | 0 <= j < |s| :: r[j] == s[if n + j < |s| then n + j else n + j - |s|]
  {
    s[n..] + s[..n]
  }

  /** Overwriting the oldest element and moving on drops it and appends the new one. */
  lemma RotateShift<T>(s: seq<T>, n: nat, x: T)
    requires n < |s|
    ensures Rotate(s[n := x], if n + 1 == |s| then 0 else n + 1) == Rotate(s, n)[1..] + [x]
  {
  }

  /** Overwriting any element overwrites it in the rotation. */
  lemma RotateUpdate<T>(s: seq<T>, n: nat, i: nat, x: T)
    requires n < |s| && i < |s|
    ensures Rotate(s[i := x], n) == Rotate(s, n)[if n <= i then i - n else |s| - n + i := x]
  {
  }

  // ---------- The ring ----------

  /** The entries of a ring, oldest first: a ring with a free next slot has not wrapped yet. */
  function Queue(l: ConversionList): seq<ConversionEntry>
    requires RingShape(l)
  {
    if l.slots == [] then []
    else if l.slots[l.nextEntry].dstport == 0 then l.slots[..l.nextEntry]
    else Rotate(l.slots, l.nextEntry)
  }

  /** Real ports, none twice. */
  ghost predicate Filled(s: seq<ConversionEntry>)
  {
    && (forall i | 0 <= i < |s| :: s[i].dstport >= 1)
    && (forall i, j | 0 <= i < j < |s| :: s[i].dstport != s[j].dstport)
  }

  /** The ring has not wrapped: filled slots, then free ones from the next slot on. */
  ghost predicate Filling(l: ConversionList)
  {
    && |l.slots| == RING_SIZE && l.nextEntry < RING_SIZE
    && Filled(l.slots[..l.nextEntry])
    && (forall i | l.nextEntry <= i < RING_SIZE :: l.slots[i] == ZERO)
  }

  ghost predicate Full(l: ConversionList)
  {
    |l.slots| == RING_SIZE && l.nextEntry < RING_SIZE && Filled(l.slots)
  }

  ghost predicate RingInv(l: ConversionList)
  {
    l.slots == [] || Filling(l) || Full(l)
  }

  /** What adding does to a ring that is made, by where the port is found. */
  lemma AddToMade(l: ConversionList, e: ConversionEntry, now: int, i: nat)
    requires |l.slots| == RING_SIZE && l.nextEntry < RING_SIZE && FindPort(l.slots, e.dstport) == i
    ensures AddToList(l, e, now) ==
            if i < RING_SIZE then ConversionList(l.nextEntry, now, l.slots[i := e])
            else
              var next := if l.nextEntry + 1 == RING_SIZE then 0 else l.nextEntry + 1;
              ConversionList(next, now, l.slots[l.nextEntry := e])
  {
  }

  lemma FilledUpdate(s: seq<ConversionEntry>, i: nat, e: ConversionEntry)
    requires Filled(s) && i < |s| && e.dstport >= 1
    requires forall j | 0 <= j < |s| && j != i :: s[j].dstport != e.dstport
    ensures Filled(s[i := e])
  {
  }

  lemma FillingUpdate(l: ConversionList, e: ConversionEntry, now: int, i: nat)
    requires Filling(l) && e.dstport >= 1 && i < l.nextEntry && FindPort(Queue(l), e.dstport) == i
    ensures Filling(AddToList(l, e, now)) && Queue(AddToList(l, e, now)) == Queue(l)[i := e]
  {
    var n, q := l.nextEntry, l.slots[..l.nextEntry];
    assert forall j | 0 <= j < n :: l.slots[j] == q[j];
    FindPortAt(l.slots, e.dstport, i);
    AddToMade(l, e, now, i);
    assert l.slots[i := e][..n] == q[i := e];
    FilledUpdate(q, i, e);
  }

  lemma FilledAppend(q: seq<ConversionEntry>, e: ConversionEntry)
    requires Filled(q) && e.dstport >= 1 && FindPort(q, e.dstport) == |q|
    ensures Filled(q + [e])
  {
  }

  lemma FillingPushSlots(l: ConversionList, e: ConversionEntry, now: int)
    requires Filling(l) && e.dstport >= 1 && FindPort(Queue(l), e.dstport) == l.nextEntry
    ensures AddToList(l, e, now) ==
            ConversionList(if l.nextEntry + 1 == RING_SIZE then 0 else l.nextEntry + 1, now, l.slots[l.nextEntry := e])
  {
    var n, q := l.nextEntry, l.slots[..l.nextEntry];
    assert forall j | 0 <= j < n :: l.slots[j] == q[j];
    FindPortAt(l.slots, e.dstport, RING_SIZE);
    AddToMade(l, e, now, RING_SIZE);
  }

  lemma FillingPush(l: ConversionList, e: ConversionEntry, now: int)
    requires Filling(l) && e.dstport >= 1 && FindPort(Queue(l), e.dstport) == l.nextEntry
    ensures RingInv(AddToList(l, e, now)) && Queue(AddToList(l, e, now)) == Queue(l) + [e]
  {
    var n, q := l.nextEntry, l.slots[..l.nextEntry];
    FillingPushSlots(l, e, now);
    FilledAppend(q, e);
    var slots := l.slots[n := e];
    assert slots[..n + 1] == q + [e];
    if n + 1 == RING_SIZE {
      assert slots == q + [e] == Rotate(slots, 0);
    }
  }

  lemma FillingAdd(l: ConversionList, e: ConversionEntry, now: int)
    requires Filling(l) && e.dstport >= 1
    ensures RingInv(AddToList(l, e, now)) && Queue(AddToList(l, e, now)) == Push(Queue(l), e)
  {
    var i := FindPort(Queue(l), e.dstport);
    if i < l.nextEntry {
      FillingUpdate(l, e, now, i);
    } else {
      FillingPush(l, e, now);
    }
  }

  /** Where a port ends up in the rotation. */
  lemma RotatedPort(s: seq<ConversionEntry>, n: nat, i: nat)
    requires Filled(s) && n < |s| && i < |s|
    ensures FindPort(Rotate(s, n), s[i].dstport) == if n <= i then i - n else |s| - n + i
  {
    FindPortAt(Rotate(s, n), s[i].dstport, if n <= i then i - n else |s| - n + i);
  }

  lemma FullUpdate(l: ConversionList, e: ConversionEntry, now: int, i: nat)
    requires Full(l) && e.dstport >= 1 && i < RING_SIZE && FindPort(l.slots, e.dstport) == i
    ensures Full(AddToList(l, e, now)) && Queue(AddToList(l, e, now)) == Push(Queue(l), e)
  {
    AddToMade(l, e, now, i);
    FilledUpdate(l.slots, i, e);
    RotateUpdate(l.slots, l.nextEntry, i, e);
    RotatedPort(l.slots, l.nextEntry, i);
    assert l.slots[i := e][l.nextEntry].dstport >= 1;
  }

  lemma FullPush(l: ConversionList, e: ConversionEntry, now: int)
    requires Full(l) && FindPort(l.slots, e.dstport) == RING_SIZE
    ensures e.dstport >= 1 ==> Full(AddToList(l, e, now))
    ensures Queue(AddToList(l, e, now)) == Push(Queue(l), e)
  {
    var n := l.nextEntry;
    var after := if n + 1 == RING_SIZE then 0 else n + 1;
    AddToMade(l, e, now, RING_SIZE);
    RotateShift(l.slots, n, e);
    FindPortAt(Rotate(l.slots, n), e.dstport, RING_SIZE);
    if e.dstport >= 1 {
      FilledUpdate(l.slots, n, e);
    }
    assert l.slots[n := e][after].dstport >= 1;
  }

  /** A nil list behaves like a ring of free slots. */
  function Made(l: ConversionList): ConversionList {
    if l.slots == [] then l.(nextEntry := 0, slots := Zeros(RING_SIZE)) else l
  }

  /** Adding to the ring is pushing to the queue. */
  lemma AddRefinesPush(l: ConversionList, e: ConversionEntry, now: int)
    requires RingInv(l) && e.dstport >= 1
    ensures RingInv(AddToList(l, e, now)) && Queue(AddToList(l, e, now)) == Push(Queue(l), e)
  {
    var m := Made(l);
    assert AddToList(l, e, now) == AddToList(m, e, now) && Queue(m) == Queue(l);
    if Full(m) {
      var i := FindPort(m.slots, e.dstport);
      if i < RING_SIZE {
        FullUpdate(m, e, now, i);
      } else {
        FullPush(m, e, now);
      }
    } else {
      FillingAdd(m, e, now);
    }
  }

  /**
   With destination port 0 the ring falls behind the queue exactly while it
   has a free slot: the entry lands on that slot and does not take it.
   */
  lemma PortZeroBreaksTheQueue(l: ConversionList, e: ConversionEntry, now: int)
    requires RingInv(l) && IsPort(e.dstport)
    ensures Queue(AddToList(l, e, now)) == Push(Queue(l), e) <==> (e.dstport >= 1 || |Queue(l)| == RING_SIZE)
  {
    var m := Made(l);
    assert AddToList(l, e, now) == AddToList(m, e, now) && Queue(m) == Queue(l);
    if e.dstport >= 1 {
      AddRefinesPush(l, e, now);
    } else if Full(m) {
      FindPortAt(m.slots, 0, RING_SIZE);
      FullPush(m, e, now);
    } else {
      FillingKeepsQueue(m, e, now);
      FindPortAt(Queue(m), 0, |Queue(m)|);
    }
  }

  /** On a ring that has not wrapped, port 0 lands on the free next slot and leaves it next. */
  lemma FillingKeepsQueue(l: ConversionList, e: ConversionEntry, now: int)
    requires Filling(l) && e.dstport == 0
    ensures Queue(AddToList(l, e, now)) == Queue(l) && Filled(Queue(l)) && |Queue(l)| < RING_SIZE
  {
    var q, n := l.slots[..l.nextEntry], l.nextEntry;
    assert forall j | 0 <= j < n :: l.slots[j] == q[j];
    FindPortAt(l.slots, 0, n);
    AddToMade(l, e, now, n);
    assert l.slots[n := e][..n] == q;
  }

  /** The queue holds the filled slots and nothing else. */
  lemma QueueContents(l: ConversionList, x: ConversionEntry)
    requires RingInv(l)
    ensures x in Queue(l) ==> x in l.slots && x.dstport >= 1
    ensures x in l.slots ==> x == ZERO || x in Queue(l)
  {
    if l.slots != [] {
      assert l.slots == l.slots[..l.nextEntry] + l.slots[l.nextEntry..];
    }
  }

  /** Both forms answer every lookup alike. */
  lemma LookupRefines(l: ConversionList, key: Key, dstport: int)
    requires RingInv(l) && key.srcip != NoIp
    ensures Lookup(l.slots, key, dstport) == Lookup(Queue(l), key, dstport)
  {
    forall x ensures x in Queue(l) ==> x in l.slots && x.dstport >= 1
             ensures x in l.slots ==> x == ZERO || x in Queue(l)
    {
      QueueContents(l, x);
    }
    UniqueMatch(l, key, dstport);
  }

  lemma UniqueMatch(l: ConversionList, key: Key, dstport: int)
    requires RingInv(l) && key.srcip != NoIp
    ensures forall x <- l.slots, y <- l.slots | Matches(x, key, dstport) && Matches(y, key, dstport) :: x == y
  {
    forall x <- l.slots, y <- l.slots | Matches(x, key, dstport) && Matches(y, key, dstport)
      ensures x == y
    {
      var i :| 0 <= i < |l.slots| && l.slots[i] == x;
      var j :| 0 <= j < |l.slots| && l.slots[j] == y;
      if Filling(l) {
        assert i < l.nextEntry && j < l.nextEntry;
        assert l.slots[..l.nextEntry][i] == x && l.slots[..l.nextEntry][j] == y;
      }
    }
  }

  predicate PositivePorts(ops: seq<Op>)
  {
    forall op <- ops :: op.Add? ==> op.e.dstport >= 1
  }

  /** Over every history of adds, lookups and evictions, each ring stands for its queue. */
  lemma {:induction false} RingRefinesFifo(ops: seq<Op>, p: int)
    requires WellFormedOps(ops) && PositivePorts(ops) && IsPort(p)
    ensures var l := Run(NewLists(), ops)[p];
            RingInv(l) && Fifo(Queue(l), l.lastUsed) == FifoRun(ops, p)
  {
    if ops != [] {
      var front, op := ops[..|ops| - 1], ops[|ops| - 1];
      assert WellFormedOp(op) && op in ops;
      RingRefinesFifo(front, p);
      StepRefines(Run(NewLists(), front), op, p);
    }
  }

  lemma StepRefines(c: Lists, op: Op, p: int)
    requires ValidLists(c) && IsPort(p) && WellFormedOp(op) && (op.Add? ==> op.e.dstport >= 1)
    requires RingInv(c[p])
    ensures var l := Apply(c, op)[p];
            RingInv(l) && Fifo(Queue(l), l.lastUsed) == FifoApply(Fifo(Queue(c[p]), c[p].lastUsed), op, p)
  {
    match op
    case Add(e, now) =>
      if e.srcport == p { AddRefinesPush(c[p], e, now); }
    case Get(key, srcport, dstport, now) =>
      if srcport == p { LookupRefines(c[p], key, dstport); }
    case EvictOld(now, timeout) =>
  }

  /** A queue never exceeds the ring and never repeats a destination port. */
  ghost predicate FifoInv(q: seq<ConversionEntry>)
  {
    |q| <= RING_SIZE && forall i, j | 0 <= i < j < |q| :: q[i].dstport != q[j].dstport
  }

  // ---------- How long an entry survives ----------

  function PushAll(q: seq<ConversionEntry>, adds: seq<ConversionEntry>): seq<ConversionEntry>
    decreases |adds|
  {
    if adds == [] then q else PushAll(Push(q, adds[0]), adds[1..])
  }

  /**
   The entry at position k survives any additions for other ports that are no
   more than the free places and the places before it.
   */
  lemma {:induction false} EntrySurvives(q: seq<ConversionEntry>, k: nat, adds: seq<ConversionEntry>)
    requires FifoInv(q) && k < |q|
    requires forall a <- adds :: a.dstport != q[k].dstport
    requires |adds| <= k + (RING_SIZE - |q|)
    ensures q[k] in PushAll(q, adds)
    decreases |adds|
  {
    if adds != [] {
      var q', a := Push(q, adds[0]), adds[0];
      var i := FindPort(q, a.dstport);
      if i == |q| == RING_SIZE {
        assert q'[k - 1] == q[k];
        EntrySurvives(q', k - 1, adds[1..]);
      } else {
        assert q'[k] == q[k];
        EntrySurvives(q', k, adds[1..]);
      }
    }
  }

  /** Every addition is for a port that neither the queue nor an earlier addition has. */
  ghost predicate AllNew(q: seq<ConversionEntry>, adds: seq<ConversionEntry>)
  {
    && (forall x <- q, a <- adds :: x.dstport != a.dstport)
    && (forall i, j | 0 <= i < j < |adds| :: adds[i].dstport != adds[j].dstport)
  }

  lemma PushNew(q: seq<ConversionEntry>, adds: seq<ConversionEntry>)
    requires FifoInv(q) && AllNew(q, adds) && adds != []
    ensures Push(q, adds[0]) == (if |q| < RING_SIZE then q else q[1..]) + [adds[0]]
    ensures FifoInv(Push(q, adds[0])) && AllNew(Push(q, adds[0]), adds[1..])
  {
    assert adds[0] in adds;
    FindPortAt(q, adds[0].dstport, |q|);
    forall x <- Push(q, adds[0]), a <- adds[1..] ensures x.dstport != a.dstport {
      if x in q { assert a in adds; }
    }
  }

  /** The last ten of a list. */
  function LastTen<T>(s: seq<T>): seq<T> {
    if |s| <= 10 then s else s[|s| - 10..]
  }

  /** Additions for new ports leave the ten newest entries, in the order of their additions. */
  lemma {:induction false} NewestTenStay(q: seq<ConversionEntry>, adds: seq<ConversionEntry>)
    requires FifoInv(q) && AllNew(q, adds)
    ensures PushAll(q, adds) == LastTen(q + adds)
    decreases |adds|
  {
    if adds == [] {
      assert q + adds == q;
    } else {
      PushNew(q, adds);
      NewestTenStay(Push(q, adds[0]), adds[1..]);
      LastTenGoesOn(q, adds);
    }
  }

  lemma LastTenGoesOn<T>(q: seq<T>, adds: seq<T>)
    requires |q| <= 10 && adds != []
    ensures LastTen((if |q| < 10 then q else q[1..]) + [adds[0]] + adds[1..]) == LastTen(q + adds)
  {
    var shorter := (if |q| < 10 then q else q[1..]) + [adds[0]] + adds[1..];
    assert shorter == if |q| < 10 then q + adds else (q + adds)[1..];
  }

  /** With additions for new ports only, it survives if and only if they are no more than that. */
  lemma {:induction false} EntrySurvivesExactly(q: seq<ConversionEntry>, k: nat, adds: seq<ConversionEntry>)
    requires FifoInv(q) && k < |q| && AllNew(q, adds)
    ensures q[k] in PushAll(q, adds) <==> |adds| <= k + (RING_SIZE - |q|)
    decreases |adds|
  {
    if adds != [] {
      PushNew(q, adds);
      var q' := Push(q, adds[0]);
      if |q| < RING_SIZE {
        EntrySurvivesExactly(q', k, adds[1..]);
      } else if k > 0 {
        EntrySurvivesExactly(q', k - 1, adds[1..]);
      } else {
        assert forall a <- adds :: a.dstport != q[0].dstport;
        PortStaysGone(q', q[0].dstport, adds[1..]);
      }
    }
  }

  lemma {:induction false} PortStaysGone(q: seq<ConversionEntry>, d: int, adds: seq<ConversionEntry>)
    requires forall x <- q :: x.dstport != d
    requires forall a <- adds :: a.dstport != d
    ensures forall x <- PushAll(q, adds) :: x.dstport != d
    decreases |adds|
  {
    if adds != [] {
      PortStaysGone(Push(q, adds[0]), d, adds[1..]);
    }
  }

  // ---------- How long a flow stays cached ----------

  /** The entries a history adds to a port's list, in order. */
  function AddsAt(ops: seq<Op>, p: int): seq<ConversionEntry>
  {
    if ops == [] then [] else
    var front, op := AddsAt(ops[..|ops| - 1], p), ops[|ops| - 1];
    if op.Add? && op.e.srcport == p then front + [op.e] else front
  }

  lemma {:induction false} PushAllSnoc(q: seq<ConversionEntry>, adds: seq<ConversionEntry>, a: ConversionEntry)
    ensures PushAll(q, adds + [a]) == Push(PushAll(q, adds), a)
    decreases |adds|
  {
    if adds == [] {
      assert PushAll(Push(q, a), []) == Push(q, a);
    } else {
      assert (adds + [a])[1..] == adds[1..] + [a];
      PushAllSnoc(Push(q, adds[0]), adds[1..], a);
    }
  }

  /** No eviction in `later` can find a list idle that was used at time t. */
  predicate WithinTimeout(later: seq<Op>, t: int)
  {
    forall op <- later :: op.now >= t && (op.EvictOld? ==> op.now - t <= op.timeout)
  }

  lemma {:induction false} OnlyPushes(ops: seq<Op>, later: seq<Op>, p: int, t: int)
    requires FifoRun(ops, p).lastUsed >= t && WithinTimeout(later, t)
    ensures FifoRun(ops + later, p).lastUsed >= t
    ensures FifoRun(ops + later, p).queue == PushAll(FifoRun(ops, p).queue, AddsAt(later, p))
    decreases |later|
  {
    if later == [] {
      assert ops + later == ops;
    } else {
      var front, op := later[..|later| - 1], later[|later| - 1];
      assert op in later && forall o <- front :: o in later;
      OnlyPushes(ops, front, p, t);
      assert (ops + later)[..|ops + later| - 1] == ops + front;
      if op.Add? && op.e.srcport == p {
        PushAllSnoc(FifoRun(ops, p).queue, AddsAt(front, p), op.e);
      }
    }
  }

  lemma {:induction false} FifoRunInv(ops: seq<Op>, p: int)
    ensures FifoInv(FifoRun(ops, p).queue)
  {
    if ops != [] {
      var q, op := FifoRun(ops[..|ops| - 1], p).queue, ops[|ops| - 1];
      FifoRunInv(ops[..|ops| - 1], p);
      if op.Add? && op.e.srcport == p {
        var r := Push(q, op.e);
        assert forall i | 0 <= i < |r| :: r[i] == op.e || r[i] in q;
      }
    }
  }

  lemma {:induction false} AddsAtSource(ops: seq<Op>, p: int, e: ConversionEntry)
    requires e in AddsAt(ops, p)
    ensures exists op <- ops :: op.Add? && op.e == e && e.srcport == p
  {
    var op := ops[|ops| - 1];
    if op.Add? && op.e.srcport == p && op.e == e {
      assert op in ops;
    } else {
      AddsAtSource(ops[..|ops| - 1], p, e);
    }
  }

  /**
   A new flow's entry is found by the reverse lookup as long as its port pair
   is not added again, fewer than RING_SIZE entries are added to its list, and
   no eviction comes later than the timeout after it was added.
   */
  lemma FlowStaysCached(ops: seq<Op>, e: ConversionEntry, now: int, later: seq<Op>)
    requires WellFormedOp(Add(e, now)) && e.dstport >= 1 && e.srcip != NoIp && now > 0
    requires var all := ops + [Add(e, now)] + later; WellFormedOps(all) && PositivePorts(all)
    requires FindPort(FifoRun(ops, e.srcport).queue, e.dstport) == |FifoRun(ops, e.srcport).queue|
    requires forall op <- later :: op.Add? ==> !(op.e.srcport == e.srcport && op.e.dstport == e.dstport)
    requires |AddsAt(later, e.srcport)| < RING_SIZE && WithinTimeout(later, now)
    ensures Retrieve(Run(NewLists(), ops + [Add(e, now)] + later), ByInstance(e.srcip), e.srcport, e.dstport) == Some(e)
  {
    var p, first := e.srcport, ops + [Add(e, now)];
    var all := first + later;
    assert first[..|first| - 1] == ops;
    FifoRunInv(ops, p);
    FifoRunInv(first, p);
    var q := FifoRun(first, p).queue;
    assert q[|q| - 1] == e;
    OnlyPushes(first, later, p, now);
    forall a <- AddsAt(later, p) ensures a.dstport != e.dstport { AddsAtSource(later, p, a); }
    EntrySurvives(q, |q| - 1, AddsAt(later, p));
    RingRefinesFifo(all, p);
    LookupRefines(Run(NewLists(), all)[p], ByInstance(e.srcip), e.dstport);
    FifoRunInv(all, p);
  }
}
