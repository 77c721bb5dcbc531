/**
 The five address pools of the root service manager and the successor
 arithmetic that walks them. An address is the list of ints that the root
 keeps in its database: four octets, or sixteen bytes.
 */
module RootAddresses {
  import opened Wrappers
  import opened Bytes

  type Addr = seq<int>

  // The powers below are written over lengths so that the verifier keeps them symbolic.
  const TEN_BYTES: Addr := [0, 0, 0, 0, 0, 0, 0, 0, 0, 0]
  const THIRTEEN_BYTES: Addr := TEN_BYTES + [0, 0, 0]
  /** 256^10: the addresses under one six-byte prefix. */
  const P10: nat := Pow256(|TEN_BYTES|)
  /** 256^13: the worker subnets under one two-byte prefix. */
  const P13: nat := Pow256(|THIRTEEN_BYTES|)

  datatype Kind = Service4 | Service6 | RoundRobin6 | Subnet4 | Subnet6

  function Width(k: Kind): nat {
    if k.Service4? || k.Subnet4? then 4 else 16
  }

  /** The frontier of a pool from which nothing was issued yet. */
  function Base(k: Kind): Addr {
    match k
    case Service4 => [10, 30, 0, 0]
    case Service6 => [253, 255, 0, 0, 0, 0, 0, 0, 0, 0, 0, 0, 0, 0, 0, 0]
    case RoundRobin6 => [253, 255, 32, 0, 0, 0, 0, 0, 0, 0, 0, 0, 0, 0, 0, 0]
    case Subnet4 => [10, 18, 0, 0]
    case Subnet6 => [252, 0, 0, 0, 0, 0, 0, 0, 0, 0, 0, 0, 0, 0, 0, 0]
  }

  // ---------- Successors, as the code computes them ----------

  function IncreaseServiceAddress(addr: Addr): Result<Addr>
    requires |addr| == 4
  {
    var new3 := (addr[3] + 1) % 254;
    if new3 == 0 then
      var new2 := (addr[2] + 1) % 254;
      if new2 == 0 then Raise(ExhaustedAddressSpace) else Ok([addr[0], addr[1], new2, new3])
    else
      Ok([addr[0], addr[1], addr[2], new3])
  }

  function IncreaseServiceAddressV6(addr: Addr): Result<Addr>
    requires |addr| == 16 && AreBytes(addr)
  {
    FromBytesBound(addr[6..]);
    var next := FromBytes(addr[6..]) + 1;
    if next < Pow256(|addr[6..]|) then
      Ok(addr[..6] + ToBytes(next, |addr[6..]|))
    else if addr[2] == 0 then
      Ok([253, 255, 8, 0, 0, 0, 0, 0, 0, 0, 0, 0, 0, 0, 0, 0])
    else
      Raise(ExhaustedAddressSpace)
  }

  function IncreaseSubnetworkAddress(addr: Addr): Result<Addr>
    requires |addr| == 4
  {
    var new3 := (addr[3] + 64) % 256;
    var new2 := if new3 == 0 then (addr[2] + 1) % 256 else addr[2];
    if new2 == 0 && new2 != addr[2] then
      var new1 := (addr[1] + 1) % 30;
      if new1 == 0 then Raise(ExhaustedAddressSpace) else Ok([addr[0], new1, new2, new3])
    else
      Ok([addr[0], addr[1], new2, new3])
  }

  function IncreaseSubnetworkAddressV6(addr: Addr): Result<Addr>
    requires |addr| == 16 && AreBytes(addr)
  {
    FromBytesBound(addr[..15]);
    var next := FromBytes(addr[..15]) + 1;
    if next >= Pow256(|addr[..15]|) then
      Raise(OverflowError)
    else
      var subnet := ToBytes(next, |addr[..15]|);
      if subnet[0] == 253 && subnet[1] == 254 then
        Raise(ExhaustedAddressSpace)
      else
        Ok(subnet + [0])
  }

  function Increase(k: Kind, addr: Addr): Result<Addr>
    requires InPool(k, addr)
  {
    match k
    case Service4 => IncreaseServiceAddress(addr)
    case Service6 => IncreaseServiceAddressV6(addr)
    case RoundRobin6 => IncreaseServiceAddressV6(addr)
    case Subnet4 => IncreaseSubnetworkAddress(addr)
    case Subnet6 => IncreaseSubnetworkAddressV6(addr)
  }

  /** The sanity checks a new frontier goes through before it is stored. */
  predicate StoreAccepts(k: Kind, addr: Addr)
  {
    && |addr| == Width(k)
    && AreBytes(addr)
    && match k
       case Service4 => addr[0] == 10 && addr[1] == 30
       case Service6 => addr[0] == 253 && addr[1] == 255 && (addr[2] == 0 || addr[2] == 8)
       case RoundRobin6 => addr[0] == 253 && addr[1] == 255 && addr[2] == 32 && 0 <= addr[3] < 8
       case Subnet4 => addr[0] == 10 && 17 < addr[1] < 30
       case Subnet6 => 252 <= addr[0] <= 253
  }

  // ---------- The pools, described without the successors ----------

  predicate InPool(k: Kind, addr: Addr)
  {
    && |addr| == Width(k)
    && AreBytes(addr)
    && match k
       case Service4 => addr[0] == 10 && addr[1] == 30 && addr[2] < 254 && addr[3] < 254
       case Service6 => addr[..6] == [253, 255, 0, 0, 0, 0] || addr[..6] == [253, 255, 8, 0, 0, 0]
       case RoundRobin6 => addr[..6] == [253, 255, 32, 0, 0, 0]
       case Subnet4 => addr[0] == 10 && 18 <= addr[1] < 30 && addr[3] % 64 == 0
       case Subnet6 => addr[15] == 0 && 252 <= addr[0] <= 253 && !(addr[0] == 253 && addr[1] >= 254)
  }

  /** The position of an address in its pool. */
  function Rank(k: Kind, addr: Addr): int
    requires InPool(k, addr)
  {
    match k
    case Service4 => addr[2] * 254 + addr[3]
    case Service6 => (if addr[2] == 0 then 0 else P10) + FromBytes(addr[6..])
    case RoundRobin6 => FromBytes(addr[6..])
    case Subnet4 => ((addr[1] - 18) * 256 + addr[2]) * 4 + addr[3] / 64
    case Subnet6 => FromBytes(addr[..15]) - 0xFC00 * P13
  }

  function Size(k: Kind): int {
    match k
    case Service4 => 254 * 254
    case Service6 => 2 * P10
    case RoundRobin6 => P10
    case Subnet4 => 12 * 256 * 4
    case Subnet6 => 510 * P13
  }

  // ---------- Ranks count the pool ----------

  lemma FromTwoBytes(s: seq<int>)
    requires |s| == 2
    ensures FromBytes(s) == 256 * s[0] + s[1]
  {
    assert s[..1][..0] == [];
    assert FromBytes(s[..1]) == s[0];
  }

  /** The first two bytes of a worker prefix are its value's high part. */
  lemma PrefixHighPart(s: seq<int>)
    requires |s| == 15 && AreBytes(s)
    ensures 0 <= FromBytes(s[2..]) < P13
    ensures FromBytes(s) == (256 * s[0] + s[1]) * P13 + FromBytes(s[2..])
  {
    assert s == s[..2] + s[2..];
    FromBytesConcat(s[..2], s[2..]);
    FromBytesBound(s[2..]);
    FromTwoBytes(s[..2]);
  }

  lemma PrefixSpace(n: nat)
    requires n == |THIRTEEN_BYTES| + 2
    ensures Pow256(n) == 65536 * P13
  {
  }

  lemma MulMonotone(x: int, y: int, p: int)
    requires x <= y && 0 <= p
    ensures x * p <= y * p
  {
    assert 0 <= (y - x) * p;
  }

  lemma HighPartCompare(h: int, low: int, bound: int, p: int)
    requires 0 <= low < p
    ensures h * p + low < bound * p <==> h < bound
  {
    if h < bound {
      MulMonotone(h + 1, bound, p);
      assert (h + 1) * p == h * p + p;
    } else {
      MulMonotone(bound, h, p);
    }
  }

  /** A multiple of p is reached if and only if the high part reaches the factor. */
  lemma HighPartAtLeast(value: int, h: int, low: int, bound: int, p: int)
    requires 0 <= low < p && value == h * p + low
    ensures bound * p <= value <==> bound <= h
  {
    HighPartCompare(h, low, bound, p);
  }

  lemma PrefixRange(addr: Addr)
    requires |addr| == 16 && AreBytes(addr) && addr[15] == 0
    ensures InPool(Subnet6, addr) <==> 0xFC00 <= 256 * addr[0] + addr[1] < 0xFDFE
  {
  }

  lemma PrefixAtLeast(addr: Addr, bound: int)
    requires |addr| == 16 && AreBytes(addr)
    ensures bound * P13 <= FromBytes(addr[..15]) <==> bound <= 256 * addr[0] + addr[1]
  {
    var s := addr[..15];
    PrefixHighPart(s);
    HighPartAtLeast(FromBytes(s), 256 * s[0] + s[1], FromBytes(s[2..]), bound, P13);
  }

  lemma SubnetRank(addr: Addr)
    requires |addr| == 16 && AreBytes(addr) && addr[15] == 0
    ensures InPool(Subnet6, addr) <==> 0xFC00 * P13 <= FromBytes(addr[..15]) < 0xFDFE * P13
  {
    PrefixRange(addr);
    PrefixAtLeast(addr, 0xFC00);
    PrefixAtLeast(addr, 0xFDFE);
  }

  lemma RankBound(k: Kind, addr: Addr)
    requires InPool(k, addr)
    ensures 0 <= Rank(k, addr) < Size(k)
  {
    match k
    case Service4 =>
    case Service6 => FromBytesBound(addr[6..]);
    case RoundRobin6 => FromBytesBound(addr[6..]);
    case Subnet4 =>
    case Subnet6 => SubnetRank(addr); PrefixHighPart(addr[..15]);
  }

  /** Two pool addresses with one rank are the same address. */
  lemma RankInjective(k: Kind, a: Addr, b: Addr)
    requires InPool(k, a) && InPool(k, b) && Rank(k, a) == Rank(k, b)
    ensures a == b
  {
    match k
    case Service4 => Service4Injective(a, b);
    case Service6 => Service6Injective(a, b);
    case RoundRobin6 => TailInjective(a, b);
    case Subnet4 => Subnet4Injective(a, b);
    case Subnet6 =>
      FromBytesInjective(a[..15], b[..15]);
      assert a == a[..15] + [0] && b == b[..15] + [0];
  }

  lemma Service4Injective(a: Addr, b: Addr)
    requires InPool(Service4, a) && InPool(Service4, b) && Rank(Service4, a) == Rank(Service4, b)
    ensures a == b
  {
  }

  lemma Subnet4Injective(a: Addr, b: Addr)
    requires InPool(Subnet4, a) && InPool(Subnet4, b) && Rank(Subnet4, a) == Rank(Subnet4, b)
    ensures a == b
  {
  }

  lemma TailInjective(a: Addr, b: Addr)
    requires |a| == |b| == 16 && AreBytes(a) && AreBytes(b)
    requires a[..6] == b[..6] && FromBytes(a[6..]) == FromBytes(b[6..])
    ensures a == b
  {
    FromBytesInjective(a[6..], b[6..]);
    assert a == a[..6] + a[6..] && b == b[..6] + b[6..];
  }

  lemma Service6Injective(a: Addr, b: Addr)
    requires InPool(Service6, a) && InPool(Service6, b) && Rank(Service6, a) == Rank(Service6, b)
    ensures a == b
  {
    FromBytesBound(a[6..]);
    FromBytesBound(b[6..]);
    assert a[2] == a[..6][2] && b[2] == b[..6][2];
    TailInjective(a, b);
  }

  /** What it means for the successor of addr to be the next address of its pool. */
  ghost predicate StepsBy1(k: Kind, addr: Addr, r: Result<Addr>)
    requires InPool(k, addr)
  {
    if Rank(k, addr) == Size(k) - 1 then
      r == Raise(ExhaustedAddressSpace)
    else
      r.Ok? && InPool(k, r.value) && Rank(k, r.value) == Rank(k, addr) + 1
  }

  /**
   A successor adds exactly one to the rank and stays inside the pool; it
   raises exactly at the pool's last address.
   */
  lemma IncreaseAddsOne(k: Kind, addr: Addr)
    requires InPool(k, addr)
    ensures StepsBy1(k, addr, Increase(k, addr))
  {
    match k
    case Service4 => IncreaseService4(addr);
    case Service6 => IncreaseService6(addr);
    case RoundRobin6 => IncreaseRoundRobin6(addr);
    case Subnet4 => IncreaseSubnet4(addr);
    case Subnet6 => IncreaseSubnet6(addr);
  }

  /** Different addresses never have one successor. */
  lemma IncreaseInjective(k: Kind, a: Addr, b: Addr)
    requires InPool(k, a) && InPool(k, b) && Increase(k, a).Ok? && Increase(k, a) == Increase(k, b)
    ensures a == b
  {
    IncreaseAddsOne(k, a);
    IncreaseAddsOne(k, b);
    RankInjective(k, a, b);
  }

  lemma IncreaseService4(addr: Addr)
    requires InPool(Service4, addr)
    ensures StepsBy1(Service4, addr, IncreaseServiceAddress(addr))
  {
  }

  lemma IncreaseSubnet4(addr: Addr)
    requires InPool(Subnet4, addr)
    ensures StepsBy1(Subnet4, addr, IncreaseSubnetworkAddress(addr))
  {
  }

  lemma SuccessorBytes(addr: Addr)
    requires |addr| == 16 && AreBytes(addr) && FromBytes(addr[6..]) + 1 < P10
    ensures IncreaseServiceAddressV6(addr).Ok?
    ensures var b := IncreaseServiceAddressV6(addr).value;
            && |b| == 16 && AreBytes(b) && b[..6] == addr[..6]
            && FromBytes(b[6..]) == FromBytes(addr[6..]) + 1
  {
    var n := |addr[6..]|;
    FromBytesBound(addr[6..]);
    var next := FromBytes(addr[6..]) + 1;
    FromToBytes(next, n);
    var b := addr[..6] + ToBytes(next, n);
    assert b[6..] == ToBytes(next, n) && b[..6] == addr[..6];
  }

  lemma IncreaseService6(addr: Addr)
    requires InPool(Service6, addr)
    ensures StepsBy1(Service6, addr, IncreaseServiceAddressV6(addr))
  {
    FromBytesBound(addr[6..]);
    assert addr[2] == addr[..6][2];
    if FromBytes(addr[6..]) + 1 < P10 {
      SuccessorBytes(addr);
      var b := IncreaseServiceAddressV6(addr).value;
      assert b[2] == b[..6][2];
    } else if addr[2] == 0 {
      SecondBlockStart();
    }
  }

  lemma SecondBlockStart()
    ensures var b: Addr := [253, 255, 8, 0, 0, 0, 0, 0, 0, 0, 0, 0, 0, 0, 0, 0];
            InPool(Service6, b) && Rank(Service6, b) == P10
  {
    var b: Addr := [253, 255, 8, 0, 0, 0, 0, 0, 0, 0, 0, 0, 0, 0, 0, 0];
    assert b[..6] == [253, 255, 8, 0, 0, 0];
    Zeros(b[6..]);
  }

  lemma {:induction false} Zeros(s: seq<int>)
    requires forall i | 0 <= i < |s| :: s[i] == 0
    ensures FromBytes(s) == 0
  {
    if s != [] {
      Zeros(s[..|s| - 1]);
    }
  }

  lemma IncreaseRoundRobin6(addr: Addr)
    requires InPool(RoundRobin6, addr)
    ensures StepsBy1(RoundRobin6, addr, IncreaseServiceAddressV6(addr))
  {
    FromBytesBound(addr[6..]);
    assert addr[2] == addr[..6][2];
    if FromBytes(addr[6..]) + 1 < P10 {
      SuccessorBytes(addr);
    }
  }

  lemma ReservedPrefix(next: nat, n: nat)
    requires n == 15 && next < Pow256(n)
    ensures ToBytes(next, n)[0] == 253 && ToBytes(next, n)[1] == 254
            <==> 0xFDFE * P13 <= next < 0xFDFF * P13
  {
    var subnet := ToBytes(next, n);
    FromToBytes(next, n);
    var b: Addr := subnet + [0];
    assert b[..15] == subnet && b[0] == subnet[0] && b[1] == subnet[1];
    PrefixAtLeast(b, 0xFDFE);
    PrefixAtLeast(b, 0xFDFF);
  }

  lemma PrefixFits(prefix: nat, n: nat)
    requires n == 15 && prefix < 0xFDFE * P13
    ensures prefix < Pow256(n)
  {
    PrefixSpace(n);
  }

  lemma SubnetFromPrefix(prefix: nat, n: nat)
    requires n == 15 && 0xFC00 * P13 <= prefix < 0xFDFE * P13
    ensures InPool(Subnet6, ToBytes(prefix, n) + [0])
    ensures Rank(Subnet6, ToBytes(prefix, n) + [0]) == prefix - 0xFC00 * P13
  {
    var s := ToBytes(prefix, n);
    PrefixFits(prefix, n);
    FromToBytes(prefix, n);
    assert (s + [0])[..15] == s;
    SubnetRank(s + [0]);
  }

  lemma IncreaseSubnet6(addr: Addr)
    requires InPool(Subnet6, addr)
    ensures StepsBy1(Subnet6, addr, IncreaseSubnetworkAddressV6(addr))
  {
    SubnetRank(addr);
    var next := FromBytes(addr[..15]) + 1;
    ReservedPrefix(next, 15);
    if next < 0xFDFE * P13 {
      SubnetFromPrefix(next, 15);
    }
  }

  /** Every pool address passes the store's checks, so no frontier is ever refused. */
  lemma PoolPassesStore(k: Kind, addr: Addr)
    requires InPool(k, addr)
    ensures StoreAccepts(k, addr)
  {
    if Width(k) == 16 {
      assert addr[2] == addr[..6][2] && addr[3] == addr[..6][3];
    }
  }

  /**
   What these checks keep apart: of the other pools' addresses a store takes
   none, except that the worker subnet store takes every IPv6 service address.
   */
  lemma StoreAcceptsExactly(k: Kind, l: Kind, addr: Addr)
    requires InPool(l, addr)
    ensures StoreAccepts(k, addr) <==> k == l || (k == Subnet6 && (l == Service6 || l == RoundRobin6))
  {
    PoolPassesStore(l, addr);
    if Width(l) == 16 {
      assert addr[0] == addr[..6][0] && addr[1] == addr[..6][1] && addr[2] == addr[..6][2];
    }
  }

  /** The blocks that the stores accept, by their prefixes, such as 10.30.0.0/16 and fdff:2000::/29. */
  lemma StoreBlocks(addr: Addr)
    requires |addr| >= 4 && AreBytes(addr)
    ensures var two, low := 256 * addr[0] + addr[1], 256 * addr[2] + addr[3];
            && (StoreAccepts(Service4, addr) <==> |addr| == 4 && two == 0x0A1E)
            && (StoreAccepts(Subnet4, addr) <==> |addr| == 4 && 0x0A12 <= two < 0x0A1E)
            && (StoreAccepts(Service6, addr) <==>
                |addr| == 16 && two == 0xFDFF && (low < 0x0100 || 0x0800 <= low < 0x0900))
            && (StoreAccepts(RoundRobin6, addr) <==> |addr| == 16 && two == 0xFDFF && 0x2000 <= low < 0x2008)
            && (StoreAccepts(Subnet6, addr) <==> |addr| == 16 && 0xFC00 <= two < 0xFE00)
  {
  }

  lemma BaseIsFirst(k: Kind)
    ensures InPool(k, Base(k)) && Rank(k, Base(k)) == 0
  {
    match k
    case Service4 =>
    case Service6 => BaseTail(k);
    case RoundRobin6 => BaseTail(k);
    case Subnet4 =>
    case Subnet6 => Subnet6Base();
  }

  lemma BaseTail(k: Kind)
    requires k.Service6? || k.RoundRobin6?
    ensures InPool(k, Base(k)) && Rank(k, Base(k)) == 0
  {
    var b := Base(k);
    assert b[..6] == [253, 255, b[2], 0, 0, 0];
    Zeros(b[6..]);
  }

  lemma Subnet6Base()
    ensures InPool(Subnet6, Base(Subnet6)) && Rank(Subnet6, Base(Subnet6)) == 0
  {
    var b := Base(Subnet6);
    var s := b[..15];
    PrefixHighPart(s);
    Zeros(s[2..]);
  }

  // ---------- Where the pools lie ----------

  /** The number an address stands for: 32 bits for IPv4, 128 bits for IPv6. */
  function Value(addr: Addr): int {
    FromBytes(addr)
  }

  /** 10.18.0.0 */
  const SUBNET4_BASE: int := ((10 * 256 + 18) * 256) * 256
  /** 10.30.0.0 */
  const SERVICE4_BASE: int := ((10 * 256 + 30) * 256) * 256

  lemma FourBytes(addr: Addr)
    requires |addr| == 4
    ensures Value(addr) == ((addr[0] * 256 + addr[1]) * 256 + addr[2]) * 256 + addr[3]
  {
    assert addr[..3][..2] == addr[..2];
    FromTwoBytes(addr[..2]);
    assert FromBytes(addr[..3]) == 256 * FromBytes(addr[..2]) + addr[2];
  }

  /** Worker IPv4 subnets are the 64-address blocks of 10.18.0.0-10.29.255.255, in rank order. */
  lemma Subnet4Block(addr: Addr)
    requires InPool(Subnet4, addr)
    ensures Value(addr) == SUBNET4_BASE + 64 * Rank(Subnet4, addr)
    ensures SUBNET4_BASE <= Value(addr) && Value(addr) + 63 < SERVICE4_BASE
  {
    FourBytes(addr);
  }

  lemma Service4Block(addr: Addr)
    requires InPool(Service4, addr)
    ensures SERVICE4_BASE <= Value(addr) < SERVICE4_BASE + 65536
  {
    FourBytes(addr);
  }

  /** Worker IPv6 subnets are 256-address blocks, in rank order. */
  lemma Subnet6Block(addr: Addr)
    requires InPool(Subnet6, addr)
    ensures Value(addr) == 256 * (0xFC00 * P13 + Rank(Subnet6, addr))
  {
    assert addr[..|addr| - 1] == addr[..15];
  }

  /** The high two bytes of a 16-byte address bound its value. */
  lemma SixteenBytesHigh(addr: Addr)
    requires |addr| == 16 && AreBytes(addr)
    ensures (256 * addr[0] + addr[1]) * (256 * P13) <= Value(addr) < (256 * addr[0] + addr[1] + 1) * (256 * P13)
  {
    assert addr == addr[..2] + addr[2..];
    FromBytesConcat(addr[..2], addr[2..]);
    FromBytesBound(addr[2..]);
    FromTwoBytes(addr[..2]);
  }

  /** The whole /120 block of a worker lies below fdfe::, hence below every fdff address. */
  lemma Subnet6BelowServices(worker: Addr, k: Kind, service: Addr)
    requires InPool(Subnet6, worker)
    requires k.Service6? || k.RoundRobin6?
    requires InPool(k, service)
    ensures Value(worker) + 255 < 0xFDFE * (256 * P13) <= Value(service)
  {
    Subnet6Block(worker);
    RankBound(Subnet6, worker);
    assert service[0] == service[..6][0] && service[1] == service[..6][1];
    SixteenBytesHigh(service);
  }

  /** No address belongs to two pools. */
  lemma PoolsDisjoint(k1: Kind, k2: Kind, addr: Addr)
    requires InPool(k1, addr) && InPool(k2, addr)
    ensures k1 == k2
  {
    if Width(k1) == 16 {
      assert addr[0] == addr[..6][0] && addr[1] == addr[..6][1] && addr[2] == addr[..6][2];
    }
  }
}
