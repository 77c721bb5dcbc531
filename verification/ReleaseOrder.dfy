/**
 The order assertion of a release. It should say whether an address is before
 the frontier, but compares unpadded decimal texts; here is when it is right.
 */
module ReleaseOrder {
  import opened Wrappers
  import opened Bytes
  import opened RootAddresses
  import opened RootPools

  /** Whether the order assertion decides `addr before the frontier` correctly. */
  predicate OrderDecided(k: Kind, addr: Addr, next: Addr)
    requires InPool(k, addr) && InPool(k, next)
  {
    OrderAccepts(k, addr, next) <==> Rank(k, addr) < Rank(k, next)
  }

  // ---------- Groups ----------

  /** The position of the last byte that the order assertion reads. */
  function LastByte(k: Kind): nat {
    match k
    case Service4 => 3
    case Service6 => 15
    case RoundRobin6 => 15
    case Subnet4 => 3
    case Subnet6 => 14
  }

  /** Addresses that differ in that byte alone form a group; this is the group's first address. */
  function Group(k: Kind, addr: Addr): (g: Addr)
    requires InPool(k, addr)
    ensures |g| == |addr| && forall i | 0 <= i < |g| :: g[i] == if i == LastByte(k) then 0 else addr[i]
  {
    addr[LastByte(k) := 0]
  }

  /** The number that the order assertion reads off all but the last byte. */
  function Stem(k: Kind, addr: Addr): int
    requires InPool(k, addr)
  {
    DecimalConcat(OrderBytes(k, addr)[..|OrderBytes(k, addr)| - 1])
  }

  /** The greatest last byte of an address in a group that passes the range assertions. */
  function Top(k: Kind): int {
    match k
    case Service4 => 253
    case Subnet4 => 128
    case _ => 255
  }

  /** The greatest last byte of any pool address in a group. */
  function FrontierTop(k: Kind): int {
    match k
    case Service4 => 253
    case Subnet4 => 192
    case _ => 255
  }

  lemma GroupInPool(k: Kind, addr: Addr)
    requires InPool(k, addr)
    ensures InPool(k, Group(k, addr)) && Group(k, Group(k, addr)) == Group(k, addr)
  {
    var g := Group(k, addr);
    if Width(k) == 16 {
      assert g[..6] == addr[..6];
    }
    assert g[LastByte(k) := 0] == g;
  }

  lemma MemberInPool(k: Kind, g: Addr, b: int)
    requires InPool(k, g) && Group(k, g) == g && !k.RoundRobin6? && (b == Top(k) || b == FrontierTop(k))
    ensures var x := g[LastByte(k) := b];
            && InPool(k, x) && Group(k, x) == g && x[LastByte(k)] == b
            && (b == Top(k) ==> RangeAccepts(k, x))
  {
    var x := g[LastByte(k) := b];
    if Width(k) == 16 {
      assert x[..6] == g[..6];
      assert g[0] == g[..6][0] && g[1] == g[..6][1] && g[2] == g[..6][2];
    }
    assert x[LastByte(k) := 0] == g;
  }

  lemma FirstOfGroupAccepted(k: Kind, g: Addr)
    requires InPool(k, g) && Group(k, g) == g && !k.RoundRobin6?
    ensures RangeAccepts(k, g)
  {
    assert g[LastByte(k)] == 0;
    if Width(k) == 16 {
      assert g[0] == g[..6][0] && g[1] == g[..6][1] && g[2] == g[..6][2];
    }
  }

  /** What the order assertion reads is the stem, shifted by the digits of the last byte, and that byte. */
  lemma OrderNumber(k: Kind, addr: Addr)
    requires InPool(k, addr)
    ensures var b := addr[LastByte(k)];
            && DecimalConcat(OrderBytes(k, addr)) == Stem(k, addr) * TenPow(b) + b
            && 0 <= b < 256
    ensures InPool(k, Group(k, addr)) && Stem(k, addr) == Stem(k, Group(k, addr))
  {
    GroupInPool(k, addr);
    var s, g := OrderBytes(k, addr), OrderBytes(k, Group(k, addr));
    assert s[|s| - 1] == addr[LastByte(k)];
    assert s[..|s| - 1] == g[..|g| - 1];
  }

  lemma {:induction false} DecimalConcatNat(s: seq<int>)
    requires AreBytes(s)
    ensures DecimalConcat(s) >= 0
  {
    if s != [] {
      DecimalConcatNat(s[..|s| - 1]);
    }
  }

  lemma StemNat(k: Kind, addr: Addr)
    requires InPool(k, addr)
    ensures Stem(k, addr) >= 0
  {
    var s := OrderBytes(k, addr);
    DecimalConcatNat(s[..|s| - 1]);
  }

  // ---------- Order within and between groups ----------

  /** Within a group only the last byte changes, and with it the rank. */
  lemma RankFromGroup(k: Kind, addr: Addr)
    requires InPool(k, addr) && !k.RoundRobin6?
    ensures InPool(k, Group(k, addr))
    ensures Rank(k, addr) == Rank(k, Group(k, addr)) + if k.Subnet4? then addr[3] / 64 else addr[LastByte(k)]
  {
    GroupInPool(k, addr);
    var g := Group(k, addr);
    match k
    case Service4 =>
    case Subnet4 =>
    case Service6 =>
      assert addr[6..][..9] == g[6..][..9];
    case Subnet6 =>
      assert addr[..15][..14] == g[..15][..14];
  }

  /** The rank of a group's first address divides by the size of a group. */
  lemma GroupMultiple(k: Kind, g: Addr) returns (m: int)
    requires InPool(k, g) && Group(k, g) == g && !k.RoundRobin6?
    ensures Rank(k, g) == m * GroupSize(k)
  {
    assert g[LastByte(k)] == 0;
    match k
    case Service4 => m := g[2];
    case Subnet4 => m := (g[1] - 18) * 256 + g[2];
    case Service6 =>
      assert g[6..] == g[6..][..9] + [0];
      var q: Addr := TEN_BYTES[..9];
      assert |TEN_BYTES| == |q| + 1;
      m := (if g[2] == 0 then 0 else Pow256(|q|)) + FromBytes(g[6..][..9]);
    case Subnet6 =>
      assert g[..15] == g[..15][..14] + [0];
      var q: Addr := THIRTEEN_BYTES[..12];
      assert |THIRTEEN_BYTES| == |q| + 1;
      m := FromBytes(g[..15][..14]) - 0xFC00 * Pow256(|q|);
  }

  function GroupSize(k: Kind): int {
    match k
    case Service4 => 254
    case Subnet4 => 4
    case _ => 256
  }

  /** Ranks compare by group first, then by the last byte. */
  lemma RankByGroup(k: Kind, a: Addr, n: Addr)
    requires InPool(k, a) && InPool(k, n) && !k.RoundRobin6?
    ensures InPool(k, Group(k, a)) && InPool(k, Group(k, n))
    ensures var g, h := Group(k, a), Group(k, n);
            Rank(k, a) < Rank(k, n) <==>
            Rank(k, g) < Rank(k, h) || (g == h && a[LastByte(k)] < n[LastByte(k)])
  {
    GroupInPool(k, a);
    GroupInPool(k, n);
    var g, h := Group(k, a), Group(k, n);
    RankFromGroup(k, a);
    RankFromGroup(k, n);
    var i := GroupMultiple(k, g);
    var j := GroupMultiple(k, h);
    var x, y := Rank(k, a) - Rank(k, g), Rank(k, n) - Rank(k, h);
    CompareShifted(i, j, GroupSize(k), x, y);
    if i == j {
      RankInjective(k, g, h);
    } else {
      CompareShifted(i, j, GroupSize(k), 0, 0);
    }
  }

  /** Numbers compare by their high parts first. */
  lemma CompareShifted(x: int, y: int, w: int, a: int, b: int)
    requires 0 <= a < w && 0 <= b < w
    ensures x * w + a < y * w + b <==> x < y || (x == y && a < b)
    ensures x * w + a == y * w + b <==> x == y && a == b
  {
    if x < y {
      MulMonotone(x + 1, y, w);
      assert (x + 1) * w == x * w + w;
    } else if y < x {
      MulMonotone(y + 1, x, w);
      assert (y + 1) * w == y * w + w;
    }
  }

  /** With one stem, the decimal texts compare as the last bytes do. */
  lemma OneStem(p: int, a: int, b: int)
    requires p >= 0 && 0 <= a < 256 && 0 <= b < 256
    ensures p * TenPow(a) + a < p * TenPow(b) + b <==> a < b
  {
  }

  /** How far a last byte can move the number. */
  lemma StemBounds(p: int, b: int, top: int)
    requires p >= 0 && 0 <= b <= top < 1000
    ensures 10 * p <= p * TenPow(b) + b <= 1000 * p + top
  {
  }

  // ---------- When the assertion is right ----------

  /** For the addresses of one group and the frontiers of another, the order assertion is right. */
  ghost predicate GroupsDecided(k: Kind, g: Addr, h: Addr)
    requires InPool(k, g) && InPool(k, h)
  {
    forall a, n | InPool(k, a) && InPool(k, n) && Group(k, a) == g && Group(k, n) == h && RangeAccepts(k, a) ::
      OrderDecided(k, a, n)
  }

  /** The groups are one, or the missing padding cannot bridge the distance of their stems. */
  predicate StemsApart(k: Kind, g: Addr, h: Addr)
    requires InPool(k, g) && InPool(k, h)
  {
    || g == h
    || (Rank(k, g) < Rank(k, h) && 1000 * Stem(k, g) + Top(k) < 10 * Stem(k, h))
    || (Rank(k, h) < Rank(k, g) && 1000 * Stem(k, h) + FrontierTop(k) <= 10 * Stem(k, g))
  }

  lemma LastByteBound(k: Kind, a: Addr)
    requires InPool(k, a) && !k.RoundRobin6?
    ensures 0 <= a[LastByte(k)] <= FrontierTop(k)
    ensures RangeAccepts(k, a) ==> a[LastByte(k)] <= Top(k)
  {
  }

  /** Whether the order assertion is right, in numbers. */
  lemma DecidedInNumbers(k: Kind, a: Addr, n: Addr)
    requires InPool(k, a) && InPool(k, n) && !k.RoundRobin6?
    ensures InPool(k, Group(k, a)) && InPool(k, Group(k, n))
    ensures var g, h, x, y := Group(k, a), Group(k, n), a[LastByte(k)], n[LastByte(k)];
            OrderDecided(k, a, n) <==>
            (Stem(k, g) * TenPow(x) + x < Stem(k, h) * TenPow(y) + y
             <==> Rank(k, g) < Rank(k, h) || (g == h && x < y))
  {
    RankByGroup(k, a, n);
    OrderNumber(k, a);
    OrderNumber(k, n);
  }

  lemma ApartIsDecided(k: Kind, a: Addr, n: Addr)
    requires InPool(k, a) && InPool(k, n) && RangeAccepts(k, a)
    requires InPool(k, Group(k, a)) && InPool(k, Group(k, n)) && StemsApart(k, Group(k, a), Group(k, n))
    ensures OrderDecided(k, a, n)
  {
    var g, h := Group(k, a), Group(k, n);
    DecidedInNumbers(k, a, n);
    StemNat(k, g);
    StemNat(k, h);
    LastByteBound(k, a);
    LastByteBound(k, n);
    if g == h {
      OneStem(Stem(k, g), a[LastByte(k)], n[LastByte(k)]);
    } else {
      StemBounds(Stem(k, g), a[LastByte(k)], Top(k));
      StemBounds(Stem(k, h), n[LastByte(k)], FrontierTop(k));
    }
  }

  /** If the later group is too near, the address with the greatest last byte seems to lie behind its first frontier. */
  lemma NearAboveIsMisjudged(k: Kind, g: Addr, h: Addr)
    requires InPool(k, g) && Group(k, g) == g && InPool(k, h) && Group(k, h) == h && !k.RoundRobin6?
    requires Rank(k, g) < Rank(k, h) && 1000 * Stem(k, g) + Top(k) >= 10 * Stem(k, h)
    ensures !GroupsDecided(k, g, h)
  {
    MemberInPool(k, g, Top(k));
    var a := g[LastByte(k) := Top(k)];
    DecidedInNumbers(k, a, h);
    assert h[LastByte(k)] == 0;
    assert !OrderDecided(k, a, h);
  }

  /** If the earlier group is too near, its greatest frontier seems to lie behind the first address. */
  lemma NearBelowIsMisjudged(k: Kind, g: Addr, h: Addr)
    requires InPool(k, g) && Group(k, g) == g && InPool(k, h) && Group(k, h) == h && !k.RoundRobin6?
    requires Rank(k, h) < Rank(k, g) && 1000 * Stem(k, h) + FrontierTop(k) > 10 * Stem(k, g)
    ensures !GroupsDecided(k, g, h)
  {
    MemberInPool(k, h, FrontierTop(k));
    FirstOfGroupAccepted(k, g);
    var n := h[LastByte(k) := FrontierTop(k)];
    DecidedInNumbers(k, g, n);
    assert g[LastByte(k)] == 0;
    assert !OrderDecided(k, g, n);
  }

  lemma NearIsMisjudged(k: Kind, g: Addr, h: Addr)
    requires InPool(k, g) && Group(k, g) == g && InPool(k, h) && Group(k, h) == h && !k.RoundRobin6?
    requires !StemsApart(k, g, h)
    ensures !GroupsDecided(k, g, h)
  {
    if Rank(k, g) < Rank(k, h) {
      NearAboveIsMisjudged(k, g, h);
    } else if Rank(k, h) < Rank(k, g) {
      NearBelowIsMisjudged(k, g, h);
    } else {
      RankInjective(k, g, h);
    }
  }

  /**
   For every group of addresses and every group of frontiers of a pool, the
   order assertion is right for all of their members if and only if the groups
   are one or their stems lie so far apart that the missing padding cannot
   matter. For IPv6 service addresses, groups of the two blocks are included.
   */
  lemma ReleaseOrderExactly(k: Kind, a: Addr, n: Addr)
    requires InPool(k, a) && InPool(k, n) && !k.RoundRobin6?
    ensures InPool(k, Group(k, a)) && InPool(k, Group(k, n))
    ensures GroupsDecided(k, Group(k, a), Group(k, n)) <==> StemsApart(k, Group(k, a), Group(k, n))
  {
    GroupInPool(k, a);
    GroupInPool(k, n);
    var g, h := Group(k, a), Group(k, n);
    if StemsApart(k, g, h) {
      forall x, y | InPool(k, x) && InPool(k, y) && Group(k, x) == g && Group(k, y) == h && RangeAccepts(k, x)
        ensures OrderDecided(k, x, y)
      {
        ApartIsDecided(k, x, y);
      }
    } else {
      NearIsMisjudged(k, g, h);
    }
  }

  lemma ServiceStem(g: Addr)
    requires InPool(Service4, g)
    ensures Stem(Service4, g) == g[2]
  {
    var s := g[2..][..1];
    assert s[..|s| - 1] == [] && s[|s| - 1] == g[2];
    assert DecimalConcat(s) == g[2];
    assert OrderBytes(Service4, g)[..|OrderBytes(Service4, g)| - 1] == s;
  }

  /** For IPv4 service addresses the stem is the third octet. */
  lemma ReleaseOrderIsReliable(a: Addr, n: Addr)
    requires InPool(Service4, a) && InPool(Service4, n)
    ensures InPool(Service4, Group(Service4, a)) && InPool(Service4, Group(Service4, n))
    ensures GroupsDecided(Service4, Group(Service4, a), Group(Service4, n)) <==>
            || a[2] == n[2]
            || 1000 * a[2] + 253 < 10 * n[2]
            || 1000 * n[2] + 253 <= 10 * a[2]
  {
    ReleaseOrderExactly(Service4, a, n);
    var g, h := Group(Service4, a), Group(Service4, n);
    ServiceStem(g);
    ServiceStem(h);
    assert g == [10, 30, a[2], 0] && h == [10, 30, n[2], 0];
    assert Rank(Service4, g) == 254 * a[2] && Rank(Service4, h) == 254 * n[2];
    assert Stem(Service4, g) == a[2] && Stem(Service4, h) == n[2];
    assert g == h <==> a[2] == n[2];
    assert a[2] >= 0 && n[2] >= 0;
    assert StemsApart(Service4, g, h) <==>
           a[2] == n[2] || 1000 * a[2] + 253 < 10 * n[2] || 1000 * n[2] + 253 <= 10 * a[2];
  }

  // ---------- Bytes with equally many digits ----------

  /** Byte strings whose bytes have equally many decimal digits, place by place. */
  predicate SameWidths(s: seq<int>, t: seq<int>)
  {
    |s| == |t| && forall i | 0 <= i < |s| :: TenPow(s[i]) == TenPow(t[i])
  }

  lemma {:induction false} TextsCompareAsBytes(s: seq<int>, t: seq<int>)
    requires AreBytes(s) && AreBytes(t) && SameWidths(s, t)
    ensures DecimalConcat(s) < DecimalConcat(t) <==> FromBytes(s) < FromBytes(t)
    ensures DecimalConcat(s) == DecimalConcat(t) <==> FromBytes(s) == FromBytes(t)
  {
    if s != [] {
      var n := |s| - 1;
      TextsCompareAsBytes(s[..n], t[..n]);
      CompareShifted(DecimalConcat(s[..n]), DecimalConcat(t[..n]), TenPow(s[n]), s[n], t[n]);
      CompareShifted(FromBytes(s[..n]), FromBytes(t[..n]), 256, s[n], t[n]);
    }
  }

  /** The bytes that the assertion reads rank the addresses, except that they leave out the IPv6 service block. */
  lemma OrderBytesRank(k: Kind, a: Addr, n: Addr)
    requires InPool(k, a) && InPool(k, n) && !k.RoundRobin6? && (k.Service6? ==> a[2] == n[2])
    ensures Rank(k, a) < Rank(k, n) <==> FromBytes(OrderBytes(k, a)) < FromBytes(OrderBytes(k, n))
  {
    match k
    case Service4 =>
      FromTwoBytes(a[2..]);
      FromTwoBytes(n[2..]);
    case Subnet4 =>
      FromTwoBytes(a[1..][..2]);
      FromTwoBytes(n[1..][..2]);
    case Service6 =>
    case Subnet6 =>
  }

  /** The two blocks of IPv6 service addresses rank by their third byte. */
  lemma BlocksRank(a: Addr, n: Addr)
    requires InPool(Service6, a) && InPool(Service6, n) && a[2] != n[2]
    ensures Rank(Service6, a) < Rank(Service6, n) <==> a[2] < n[2]
  {
    assert a[2] == a[..6][2] && n[2] == n[..6][2];
    FromBytesBound(a[6..]);
    FromBytesBound(n[6..]);
  }

  /**
   When the bytes read have equally many digits, the order assertion is right
   in every pool but that of the IPv6 service addresses: there it is right if
   and only if the two blocks, if they differ, are in the order of the bytes.
   */
  lemma ReleaseOrderOfSameWidths(k: Kind, a: Addr, n: Addr)
    requires InPool(k, a) && InPool(k, n) && !k.RoundRobin6? && SameWidths(OrderBytes(k, a), OrderBytes(k, n))
    ensures OrderDecided(k, a, n) <==>
            (k.Service6? && a[2] != n[2] ==> (a[2] < n[2] <==> FromBytes(a[6..]) < FromBytes(n[6..])))
  {
    TextsCompareAsBytes(OrderBytes(k, a), OrderBytes(k, n));
    if k.Service6? && a[2] != n[2] {
      BlocksRank(a, n);
    } else {
      OrderBytesRank(k, a, n);
    }
  }

  // ---------- Addresses it misjudges ----------

  /** Both ways in which the order assertion goes wrong for IPv4 service addresses. */
  lemma ReleaseOrderMisjudges()
    ensures InPool(Service4, [10, 30, 0, 253]) && InPool(Service4, [10, 30, 1, 0]) && InPool(Service4, [10, 30, 0, 200])
    ensures Rank(Service4, [10, 30, 0, 253]) < Rank(Service4, [10, 30, 1, 0])
            && !ReleaseAccepts(Service4, [10, 30, 0, 253], [10, 30, 1, 0])
    ensures Rank(Service4, [10, 30, 0, 200]) < Rank(Service4, [10, 30, 1, 0])
            && ReleaseAccepts(Service4, [10, 30, 1, 0], [10, 30, 0, 200])
  {
    var a: Addr, b: Addr, c: Addr := [10, 30, 0, 253], [10, 30, 1, 0], [10, 30, 0, 200];
    assert a[2..] == [0, 253] && b[2..] == [1, 0] && c[2..] == [0, 200];
    DecimalConcat2(a[2..]);
    DecimalConcat2(b[2..]);
    DecimalConcat2(c[2..]);
  }

  /** Within ten bytes of one digit each, only the last of them not 0, the texts compare as the last bytes do. */
  lemma ShortTail(s: seq<int>, t: seq<int>)
    requires |s| == |t| == 10 && 0 <= s[9] < 10 && 0 <= t[9] < 10
    requires forall i | 0 <= i < 9 :: s[i] == 0 && t[i] == 0
    ensures DecimalConcat(s) < DecimalConcat(t) <==> s[9] < t[9]
  {
    Zeros(s[..9]);
    Zeros(t[..9]);
    TextsCompareAsBytes(s, t);
  }

  /** Across the two blocks of IPv6 service addresses, fdff::9 and fdff:800::5 are misjudged in either role. */
  lemma ReleaseOrderMisjudgesBlocks(a: Addr, b: Addr)
    requires |a| == |b| == 16 && a[..3] == [253, 255, 0] && b[..3] == [253, 255, 8] && a[15] == 9 && b[15] == 5
    requires forall i | 3 <= i < 15 :: a[i] == 0 && b[i] == 0
    ensures InPool(Service6, a) && InPool(Service6, b) && Rank(Service6, a) < Rank(Service6, b)
    ensures ReleaseAccepts(Service6, b, a) && !ReleaseAccepts(Service6, a, b)
  {
    assert a[..6] == a[..3] + [0, 0, 0] && b[..6] == b[..3] + [0, 0, 0];
    assert a[0] == a[..3][0] && a[1] == a[..3][1] && a[2] == a[..3][2];
    assert b[0] == b[..3][0] && b[1] == b[..3][1] && b[2] == b[..3][2];
    FromBytesBound(a[6..]);
    FromBytesBound(b[6..]);
    ShortTail(a[6..], b[6..]);
    ShortTail(b[6..], a[6..]);
  }
}
