/**
 Node-side addresses. A net.IP is modelled up to its Equal method: nil (or an
 empty slice), an IPv4 address in either representation, or an IPv6 address
 that does not map an IPv4 one.
 */
module Addresses {

  datatype Ip = NoIp | V4(v4: nat) | V6(v6: nat)

  datatype Family = F4 | F6

  predicate OfFamily(ip: Ip, f: Family)
  {
    if f.F4? then ip.V4? else ip.V6?
  }

  function Number(ip: Ip): nat
    requires !ip.NoIp?
  {
    if ip.V4? then ip.v4 else ip.v6
  }

  function FromNumber(f: Family, n: nat): Ip {
    if f.F4? then V4(n) else V6(n)
  }

  const SPACE4: nat := 0x1_0000_0000
  const SPACE6: nat := 0x1_0000_0000_0000_0000_0000_0000_0000_0000

  function Space(f: Family): nat {
    if f.F4? then SPACE4 else SPACE6
  }

  /** The four bytes wrap around. */
  function NextIPv4(ip: Ip, inc: nat): Ip
    requires ip.V4?
  {
    V4((ip.v4 + inc) % SPACE4)
  }

  /** A sum of more than sixteen bytes does not fit the buffer that is filled with it. */
  function NextIPv6(ip: Ip, inc: nat): Ip
    requires ip.V6? && ip.v6 + inc < SPACE6
  {
    V6(ip.v6 + inc)
  }

  /** Steps add up, also past the end of the address space, where 255.255.255.255 is followed by 0.0.0.0. */
  lemma NextIPv4AddsUp(ip: Ip, a: nat, b: nat)
    requires ip.V4? && ip.v4 < SPACE4
    ensures NextIPv4(NextIPv4(ip, a), b) == NextIPv4(ip, a + b)
    ensures NextIPv4(ip, 1) == if ip.v4 == 0xFFFF_FFFF then V4(0) else V4(ip.v4 + 1)
  {
    var n := ip.v4 + a;
    assert n == n / SPACE4 * SPACE4 + n % SPACE4;
    ModuloAbsorbs(n / SPACE4, n % SPACE4 + b);
  }

  lemma ModuloAbsorbs(k: nat, n: nat)
    ensures (k * SPACE4 + n) % SPACE4 == n % SPACE4
    decreases k
  {
    if k > 0 {
      ModuloAbsorbs(k - 1, n + SPACE4);
      assert (n + SPACE4) % SPACE4 == n % SPACE4;
    }
  }
}
