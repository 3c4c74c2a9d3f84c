/**
 * The visitor's address of main.py: the trusted ranges loaded at start-up
 * (lines 13-16), `is_cloudflare_ip` (lines 30-35) and `get_ip_from_request`
 * (lines 38-42).
 *
 * The text parsing of `ipaddress.ip_address` and `ipaddress.ip_network` is
 * taken as parameters returning `None` where Python raises ValueError.
 */
module Visitor {
  import opened Common
  import opened Text

  datatype Family = IPv4 | IPv6

  /** Number of bits in an address of the family. */
  function Width(f: Family): nat {
    match f
    case IPv4 => 32
    case IPv6 => 128
  }

  function Pow2(n: nat): (p: nat)
    ensures p >= 1
  {
    if n == 0 then 1 else 2 * Pow2(n - 1)
  }

  /** An `ip_address`: its version and its integer value. */
  datatype Address = Address(family: Family, bits: nat)

  predicate ValidAddress(a: Address) {
    a.bits < Pow2(Width(a.family))
  }

  /** An `ip_network`: its version, its network address and its prefix length. */
  datatype Network = Network(family: Family, base: nat, prefixLen: nat)

  /** What a strict `ip_network` guarantees: the host bits of the network address are zero. */
  predicate ValidNetwork(n: Network) {
    && n.prefixLen <= Width(n.family)
    && n.base < Pow2(Width(n.family))
    && n.base % Pow2(Width(n.family) - n.prefixLen) == 0
  }

  /** Number of host bits below the prefix. */
  function HostBits(n: Network): nat {
    if n.prefixLen <= Width(n.family) then Width(n.family) - n.prefixLen else 0
  }

  /**
   * `addr in net`: the same version, and `addr & netmask == network_address`.
   * For a network whose host bits are zero this is the interval
   * `[network_address, network_address + 2^hostBits)` of its version.
   */
  predicate Contains(n: Network, a: Address)
    ensures Contains(n, a) ==> n.family == a.family && n.base <= a.bits < n.base + Pow2(HostBits(n))
    ensures n.base % Pow2(HostBits(n)) == 0 && n.family == a.family && n.base <= a.bits < n.base + Pow2(HostBits(n))
      ==> Contains(n, a)
  {
    MaskInterval(a.bits, n.base, Pow2(HostBits(n)));
    n.family == a.family && a.bits - a.bits % Pow2(HostBits(n)) == n.base
  }

  /** A multiple of `p` other than zero is at least `p` away from zero. */
  lemma MultipleAwayFromZero(p: nat, d: int)
    requires p >= 1
    ensures d >= 1 ==> p * d >= p
    ensures d <= -1 ==> p * d + p <= 0
  {
    if d >= 1 {
      var e: nat := d - 1;
      assert p * d == p * e + p;
    } else if d <= -1 {
      var e: nat := -d - 1;
      assert p * d + p * e + p == 0;
    }
  }

  /** The remainder of `p * q + k` by `p` is `k` when `k < p`. */
  lemma ModOfMultiplePlus(p: nat, q: nat, k: nat)
    requires p >= 1 && k < p
    ensures (p * q + k) % p == k
  {
    var x := p * q + k;
    var d := q - x / p;
    assert p * d == x % p - k;
    MultipleAwayFromZero(p, d);
  }

  /** Clearing the low bits of `x` gives `b` exactly when `x` lies in the block of `p` values from `b`. */
  lemma MaskInterval(x: nat, b: nat, p: nat)
    requires p >= 1
    ensures x - x % p == b ==> b <= x < b + p
    ensures b % p == 0 && b <= x < b + p ==> x - x % p == b
  {
    if b % p == 0 && b <= x < b + p {
      var q, k := b / p, x - b;
      assert b == p * q;
      ModOfMultiplePlus(p, q, k);
      assert x == p * q + k;
    }
  }

  /** Some configured range contains the address, which then lies inside a range of its own version. */
  predicate InAnyRange(ranges: seq<Network>, a: Address)
    ensures InAnyRange(ranges, a) ==> exists i | 0 <= i < |ranges| ::
      ranges[i].family == a.family && ranges[i].base <= a.bits < ranges[i].base + Pow2(HostBits(ranges[i]))
  {
    exists i | 0 <= i < |ranges| :: Contains(ranges[i], a)
  }

  lemma MulCancel(p: nat, x: nat, y: nat)
    requires p >= 1 && p * x == p * y
    ensures x == y
  {
    assert p * (x - y) == p * x - p * y;
  }

  lemma SmallModulo(x: nat, p: nat)
    requires x < p
    ensures x % p == x && x / p == 0
  {
  }

  lemma MaskIsMultiple(x: nat, p: nat)
    requires p >= 1
    ensures x - x % p == p * (x / p)
  {
  }

  /** Membership is agreement of the top `prefixLen` bits. */
  lemma ContainsIffPrefixAgrees(n: Network, a: Address)
    requires ValidNetwork(n)
    ensures var p := Pow2(HostBits(n));
      Contains(n, a) <==> n.family == a.family && a.bits / p == n.base / p
  {
    MaskIffSameQuotient(a.bits, n.base, Pow2(HostBits(n)));
  }

  /** For `b` a multiple of `p`, clearing the low bits of `x` gives `b` exactly when `x` and `b` have the same quotient. */
  lemma MaskIffSameQuotient(x: nat, b: nat, p: nat)
    requires p >= 1 && b % p == 0
    ensures x - x % p == b <==> x / p == b / p
  {
    MaskIsMultiple(x, p);
    MaskIsMultiple(b, p);
    if x - x % p == b {
      MulCancel(p, x / p, b / p);
    }
  }

  /** A `/0` network holds every address of its version. */
  lemma WholeFamily(n: Network, a: Address)
    requires ValidNetwork(n) && ValidAddress(a) && n.prefixLen == 0
    ensures Contains(n, a) <==> n.family == a.family
  {
    var p := Pow2(HostBits(n));
    assert HostBits(n) == Width(n.family);
    SmallModulo(n.base, p);
    if n.family == a.family {
      SmallModulo(a.bits, p);
    }
  }

  /** A full-length network holds its own address and nothing else. */
  lemma SingleHost(n: Network, a: Address)
    requires ValidNetwork(n) && n.prefixLen == Width(n.family)
    ensures Contains(n, a) <==> a == Address(n.family, n.base)
  {
    assert Pow2(HostBits(n)) == 1;
  }

  /** An address of the other version is never in a range. */
  lemma OtherFamilyNeverTrusted(ranges: seq<Network>, a: Address)
    requires forall n <- ranges :: n.family != a.family
    ensures !InAnyRange(ranges, a)
  {
  }

  /**
   * The `cf_ips` list of lines 13-16: the configuration text split on newlines,
   * each line parsed as a network; the first line that does not parse stops the
   * program.
   */
  method LoadTrustedRanges(text: string, parseNetwork: string -> Option<Network>)
    returns (r: Result<seq<Network>>)
    ensures var lines := Split(text, '\n');
      r.Ok? <==> forall line <- lines :: parseNetwork(line).Some?
    ensures var lines := Split(text, '\n');
      r.Ok? ==> |r.value| == |lines| &&
                forall k | 0 <= k < |lines| :: parseNetwork(lines[k]) == Some(r.value[k])
    ensures var lines := Split(text, '\n');
      r.Err? ==> exists k | 0 <= k < |lines| ::
                   && parseNetwork(lines[k]).None?
                   && (forall m | 0 <= m < k :: parseNetwork(lines[m]).Some?)
                   && r.error == InvalidNetwork(lines[k])
    // A text that ends in a newline has an empty last line, which must parse too.
    ensures text != [] && text[|text| - 1] == '\n' && parseNetwork([]).None? ==> r.Err?
  {
    var lines := Split(text, '\n');
    if text != [] && text[|text| - 1] == '\n' {
      SplitTrailingSeparator(text[..|text| - 1], '\n');
      assert text[..|text| - 1] + ['\n'] == text;
      assert [] in lines;
    }
    var nets: seq<Network> := [];
    var i := 0;
    while i < |lines|
      invariant 0 <= i <= |lines|
      invariant |nets| == i
      invariant forall k | 0 <= k < i :: parseNetwork(lines[k]) == Some(nets[k])
    {
      var parsed := parseNetwork(lines[i]);
      if parsed.None? {
        return Err(InvalidNetwork(lines[i]));
      }
      nets := nets + [parsed.value];
      i := i + 1;
    }
    return Ok(nets);
  }

  /**
   * Lines 41-42: behind a trusted proxy the `CF-Connecting-IP` header wins when
   * present and non-empty (Python's `or`); otherwise the connection's address.
   */
  function EffectiveIp(ranges: seq<Network>, addr: Address, host: string, header: Option<string>): (ip: string)
    ensures ip == host || (InAnyRange(ranges, addr) && header == Some(ip) && ip != [])
    ensures !InAnyRange(ranges, addr) ==> ip == host
    ensures InAnyRange(ranges, addr) && header.Some? && header.value != [] ==> ip == header.value
  {
    if InAnyRange(ranges, addr) && header.Some? && header.value != [] then header.value else host
  }

  /** Behind a trusted proxy, a non-empty header is the visitor: a named corollary of `EffectiveIp`'s contract. */
  lemma TrustedProxyUsesHeader(ranges: seq<Network>, addr: Address, host: string, v: string)
    requires InAnyRange(ranges, addr) && v != []
    ensures EffectiveIp(ranges, addr, host, Some(v)) == v
  {
  }

  /** Behind a trusted proxy, a missing or empty header leaves the connection's address: a named corollary of `EffectiveIp`'s contract. */
  lemma TrustedProxyWithoutHeader(ranges: seq<Network>, addr: Address, host: string, header: Option<string>)
    requires header == None || header == Some([])
    ensures EffectiveIp(ranges, addr, host, header) == host
  {
  }

  /** The trusted ranges, read-only once loaded. */
  class TrustedProxies {
    const ranges: seq<Network>

    constructor (ranges: seq<Network>)
      ensures this.ranges == ranges
    {
      this.ranges := ranges;
    }

    /** `is_cloudflare_ip(ip)`: an unparseable address is an error; otherwise whether some range holds it. */
    method IsCloudflareIp(ip: string, parseAddress: string -> Option<Address>) returns (r: Result<bool>)
      ensures parseAddress(ip).None? ==> r == Err(InvalidAddress(ip))
      ensures parseAddress(ip).Some? ==> r == Ok(InAnyRange(ranges, parseAddress(ip).value))
    {
      var parsed := parseAddress(ip);
      if parsed.None? {
        return Err(InvalidAddress(ip));
      }
      var addr := parsed.value;
      var i := 0;
      while i < |ranges|
        invariant 0 <= i <= |ranges|
        invariant forall k | 0 <= k < i :: !Contains(ranges[k], addr)
      {
        if Contains(ranges[i], addr) {
          return Ok(true);
        }
        i := i + 1;
      }
      return Ok(false);
    }

    /** `get_ip_from_request`: the effective visitor address, or the parse error of the connection's address. */
    method GetIpFromRequest(host: string, cfConnectingIp: Option<string>, parseAddress: string -> Option<Address>)
      returns (r: Result<string>)
      ensures parseAddress(host).None? ==> r == Err(InvalidAddress(host))
      ensures parseAddress(host).Some? ==>
                r == Ok(EffectiveIp(ranges, parseAddress(host).value, host, cfConnectingIp))
    {
      var trusted := IsCloudflareIp(host, parseAddress);
      if trusted.Err? {
        return Err(trusted.error);
      }
      if trusted.value {
        if cfConnectingIp.Some? && cfConnectingIp.value != [] {
          return Ok(cfConnectingIp.value);
        }
        return Ok(host);
      }
      return Ok(host);
    }
  }
}
