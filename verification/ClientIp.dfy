/** Client addresses and the canonical form used as the key of every per-client table
    (common/src/lib.rs). */
module ClientIp {
  import opened Prelude

  type Ipv4 = s: seq<byte> | |s| == 4 witness [0, 0, 0, 0]

  type Ipv6 = s: seq<byte> | |s| == 16 witness [0, 0, 0, 0, 0, 0, 0, 0, 0, 0, 0, 0, 0, 0, 0, 0]

  datatype IpAddr = V4(v4: Ipv4) | V6(v6: Ipv6)

  /** `n` zero octets. */
  function Zeros(n: nat): (s: seq<byte>)
    ensures |s| == n
  {
    seq(n, _ => 0)
  }

  const MAPPED_PREFIX: seq<byte> := [0, 0, 0, 0, 0, 0, 0, 0, 0, 0, 0xFF, 0xFF]

  const UNSPECIFIED_V4: Ipv4 := [0, 0, 0, 0]

  const UNSPECIFIED_V6: Ipv6 := [0, 0, 0, 0, 0, 0, 0, 0, 0, 0, 0, 0, 0, 0, 0, 0]

  const LOOPBACK_V6: Ipv6 := [0, 0, 0, 0, 0, 0, 0, 0, 0, 0, 0, 0, 0, 0, 0, 1]

  /** `::ffff:a.b.c.d` as `a.b.c.d`, any other IPv6 address as none. */
  function ToIpv4Mapped(a: Ipv6): Option<Ipv4> {
    if a[..12] == MAPPED_PREFIX then Some(a[12..]) else None
  }

  function ToIpv6Mapped(a: Ipv4): Ipv6 {
    MAPPED_PREFIX + a
  }

  predicate IsUnspecified(ip: IpAddr) {
    match ip
    case V4(a) => a == UNSPECIFIED_V4
    case V6(a) => a == UNSPECIFIED_V6
  }

  /** IPv4 unchanged, IPv4-mapped IPv6 unwrapped, `::1` and `::` unchanged, any other
      IPv6 address masked to its /64 prefix. */
  function CanonicalClientIp(ip: IpAddr): IpAddr {
    match ip
    case V4(_) => ip
    case V6(a) =>
      if ToIpv4Mapped(a).Some? then V4(ToIpv4Mapped(a).value)
      else if a == LOOPBACK_V6 || a == UNSPECIFIED_V6 then ip
      else V6(a[..8] + Zeros(8))
  }

  predicate IsCanonical(ip: IpAddr) {
    CanonicalClientIp(ip) == ip
  }

  lemma CanonicalIsIdempotent(ip: IpAddr)
    ensures IsCanonical(CanonicalClientIp(ip))
  {
    if ip.V6? && ToIpv4Mapped(ip.v6).None? && ip.v6 != LOOPBACK_V6 && ip.v6 != UNSPECIFIED_V6 {
      var masked := ip.v6[..8] + Zeros(8);
      assert masked[..12][10] == 0;
      assert MAPPED_PREFIX[10] == 0xFF;
      assert masked[..8] == ip.v6[..8];
      assert masked[15] == 0;
    }
  }

  /** What each kind of address is canonicalised to. */
  lemma CanonicalForms(a: Ipv4, b: Ipv6)
    ensures CanonicalClientIp(V4(a)) == V4(a) == CanonicalClientIp(V6(ToIpv6Mapped(a)))
    ensures CanonicalClientIp(V6(LOOPBACK_V6)) == V6(LOOPBACK_V6) && CanonicalClientIp(V6(UNSPECIFIED_V6)) == V6(UNSPECIFIED_V6)
    ensures ToIpv4Mapped(b).None? && b != LOOPBACK_V6 ==>
              var c := CanonicalClientIp(V6(b));
              c.V6? && c.v6[..8] == b[..8] && forall i :: 8 <= i < 16 ==> c.v6[i] == 0
  {
    MappedRoundTrip(a);
    assert LOOPBACK_V6[..12][10] == 0 && UNSPECIFIED_V6[..12][10] == 0 && MAPPED_PREFIX[10] == 0xFF;
    assert UNSPECIFIED_V6[..8] == Zeros(8);
  }

  /** Mapping an IPv4 address into IPv6 and canonicalising gives the IPv4 address back. */
  lemma MappedRoundTrip(a: Ipv4)
    ensures ToIpv4Mapped(ToIpv6Mapped(a)) == Some(a)
  {
    var m := ToIpv6Mapped(a);
    assert m[..12] == MAPPED_PREFIX;
    assert m[12..] == a;
  }

  predicate InZeroSlash64(a: Ipv6) {
    a[..8] == Zeros(8)
  }

  /** Exactly which addresses canonicalise to an unspecified one, and so escape per-address
      accounting: `0.0.0.0`, its mapped form, and every IPv6 address of the all-zero /64
      except `::1` and the other mapped ones. */
  lemma UncountedAddresses(ip: IpAddr)
    ensures IsUnspecified(CanonicalClientIp(ip)) <==>
            match ip
            case V4(a) => a == UNSPECIFIED_V4
            case V6(a) =>
              if ToIpv4Mapped(a).Some? then ToIpv4Mapped(a).value == UNSPECIFIED_V4
              else InZeroSlash64(a) && a != LOOPBACK_V6
  {
    if ip.V6? && ToIpv4Mapped(ip.v6).None? {
      var masked: Ipv6 := ip.v6[..8] + Zeros(8);
      assert masked[..8] == ip.v6[..8];
      assert UNSPECIFIED_V6[..8] == Zeros(8);
      if InZeroSlash64(ip.v6) {
        assert masked == UNSPECIFIED_V6;
      }
    }
  }

  /** Two IPv6 clients share a table key exactly when they share a /64, unless one of them
      is mapped, `::1` or `::`. */
  lemma SameKeyIffSameSlash64(a: Ipv6, b: Ipv6)
    requires forall x :: x in {a, b} ==> ToIpv4Mapped(x).None? && x != LOOPBACK_V6 && x != UNSPECIFIED_V6
    ensures CanonicalClientIp(V6(a)) == CanonicalClientIp(V6(b)) <==> a[..8] == b[..8]
  {
    assert (a[..8] + Zeros(8))[..8] == a[..8];
    assert (b[..8] + Zeros(8))[..8] == b[..8];
  }
}
