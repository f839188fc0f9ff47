/** PROXY protocol version 2 headers (common/src/proxy_protocol.rs), section 2.2 of the HAProxy
    PROXY protocol specification. */
module ProxyProtocol {
  import opened Prelude
  import opened ClientIp
  import opened ByteStream

  datatype SocketAddr =
    | Addr4(ip4: Ipv4, port: u16)
    | Addr6(ip6: Ipv6, port: u16, flow: nat, scope: nat)

  datatype Error =
    | Io
    | InvalidMagic(header: seq<byte>)
    | UnsupportedVersion(version: nat)
    | PayloadTooLarge(size: nat)
    | TruncatedPayload(expected: nat, got: nat)

  const MAGIC: seq<byte> := [0x0D, 0x0A, 0x0D, 0x0A, 0x00, 0x0D, 0x0A, 0x51, 0x55, 0x49, 0x54, 0x0A]

  const HEADER_LEN := 16
  const MAX_PAYLOAD := 1024

  /** The address as an IPv6 one, mapped if need be. */
  function AsIpv6(a: SocketAddr): Ipv6 {
    match a
    case Addr4(ip, _) => ToIpv6Mapped(ip)
    case Addr6(ip, _, _, _) => ip
  }

  function AddressBlock(src: SocketAddr, dst: SocketAddr): seq<byte> {
    (if src.Addr4? && dst.Addr4? then src.ip4 + dst.ip4 else AsIpv6(src) + AsIpv6(dst))
    + U16Bytes(src.port) + U16Bytes(dst.port)
  }

  method EncodeProxyV2(src: SocketAddr, dst: SocketAddr) returns (buf: seq<byte>)
    ensures buf == MAGIC + (if src.Addr4? && dst.Addr4? then [0x21, 0x11, 0, 12] else [0x21, 0x21, 0, 36]) + AddressBlock(src, dst)
    ensures forall tail: seq<byte> :: Parse(buf + tail) == (Ok(Some(Unwrapped(src))), tail)
  {
    hide Parse, Unwrapped, AsIpv6;
    buf := MAGIC;
    if src.Addr4? && dst.Addr4? {
      buf := buf + [0x21];
      buf := buf + [0x11];
      buf := buf + U16Bytes(12);
      buf := buf + src.ip4;
      buf := buf + dst.ip4;
      buf := buf + U16Bytes(src.port);
      buf := buf + U16Bytes(dst.port);
    } else {
      buf := buf + [0x21];
      buf := buf + [0x21];
      buf := buf + U16Bytes(36);
      buf := buf + AsIpv6(src);
      buf := buf + AsIpv6(dst);
      buf := buf + U16Bytes(src.port);
      buf := buf + U16Bytes(dst.port);
    }
    forall tail: seq<byte> ensures Parse(buf + tail) == (Ok(Some(Unwrapped(src))), tail) {
      RoundTrip(src, dst, buf, tail);
    }
  }

  /** The address a reader sees: IPv4-mapped IPv6 unwrapped, flow and scope dropped. */
  function Unwrapped(a: SocketAddr): SocketAddr {
    match a
    case Addr4(_, _) => a
    case Addr6(ip, port, _, _) => FromIpv6(ip, port)
  }

  function FromIpv6(ip: Ipv6, port: u16): SocketAddr {
    if ToIpv4Mapped(ip).Some? then Addr4(ToIpv4Mapped(ip).value, port) else Addr6(ip, port, 0, 0)
  }

  /** The client address in a payload, by command and address family. */
  function ParsePayload(cmd: nat, family: nat, payload: seq<byte>): Result<Option<SocketAddr>, Error> {
    if cmd == 0 then Ok(None)
    else if family == 1 then
      if |payload| < 12 then Err(TruncatedPayload(12, |payload|))
      else Ok(Some(Addr4(payload[..4], U16Value(payload[8], payload[9]))))
    else if family == 2 then
      if |payload| < 36 then Err(TruncatedPayload(36, |payload|))
      else Ok(Some(FromIpv6(payload[..16], U16Value(payload[32], payload[33]))))
    else Ok(None)
  }

  /** The result of reading a header from `bytes`, and what is left unread. */
  function Parse(bytes: seq<byte>): (Result<Option<SocketAddr>, Error>, seq<byte>) {
    if |bytes| < HEADER_LEN then (Err(Io), [])
    else
      var header, rest := bytes[..HEADER_LEN], bytes[HEADER_LEN..];
      var len := U16Value(header[14], header[15]);
      if header[..12] != MAGIC then (Err(InvalidMagic(header)), rest)
      else if header[12] / 16 != 2 then (Err(UnsupportedVersion(header[12] / 16)), rest)
      else if len > MAX_PAYLOAD then (Err(PayloadTooLarge(len)), rest)
      else if |rest| < len then (Err(Io), [])
      else (ParsePayload(header[12] % 16, header[13] / 16, rest[..len]), rest[len..])
  }

  /** Reading depends on the bytes alone, not on the pieces they arrive in, and consumes exactly the
      header. */
  method ReadProxyV2(stream: Stream) returns (r: Result<Option<SocketAddr>, Error>)
    requires stream.Valid()
    modifies stream
    ensures stream.Valid()
    ensures (r, stream.Bytes()) == Parse(old(stream.Bytes()))
  {
    var header := stream.ReadExact(HEADER_LEN);
    if header.None? { return Err(Io); }
    var h := header.value;
    if h[0..12] != MAGIC { return Err(InvalidMagic(h)); }
    var version := h[12] / 16;
    if version != 2 { return Err(UnsupportedVersion(version)); }
    var len := U16Value(h[14], h[15]);
    if len > MAX_PAYLOAD { return Err(PayloadTooLarge(len)); }
    var payload := stream.ReadExact(len);
    if payload.None? { return Err(Io); }
    var p := payload.value;
    if h[12] % 16 == 0 { return Ok(None); }
    match h[13] / 16 {
      case 1 =>
        if len < 12 { return Err(TruncatedPayload(12, len)); }
        return Ok(Some(Addr4(p[..4], U16Value(p[8], p[9]))));
      case 2 =>
        if len < 36 { return Err(TruncatedPayload(36, len)); }
        return Ok(Some(FromIpv6(p[..16], U16Value(p[32], p[33]))));
      case _ => return Ok(None);
    }
  }

  lemma U16RoundTrip(n: u16)
    ensures U16Value(U16Bytes(n)[0], U16Bytes(n)[1]) == n
  {
  }

  /** Any header of version 2 with a payload that is not too large is read to the end of that payload,
      whatever its command and family and however long the payload. */
  lemma AnyHeaderRead(cmd: nat, family: byte, payload: seq<byte>, tail: seq<byte>)
    requires cmd < 16 && |payload| <= 1024
    ensures Parse(MAGIC + [0x20 + cmd, family] + U16Bytes(|payload|) + payload + tail) == (ParsePayload(cmd, family / 16, payload), tail)
  {
    var n := |payload|;
    var head := MAGIC + [0x20 + cmd, family] + U16Bytes(n);
    var bytes := head + payload + tail;
    U16RoundTrip(n);
    hide ParsePayload, U16Value, U16Bytes;
    assert |U16Bytes(n)| == 2 by { TwoBytes(n); }
    assert bytes[..HEADER_LEN] == head && bytes[HEADER_LEN..] == payload + tail;
    assert head[..12] == MAGIC && head[12] == 0x20 + cmd && head[13] == family && head[14] == U16Bytes(n)[0] && head[15] == U16Bytes(n)[1];
    assert (payload + tail)[..n] == payload && (payload + tail)[n..] == tail;
  }

  lemma TwoBytes(n: u16)
    ensures |U16Bytes(n)| == 2
  {
  }

  /** What a payload gives: nothing for a LOCAL command or another family; the first address and port of
      one of at least 12 or 36 bytes, whatever follows them; an error for a shorter one. */
  lemma PayloadMeans(cmd: nat, family: nat, payload: seq<byte>)
    ensures cmd == 0 || (family != 1 && family != 2) ==> ParsePayload(cmd, family, payload) == Ok(None)
    ensures cmd != 0 && family == 1 && |payload| >= 12 ==>
              ParsePayload(cmd, family, payload) == Ok(Some(Addr4(payload[0..4], payload[8] as int * 256 + payload[9] as int)))
    ensures cmd != 0 && family == 2 && |payload| >= 36 ==>
              ParsePayload(cmd, family, payload) == Ok(Some(FromIpv6(payload[0..16], payload[32] as int * 256 + payload[33] as int)))
    ensures cmd != 0 && family == 1 && |payload| < 12 ==> ParsePayload(cmd, family, payload) == Err(TruncatedPayload(12, |payload|))
    ensures cmd != 0 && family == 2 && |payload| < 36 ==> ParsePayload(cmd, family, payload) == Err(TruncatedPayload(36, |payload|))
  {
  }

  /** When reading fails before the payload is looked at, in the order of the checks. */
  lemma HeaderRefused(bytes: seq<byte>)
    ensures var (r, rest) := Parse(bytes);
            if |bytes| < 16 then r == Err(Io) && rest == []
            else if bytes[..12] != [0x0D, 0x0A, 0x0D, 0x0A, 0x00, 0x0D, 0x0A, 0x51, 0x55, 0x49, 0x54, 0x0A]
              then r == Err(InvalidMagic(bytes[..16])) && rest == bytes[16..]
            else if bytes[12] / 16 != 2 then r == Err(UnsupportedVersion(bytes[12] / 16)) && rest == bytes[16..]
            else
              var n := bytes[14] as int * 256 + bytes[15] as int;
              if n > 1024 then r == Err(PayloadTooLarge(n)) && rest == bytes[16..]
              else if |bytes| < 16 + n then r == Err(Io) && rest == []
              else rest == bytes[16 + n..]
  {
    hide ParsePayload;
    if |bytes| >= 16 {
      assert bytes[..16][..12] == bytes[..12];
      var n := bytes[14] as int * 256 + bytes[15] as int;
      if |bytes| >= 16 + n { assert bytes[16..][n..] == bytes[16 + n..]; }
    }
  }

  /** What was encoded, followed by anything, is read back: the source address as a reader sees it,
      and exactly what followed. */
  lemma RoundTrip(src: SocketAddr, dst: SocketAddr, buf: seq<byte>, tail: seq<byte>)
    requires buf == MAGIC + (if src.Addr4? && dst.Addr4? then [0x21, 0x11, 0, 12] else [0x21, 0x21, 0, 36]) + AddressBlock(src, dst)
    ensures Parse(buf + tail) == (Ok(Some(Unwrapped(src))), tail)
  {
    var block := AddressBlock(src, dst);
    var n := if src.Addr4? && dst.Addr4? then 12 else 36;
    assert |block| == n;
    BlockRead(src, dst);
    hide AddressBlock, ParsePayload, Unwrapped;
    HeaderRead(if n == 12 then 0x11 else 0x21, n, block, tail);
    assert MAGIC + [0x21, if n == 12 then 0x11 else 0x21, 0, n] + block == buf;
  }

  /** A header of version 2 and command PROXY, its payload and what follows. */
  lemma HeaderRead(family: byte, n: byte, block: seq<byte>, tail: seq<byte>)
    requires |block| == n
    ensures Parse(MAGIC + [0x21, family, 0, n] + block + tail) == (ParsePayload(1, family / 16, block), tail)
  {
    hide ParsePayload;
    var head := MAGIC + [0x21, family, 0, n];
    var bytes := head + block + tail;
    assert bytes[..HEADER_LEN] == head && bytes[HEADER_LEN..] == block + tail;
    assert head[..12] == MAGIC && head[12] == 0x21 && head[13] == family && head[14] == 0 && head[15] == n;
    assert (block + tail)[..n] == block && (block + tail)[n..] == tail;
  }

  lemma BlockRead(src: SocketAddr, dst: SocketAddr)
    ensures ParsePayload(1, if src.Addr4? && dst.Addr4? then 1 else 2, AddressBlock(src, dst)) == Ok(Some(Unwrapped(src)))
  {
    var block := AddressBlock(src, dst);
    U16RoundTrip(src.port);
    if src.Addr4? && dst.Addr4? {
      assert block[..4] == src.ip4;
      assert block[8] == U16Bytes(src.port)[0] && block[9] == U16Bytes(src.port)[1];
    } else {
      assert block[..16] == AsIpv6(src);
      assert block[32] == U16Bytes(src.port)[0] && block[33] == U16Bytes(src.port)[1];
      if src.Addr4? { MappedRoundTrip(src.ip4); }
    }
  }
}
