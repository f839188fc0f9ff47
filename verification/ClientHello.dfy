/** The relay's TLS record reader (relay-server/src/main.rs), section 5.1 of RFC 8446. Its timeouts
    are left out. */
module ClientHello {
  import opened Prelude
  import opened ByteStream

  datatype Error = ClosedEarly | EofInHeader | RecordTooLong | EofInPayload

  const RECORD_HEADER := 5
  const HANDSHAKE: byte := 0x16
  const MAX_RECORD := 16384
  const READ_BUFFER := 4096

  /** The record a stream starts with, and what is left unread, when the stream starts with a
      handshake record or is too short to tell. */
  function Record(bytes: seq<byte>): (Result<seq<byte>, Error>, seq<byte>)
    requires |bytes| >= RECORD_HEADER ==> bytes[0] == HANDSHAKE
  {
    if |bytes| == 0 then (Err(ClosedEarly), [])
    else if |bytes| < RECORD_HEADER then (Err(EofInHeader), [])
    else
      var len := U16Value(bytes[3], bytes[4]);
      if len > MAX_RECORD then (Err(RecordTooLong), bytes[RECORD_HEADER..])
      else if |bytes| < RECORD_HEADER + len then (Err(EofInPayload), [])
      else (Ok(bytes[..RECORD_HEADER + len]), bytes[RECORD_HEADER + len..])
  }

  /** For every fragmentation of the stream: exactly the first record of a handshake, the rest left
      unread; otherwise the preview of something that is no handshake, 5 bytes and at most 512
      more. `idle` says whether nothing more came in time for the preview. */
  method ReadClientHelloRecord(stream: Stream, idle: bool) returns (r: Result<seq<byte>, Error>)
    requires stream.Valid()
    modifies stream
    ensures stream.Valid()
    ensures var bytes := old(stream.Bytes());
            if |bytes| >= RECORD_HEADER && bytes[0] != HANDSHAKE
            then r.Ok? && RECORD_HEADER <= |r.value| <= RECORD_HEADER + 512 && bytes == r.value + stream.Bytes()
            else (r, stream.Bytes()) == Record(bytes)
  {
    ghost var bytes := stream.Bytes();
    var buf := ReadUpTo(stream, [], RECORD_HEADER, RECORD_HEADER);
    assert [] + bytes == bytes;
    if |buf| < RECORD_HEADER {
      return Err(if buf == [] then ClosedEarly else EofInHeader);
    }
    if buf[0] != HANDSHAKE {
      if !idle {
        var extra := stream.Read(512);
        buf := buf + extra;
      }
      return Ok(buf);
    }
    var len := U16Value(buf[3], buf[4]);
    if len > MAX_RECORD {
      return Err(RecordTooLong);
    }
    var target := RECORD_HEADER + len;
    buf := ReadUpTo(stream, buf, target, READ_BUFFER);
    if |buf| < target {
      return Err(EofInPayload);
    }
    return Ok(buf);
  }

  /** The loop of both reading stages: on with `buf`, at most `cap` bytes at a time, until it holds
      `target` bytes or the stream ends. */
  method ReadUpTo(stream: Stream, buf: seq<byte>, target: nat, cap: nat) returns (full: seq<byte>)
    requires stream.Valid() && |buf| <= target && cap > 0
    modifies stream
    ensures stream.Valid() && buf <= full && |full| <= target
    ensures buf + old(stream.Bytes()) == full + stream.Bytes()
    ensures |full| < target ==> stream.Bytes() == []
  {
    full := buf;
    while |full| < target
      invariant stream.Valid() && buf <= full && |full| <= target
      invariant buf + old(stream.Bytes()) == full + stream.Bytes()
      decreases target - |full|
    {
      var needed := target - |full|;
      var chunk := stream.Read(if needed <= cap then needed else cap);
      if chunk == [] {
        return;
      }
      full := full + chunk;
    }
  }

  /** When a stream that may be a handshake gives a record, and what it gives otherwise: nothing short of
      the declared length, nothing longer than 16384 bytes, and the rest unread. */
  lemma RecordIff(bytes: seq<byte>)
    requires |bytes| >= RECORD_HEADER ==> bytes[0] == HANDSHAKE
    ensures var (r, rest) := Record(bytes);
            var declared := if |bytes| >= RECORD_HEADER then bytes[3] as int * 256 + bytes[4] as int else 0;
            && (r.Ok? <==> |bytes| >= 5 && declared <= 16384 && |bytes| >= 5 + declared)
            && (r.Ok? ==> bytes == r.value + rest && |r.value| == 5 + declared)
            && (r == Err(ClosedEarly) <==> bytes == [])
            && (r == Err(EofInHeader) <==> 0 < |bytes| < 5)
            && (r == Err(RecordTooLong) <==> |bytes| >= 5 && declared > 16384)
            && (r == Err(RecordTooLong) ==> rest == bytes[5..])
            && (r == Err(EofInPayload) <==> |bytes| >= 5 && declared <= 16384 && |bytes| < 5 + declared)
            && (r.Err? && r.error != RecordTooLong ==> rest == [])
  {
  }

  /** A record is read back whole, whatever follows it. */
  lemma RecordRoundTrip(version: seq<byte>, payload: seq<byte>, tail: seq<byte>)
    requires |version| == 2 && |payload| <= MAX_RECORD
    ensures var record := [HANDSHAKE] + version + U16Bytes(|payload|) + payload;
            Record(record + tail) == (Ok(record), tail)
  {
    var record := [HANDSHAKE] + version + U16Bytes(|payload|) + payload;
    var bytes := record + tail;
    assert bytes[0] == HANDSHAKE;
    assert bytes[3] == U16Bytes(|payload|)[0] && bytes[4] == U16Bytes(|payload|)[1];
    assert |record| == RECORD_HEADER + |payload|;
    assert bytes[..|record|] == record && bytes[|record|..] == tail;
  }
}
