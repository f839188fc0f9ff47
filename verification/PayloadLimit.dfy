/** The streaming payload limiter and its gRPC framing parser (server/src/middleware/limit.rs). */
module PayloadLimit {
  import opened Prelude

  /** Parser state between two bytes: filling the 5-byte message prefix, or skipping a payload. */
  datatype Framing =
    | Header(buf: seq<byte>, pos: nat)
    | Payload(remaining: nat)

  const PREFIX_LEN := 5

  const FRESH: Framing := Header([0, 0, 0, 0, 0], 0)

  predicate ValidFraming(st: Framing) {
    st.Header? ==> |st.buf| == PREFIX_LEN && st.pos <= PREFIX_LEN
  }

  /** The message length a complete prefix declares. */
  function DeclaredLen(prefix: seq<byte>): nat
    requires |prefix| == PREFIX_LEN
  {
    FromBigEndian(prefix[1..])
  }

  datatype TooLarge = PayloadTooLarge(current: nat, max: nat)

  datatype Frame = Data(data: seq<byte>) | Trailers

  // ------------------------------------------------------ the byte-at-a-time automaton

  /** A completed prefix that declared too much is never left again. */
  predicate Rejected(st: Framing) {
    st.Header? && st.pos == PREFIX_LEN
  }

  function FeedHeader(max: nat, buf: seq<byte>, pos: nat, b: byte): Framing
    requires |buf| == PREFIX_LEN && pos < PREFIX_LEN
  {
    var filled := buf[pos := b];
    if pos + 1 == PREFIX_LEN && DeclaredLen(filled) <= max then Payload(DeclaredLen(filled))
    else Header(filled, pos + 1)
  }

  function Feed(max: nat, st: Framing, b: byte): (st': Framing)
    requires ValidFraming(st)
    ensures ValidFraming(st')
  {
    match st
    case Header(buf, pos) => if pos == PREFIX_LEN then st else FeedHeader(max, buf, pos, b)
    case Payload(n) =>
      if n == 0 then FeedHeader(max, FRESH.buf, 0, b)
      else if n == 1 then FRESH
      else Payload(n - 1)
  }

  function FeedAll(max: nat, st: Framing, bytes: seq<byte>): (st': Framing)
    requires ValidFraming(st)
    ensures ValidFraming(st')
  {
    if |bytes| == 0 then st else Feed(max, FeedAll(max, st, bytes[..|bytes| - 1]), bytes[|bytes| - 1])
  }

  lemma {:induction false} FeedAllAppend(max: nat, st: Framing, a: seq<byte>, b: seq<byte>)
    requires ValidFraming(st)
    ensures FeedAll(max, st, a + b) == FeedAll(max, FeedAll(max, st, a), b)
  {
    if |b| == 0 {
      assert a + b == a;
    } else {
      FeedAllAppend(max, st, a, b[..|b| - 1]);
      assert (a + b)[..|a + b| - 1] == a + b[..|b| - 1];
    }
  }

  lemma {:induction false} RejectedStays(max: nat, st: Framing, bytes: seq<byte>)
    requires ValidFraming(st) && Rejected(st)
    ensures FeedAll(max, st, bytes) == st
  {
    if |bytes| == 0 {
    } else {
      RejectedStays(max, st, bytes[..|bytes| - 1]);
    }
  }

  /** Bytes that fit in the prefix buffer without completing it are copied one after another. */
  lemma {:induction false} FeedPartialHeader(max: nat, buf: seq<byte>, pos: nat, bytes: seq<byte>)
    requires |buf| == PREFIX_LEN && pos + |bytes| < PREFIX_LEN
    ensures FeedAll(max, Header(buf, pos), bytes) == Header(buf[..pos] + bytes + buf[pos + |bytes|..], pos + |bytes|)
  {
    var n := |bytes|;
    if n == 0 {
      assert buf[..pos] + bytes + buf[pos..] == buf;
    } else {
      FeedPartialHeader(max, buf, pos, bytes[..n - 1]);
      CopyOneMore(buf, pos, bytes);
    }
  }

  lemma CopyOneMore(buf: seq<byte>, pos: nat, bytes: seq<byte>)
    requires |bytes| > 0 && pos + |bytes| <= |buf|
    ensures var n := |bytes| - 1;
            var copied := buf[..pos] + bytes[..n] + buf[pos + n..];
            copied[pos + n := bytes[n]] == buf[..pos] + bytes + buf[pos + n + 1..]
  {
  }

  lemma FeedWholeHeader(max: nat, buf: seq<byte>, pos: nat, bytes: seq<byte>)
    requires |buf| == PREFIX_LEN && pos < PREFIX_LEN && pos + |bytes| == PREFIX_LEN
    ensures var filled := buf[..pos] + bytes;
            FeedAll(max, Header(buf, pos), bytes) ==
            if DeclaredLen(filled) <= max then Payload(DeclaredLen(filled)) else Header(filled, PREFIX_LEN)
  {
    var n := |bytes|;
    FeedPartialHeader(max, buf, pos, bytes[..n - 1]);
    CopyOneMore(buf, pos, bytes);
    assert buf[..pos] + bytes + buf[PREFIX_LEN..] == buf[..pos] + bytes;
  }

  lemma {:induction false} FeedPayload(max: nat, remaining: nat, bytes: seq<byte>)
    requires 0 < |bytes| <= remaining
    ensures FeedAll(max, Payload(remaining), bytes) ==
            if |bytes| == remaining then FRESH else Payload(remaining - |bytes|)
  {
    var n := |bytes|;
    if n > 1 {
      FeedPayload(max, remaining, bytes[..n - 1]);
    } else {
      assert FeedAll(max, Payload(remaining), bytes[..0]) == Payload(remaining);
    }
  }

  /** A finished empty payload reads on as if a new message began. */
  lemma {:induction false} FeedEmptyPayload(max: nat, bytes: seq<byte>)
    requires |bytes| > 0
    ensures FeedAll(max, Payload(0), bytes) == FeedAll(max, FRESH, bytes)
  {
    if |bytes| > 1 {
      FeedEmptyPayload(max, bytes[..|bytes| - 1]);
    } else {
      assert FeedAll(max, Payload(0), bytes[..0]) == Payload(0);
      assert FeedAll(max, FRESH, bytes[..0]) == FRESH;
    }
  }

  /** The prefix buffer after `n` bytes of `rest` were copied in at `pos`. */
  function Copied(buf: seq<byte>, pos: nat, rest: seq<byte>, n: nat): (copied: seq<byte>)
    requires |buf| == PREFIX_LEN && n <= |rest| && pos + n <= PREFIX_LEN
    ensures |copied| == PREFIX_LEN && (n == 0 ==> copied == buf)
  {
    buf[..pos] + rest[..n] + buf[pos + n..]
  }

  /** What one bulk copy into the prefix buffer does, in terms of the automaton. */
  lemma HeaderStep(max: nat, buf: seq<byte>, pos: nat, rest: seq<byte>, n: nat)
    requires |buf| == PREFIX_LEN && pos <= PREFIX_LEN && n <= |rest| && pos + n <= PREFIX_LEN
    requires pos == PREFIX_LEN ==> DeclaredLen(buf) > max
    ensures var copied := Copied(buf, pos, rest, n);
            var len := DeclaredLen(copied);
            FeedAll(max, Header(buf, pos), rest) ==
            FeedAll(max, if pos + n == PREFIX_LEN && len <= max then Payload(len) else Header(copied, pos + n), rest[n..])
  {
    var copied := Copied(buf, pos, rest, n);
    assert rest == rest[..n] + rest[n..];
    FeedAllAppend(max, Header(buf, pos), rest[..n], rest[n..]);
    if pos == PREFIX_LEN {
      assert rest[n..] == rest;
    } else if pos + n == PREFIX_LEN {
      FeedWholeHeader(max, buf, pos, rest[..n]);
      assert copied == buf[..pos] + rest[..n];
    } else {
      FeedPartialHeader(max, buf, pos, rest[..n]);
    }
  }

  /** What one bulk skip of payload bytes does, in terms of the automaton. */
  lemma PayloadStep(max: nat, remaining: nat, rest: seq<byte>, n: nat)
    requires |rest| > 0 && n <= |rest| && n <= remaining && (n == |rest| || n == remaining)
    ensures FeedAll(max, Payload(remaining), rest) ==
            FeedAll(max, if n == remaining then FRESH else Payload(remaining - n), rest[n..])
  {
    if remaining == 0 {
      FeedEmptyPayload(max, rest);
      assert rest[n..] == rest;
    } else {
      assert rest == rest[..n] + rest[n..];
      FeedAllAppend(max, Payload(remaining), rest[..n], rest[n..]);
      FeedPayload(max, remaining, rest[..n]);
    }
  }

  /** A prefix stays complete only if it was refused. */
  predicate Consistent(max: nat, st: Framing) {
    && ValidFraming(st)
    && (Rejected(st) ==> DeclaredLen(st.buf) > max)
  }

  /** The header arm of the loop: copies what fits into the prefix buffer. */
  method ScanHeader(max: nat, buf: seq<byte>, pos: nat, rest: seq<byte>) returns (st: Framing, n: nat, tooLarge: bool)
    requires Consistent(max, Header(buf, pos)) && |rest| > 0
    ensures Consistent(max, st) && n <= |rest| && (n == 0 ==> tooLarge)
    ensures tooLarge == Rejected(st)
    ensures FeedAll(max, Header(buf, pos), rest) == FeedAll(max, st, rest[n..])
  {
    hide DeclaredLen, FeedAll, Copied;
    n := if PREFIX_LEN - pos <= |rest| then PREFIX_LEN - pos else |rest|;
    HeaderStep(max, buf, pos, rest, n);
    var copied := Copied(buf, pos, rest, n);
    st, tooLarge := Header(copied, pos + n), false;
    if pos + n == PREFIX_LEN {
      var msgLen := DeclaredLen(copied);
      if msgLen > max {
        tooLarge := true;
      } else {
        st := Payload(msgLen);
      }
    }
  }

  lemma SuffixOfSuffix(data: seq<byte>, offset: nat, n: nat)
    requires offset + n <= |data|
    ensures data[offset..][n..] == data[offset + n..]
  {
  }

  /** The framing loop over one data frame. A message of length zero makes an iteration that
      reads nothing, so progress is lexicographic. Whatever the state it starts in, it ends in
      the automaton's state, and a nonempty frame is refused exactly when that is a refused
      prefix. */
  method ScanFrame(max: nat, before: Framing, data: seq<byte>) returns (st: Framing, tooLarge: bool)
    requires Consistent(max, before)
    ensures Consistent(max, st)
    ensures st == FeedAll(max, before, data)
    ensures tooLarge == (data != [] && Rejected(st))
  {
    hide DeclaredLen, FeedAll;
    st := before;
    var offset := 0;
    assert data[0..] == data;
    while offset < |data|
      invariant 0 <= offset <= |data|
      invariant Consistent(max, st)
      invariant offset > 0 ==> !Rejected(st)
      invariant FeedAll(max, before, data) == FeedAll(max, st, data[offset..])
      decreases |data| - offset, if st.Payload? then 1 else 0
    {
      var rest := data[offset..];
      match st {
        case Header(buf, pos) =>
          var n;
          st, n, tooLarge := ScanHeader(max, buf, pos, rest);
          SuffixOfSuffix(data, offset, n);
          offset := offset + n;
          if tooLarge {
            RejectedStays(max, st, data[offset..]);
            return;
          }
        case Payload(remaining) =>
          var consumed := if |rest| <= remaining then |rest| else remaining;
          PayloadStep(max, remaining, rest, consumed);
          SuffixOfSuffix(data, offset, consumed);
          offset := offset + consumed;
          st := if remaining - consumed == 0 then FRESH else Payload(remaining - consumed);
      }
    }
    FeedNothing(max, st, data[offset..]);
    tooLarge := false;
  }

  lemma FeedNothing(max: nat, st: Framing, bytes: seq<byte>)
    requires ValidFraming(st) && |bytes| == 0
    ensures FeedAll(max, st, bytes) == st
  {
  }

  // ------------------------------------------------------------------- the body wrapper

  class LimitedBody {
    const maxBytes: nat
    var currentBytes: nat
    var grpcState: Option<Framing>

    ghost predicate Valid()
      reads this
    {
      grpcState.Some? ==> Consistent(maxBytes, grpcState.value)
    }

    constructor (maxBytes: nat, isGrpc: bool)
      ensures Valid() && this.maxBytes == maxBytes && currentBytes == 0
      ensures grpcState == if isGrpc then Some(FRESH) else None
    {
      this.maxBytes := maxBytes;
      currentBytes := 0;
      grpcState := if isGrpc then Some(FRESH) else None;
    }

    /** One frame from the inner body. The bulk-copy loop leaves the automaton's state; a
        nonempty gRPC frame fails exactly when that state is a refused prefix. */
    method PollFrame(frame: Frame) returns (r: Result<Frame, TooLarge>)
      requires Valid()
      modifies this
      ensures Valid()
      ensures r.Ok? ==> r.value == frame
      ensures frame.Trailers? ==> r.Ok? && grpcState == old(grpcState) && currentBytes == old(currentBytes)
      ensures old(grpcState).Some? && frame.Data? ==>
                && grpcState == Some(FeedAll(maxBytes, old(grpcState).value, frame.data))
                && currentBytes == old(currentBytes)
                && r.Err? == (frame.data != [] && Rejected(grpcState.value))
                && (r.Err? ==> r.error == PayloadTooLarge(DeclaredLen(grpcState.value.buf), maxBytes))
      ensures old(grpcState).None? && frame.Data? ==>
                && grpcState.None?
                && currentBytes == old(currentBytes) + |frame.data|
                && r.Err? == (currentBytes > maxBytes)
                && (r.Err? ==> r.error == PayloadTooLarge(currentBytes, maxBytes))
    {
      if frame.Trailers? {
        return Ok(frame);
      }
      var data := frame.data;
      if grpcState.Some? {
        var st, tooLarge := ScanFrame(maxBytes, grpcState.value, data);
        grpcState := Some(st);
        if tooLarge {
          return Err(PayloadTooLarge(DeclaredLen(st.buf), maxBytes));
        }
      } else {
        currentBytes := currentBytes + |data|;
        if currentBytes > maxBytes {
          return Err(PayloadTooLarge(currentBytes, maxBytes));
        }
      }
      return Ok(frame);
    }
  }

  // ------------------------------------------------------------------ whole gRPC streams

  /** The state after the first `n` chunks. */
  function After(max: nat, st: Framing, chunks: seq<seq<byte>>, n: nat): (st': Framing)
    requires ValidFraming(st) && n <= |chunks|
    ensures ValidFraming(st')
  {
    FeedAll(max, st, Concat(chunks[..n]))
  }

  /** Whether the body passes every one of `chunks`, starting from `st`. */
  ghost predicate Passes(max: nat, st: Framing, chunks: seq<seq<byte>>)
    requires ValidFraming(st)
  {
    forall i :: 0 <= i < |chunks| && chunks[i] != [] ==> !Rejected(After(max, st, chunks, i + 1))
  }

  /** Chunk after chunk, the body reaches the state of the concatenated bytes. */
  lemma ChunkByChunk(max: nat, st: Framing, chunks: seq<seq<byte>>, i: nat)
    requires ValidFraming(st) && i < |chunks|
    ensures After(max, st, chunks, i + 1) == FeedAll(max, After(max, st, chunks, i), chunks[i])
  {
    hide FeedAll;
    assert chunks[..i + 1][..i] == chunks[..i];
    ConcatLast(chunks[..i + 1]);
    FeedAllAppend(max, st, Concat(chunks[..i]), chunks[i]);
  }

  /** Once refused, every later nonempty frame is refused again, with the same state. */
  lemma {:induction false} RejectionRepeats(max: nat, st: Framing, chunks: seq<seq<byte>>, i: nat, j: nat)
    requires ValidFraming(st) && i <= j <= |chunks| && Rejected(After(max, st, chunks, i))
    ensures After(max, st, chunks, j) == After(max, st, chunks, i)
    decreases j
  {
    hide After, FeedAll;
    if i == j {
    } else {
      RejectionRepeats(max, st, chunks, i, j - 1);
      ChunkByChunk(max, st, chunks, j - 1);
      RejectedStays(max, After(max, st, chunks, i), chunks[j - 1]);
    }
  }

  /** Acceptance depends on the bytes alone, not on how they were cut into frames. */
  lemma ChunkingIsIrrelevant(max: nat, chunks: seq<seq<byte>>)
    ensures Passes(max, FRESH, chunks) <==> !Rejected(FeedAll(max, FRESH, Concat(chunks)))
  {
    var n := |chunks|;
    assert After(max, FRESH, chunks, n) == FeedAll(max, FRESH, Concat(chunks)) by { assert chunks[..n] == chunks; }
    hide After, FeedAll;
    if !Rejected(After(max, FRESH, chunks, n)) {
      forall i | 0 <= i < n && chunks[i] != [] ensures !Rejected(After(max, FRESH, chunks, i + 1)) {
        if Rejected(After(max, FRESH, chunks, i + 1)) {
          RejectionRepeats(max, FRESH, chunks, i + 1, n);
        }
      }
    } else {
      RefusedSomewhere(max, chunks, n);
    }
  }

  lemma {:induction false} RefusedSomewhere(max: nat, chunks: seq<seq<byte>>, n: nat)
    requires n <= |chunks| && Rejected(After(max, FRESH, chunks, n))
    ensures exists i :: 0 <= i < n && chunks[i] != [] && Rejected(After(max, FRESH, chunks, i + 1))
  {
    if n == 0 {
    } else {
      if chunks[n - 1] == [] {
        ChunkByChunk(max, FRESH, chunks, n - 1);
        RefusedSomewhere(max, chunks, n - 1);
      }
    }
  }

  /** The lengths declared by the complete message prefixes of a stream. */
  function DeclaredLens(bytes: seq<byte>): seq<nat> {
    if |bytes| < PREFIX_LEN then []
    else
      var len := DeclaredLen(bytes[..PREFIX_LEN]);
      [len] + if |bytes| < PREFIX_LEN + len then [] else DeclaredLens(bytes[PREFIX_LEN + len..])
  }

  ghost predicate AllWithin(max: nat, lens: seq<nat>) {
    forall i :: 0 <= i < |lens| ==> lens[i] <= max
  }

  /** The first declared length over the limit. */
  function FirstOver(max: nat, lens: seq<nat>): nat {
    if |lens| == 0 then 0 else if lens[0] > max then lens[0] else FirstOver(max, lens[1..])
  }

  /** The automaton refuses a stream exactly when a complete prefix declares more than the
      limit, and then holds the first such prefix. */
  lemma {:induction false} RefusedIffDeclaredTooMuch(max: nat, bytes: seq<byte>)
    ensures var st := FeedAll(max, FRESH, bytes);
            && (!Rejected(st) <==> AllWithin(max, DeclaredLens(bytes)))
            && (Rejected(st) ==> DeclaredLen(st.buf) == FirstOver(max, DeclaredLens(bytes)) > max)
    decreases |bytes|
  {
    if |bytes| < PREFIX_LEN {
      FeedPartialHeader(max, FRESH.buf, 0, bytes);
    } else {
      var prefix, rest := bytes[..PREFIX_LEN], bytes[PREFIX_LEN..];
      var len := DeclaredLen(prefix);
      assert bytes == prefix + rest;
      FeedAllAppend(max, FRESH, prefix, rest);
      assert FRESH.buf[..0] + prefix == prefix;
      FeedWholeHeader(max, FRESH.buf, 0, prefix);
      if len > max {
        RejectedStays(max, Header(prefix, PREFIX_LEN), rest);
        assert DeclaredLens(bytes)[0] == len;
      } else {
        PayloadThenNext(max, len, rest);
        if len <= |rest| {
          assert bytes[PREFIX_LEN + len..] == rest[len..];
          RefusedIffDeclaredTooMuch(max, rest[len..]);
          assert DeclaredLens(bytes)[1..] == DeclaredLens(rest[len..]);
          WithinTail(max, DeclaredLens(bytes));
        }
      }
    }
  }

  lemma WithinTail(max: nat, lens: seq<nat>)
    requires |lens| > 0 && lens[0] <= max
    ensures AllWithin(max, lens) <==> AllWithin(max, lens[1..])
  {
    if AllWithin(max, lens[1..]) {
      forall i | 0 <= i < |lens| ensures lens[i] <= max {
        assert i > 0 ==> lens[i] == lens[1..][i - 1];
      }
    }
  }

  lemma PayloadThenNext(max: nat, len: nat, rest: seq<byte>)
    ensures var st := FeedAll(max, Payload(len), rest);
            if len <= |rest| && |rest| > 0 then st == FeedAll(max, FRESH, rest[len..]) else st.Payload?
  {
    if |rest| == 0 {
    } else if len <= |rest| {
      PayloadStep(max, len, rest, len);
    } else {
      PayloadStep(max, len, rest, |rest|);
    }
  }

  /** A gRPC stream is passed, however cut into frames and however long, exactly when every
      complete 5-byte prefix declares at most `max` bytes. */
  lemma GrpcAcceptedIff(max: nat, chunks: seq<seq<byte>>)
    ensures Passes(max, FRESH, chunks) <==> AllWithin(max, DeclaredLens(Concat(chunks)))
  {
    ChunkingIsIrrelevant(max, chunks);
    RefusedIffDeclaredTooMuch(max, Concat(chunks));
  }

  /** A message on the wire: compression flag, big-endian length, payload. */
  function Encode(flag: byte, message: seq<byte>): seq<byte>
    requires |message| < 0x1_0000_0000
  {
    var n := |message|;
    [flag, n / 0x100_0000, n / 0x1_0000 % 256, n / 256 % 256, n % 256] + message
  }

  /** A message with its compression flag. */
  datatype Message = Message(flag: byte, body: seq<byte>)

  function EncodeAll(messages: seq<Message>): seq<byte>
    requires forall i :: 0 <= i < |messages| ==> |messages[i].body| < 0x1_0000_0000
  {
    if |messages| == 0 then [] else Encode(messages[0].flag, messages[0].body) + EncodeAll(messages[1..])
  }

  lemma FourBytes(a: byte, b: byte, c: byte, d: byte)
    ensures FromBigEndian([a, b, c, d]) == ((a * 256 + b) * 256 + c) * 256 + d
  {
    assert [a, b, c, d][..3] == [a, b, c];
    assert [a, b, c][..2] == [a, b];
    assert [a, b][..1] == [a];
    assert [a][..0] == [];
    assert FromBigEndian([a]) == a;
    assert FromBigEndian([a, b]) == a * 256 + b;
    assert FromBigEndian([a, b, c]) == (a * 256 + b) * 256 + c;
  }

  lemma SplitBytes(n: nat)
    requires n < 0x1_0000_0000
    ensures ((n / 0x100_0000 * 256 + n / 0x1_0000 % 256) * 256 + n / 256 % 256) * 256 + n % 256 == n
    ensures n / 0x100_0000 < 256
  {
  }

  lemma PrefixDeclares(flag: byte, message: seq<byte>)
    requires |message| < 0x1_0000_0000
    ensures DeclaredLen(Encode(flag, message)[..PREFIX_LEN]) == |message|
  {
    hide FromBigEndian;
    var n := |message|;
    SplitBytes(n);
    var prefix := Encode(flag, message)[..PREFIX_LEN];
    assert prefix[1..] == [prefix[1], prefix[2], prefix[3], prefix[4]];
    FourBytes(prefix[1], prefix[2], prefix[3], prefix[4]);
  }

  /** A stream of messages declares exactly the message lengths. */
  lemma {:induction false} EncodedLens(messages: seq<Message>)
    requires forall i :: 0 <= i < |messages| ==> |messages[i].body| < 0x1_0000_0000
    ensures DeclaredLens(EncodeAll(messages)) == seq(|messages|, i requires 0 <= i < |messages| => |messages[i].body|)
  {
    if |messages| == 0 {
    } else {
      var flag, body := messages[0].flag, messages[0].body;
      var first, rest := Encode(flag, body), EncodeAll(messages[1..]);
      PrefixDeclares(flag, body);
      assert (first + rest)[..PREFIX_LEN] == first[..PREFIX_LEN];
      assert (first + rest)[PREFIX_LEN + |body|..] == rest;
      EncodedLens(messages[1..]);
    }
  }

  /** Any number of messages, cut into frames anywhere, is passed exactly when none of them
      exceeds the limit. */
  lemma MessagesPassIff(max: nat, messages: seq<Message>, chunks: seq<seq<byte>>)
    requires forall i :: 0 <= i < |messages| ==> |messages[i].body| < 0x1_0000_0000
    requires Concat(chunks) == EncodeAll(messages)
    ensures Passes(max, FRESH, chunks) <==> forall i :: 0 <= i < |messages| ==> |messages[i].body| <= max
  {
    GrpcAcceptedIff(max, chunks);
    EncodedLens(messages);
    var lens := DeclaredLens(EncodeAll(messages));
    assert forall i :: 0 <= i < |messages| ==> lens[i] == |messages[i].body|;
  }

  // ------------------------------------------------------------------- plain HTTP bodies

  /** Bytes of the frames a non-gRPC body hands on, when its counter starts at zero. */
  function Delivered(max: nat, chunks: seq<seq<byte>>): seq<byte> {
    if |chunks| == 0 then []
    else
      var before := Delivered(max, chunks[..|chunks| - 1]);
      if |Concat(chunks)| > max then before else before + chunks[|chunks| - 1]
  }

  /** A non-gRPC body hands on a prefix of what it receives, never more than the limit, and
      everything exactly when the whole body fits. */
  lemma {:induction false} PlainBodyBounded(max: nat, chunks: seq<seq<byte>>)
    ensures |Delivered(max, chunks)| <= max
    ensures Delivered(max, chunks) <= Concat(chunks)
    ensures |Concat(chunks)| <= max ==> Delivered(max, chunks) == Concat(chunks)
    ensures Delivered(max, chunks) == Concat(chunks) ==> |Concat(chunks)| <= max
  {
    if |chunks| == 0 {
    } else {
      PlainBodyBounded(max, chunks[..|chunks| - 1]);
      ConcatLast(chunks);
    }
  }

  // --------------------------------------------------------------- bodies polled to the end

  /** The data carried by the data frames. */
  function Chunks(frames: seq<Frame>): seq<seq<byte>> {
    if |frames| == 0 then []
    else
      var last := frames[|frames| - 1];
      Chunks(frames[..|frames| - 1]) + match last case Data(d) => [d] case Trailers => []
  }

  /** What a body that starts fresh hands on, and the first error it reports. */
  ghost predicate BodyOutcome(max: nat, isGrpc: bool, frames: seq<Frame>, passed: seq<Frame>, error: Option<TooLarge>) {
    var bytes := Concat(Chunks(frames));
    && (error.None? ==> passed == frames)
    && (isGrpc ==>
          var lens := DeclaredLens(bytes);
          error == if AllWithin(max, lens) then None else Some(PayloadTooLarge(FirstOver(max, lens), max)))
    && (!isGrpc ==>
          && Concat(Chunks(passed)) == Delivered(max, Chunks(frames))
          && (error.None? <==> |bytes| <= max))
  }

  /** The state of a body polled for `frames`. */
  ghost predicate PolledPlain(max: nat, frames: seq<Frame>, passed: seq<Frame>, error: Option<TooLarge>, current: nat) {
    && current == |Concat(Chunks(frames))|
    && Concat(Chunks(passed)) == Delivered(max, Chunks(frames))
    && (error.None? <==> current <= max)
  }

  ghost predicate PolledGrpc(max: nat, frames: seq<Frame>, error: Option<TooLarge>, st: Framing) {
    && st == FeedAll(max, FRESH, Concat(Chunks(frames)))
    && error == if Rejected(st) then Some(PayloadTooLarge(DeclaredLen(st.buf), max)) else None
  }

  /** Polls a fresh body frame after frame, trailers included: a gRPC body reports an error exactly
      when a complete prefix declares too much, and then the first such length; a plain one hands
      on exactly what `Delivered` says and reports an error exactly when the body does not fit. */
  method PollAll(body: LimitedBody, frames: seq<Frame>) returns (passed: seq<Frame>, error: Option<TooLarge>)
    requires body.currentBytes == 0 && (body.grpcState == None || body.grpcState == Some(FRESH))
    modifies body
    ensures BodyOutcome(body.maxBytes, old(body.grpcState).Some?, frames, passed, error)
  {
    hide FeedAll, Delivered, Chunks, Concat, DeclaredLens, DeclaredLen, PolledPlain, PolledGrpc;
    var max, isGrpc := body.maxBytes, body.grpcState.Some?;
    passed, error := [], None;
    PolledNothing(max);
    assert frames[..0] == [];
    for i := 0 to |frames|
      invariant body.Valid() && body.grpcState.Some? == isGrpc
      invariant error.None? ==> passed == frames[..i]
      invariant !isGrpc ==> PolledPlain(max, frames[..i], passed, error, body.currentBytes)
      invariant isGrpc ==> PolledGrpc(max, frames[..i], error, body.grpcState.value)
    {
      ghost var before, current0, error0, passed0 := body.grpcState, body.currentBytes, error, passed;
      var r := body.PollFrame(frames[i]);
      assert frames[..i + 1] == frames[..i] + [frames[i]];
      match r {
        case Ok(f) => passed := passed + [f];
        case Err(e) => error := if error.None? then Some(e) else error;
      }
      if isGrpc {
        GrpcNext(max, frames[..i], frames[i], error0, before.value);
      } else {
        PlainNext(max, frames[..i], frames[i], passed0, error0, current0, error);
      }
    }
    assert frames[..|frames|] == frames;
    if isGrpc { GrpcEnds(max, frames, error, body.grpcState.value); } else { PlainEnds(max, frames, passed, error, body.currentBytes); }
  }

  lemma PolledNothing(max: nat)
    ensures PolledPlain(max, [], [], None, 0) && PolledGrpc(max, [], None, FRESH)
    ensures Consistent(max, FRESH)
  {
  }

  lemma ChunksNext(frames: seq<Frame>, frame: Frame)
    ensures Chunks(frames + [frame]) == Chunks(frames) + match frame case Data(d) => [d] case Trailers => []
    ensures Concat(Chunks(frames + [frame])) == Concat(Chunks(frames)) + match frame case Data(d) => d case Trailers => []
  {
    assert (frames + [frame])[..|frames|] == frames;
    if frame.Data? {
      ConcatLast(Chunks(frames + [frame]));
      assert Chunks(frames + [frame])[..|Chunks(frames)|] == Chunks(frames);
    } else {
      assert Chunks(frames + [frame]) == Chunks(frames);
    }
  }

  lemma GrpcNext(max: nat, frames: seq<Frame>, frame: Frame, error: Option<TooLarge>, st: Framing)
    requires ValidFraming(st) && PolledGrpc(max, frames, error, st)
    ensures var st' := if frame.Data? then FeedAll(max, st, frame.data) else st;
            var failed := frame.Data? && frame.data != [] && Rejected(st');
            var error' := if failed && error.None? then Some(PayloadTooLarge(DeclaredLen(st'.buf), max)) else error;
            PolledGrpc(max, frames + [frame], error', st')
  {
    ChunksNext(frames, frame);
    if frame.Data? {
      FeedAllAppend(max, FRESH, Concat(Chunks(frames)), frame.data);
      hide FeedAll, Chunks, Concat, DeclaredLen;
      if Rejected(st) { RejectedStays(max, st, frame.data); }
      if frame.data == [] { FeedNothing(max, st, frame.data); }
    } else {
      assert Chunks(frames + [frame]) == Chunks(frames);
    }
  }

  lemma PlainNext(max: nat, frames: seq<Frame>, frame: Frame, passed: seq<Frame>, error: Option<TooLarge>, current: nat, error': Option<TooLarge>)
    requires PolledPlain(max, frames, passed, error, current)
    requires error'.None? <==> error.None? && !(frame.Data? && current + |frame.data| > max)
    ensures var current' := current + if frame.Data? then |frame.data| else 0;
            var failed := frame.Data? && current' > max;
            PolledPlain(max, frames + [frame], if failed then passed else passed + [frame], error', current')
  {
    ChunksNext(frames, frame);
    ChunksNext(passed, frame);
    if frame.Data? {
      assert Chunks(frames + [frame])[..|Chunks(frames)|] == Chunks(frames);
    } else {
      assert Chunks(frames + [frame]) == Chunks(frames);
    }
  }

  lemma GrpcEnds(max: nat, frames: seq<Frame>, error: Option<TooLarge>, st: Framing)
    requires PolledGrpc(max, frames, error, st)
    ensures var lens := DeclaredLens(Concat(Chunks(frames)));
            error == if AllWithin(max, lens) then None else Some(PayloadTooLarge(FirstOver(max, lens), max))
  {
    RefusedIffDeclaredTooMuch(max, Concat(Chunks(frames)));
  }

  lemma PlainEnds(max: nat, frames: seq<Frame>, passed: seq<Frame>, error: Option<TooLarge>, current: nat)
    requires PolledPlain(max, frames, passed, error, current)
    ensures Concat(Chunks(passed)) == Delivered(max, Chunks(frames)) && (error.None? <==> |Concat(Chunks(frames))| <= max)
  {
  }
}
