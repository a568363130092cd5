/** The Connect stream of cell.connect.gen.go: its envelopes, and the client stream object. */
module ConnectStream {
  import opened Wrappers
  import opened Unicode

  const MAX_MESSAGE_BYTES := 2 * 1024 * 1024

  // ---------- envelopes ----------

  /** binary.BigEndian.PutUint32 */
  function BigEndian32(n: nat): (r: seq<Byte>)
    requires n < 0x1_0000_0000
    ensures |r| == 4
  {
    [n / 0x100_0000, n / 0x1_0000 % 0x100, n / 0x100 % 0x100, n % 0x100]
  }

  function Uint32(b: seq<Byte>): nat
    requires |b| == 4
  {
    var p: int, q: int, r: int, t: int := b[0], b[1], b[2], b[3];
    p * 0x100_0000 + q * 0x1_0000 + r * 0x100 + t
  }

  lemma Uint32Inverts(n: nat)
    requires n < 0x1_0000_0000
    ensures Uint32(BigEndian32(n)) == n
  {
    var high, mid := n / 0x1_0000, n / 0x100;
    assert n / 0x100_0000 == high / 0x100;
    assert high == high / 0x100 * 0x100 + high % 0x100;
    assert mid == high * 0x100 + mid % 0x100;
    assert n == mid * 0x100 + n % 0x100;
  }

  lemma Uint32Exact(b: seq<Byte>)
    requires |b| == 4
    ensures Uint32(b) < 0x1_0000_0000 && BigEndian32(Uint32(b)) == b
  {
    var p: int, q: int, r: int := b[0], b[1], b[2];
    var n := Uint32(b);
    assert n / 0x100_0000 == p && n / 0x1_0000 == p * 0x100 + q && n / 0x100 == p * 0x1_0000 + q * 0x100 + r;
  }

  datatype Frame = Frame(flags: Byte, payload: seq<Byte>)

  predicate Sized(f: Frame) { |f.payload| <= MAX_MESSAGE_BYTES }

  function Envelope(f: Frame): seq<Byte>
    requires Sized(f)
  {
    [f.flags] + BigEndian32(|f.payload|) + f.payload
  }

  /** encodeConnectEnvelope, into a fresh byte array. */
  method EncodeConnectEnvelope(flags: Byte, payload: seq<Byte>) returns (envelope: Option<array<Byte>>)
    ensures envelope.Some? <==> |payload| <= MAX_MESSAGE_BYTES
    ensures envelope.Some? ==> fresh(envelope.value) && envelope.value[..] == Envelope(Frame(flags, payload))
  {
    if |payload| > MAX_MESSAGE_BYTES { return None; }
    var bytes := new Byte[5 + |payload|];
    bytes[0] := flags;
    var length := BigEndian32(|payload|);
    bytes[1], bytes[2], bytes[3], bytes[4] := length[0], length[1], length[2], length[3];
    for index := 0 to |payload|
      invariant bytes[0] == flags && bytes[1..5] == length
      invariant bytes[5..5 + index] == payload[..index]
    {
      bytes[5 + index] := payload[index];
    }
    assert bytes[..] == [bytes[0]] + bytes[1..5] + bytes[5..5 + |payload|];
    return Some(bytes);
  }

  // ---------- reading ----------

  datatype Fault =
    | Eof | UnexpectedEof | TooLong | Compressed | BadFlags | BadEnd | TrailingByte | BadMessage
    | ServerError(error: ErrorPayload)
    | TransportFailed | NoResponse | BadStatus(status: int) | BadContentType
    | MessageRequired | MarshalFailed | ClosedPipe | Cancelled | WriteFailed

  datatype ErrorPayload = ErrorPayload(code: string, message: string, details: seq<Byte>)

  datatype Full = Full(bytes: seq<Byte>, rest: seq<Byte>) | Short(fault: Fault)

  /** io.ReadFull of n bytes; a short read takes what there is. */
  function ReadFull(b: seq<Byte>, n: nat): Full {
    if n <= |b| then Full(b[..n], b[n..]) else if b == [] then Short(Eof) else Short(UnexpectedEof)
  }

  datatype Read = Got(frame: Frame, rest: seq<Byte>) | Lost(fault: Fault, rest: seq<Byte>)

  /** readConnectEnvelope */
  function ReadEnvelope(b: seq<Byte>): Read {
    match ReadFull(b, 5)
    case Short(fault) => Lost(fault, [])
    case Full(prefix, rest) =>
      var length := Uint32(prefix[1..5]);
      if length > MAX_MESSAGE_BYTES then Lost(TooLong, rest)
      else match ReadFull(rest, length)
           case Short(fault) => Lost(fault, [])
           case Full(payload, after) => Got(Frame(prefix[0], payload), after)
  }

  lemma ReadsEnvelope(f: Frame, rest: seq<Byte>)
    requires Sized(f)
    ensures ReadEnvelope(Envelope(f) + rest) == Got(f, rest)
  {
    var b := Envelope(f) + rest;
    Uint32Inverts(|f.payload|);
    assert b[..5][1..5] == BigEndian32(|f.payload|);
    assert b[5..] == f.payload + rest;
    assert b[5..][..|f.payload|] == f.payload && b[5..][|f.payload|..] == rest;
  }

  /** An envelope is read only from its encoding. */
  lemma ReadExact(b: seq<Byte>)
    requires ReadEnvelope(b).Got?
    ensures Sized(ReadEnvelope(b).frame) && b == Envelope(ReadEnvelope(b).frame) + ReadEnvelope(b).rest
  {
    var f, rest := ReadEnvelope(b).frame, ReadEnvelope(b).rest;
    Uint32Exact(b[..5][1..5]);
    assert b[5..] == f.payload + rest;
    assert b[..5] == [f.flags] + BigEndian32(|f.payload|);
    assert b == b[..5] + b[5..];
  }

  /** A class of its own, as every reader shares the position. */
  class Body {
    var rest: seq<Byte>

    constructor (bytes: seq<Byte>)
      ensures rest == bytes
    {
      rest := bytes;
    }

    method Read(n: nat) returns (r: Full)
      modifies this
      ensures r == ReadFull(old(rest), n) && rest == if r.Full? then r.rest else []
    {
      r := ReadFull(rest, n);
      rest := if r.Full? then r.rest else [];
    }

    method ReadConnectEnvelope() returns (r: Read)
      modifies this
      ensures r == ReadEnvelope(old(rest)) && rest == r.rest
    {
      var prefix := Read(5);
      if prefix.Short? { return Lost(prefix.fault, rest); }
      var length := Uint32(prefix.bytes[1..5]);
      if length > MAX_MESSAGE_BYTES { return Lost(TooLong, rest); }
      var payload := Read(length);
      if payload.Short? { return Lost(payload.fault, rest); }
      return Got(Frame(prefix.bytes[0], payload.bytes), rest);
    }

    /** readConnectBody(reader, 0): at most one byte is read, and none may be there. */
    method ReadToEnd() returns (ok: bool)
      modifies this
      ensures ok == (old(rest) == []) && rest == if old(rest) == [] then [] else old(rest)[1..]
    {
      ok := rest == [];
      rest := if rest == [] then [] else rest[1..];
    }
  }

  // ---------- whole streams of envelopes ----------

  function EncodeAll(frames: seq<Frame>): seq<Byte>
    requires forall f | f in frames :: Sized(f)
  {
    if frames == [] then [] else Envelope(frames[0]) + EncodeAll(frames[1..])
  }

  /** Reads envelopes to the end. */
  function DecodeAll(b: seq<Byte>): Option<seq<Frame>>
    decreases |b|
  {
    if b == [] then Some([])
    else match ReadEnvelope(b)
         case Lost(_, _) => None
         case Got(f, rest) =>
           assert |rest| < |b| by { ReadExact(b); }
           match DecodeAll(rest) case None => None case Some(more) => Some([f] + more)
  }

  /** Reading inverts writing, for every list of envelopes within the limit. */
  lemma {:induction false} DecodeInverts(frames: seq<Frame>)
    requires forall f | f in frames :: Sized(f)
    ensures DecodeAll(EncodeAll(frames)) == Some(frames)
  {
    if frames != [] {
      DecodeInverts(frames[1..]);
      ReadsEnvelope(frames[0], EncodeAll(frames[1..]));
      assert [frames[0]] + frames[1..] == frames;
    }
  }

  /** And only such concatenations are read to the end. */
  lemma {:induction false} DecodeExact(b: seq<Byte>)
    requires DecodeAll(b).Some?
    ensures forall f | f in DecodeAll(b).value :: Sized(f)
    ensures EncodeAll(DecodeAll(b).value) == b
    decreases |b|
  {
    if b != [] {
      ReadExact(b);
      DecodeExact(ReadEnvelope(b).rest);
      assert DecodeAll(b).value[1..] == DecodeAll(ReadEnvelope(b).rest).value;
    }
  }

  lemma {:induction false} EncodeAppend(a: seq<Frame>, b: seq<Frame>)
    requires (forall f | f in a :: Sized(f)) && forall f | f in b :: Sized(f)
    ensures EncodeAll(a + b) == EncodeAll(a) + EncodeAll(b)
  {
    if a == [] {
      assert a + b == b;
    } else {
      EncodeAppend(a[1..], b);
      assert (a + b)[1..] == a[1..] + b;
    }
  }

  // ---------- one Receive ----------

  type Metadata = map<string, seq<string>>
  datatype EndStream = EndStream(error: Option<ErrorPayload>, metadata: Metadata)

  /** json.Marshal of a request, and json.Unmarshal of a message and of the end of a stream. */
  datatype Codec<!Q, !M> = Codec(
    request: Q -> Option<seq<Byte>>, message: seq<Byte> -> Option<M>, endStream: seq<Byte> -> Option<EndStream>)

  datatype Received<M> = Message(message: M) | AtEof | Failed(fault: Fault)

  /** The result, what is left of the body, and the end of the stream if it was reached. */
  datatype Step<M> = Step(result: Received<M>, rest: seq<Byte>, end: Option<EndStream>)

  function UnexpectedIfEof(fault: Fault): Fault { if fault == Eof then UnexpectedEof else fault }

  function ReceiveStep<Q, M>(codec: Codec<Q, M>, b: seq<Byte>): Step<M> {
    match ReadEnvelope(b)
    case Lost(fault, rest) => Step(Failed(UnexpectedIfEof(fault)), rest, None)
    case Got(f, rest) =>
      if f.flags % 2 == 1 then Step(Failed(Compressed), rest, None)
      else if f.flags >= 4 then Step(Failed(BadFlags), rest, None)
      else if f.flags == 2 then
        match codec.endStream(f.payload)
        case None => Step(Failed(BadEnd), rest, None)
        case Some(end) =>
          if rest != [] then Step(Failed(TrailingByte), rest[1..], None)
          else Step(if end.error.Some? then Failed(ServerError(end.error.value)) else AtEof, [], Some(end))
      else
        match codec.message(f.payload)
        case None => Step(Failed(BadMessage), rest, None)
        case Some(m) => Step(Message(m), rest, None)
  }

  // ---------- the stream object ----------

  /** The pipe that carries the request; its reader may go away at any time. */
  class Pipe {
    var written: seq<Byte>
    var readerGone: bool
    var closed: bool

    constructor ()
      ensures written == [] && !readerGone && !closed
    {
      written, readerGone, closed := [], false, false;
    }

    /** Blocks until the reader took all bytes, or is gone: then some of them may have been taken. */
    method Write(bytes: seq<Byte>) returns (ok: bool)
      modifies this
      ensures closed == old(closed) && (old(readerGone) || old(closed) ==> !ok && written == old(written))
      ensures ok ==> !readerGone && written == old(written) + bytes
      ensures !ok ==> (readerGone || closed) && old(written) <= written <= old(written) + bytes
      ensures old(readerGone) ==> readerGone
    {
      if readerGone || closed { return false; }
      var taken: int := *;
      if 0 <= taken < |bytes| {
        readerGone := true;
        written := written + bytes[..taken];
        return false;
      }
      written := written + bytes;
      return true;
    }
  }

  /** What the HTTP client delivers for the request. */
  datatype Transport = Unreachable | Nothing | Response(status: int, streamType: bool, trailer: Metadata)

  function TransportFault(t: Transport): Option<Fault> {
    match t
    case Unreachable => Some(TransportFailed)
    case Nothing => Some(NoResponse)
    case Response(status, streamType, _) =>
      if status != 200 then Some(BadStatus(status)) else if !streamType then Some(BadContentType) else None
  }

  /** mergeMetadata */
  function Merge(first: Metadata, second: Metadata): Metadata {
    map k | k in first.Keys + second.Keys ::
      (if k in first then first[k] else []) + (if k in second then second[k] else [])
  }

  class Stream<Q, M> {
    const codec: Codec<Q, M>
    const requestWriter: Pipe
    const transport: Transport
    const body: Body
    var cancelled: bool
    var requestClosed: bool
    var awaited: bool
    var responseErr: Option<Fault>
    var responseEnded: bool
    var responseTrailer: Metadata
    ghost var sent: seq<Frame>

    /** What the server can read is exactly what was sent, and an ended response has closed the request. */
    ghost predicate Valid()
      reads this, requestWriter
    {
      && (forall f | f in sent :: Sized(f))
      && (!requestWriter.readerGone ==> requestWriter.written == EncodeAll(sent))
      && requestClosed == requestWriter.closed
      && responseErr == (if awaited then TransportFault(transport) else None)
      && (responseErr.Some? ==> requestClosed)
      && (responseEnded ==> requestClosed && awaited && TransportFault(transport).None?)
    }

    constructor (codec: Codec<Q, M>, requestWriter: Pipe, transport: Transport, body: Body)
      requires requestWriter.written == [] && !requestWriter.closed
      ensures this.codec == codec && this.requestWriter == requestWriter
      ensures this.transport == transport && this.body == body
      ensures Valid() && sent == [] && !requestClosed && !responseEnded && !awaited && !cancelled
    {
      this.codec, this.requestWriter, this.transport, this.body := codec, requestWriter, transport, body;
      cancelled, requestClosed, awaited, responseEnded := false, false, false, false;
      responseErr, responseTrailer, sent := None, map[], [];
    }

    /** Why a message is not even written; the first reason counts. */
    function Refusal(message: Option<Q>): Option<Fault>
      reads this
    {
      if message.None? then Some(MessageRequired)
      else if codec.request(message.value).None? then Some(MarshalFailed)
      else if |codec.request(message.value).value| > MAX_MESSAGE_BYTES then Some(TooLong)
      else if requestClosed then Some(ClosedPipe)
      else if cancelled then Some(Cancelled)
      else None
    }

    /** A request that is not accepted leaves the pipe alone, unless its reader went away meanwhile. */
    method Send(message: Option<Q>) returns (r: Option<Fault>)
      requires Valid()
      modifies this`sent, requestWriter
      ensures Valid() && requestWriter.closed == old(requestWriter.closed)
      ensures r == Some(WriteFailed) || r == Refusal(message)
      ensures r.None? ==> sent == old(sent) + [Frame(0, codec.request(message.value).value)]
      ensures r.Some? ==> sent == old(sent)
      ensures r.Some? && r != Some(WriteFailed) ==> requestWriter.written == old(requestWriter.written)
      ensures r == Some(WriteFailed) ==> requestWriter.readerGone && Refusal(message).None?
    {
      if message.None? { return Some(MessageRequired); }
      var payload := codec.request(message.value);
      if payload.None? { return Some(MarshalFailed); }
      if |payload.value| > MAX_MESSAGE_BYTES { return Some(TooLong); }
      var envelope := EncodeConnectEnvelope(0, payload.value);
      if envelope.None? { return Some(TooLong); }
      if requestClosed { return Some(ClosedPipe); }
      if cancelled { return Some(Cancelled); }
      var ok := requestWriter.Write(envelope.value[..]);
      if !ok { return Some(WriteFailed); }
      ghost var frame := Frame(0, payload.value);
      EncodeAppend(sent, [frame]);
      assert EncodeAll([frame]) == Envelope(frame) + EncodeAll([]);
      sent := sent + [frame];
      return None;
    }

    /** CloseRequest, and abortRequest with a cause: the first of them closes the pipe, the others do nothing. */
    method CloseRequest()
      requires Valid()
      modifies this`requestClosed, requestWriter`closed
      ensures Valid() && requestClosed
    {
      if !requestClosed {
        requestWriter.closed := true;
        requestClosed := true;
      }
    }

    /** awaitResponse: the transport's result is taken once; a failure closes the request and stays. */
    method AwaitResponse() returns (fault: Option<Fault>)
      requires Valid()
      modifies this`awaited, this`responseErr, this`requestClosed, requestWriter`closed
      ensures Valid() && awaited && fault == TransportFault(transport)
      ensures fault.None? ==> requestClosed == old(requestClosed)
    {
      if !awaited {
        fault := TransportFault(transport);
        if fault.Some? {
          CloseRequest();
        }
        awaited := true;
        responseErr := fault;
      }
      return responseErr;
    }

    method Receive() returns (r: Received<M>)
      requires Valid()
      modifies this`awaited, this`responseErr, this`requestClosed, this`responseEnded, this`responseTrailer
      modifies requestWriter`closed, body
      ensures Valid() && sent == old(sent)
      ensures old(responseEnded) ==>
                r == AtEof && responseEnded && body.rest == old(body.rest) && responseTrailer == old(responseTrailer)
      ensures !old(responseEnded) && TransportFault(transport).Some? ==>
                r == Failed(TransportFault(transport).value) && !responseEnded && body.rest == old(body.rest)
      ensures !old(responseEnded) && TransportFault(transport).None? ==>
                var step := ReceiveStep(codec, old(body.rest));
                && r == step.result && body.rest == step.rest && responseEnded == step.end.Some?
                && responseTrailer == if step.end.Some? then Merge(transport.trailer, step.end.value.metadata)
                                      else old(responseTrailer)
      ensures old(requestClosed) ==> requestClosed
    {
      hide Merge, EncodeAll, ReceiveStep;
      if responseEnded { return AtEof; }
      var fault := AwaitResponse();
      if fault.Some? { return Failed(fault.value); }
      r := ReceiveEnvelope();
    }

    /** The rest of Receive, once there is a response. */
    method ReceiveEnvelope() returns (r: Received<M>)
      requires Valid() && !responseEnded && awaited && TransportFault(transport).None?
      modifies this`requestClosed, this`responseEnded, this`responseTrailer, requestWriter`closed, body
      ensures Valid()
      ensures var step := ReceiveStep(codec, old(body.rest));
              && r == step.result && body.rest == step.rest && responseEnded == step.end.Some?
              && responseTrailer == if step.end.Some? then Merge(transport.trailer, step.end.value.metadata)
                                    else old(responseTrailer)
      ensures old(requestClosed) ==> requestClosed
    {
      hide Merge, EncodeAll, ReadEnvelope;
      var envelope := body.ReadConnectEnvelope();
      if envelope.Lost? { return Failed(UnexpectedIfEof(envelope.fault)); }
      var flags, payload := envelope.frame.flags, envelope.frame.payload;
      if flags % 2 == 1 { return Failed(Compressed); }
      if flags >= 4 { return Failed(BadFlags); }
      if flags / 2 % 2 == 1 {
        var end := codec.endStream(payload);
        if end.None? { return Failed(BadEnd); }
        var atEnd := body.ReadToEnd();
        if !atEnd { return Failed(TrailingByte); }
        CloseRequest();
        responseEnded := true;
        responseTrailer := Merge(transport.trailer, end.value.metadata);
        if end.value.error.Some? { return Failed(ServerError(end.value.error.value)); }
        return AtEof;
      }
      var message := codec.message(payload);
      if message.None? { return Failed(BadMessage); }
      return Message(message.value);
    }

    /** What the server reads, as long as it reads, are the sent messages in their order. */
    lemma ServerReadsSent()
      requires Valid() && !requestWriter.readerGone
      ensures DecodeAll(requestWriter.written) == Some(sent)
    {
      DecodeInverts(sent);
    }
  }

  // ---------- successive calls ----------

  /** What Receive depends on and changes: whether the response ended, and the unread body. */
  datatype Side = Side(ended: bool, rest: seq<Byte>)

  function ResultOf<Q, M>(codec: Codec<Q, M>, side: Side): Received<M> {
    if side.ended then AtEof else ReceiveStep(codec, side.rest).result
  }

  function AfterReceive<Q, M>(codec: Codec<Q, M>, side: Side): Side {
    if side.ended then side
    else var step := ReceiveStep(codec, side.rest); Side(step.end.Some?, step.rest)
  }

  function AfterCalls<Q, M>(codec: Codec<Q, M>, side: Side, n: nat): Side
    decreases n
  {
    if n == 0 then side else AfterCalls(codec, AfterReceive(codec, side), n - 1)
  }

  /** The n-th result of successive calls. */
  function NthResult<Q, M>(codec: Codec<Q, M>, side: Side, n: nat): Received<M> {
    ResultOf(codec, AfterCalls(codec, side, n))
  }

  /** n calls of Receive on a stream whose response arrived. */
  method ReceiveMany<Q, M>(stream: Stream<Q, M>, n: nat) returns (results: seq<Received<M>>)
    requires stream.Valid() && TransportFault(stream.transport).None?
    modifies stream, stream.requestWriter, stream.body
    ensures stream.Valid() && |results| == n
    ensures var side := Side(old(stream.responseEnded), old(stream.body.rest));
            forall i | 0 <= i < n :: results[i] == NthResult(stream.codec, side, i)
  {
    hide ReceiveStep, AfterCalls, Merge, EncodeAll, TransportFault;
    ghost var side := Side(stream.responseEnded, stream.body.rest);
    NoCall(stream.codec, side);
    results := [];
    for i := 0 to n
      invariant stream.Valid() && |results| == i
      invariant Side(stream.responseEnded, stream.body.rest) == AfterCalls(stream.codec, side, i)
      invariant forall k | 0 <= k < i :: results[k] == NthResult(stream.codec, side, k)
    {
      OneMoreCall(stream.codec, side, i);
      var r := stream.Receive();
      results := results + [r];
    }
  }

  lemma NoCall<Q, M>(codec: Codec<Q, M>, side: Side)
    ensures AfterCalls(codec, side, 0) == side
  {
  }

  lemma {:induction false} OneMoreCall<Q, M>(codec: Codec<Q, M>, side: Side, n: nat)
    ensures AfterCalls(codec, side, n + 1) == AfterReceive(codec, AfterCalls(codec, side, n))
    decreases n
  {
    if n > 0 {
      OneMoreCall(codec, AfterReceive(codec, side), n - 1);
    }
  }

  function DataFrames(payloads: seq<seq<Byte>>): seq<Frame> {
    if payloads == [] then [] else [Frame(0, payloads[0])] + DataFrames(payloads[1..])
  }

  lemma {:induction false} DataFramesSized(payloads: seq<seq<Byte>>)
    requires forall p | p in payloads :: |p| <= MAX_MESSAGE_BYTES
    ensures forall f | f in DataFrames(payloads) :: Sized(f)
  {
    if payloads != [] { DataFramesSized(payloads[1..]); }
  }

  /** A well-formed response body: data envelopes, then the end of the stream. */
  predicate WellFormed<Q, M>(codec: Codec<Q, M>, payloads: seq<seq<Byte>>, end: seq<Byte>) {
    && (forall p | p in payloads :: |p| <= MAX_MESSAGE_BYTES && codec.message(p).Some?)
    && |end| <= MAX_MESSAGE_BYTES && codec.endStream(end).Some?
  }

  function ResponseBody(payloads: seq<seq<Byte>>, end: seq<Byte>): seq<Byte>
    requires (forall p | p in payloads :: |p| <= MAX_MESSAGE_BYTES) && |end| <= MAX_MESSAGE_BYTES
  {
    DataFramesSized(payloads);
    EncodeAll(DataFrames(payloads)) + Envelope(Frame(2, end))
  }

  lemma {:induction false} EndedStays<Q, M>(codec: Codec<Q, M>, rest: seq<Byte>, n: nat)
    ensures AfterCalls(codec, Side(true, rest), n) == Side(true, rest)
  {
    if n > 0 { EndedStays(codec, rest, n - 1); }
  }

  /** Before the end, the calls return the messages in order; then the end envelope is next. */
  lemma {:induction false} MessagesInOrder<Q, M>(codec: Codec<Q, M>, payloads: seq<seq<Byte>>, tail: seq<Byte>, k: nat)
    requires forall p | p in payloads :: |p| <= MAX_MESSAGE_BYTES && codec.message(p).Some?
    requires k <= |payloads|
    ensures (forall p | p in payloads :: |p| <= MAX_MESSAGE_BYTES) && (forall f | f in DataFrames(payloads) :: Sized(f))
    ensures var side := Side(false, EncodeAll(DataFrames(payloads)) + tail);
            if k < |payloads| then NthResult(codec, side, k) == Message(codec.message(payloads[k]).value)
            else AfterCalls(codec, side, k) == Side(false, tail)
  {
    hide ReceiveStep, Envelope;
    DataFramesSized(payloads);
    var side := Side(false, EncodeAll(DataFrames(payloads)) + tail);
    if payloads == [] {
      assert [] + tail == tail;
    } else {
      DataFramesSized(payloads[1..]);
      var later := EncodeAll(DataFrames(payloads[1..]));
      assert DataFrames(payloads)[1..] == DataFrames(payloads[1..]);
      assert side.rest == Envelope(Frame(0, payloads[0])) + (later + tail);
      MessageStep(codec, payloads[0], later + tail);
      assert AfterReceive(codec, side) == Side(false, later + tail);
      if k > 0 {
        MessagesInOrder(codec, payloads[1..], tail, k - 1);
      }
    }
  }

  lemma MessageStep<Q, M>(codec: Codec<Q, M>, payload: seq<Byte>, rest: seq<Byte>)
    requires |payload| <= MAX_MESSAGE_BYTES && codec.message(payload).Some?
    ensures ReceiveStep(codec, Envelope(Frame(0, payload)) + rest)
            == Step(Message(codec.message(payload).value), rest, None)
  {
    hide Envelope, ReadEnvelope;
    ReadsEnvelope(Frame(0, payload), rest);
  }

  /**
   On a body of n data envelopes and an end without error, the calls return the n messages in order and
   then the end of file forever.
   */
  lemma MessagesThenEof<Q, M>(codec: Codec<Q, M>, payloads: seq<seq<Byte>>, end: seq<Byte>, k: nat)
    requires WellFormed(codec, payloads, end) && codec.endStream(end).value.error.None?
    ensures NthResult(codec, Side(false, ResponseBody(payloads, end)), k)
         == if k < |payloads| then Message(codec.message(payloads[k]).value) else AtEof
  {
    var side := Side(false, ResponseBody(payloads, end));
    if k < |payloads| {
      MessagesInOrder(codec, payloads, Envelope(Frame(2, end)), k);
    } else {
      assert side.rest + [] == side.rest;
      EndReached(codec, payloads, end, [], k);
    }
  }

  /** The call after the last message, and what it leaves, with any bytes after the end envelope. */
  lemma EndReached<Q, M>(codec: Codec<Q, M>, payloads: seq<seq<Byte>>, end: seq<Byte>, extra: seq<Byte>, k: nat)
    requires WellFormed(codec, payloads, end)
    ensures var side := Side(false, ResponseBody(payloads, end) + extra); var n := |payloads|;
            && NthResult(codec, side, n)
               == (if extra != [] then Failed(TrailingByte)
                   else if codec.endStream(end).value.error.Some? then
                     Failed(ServerError(codec.endStream(end).value.error.value))
                   else AtEof)
            && AfterCalls(codec, side, n + 1) == (if extra == [] then Side(true, []) else Side(false, extra[1..]))
            && (extra == [] && k > n ==> NthResult(codec, side, k) == AtEof)
  {
    hide ReceiveStep, AfterCalls, Envelope, EncodeAll;
    var n := |payloads|;
    var tail := Envelope(Frame(2, end)) + extra;
    MessagesInOrder(codec, payloads, tail, n);
    var side := Side(false, ResponseBody(payloads, end) + extra);
    assert side.rest == EncodeAll(DataFrames(payloads)) + tail;
    EndStep(codec, end, extra);
    OneMoreCall(codec, side, n);
    if extra == [] && k > n {
      CallsAdd(codec, side, n + 1, k - n - 1);
      EndedStays(codec, [], k - n - 1);
    }
  }

  lemma EndStep<Q, M>(codec: Codec<Q, M>, end: seq<Byte>, extra: seq<Byte>)
    requires |end| <= MAX_MESSAGE_BYTES && codec.endStream(end).Some?
    ensures var e := codec.endStream(end).value;
            ReceiveStep(codec, Envelope(Frame(2, end)) + extra)
            == if extra != [] then Step(Failed(TrailingByte), extra[1..], None)
               else Step(if e.error.Some? then Failed(ServerError(e.error.value)) else AtEof, [], Some(e))
  {
    hide Envelope, ReadEnvelope;
    ReadsEnvelope(Frame(2, end), extra);
  }

  lemma {:induction false} CallsAdd<Q, M>(codec: Codec<Q, M>, side: Side, m: nat, n: nat)
    ensures AfterCalls(codec, side, m + n) == AfterCalls(codec, AfterCalls(codec, side, m), n)
    decreases m
  {
    if m > 0 {
      CallsAdd(codec, AfterReceive(codec, side), m - 1, n);
    }
  }

  /** The call after the last message reports the end exactly when nothing follows an end without error. */
  lemma EofIff<Q, M>(codec: Codec<Q, M>, payloads: seq<seq<Byte>>, end: seq<Byte>, extra: seq<Byte>)
    requires WellFormed(codec, payloads, end)
    ensures NthResult(codec, Side(false, ResponseBody(payloads, end) + extra), |payloads|) == AtEof <==>
            extra == [] && codec.endStream(end).value.error.None?
  {
    EndReached(codec, payloads, end, extra, 0);
  }

  /** Only the end is latched: after the error for a trailing byte, the next call reads on behind it. */
  lemma ErrorIsNotLatched<Q, M>(codec: Codec<Q, M>, payloads: seq<seq<Byte>>, end: seq<Byte>, byte: Byte,
                                more: seq<Byte>)
    requires WellFormed(codec, payloads, end) && |more| <= MAX_MESSAGE_BYTES && codec.message(more).Some?
    ensures var side := Side(false, ResponseBody(payloads, end) + ([byte] + Envelope(Frame(0, more))));
            && NthResult(codec, side, |payloads|) == Failed(TrailingByte)
            && NthResult(codec, side, |payloads| + 1) == Message(codec.message(more).value)
  {
    var after := Frame(0, more);
    EndReached(codec, payloads, end, [byte] + Envelope(after), 0);
    assert ([byte] + Envelope(after))[1..] == Envelope(after) + [];
    ReadsEnvelope(after, []);
  }
}
