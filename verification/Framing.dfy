/**
 * Accumulating a framed message from a stream: `readFramed` for the server's X.224 reply and the
 * RDCleanPath request accumulator, and when what they extract depends on how the stream was cut up.
 */
module Framing {
  import opened Wrappers
  import opened Der
  import opened RdCleanPath

  /** How many bytes the first frame of a buffer has, `None` while it is incomplete. */
  type Probe = Bytes -> Result<Option<int>>

  datatype Outcome = Waiting | Resolved(frame: Bytes) | Rejected(error: Error)

  datatype Reader = Reader(buf: Bytes, outcome: Outcome)

  function Concat(chunks: seq<Bytes>): Bytes {
    if chunks == [] then [] else chunks[0] + Concat(chunks[1..])
  }

  /** What the probe says about a whole buffer, with no chunks involved. */
  function Direct(probe: Probe, buf: Bytes): Outcome {
    match probe(buf)
    case Fail(e) => Rejected(e)
    case Ok(None) => Waiting
    case Ok(Some(total)) => Resolved(Subarray(buf, 0, total))
  }

  /** One data event; once settled, the listeners are gone. */
  function Feed(probe: Probe, r: Reader, chunk: Bytes): Reader {
    if r.outcome != Waiting then r else Reader(r.buf + chunk, Direct(probe, r.buf + chunk))
  }

  function FeedAll(probe: Probe, r: Reader, chunks: seq<Bytes>): Reader
    decreases |chunks|
  {
    if chunks == [] then r else FeedAll(probe, Feed(probe, r, chunks[0]), chunks[1..])
  }

  class FramedReader {
    const probe: Probe
    var buf: Bytes
    var outcome: Outcome

    constructor (probe: Probe)
      ensures this.probe == probe && buf == [] && outcome == Waiting
    {
      this.probe, buf, outcome := probe, [], Waiting;
    }

    method OnData(chunk: Bytes)
      modifies this
      ensures Reader(buf, outcome) == Feed(probe, Reader(old(buf), old(outcome)), chunk)
    {
      if outcome != Waiting {
        return;
      }
      buf := buf + chunk;
      var total := probe(buf);
      if total.Fail? {
        outcome := Rejected(total.error);
      } else if total.value.Some? {
        outcome := Resolved(Subarray(buf, 0, total.value.value));
      }
    }

    method OnAll(chunks: seq<Bytes>)
      modifies this
      ensures Reader(buf, outcome) == FeedAll(probe, Reader(old(buf), old(outcome)), chunks)
    {
      for i := 0 to |chunks|
        invariant FeedAll(probe, Reader(buf, outcome), chunks[i..]) == FeedAll(probe, Reader(old(buf), old(outcome)), chunks)
      {
        assert chunks[i..][1..] == chunks[i + 1..];
        OnData(chunks[i]);
      }
    }
  }

  /** Once something is extracted from `p`, the bytes `q` that follow make no difference to it. */
  ghost predicate StableAt(probe: Probe, p: Bytes, q: Bytes) {
    Direct(probe, p) != Waiting ==> Direct(probe, p + q) == Direct(probe, p)
  }

  const StartReader := Reader([], Waiting)

  /** However a stream is cut up, the reader extracts the same frame, the same error, or goes on waiting. */
  ghost predicate ChunkingIrrelevant(probe: Probe, stream: Bytes) {
    forall chunks | Concat(chunks) == stream :: FeedAll(probe, StartReader, chunks).outcome == Direct(probe, stream)
  }

  lemma {:induction false} FeedAllIsDirect(probe: Probe, r: Reader, chunks: seq<Bytes>)
    requires r.outcome == Direct(probe, r.buf)
    requires forall p, q | p + q == r.buf + Concat(chunks) :: StableAt(probe, p, q)
    ensures FeedAll(probe, r, chunks).outcome == Direct(probe, r.buf + Concat(chunks))
    decreases |chunks|
  {
    var all := r.buf + Concat(chunks);
    if chunks == [] {
      assert all == r.buf;
    } else if r.outcome == Waiting {
      assert r.buf + chunks[0] + Concat(chunks[1..]) == all;
      FeedAllIsDirect(probe, Feed(probe, r, chunks[0]), chunks[1..]);
    } else {
      assert StableAt(probe, r.buf, Concat(chunks));
      SettledStays(probe, r, chunks);
    }
  }

  lemma {:induction false} SettledStays(probe: Probe, r: Reader, chunks: seq<Bytes>)
    requires r.outcome != Waiting
    ensures FeedAll(probe, r, chunks) == r
    decreases |chunks|
  {
    if chunks != [] {
      SettledStays(probe, r, chunks[1..]);
    }
  }

  /** For any probe that waits on an empty buffer, stability at every cut is exactly what it takes. */
  lemma ChunkingIrrelevantIff(probe: Probe, stream: Bytes)
    requires Direct(probe, []) == Waiting
    ensures ChunkingIrrelevant(probe, stream) <==> forall p, q | p + q == stream :: StableAt(probe, p, q)
  {
    if forall p, q | p + q == stream :: StableAt(probe, p, q) {
      assert [] + stream == stream;
      forall chunks | Concat(chunks) == stream
        ensures FeedAll(probe, StartReader, chunks).outcome == Direct(probe, stream)
      {
        FeedAllIsDirect(probe, StartReader, chunks);
      }
    }
    if ChunkingIrrelevant(probe, stream) {
      forall p, q | p + q == stream
        ensures StableAt(probe, p, q)
      {
        TwoChunks(probe, p, q);
      }
    }
  }

  lemma TwoChunks(probe: Probe, p: Bytes, q: Bytes)
    ensures Concat([p, q]) == p + q
    ensures Direct(probe, p) != Waiting ==> FeedAll(probe, StartReader, [p, q]).outcome == Direct(probe, p)
  {
    assert [p, q][1..] == [q] && [q][1..] == [];
    assert Concat([q]) == q + [] == q;
    assert [] + p == p;
    if Direct(probe, p) != Waiting {
      SettledStays(probe, Reader(p, Direct(probe, p)), [q]);
    }
  }

  /** The X.224 reply is extracted the same from every stream, however it is cut up. */
  lemma TpktChunkingIrrelevant(stream: Bytes)
    ensures ChunkingIrrelevant(TpktLength, stream)
  {
    forall p: Bytes, q: Bytes | p + q == stream
      ensures StableAt(TpktLength, p, q)
    {
    }
    ChunkingIrrelevantIff(TpktLength, stream);
  }

  function DerProbe(): Probe {
    (buf: Bytes) => DerValueLength(buf, 0)
  }

  lemma DerStableUnless(p: Bytes, q: Bytes)
    ensures var t := DerValueLength(p + q, 0);
      StableAt(DerProbe(), p, q) || (t.Ok? && t.value.Some? && t.value.value < 0)
  {
    ValueLengthStable(p, q, 0);
  }

  /** Only a length in four bytes wraps, so such a value is complete as soon as its six header bytes are in. */
  lemma WrappedHeader(stream: Bytes, total: int)
    requires DerValueLength(stream, 0) == Ok(Some(total)) && total < 0
    ensures |stream| >= 6 && forall k | 6 <= k <= |stream| :: DerValueLength(stream[..k], 0) == Ok(Some(total))
    ensures forall k | 0 <= k < 6 :: DerValueLength(stream[..k], 0) == Ok(None)
  {
    var n := stream[1] - 0x80;
    SmallLength(if n == 4 then [] else stream[2..2 + n]);
    forall k | 6 <= k <= |stream|
      ensures DerValueLength(stream[..k], 0) == Ok(Some(total))
    {
      assert stream[..k][2..6] == stream[2..6];
    }
  }

  /**
   * The RDCleanPath request is extracted the same however its bytes are cut up, exactly unless its declared
   * length wraps to a negative number that leaves some of the bytes after the header in the frame.
   */
  lemma DerChunkingIrrelevantIff(stream: Bytes)
    ensures ChunkingIrrelevant(DerProbe(), stream) <==>
      var total := DerValueLength(stream, 0);
      !(total.Ok? && total.value.Some? && total.value.value < 0 && |stream| > 6 && |stream| + total.value.value > 0)
  {
    ChunkingIrrelevantIff(DerProbe(), stream);
    var total := DerValueLength(stream, 0);
    if total.Ok? && total.value.Some? && total.value.value < 0 {
      WrappedStableIff(stream, total.value.value);
    } else {
      forall p: Bytes, q: Bytes | p + q == stream
        ensures StableAt(DerProbe(), p, q)
      {
        DerStableUnless(p, q);
      }
    }
  }

  const CUT_SENSITIVE: Bytes := [0x30, 0x84, 0xff, 0xff, 0xff, 0xf8, 0x01, 0x02]

  lemma WrappedTotal(stream: Bytes)
    requires |stream| >= 6 && stream[1] == 0x84 && stream[2..6] == [0xff, 0xff, 0xff, 0xf8]
    ensures DerValueLength(stream, 0) == Ok(Some(-2))
  {
    var bytes := stream[2..6];
    DecodedIsWrapped(bytes);
    FourBytes(bytes);
    assert ToInt32(0xffff_fff8) == -8;
  }

  /** Such a request exists: the frame extracted from these bytes depends on how they are cut up. */
  lemma CutsMatter()
    ensures !ChunkingIrrelevant(DerProbe(), CUT_SENSITIVE)
  {
    assert CUT_SENSITIVE[2..6] == [0xff, 0xff, 0xff, 0xf8];
    WrappedTotal(CUT_SENSITIVE);
    DerChunkingIrrelevantIff(CUT_SENSITIVE);
  }

  lemma WrappedStableIff(stream: Bytes, total: int)
    requires DerValueLength(stream, 0) == Ok(Some(total)) && total < 0
    ensures |stream| >= 6
    ensures (forall p, q | p + q == stream :: StableAt(DerProbe(), p, q)) <==> |stream| == 6 || |stream| + total <= 0
  {
    WrappedHeader(stream, total);
    forall p: Bytes, q: Bytes | p + q == stream && (|stream| == 6 || |stream| + total <= 0)
      ensures StableAt(DerProbe(), p, q)
    {
      assert p == stream[..|p|];
      assert |stream| == 6 && |p| == 6 ==> p == stream;
    }
    if |stream| > 6 && |stream| + total > 0 {
      var p, q := stream[..6], stream[6..];
      assert p + q == stream;
      assert |Subarray(p, 0, total)| < |Subarray(stream, 0, total)|;
      assert !StableAt(DerProbe(), p, q);
    }
  }

  // ----- The request accumulator of a proxied connection -----

  /** What a frame's X.224 bytes are, if it parses to a request that has them. */
  ghost function X224Of(frame: Bytes): Option<Bytes> {
    if exists r :: Parses(frame, r) && r.Ok? then
      var r :| Parses(frame, r) && r.Ok?; r.value.x224
    else None
  }

  /** `starts` logs the X.224 bytes of each server handshake begun, `failures` counts the error replies. */
  datatype Proxy = Proxy(relaying: bool, reqBuf: Bytes, starts: seq<Bytes>, failures: nat)

  /** One binary message from the client. */
  ghost function OnMessage(p: Proxy, chunk: Bytes): Proxy {
    if p.relaying then p
    else
      var q := p.(reqBuf := p.reqBuf + chunk);
      match DerValueLength(q.reqBuf, 0)
      case Fail(_) => q.(failures := q.failures + 1)
      case Ok(None) => q
      case Ok(Some(total)) =>
        var x224 := X224Of(Subarray(q.reqBuf, 0, total));
        if x224.None? then q.(failures := q.failures + 1) else q.(starts := q.starts + [x224.value])
  }

  ghost function OnMessages(p: Proxy, chunks: seq<Bytes>): Proxy
    decreases |chunks|
  {
    if chunks == [] then p else OnMessages(OnMessage(p, chunks[0]), chunks[1..])
  }

  /** The parser is still at work on the buffer's frame after that many fields. */
  predicate StillParsing(buf: Bytes, fields: nat) {
    var total := DerValueLength(buf, 0);
    total.Ok? && total.value.Some? && ParsedWithin(Subarray(buf, 0, total.value.value), fields).None?
  }

  class ProxyConnection {
    var relaying: bool
    var reqBuf: Bytes
    ghost var starts: seq<Bytes>
    ghost var failures: nat

    ghost function Abs(): Proxy
      reads this
    {
      Proxy(relaying, reqBuf, starts, failures)
    }

    constructor ()
      ensures Abs() == Proxy(false, [], [], 0)
    {
      relaying, reqBuf, starts, failures := false, [], [], 0;
    }

    /** `fields` is how long the parser is watched; while it runs, nothing else happens. */
    method OnBinaryMessage(chunk: Bytes, fields: nat) returns (running: bool)
      modifies this
      ensures running <==> !old(relaying) && StillParsing(old(reqBuf) + chunk, fields)
      ensures Abs() == if running then old(Abs()).(reqBuf := old(reqBuf) + chunk) else OnMessage(old(Abs()), chunk)
    {
      if relaying {
        return false;
      }
      reqBuf := reqBuf + chunk;
      var total := DerValueLength(reqBuf, 0);
      if total.Fail? {
        failures := failures + 1;
        return false;
      }
      if total.value.None? {
        return false;
      }
      var frame := Subarray(reqBuf, 0, total.value.value);
      var req := ParseRdCleanPathRequest(frame, fields);
      if req.None? {
        return true;
      }
      ParseDecidesX224(frame, req.value);
      if req.value.Fail? || req.value.value.x224.None? {
        failures := failures + 1;
        return false;
      }
      starts := starts + [req.value.value.x224.value];
      return false;
    }
  }

  lemma ParseDecidesX224(frame: Bytes, r: Result<Request>)
    requires Parses(frame, r)
    ensures X224Of(frame) == if r.Ok? then r.value.x224 else None
  {
    if exists r' :: Parses(frame, r') && r'.Ok? {
      var r' :| Parses(frame, r') && r'.Ok? && X224Of(frame) == r'.value.x224;
      ParsesIsUnique(frame, r, r');
    }
  }

  /** How many of the messages arrive once the request is complete: its own last one and any later. */
  ghost function MessagesFromCompletion(before: nat, chunks: seq<Bytes>, size: nat): nat
    decreases |chunks|
  {
    if chunks == [] then 0
    else
      (if before + |chunks[0]| >= size then 1 else 0) + MessagesFromCompletion(before + |chunks[0]|, chunks[1..], size)
  }

  function Copies(x: Bytes, n: nat): seq<Bytes> {
    seq(n, _ => x)
  }

  /** The buffer holds part of the request, or all of it and some of what follows. */
  ghost predicate Receiving(p: Proxy, later: Bytes, request: Bytes, rest: Bytes) {
    !p.relaying && p.reqBuf + later == request + rest
  }

  ghost predicate CarriesX224(request: Bytes, x224: Bytes) {
    |request| >= 2 && DerValueLength(request, 0) == Ok(Some(|request|)) && X224Of(request) == Some(x224)
  }

  /**
   * For every way of cutting up a request PDU, and whatever follows it: each message from the one that
   * completes the request on begins a server handshake with its X.224 bytes, and none fails. So exactly
   * one handshake begins iff nothing is sent between the request's last message and the relay.
   */
  lemma {:induction false} HandshakesBegun(p: Proxy, chunks: seq<Bytes>, request: Bytes, rest: Bytes, x224: Bytes)
    requires Receiving(p, Concat(chunks), request, rest) && CarriesX224(request, x224)
    ensures var q := OnMessages(p, chunks);
      && q.failures == p.failures
      && q.starts == p.starts + Copies(x224, MessagesFromCompletion(|p.reqBuf|, chunks, |request|))
    decreases |chunks|
  {
    if chunks == [] {
      assert p.starts + [] == p.starts;
    } else {
      var q, tail := OnMessage(p, chunks[0]), chunks[1..];
      OneMessage(p, chunks[0], Concat(tail), request, rest, x224);
      HandshakesBegun(q, tail, request, rest, x224);
      StartsStep(p.starts, q.starts, |p.reqBuf|, |q.reqBuf|, chunks, |request|, x224);
    }
  }

  lemma {:induction false} OneFromCompletionIff(before: nat, chunks: seq<Bytes>, size: nat)
    requires chunks != [] && before < size <= before + |Concat(chunks)|
    ensures MessagesFromCompletion(before, chunks, size) == 1 <==> before + |Concat(chunks[..|chunks| - 1])| < size
    decreases |chunks|
  {
    var after, tail := before + |chunks[0]|, chunks[1..];
    if tail == [] {
      assert Concat(chunks[..0]) == [] && Concat(tail) == [];
    } else {
      assert chunks[..|chunks| - 1][1..] == tail[..|tail| - 1];
      if after < size {
        OneFromCompletionIff(after, tail, size);
      } else {
        assert MessagesFromCompletion(after, tail, size) >= 1;
      }
    }
  }

  const StartProxy := Proxy(false, [], [], 0)

  /** A connection begins just one handshake exactly if the message that completes the request is the last. */
  lemma OneHandshakeIff(chunks: seq<Bytes>, request: Bytes, rest: Bytes, x224: Bytes)
    requires chunks != [] && Concat(chunks) == request + rest && CarriesX224(request, x224)
    ensures |OnMessages(StartProxy, chunks).starts| == 1 <==> |Concat(chunks[..|chunks| - 1])| < |request|
  {
    assert [] + Concat(chunks) == Concat(chunks);
    HandshakesBegun(StartProxy, chunks, request, rest, x224);
    OneFromCompletionIff(0, chunks, |request|);
  }

  /** What a client encodes is such a request. */
  lemma BuiltRequestCarries(req: Request, x224: Bytes)
    requires VersionOk(req) && |BuildRequest(req)| < TWO31 && req.x224 == Some(x224)
    ensures CarriesX224(BuildRequest(req), x224)
  {
    var buf, body := BuildRequest(req), EncodeFields(RequestFields(req));
    RequestRoundTrip(req, Ok(req));
    ParseDecidesX224(buf, Ok(req));
    WholeReads(TAG_SEQUENCE, body);
    ValueLengthAgrees(buf, 0, |buf|);
  }

  /** One byte sent after a request starts a second handshake for it. */
  lemma ExtraMessageStartsTwice(req: Request, x224: Bytes)
    requires VersionOk(req) && |BuildRequest(req)| < TWO31 && req.x224 == Some(x224)
    ensures OnMessages(StartProxy, [BuildRequest(req), [0]]).starts == [x224, x224]
  {
    var buf := BuildRequest(req);
    var chunks := [buf, [0]];
    BuiltRequestCarries(req, x224);
    assert chunks[1..] == [[0]] && [[0]][1..] == [];
    assert Concat([[0]]) == [0] + [] == [0];
    assert [] + Concat(chunks) == buf + [0];
    HandshakesBegun(StartProxy, chunks, buf, [0], x224);
    assert [] + Copies(x224, 2) == [x224, x224];
  }

  const WRAPPED_HEADER: Bytes := [0x30, 0x84, 0xff, 0xff, 0xff, 0xf8]

  /** A request whose declared length wraps to -8, so that its frame and its body each end two bytes early. */
  function WrappedRequest(req: Request): Bytes
    requires VersionOk(req)
  {
    WRAPPED_HEADER + EncodeFields(RequestFields(req)) + [0, 0, 0, 0]
  }

  lemma WrappedFrameParses(req: Request, frame: Bytes)
    requires VersionOk(req) && |EncodeFields(RequestFields(req))| < TWO31
    requires frame == WRAPPED_HEADER + EncodeFields(RequestFields(req)) + [0, 0]
    ensures Parses(frame, Ok(req))
  {
    var body := EncodeFields(RequestFields(req));
    assert frame[2..6] == [0xff, 0xff, 0xff, 0xf8];
    WrappedTotal(frame);
    ValueLengthAgrees(frame, 0, -2);
    WrappedContent(frame, body);
    FieldsFit(RequestFields(req));
    RequestFolds(req);
    WholeBodyParses(body, RequestFields(req));
  }

  lemma WrappedContent(frame: Bytes, body: Bytes)
    requires frame == WRAPPED_HEADER + body + [0, 0] && ReadTlv(frame, 0).Ok? && ReadTlv(frame, 0).value.next == -2
    ensures ReadTlv(frame, 0).value.tag == TAG_SEQUENCE && ReadTlv(frame, 0).value.content == body
  {
    assert ReadLength(frame, 1).value.contentStart == 6;
    assert frame[6..|frame| - 2] == body;
  }

  lemma HeaderAloneFails()
    ensures OnMessage(StartProxy, WRAPPED_HEADER) == Proxy(false, WRAPPED_HEADER, [], 1)
  {
    var frame := Subarray(WRAPPED_HEADER, 0, -2);
    assert [] + WRAPPED_HEADER == WRAPPED_HEADER && WRAPPED_HEADER[2..6] == [0xff, 0xff, 0xff, 0xf8];
    WrappedTotal(WRAPPED_HEADER);
    assert frame == WRAPPED_HEADER[..4] == [0x30, 0x84, 0xff, 0xff];
    assert ReadTlv(frame, 0) == Fail(TruncatedLengthBytes);
    ParseDecidesX224(frame, Fail(TruncatedLengthBytes));
  }

  /**
   * So the same bytes begin a handshake when they come in one message, and fail the connection, before any
   * handshake, when the six bytes of the header come alone.
   */
  lemma CutsDecide(req: Request, x224: Bytes)
    requires VersionOk(req) && req.x224 == Some(x224) && |EncodeFields(RequestFields(req))| < TWO31
    ensures var whole := OnMessage(StartProxy, WrappedRequest(req)); whole.starts == [x224] && whole.failures == 0
    ensures var first := OnMessage(StartProxy, WrappedRequest(req)[..6]); first.starts == [] && first.failures == 1
  {
    var stream := WrappedRequest(req);
    var frame := Subarray(stream, 0, -2);
    assert [] + stream == stream && stream[2..6] == [0xff, 0xff, 0xff, 0xf8] && stream[..6] == WRAPPED_HEADER;
    WrappedTotal(stream);
    assert frame == WRAPPED_HEADER + EncodeFields(RequestFields(req)) + [0, 0];
    WrappedFrameParses(req, frame);
    ParseDecidesX224(frame, Ok(req));
    HeaderAloneFails();
  }

  lemma StartsStep(starts: seq<Bytes>, starts': seq<Bytes>, before: nat, after: nat, chunks: seq<Bytes>, size: nat, x224: Bytes)
    requires chunks != [] && after == before + |chunks[0]|
    requires starts' == if after < size then starts else starts + [x224]
    ensures starts' + Copies(x224, MessagesFromCompletion(after, chunks[1..], size))
      == starts + Copies(x224, MessagesFromCompletion(before, chunks, size))
  {
    OneMore(starts, x224, MessagesFromCompletion(after, chunks[1..], size));
  }

  lemma OneMessage(p: Proxy, chunk: Bytes, tail: Bytes, request: Bytes, rest: Bytes, x224: Bytes)
    requires Receiving(p, chunk + tail, request, rest) && CarriesX224(request, x224)
    ensures var q := OnMessage(p, chunk);
      && Receiving(q, tail, request, rest) && |q.reqBuf| == |p.reqBuf| + |chunk| && q.failures == p.failures
      && q.starts == if |q.reqBuf| < |request| then p.starts else p.starts + [x224]
  {
    var buf := p.reqBuf + chunk;
    assert buf + tail == request + rest;
    WithinRequest(buf, tail, request, rest);
    if |buf| < |request| {
      PrefixIncomplete(request, |buf|);
    } else {
      CompletedBegins(p, chunk, request, x224);
    }
  }

  lemma WithinRequest(buf: Bytes, tail: Bytes, request: Bytes, rest: Bytes)
    requires buf + tail == request + rest
    ensures |buf| < |request| ==> buf == request[..|buf|]
    ensures |buf| >= |request| ==> request <= buf
  {
    assert buf == (request + rest)[..|buf|];
  }

  lemma OneMore(s: seq<Bytes>, x: Bytes, n: nat)
    ensures s + [x] + Copies(x, n) == s + Copies(x, 1 + n)
  {
  }

  lemma CompletedBegins(p: Proxy, chunk: Bytes, request: Bytes, x224: Bytes)
    requires !p.relaying && request <= p.reqBuf + chunk
    requires DerValueLength(request, 0) == Ok(Some(|request|)) && X224Of(request) == Some(x224)
    ensures OnMessage(p, chunk) == p.(reqBuf := p.reqBuf + chunk, starts := p.starts + [x224])
  {
    var buf := p.reqBuf + chunk;
    assert buf == request + buf[|request|..];
    ValueLengthStable(request, buf[|request|..], 0);
    assert Subarray(buf, 0, |request|) == request;
  }

  lemma PrefixIncomplete(request: Bytes, k: nat)
    requires |request| >= 2 && DerValueLength(request, 0) == Ok(Some(|request|)) && k < |request|
    ensures DerValueLength(request[..k], 0) == Ok(None)
  {
    ValueLengthAgrees(request, 0, |request|);
    StrictPrefixIsIncomplete(request, 0, k);
  }
}
