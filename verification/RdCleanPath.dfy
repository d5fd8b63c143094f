/** The RDCleanPath messages: the request parser and when it ends, encoded requests and responses, and TPKT. */
module RdCleanPath {
  import opened Wrappers
  import opened Chains
  import opened Der

  // ----- The request parser -----

  /** Text fields are kept as their UTF-8 bytes. */
  datatype Request = Request(
    version: Option<int>, destination: Option<Bytes>, proxyAuth: Option<Bytes>,
    preconnectionBlob: Option<Bytes>, x224: Option<Bytes>)

  const EmptyRequest := Request(None, None, None, None, None)

  /** One field of the body: context fields are unwrapped, others skipped. */
  function ApplyField(req: Request, field: Tlv): Result<Request> {
    if field.tag / 32 != 5 then Ok(req)
    else match ReadTlv(field.content, 0)
      case Fail(e) => Fail(e)
      case Ok(inner) => Ok(SetField(req, field.tag % 32, inner.content))
  }

  function SetField(req: Request, n: nat, content: Bytes): Request {
    if n == 0 then req.(version := Some(Accumulate(0, content)))
    else if n == 2 then req.(destination := Some(content))
    else if n == 3 then req.(proxyAuth := Some(content))
    else if n == 5 then req.(preconnectionBlob := Some(content))
    else if n == 6 then req.(x224 := Some(content))
    else req
  }

  /** The field at `offset` and the request with it, or the reason the loop throws there. */
  function ReadField(body: Bytes, offset: int, req: Request): Result<(int, Request)> {
    match ReadTlv(body, offset)
    case Fail(e) => Fail(e)
    case Ok(field) =>
      match ApplyField(req, field)
      case Fail(e) => Fail(e)
      case Ok(updated) => Ok((field.next, updated))
  }

  /** The loop from `offset` on, for at most `fuel` further fields; `None` when it has not ended by then. */
  function ParseFrom(body: Bytes, offset: int, req: Request, fuel: nat): Option<Result<Request>>
    decreases fuel
  {
    if offset >= |body| then Some(Ok(req))
    else match ReadField(body, offset, req)
      case Fail(e) => Some(Fail(e))
      case Ok((next, updated)) => if fuel == 0 then None else ParseFrom(body, next, updated, fuel - 1)
  }

  lemma {:induction false} MoreFuel(body: Bytes, offset: int, req: Request, fuel: nat, fuel': nat)
    requires ParseFrom(body, offset, req, fuel).Some? && fuel <= fuel'
    ensures ParseFrom(body, offset, req, fuel') == ParseFrom(body, offset, req, fuel)
    decreases fuel
  {
    if offset < |body| {
      match ReadField(body, offset, req)
      case Fail(_) =>
      case Ok((next, updated)) => MoreFuel(body, next, updated, fuel - 1, fuel' - 1);
    }
  }

  /** From each offset at which a field can be read to the offset the loop continues at. */
  ghost function NextOffset(body: Bytes): Links<int> {
    map o: int | 0 <= o < |body| && ReadField(body, o, EmptyRequest).Ok? :: ReadField(body, o, EmptyRequest).value.0
  }

  lemma ReadFieldIgnoresRequest(body: Bytes, o: int, req: Request)
    ensures ReadField(body, o, req).Ok? <==> o in NextOffset(body)
    ensures ReadField(body, o, req).Ok? ==> ReadField(body, o, req).value.0 == NextOffset(body)[o]
  {
    assert ReadField(body, o, req).Ok? ==> 0 <= o < |body|;
  }

  lemma {:induction false} OutOfFuelIff(body: Bytes, offset: int, req: Request, fuel: nat)
    ensures ParseFrom(body, offset, req, fuel).None? <==> Up(NextOffset(body), offset, fuel + 1).Some?
    decreases fuel
  {
    ReadFieldIgnoresRequest(body, offset, req);
    if offset in NextOffset(body) {
      assert Up(NextOffset(body), offset, fuel + 1) == Up(NextOffset(body), NextOffset(body)[offset], fuel);
      if fuel > 0 {
        OutOfFuelIff(body, NextOffset(body)[offset], ReadField(body, offset, req).value.1, fuel - 1);
      }
    }
  }

  /** The field loop comes to an end. */
  ghost predicate Terminates(body: Bytes) {
    exists fuel: nat :: ParseFrom(body, 0, EmptyRequest, fuel).Some?
  }

  /** It does exactly when no offset is visited twice. */
  lemma TerminatesIffNoOffsetTwice(body: Bytes)
    ensures Terminates(body) <==> !exists j: nat, k: nat :: RepeatsAt(NextOffset(body), 0, j, k)
  {
    var m := NextOffset(body);
    EndsIffNoRepeat(m, 0);
    if Terminates(body) {
      var fuel: nat :| ParseFrom(body, 0, EmptyRequest, fuel).Some?;
      OutOfFuelIff(body, 0, EmptyRequest, fuel);
    }
    if Ends(m, 0) {
      var k: nat :| Up(m, 0, k).None?;
      OutOfFuelIff(body, 0, EmptyRequest, k - 1);
    }
  }

  lemma OffsetsAreFew(body: Bytes)
    ensures |NextOffset(body)| <= |body|
  {
    var m := NextOffset(body);
    OffsetsBelow(m.Keys, |body|);
  }

  lemma {:induction false} OffsetsBelow(offsets: set<int>, n: nat)
    requires forall o <- offsets :: 0 <= o < n
    ensures |offsets| <= n
  {
    if n == 0 {
      assert forall o :: o !in offsets;
    } else {
      var fewer := offsets - {n - 1};
      OffsetsBelow(fewer, n - 1);
      assert offsets <= fewer + {n - 1};
      assert |offsets| <= |fewer| + 1;
    }
  }

  /** Something a caller could compute: the loop ends at all iff it ends within as many fields as the body has bytes. */
  lemma TerminatesIffWithinLength(body: Bytes)
    ensures Terminates(body) <==> ParseFrom(body, 0, EmptyRequest, |body|).Some?
  {
    if Terminates(body) {
      var fuel: nat :| ParseFrom(body, 0, EmptyRequest, fuel).Some?;
      OutOfFuelIff(body, 0, EmptyRequest, fuel);
      OutOfFuelIff(body, 0, EmptyRequest, |body|);
      OffsetsAreFew(body);
      EndsWithinSize(NextOffset(body), 0, fuel + 1, |body| + 1);
    }
  }

  /** The loop comes to `o`. */
  ghost predicate Visited(body: Bytes, o: int) {
    exists k: nat :: Up(NextOffset(body), 0, k) == Some(o)
  }

  /** No field that the loop reads declares a length that decodes as negative. */
  ghost predicate NoNegativeLength(body: Bytes) {
    forall o | Visited(body, o) && o in NextOffset(body) :: ReadLength(body, o + 1).value.length >= 0
  }

  lemma FieldsAdvance(body: Bytes, o: int)
    requires o in NextOffset(body)
    ensures ReadLength(body, o + 1).Ok?
    ensures ReadLength(body, o + 1).value.length >= 0 ==> NextOffset(body)[o] > o
  {
    assert ReadTlv(body, o).Ok?;
  }

  lemma {:induction false} AscendingLinks(m: Links<int>, x: int, j: nat, k: nat)
    requires forall i: nat | Up(m, x, i).Some? && Up(m, x, i).value in m :: m[Up(m, x, i).value] > Up(m, x, i).value
    requires j < k && Up(m, x, k).Some?
    ensures Up(m, x, j).Some? && Up(m, x, j).value < Up(m, x, k).value
    decreases k
  {
    UpDefinedBelow(m, x, k - 1, k);
    UpStep(m, x, k - 1);
    if j < k - 1 {
      AscendingLinks(m, x, j, k - 1);
    }
  }

  /** If no field it reads decodes to a negative length, the parser ends. */
  lemma NonNegativeLengthsTerminate(body: Bytes)
    requires NoNegativeLength(body)
    ensures Terminates(body)
  {
    var m := NextOffset(body);
    forall i: nat | Up(m, 0, i).Some? && Up(m, 0, i).value in m
      ensures m[Up(m, 0, i).value] > Up(m, 0, i).value
    {
      assert Visited(body, Up(m, 0, i).value);
      FieldsAdvance(body, Up(m, 0, i).value);
    }
    forall j: nat, k: nat
      ensures !RepeatsAt(m, 0, j, k)
    {
      if RepeatsAt(m, 0, j, k) {
        AscendingLinks(m, 0, j, k);
      }
    }
    TerminatesIffNoOffsetTwice(body);
  }

  /** No byte 0x84 of `body` is followed by one with its top bit set. */
  ghost predicate NoHugeLength(body: Bytes) {
    forall i | 0 < i < |body| - 1 && body[i] == 0x84 :: body[i + 1] < 0x80
  }

  /** A test that needs no parsing, but also refuses some bodies for their content. */
  lemma NoHugeLengthTerminates(body: Bytes)
    requires NoHugeLength(body)
    ensures Terminates(body)
  {
    forall o | Visited(body, o) && o in NextOffset(body)
      ensures ReadLength(body, o + 1).value.length >= 0
    {
      FieldsAdvance(body, o);
      SmallHeader(body, o);
    }
    NonNegativeLengthsTerminate(body);
  }

  lemma SmallHeader(body: Bytes, o: int)
    requires NoHugeLength(body) && 0 <= o && ReadLength(body, o + 1).Ok?
    ensures ReadLength(body, o + 1).value.length >= 0
  {
    var n := body[o + 1] as int - 0x80;
    if n >= 0 {
      var bytes := body[o + 2..o + 2 + n];
      assert n == 4 ==> body[o + 1] == 0x84 && bytes[0] == body[o + 2];
      SmallLength(bytes);
    }
  }

  const LOOPING: Bytes := [0x04, 0x84, 0xff, 0xff, 0xff, 0xfa]

  lemma WrappedLengthReads()
    ensures ReadLength(LOOPING, 1) == Ok(Length(-6, 6))
  {
    var bytes := LOOPING[2..6];
    DecodedIsWrapped(bytes);
    FourBytes(bytes);
    assert ToInt32(0xffff_fffa) == -6;
  }

  /** A skipped field whose wrapped length ends it where it began sends the loop back to it for ever. */
  lemma FieldEndingAtItsStartLoops(body: Bytes, length: int, start: int)
    requires |body| >= start && body != [] && body[0] / 32 != 5 && length < 0
    requires ReadLength(body, 1) == Ok(Length(length, start)) && start + length == 0
    ensures !Terminates(body)
  {
    assert ReadTlv(body, 0) == Ok(Tlv(body[0], Subarray(body, start, 0), 0));
    assert ReadField(body, 0, EmptyRequest) == Ok((0, EmptyRequest));
    ReadFieldIgnoresRequest(body, 0, EmptyRequest);
    SelfLinkRepeats(NextOffset(body), 0);
    TerminatesIffNoOffsetTwice(body);
  }

  /** A declared length of 2^32 - 6 decodes as -6 and does just that. */
  lemma WrappedLengthLoops()
    ensures !Terminates(LOOPING)
  {
    WrappedLengthReads();
    FieldEndingAtItsStartLoops(LOOPING, -6, 6);
  }

  lemma SelfLinkRepeats(m: Links<int>, x: int)
    requires x in m && m[x] == x
    ensures RepeatsAt(m, x, 0, 1)
  {
    assert Up(m, x, 1) == Up(m, x, 0);
  }

  /** The message a client would send: a SEQUENCE of eight bytes with that body. */
  const LOOPING_MESSAGE: Bytes := [0x30, 0x06] + LOOPING

  /** The parser, given that message, never returns anything. */
  lemma LoopingMessageHasNoParse()
    ensures BodyOf(LOOPING_MESSAGE) == Some(LOOPING) && !Terminates(LOOPING)
    ensures forall r :: !Parses(LOOPING_MESSAGE, r)
  {
    WholeReads(TAG_SEQUENCE, LOOPING);
    assert EncodeTlv(TAG_SEQUENCE, LOOPING) == LOOPING_MESSAGE;
    WrappedLengthLoops();
  }

  ghost function BodyOf(buf: Bytes): Option<Bytes> {
    var outer := ReadTlv(buf, 0);
    if outer.Ok? && outer.value.tag == TAG_SEQUENCE then Some(outer.value.content) else None
  }

  /** The whole parser's result, for input on which its loop ends. */
  ghost predicate Parses(buf: Bytes, r: Result<Request>) {
    match ReadTlv(buf, 0)
    case Fail(e) => r == Fail(e)
    case Ok(outer) =>
      if outer.tag != TAG_SEQUENCE then r == Fail(NotASequence)
      else exists fuel: nat :: ParseFrom(outer.content, 0, EmptyRequest, fuel) == Some(r)
  }

  /** What the parser has returned by the time its loop would read one field more than `fields`; `None` if it still runs. */
  function ParsedWithin(buf: Bytes, fields: nat): Option<Result<Request>> {
    match ReadTlv(buf, 0)
    case Fail(e) => Some(Fail(e))
    case Ok(outer) =>
      if outer.tag != TAG_SEQUENCE then Some(Fail(NotASequence)) else ParseFrom(outer.content, 0, EmptyRequest, fields)
  }

  /** A loop that may never end cannot be a method here, so this one stops when it has read `fields` fields. */
  method ParseRdCleanPathRequest(buf: Bytes, fields: nat) returns (r: Option<Result<Request>>)
    ensures r == ParsedWithin(buf, fields)
    ensures r.Some? ==> Parses(buf, r.value)
  {
    var outer := ReadTlv(buf, 0);
    if outer.Fail? {
      return Some(Fail(outer.error));
    }
    if outer.value.tag != TAG_SEQUENCE {
      return Some(Fail(NotASequence));
    }
    var body := outer.value.content;
    var left := fields;
    var req, offset := EmptyRequest, 0;
    while offset < |body|
      invariant ParseFrom(body, 0, EmptyRequest, fields) == ParseFrom(body, offset, req, left)
      decreases left, |body| - offset
    {
      var field := ReadTlv(body, offset);
      if field.Fail? {
        return Some(Fail(field.error));
      }
      var next := ApplyField(req, field.value);
      if next.Fail? {
        return Some(Fail(next.error));
      }
      if left == 0 {
        return None;
      }
      offset, req := field.value.next, next.value;
      left := left - 1;
    }
    r := Some(Ok(req));
  }

  /** Enough fields give the parse, and only the parse; there are enough exactly if the loop ends. */
  lemma ParsedIff(buf: Bytes, r: Result<Request>)
    ensures Parses(buf, r) <==> exists fields: nat :: ParsedWithin(buf, fields) == Some(r)
    ensures (exists fields: nat :: ParsedWithin(buf, fields).Some?) <==> (BodyOf(buf).Some? ==> Terminates(BodyOf(buf).value))
  {
    if BodyOf(buf).Some? {
      var body := BodyOf(buf).value;
      assert forall fields: nat :: ParsedWithin(buf, fields) == ParseFrom(body, 0, EmptyRequest, fields);
    } else {
      assert ParsedWithin(buf, 0).Some? && forall fields: nat :: ParsedWithin(buf, fields) == ParsedWithin(buf, 0);
    }
  }

  lemma ParsesIsUnique(buf: Bytes, r: Result<Request>, r': Result<Request>)
    requires Parses(buf, r) && Parses(buf, r')
    ensures r == r'
  {
    if BodyOf(buf).Some? {
      var body := BodyOf(buf).value;
      var f: nat :| ParseFrom(body, 0, EmptyRequest, f) == Some(r);
      var f': nat :| ParseFrom(body, 0, EmptyRequest, f') == Some(r');
      if f <= f' {
        MoreFuel(body, 0, EmptyRequest, f, f');
      } else {
        MoreFuel(body, 0, EmptyRequest, f', f);
      }
    }
  }

  // ----- Encoded field lists, and the response -----

  /** A field to encode: its tag and its content. */
  datatype Field = Field(tag: Byte, content: Bytes)

  function EncodeFields(fields: seq<Field>): Bytes {
    if fields == [] then [] else EncodeTlv(fields[0].tag, fields[0].content) + EncodeFields(fields[1..])
  }

  /** What the parser should make of a field list: each field in turn, no offsets involved. */
  function FoldFields(req: Request, fields: seq<Field>): Result<Request>
    decreases |fields|
  {
    if fields == [] then Ok(req)
    else match ApplyField(req, Tlv(fields[0].tag, fields[0].content, 0))
      case Fail(e) => Fail(e)
      case Ok(updated) => FoldFields(updated, fields[1..])
  }

  /** The parser reads back any encoded field list, one field after another. */
  lemma {:induction false} ParseEncoded(body: Bytes, before: Bytes, fields: seq<Field>, req: Request)
    requires body == before + EncodeFields(fields) && AllFit(fields)
    ensures ParseFrom(body, |before|, req, |fields|) == Some(FoldFields(req, fields))
    decreases |fields|
  {
    if fields == [] {
      NothingLeft(body, |before|, req, fields);
    } else {
      var head, tail := EncodeTlv(fields[0].tag, fields[0].content), EncodeFields(fields[1..]);
      Regroup(before, head, tail);
      var applied := ApplyField(req, Tlv(fields[0].tag, fields[0].content, 0));
      EncodedStep(body, before, fields[0], head, tail, req, applied, |fields|, |fields[1..]|);
      FoldOne(req, fields);
      if applied.Ok? {
        ParseEncoded(body, before + head, fields[1..], applied.value);
      }
    }
  }

  lemma NothingLeft(body: Bytes, offset: nat, req: Request, fields: seq<Field>)
    requires fields == [] && offset == |body|
    ensures ParseFrom(body, offset, req, |fields|) == Some(FoldFields(req, fields))
  {
  }

  lemma FoldOne(req: Request, fields: seq<Field>)
    requires fields != []
    ensures var applied := ApplyField(req, Tlv(fields[0].tag, fields[0].content, 0));
      FoldFields(req, fields) == if applied.Fail? then Fail(applied.error) else FoldFields(applied.value, fields[1..])
  {
  }

  predicate AllFit(fields: seq<Field>) {
    fields == [] || (|fields[0].content| < TWO31 && AllFit(fields[1..]))
  }

  lemma {:induction false} FitAll(fields: seq<Field>)
    requires forall f <- fields :: |f.content| < TWO31
    ensures AllFit(fields)
  {
    if fields != [] {
      FitAll(fields[1..]);
    }
  }

  lemma Regroup(a: Bytes, b: Bytes, c: Bytes)
    ensures a + (b + c) == a + b + c
  {
  }

  lemma EncodedStep(body: Bytes, before: Bytes, f: Field, head: Bytes, after: Bytes, req: Request, applied: Result<Request>, fuel: nat, left: nat)
    requires |f.content| < TWO31 && head == EncodeTlv(f.tag, f.content) && body == before + head + after
    requires applied == ApplyField(req, Tlv(f.tag, f.content, 0)) && fuel == left + 1
    ensures applied.Fail? ==> ParseFrom(body, |before|, req, fuel) == Some(Fail(applied.error))
    ensures applied.Ok? ==> ParseFrom(body, |before|, req, fuel) == ParseFrom(body, |before + head|, applied.value, left)
  {
    TlvRoundTrip(before, f.tag, f.content, after);
    assert |before + head| > |before|;
    ParseStep(body, |before|, req, left, Tlv(f.tag, f.content, |before + head|));
  }

  lemma ParseStep(body: Bytes, offset: nat, req: Request, fuel: nat, field: Tlv)
    requires offset < |body| && ReadTlv(body, offset) == Ok(field)
    ensures var applied := ApplyField(req, Tlv(field.tag, field.content, 0));
      ParseFrom(body, offset, req, fuel + 1)
        == if applied.Fail? then Some(Fail(applied.error)) else ParseFrom(body, field.next, applied.value, fuel)
  {
    assert ApplyField(req, field) == ApplyField(req, Tlv(field.tag, field.content, 0));
  }

  /** An encoded sequence of fields that fold to a request parses to it, and to nothing else. */
  lemma EncodedSequenceParses(fields: seq<Field>, req: Request, r: Result<Request>)
    requires |EncodeTlv(TAG_SEQUENCE, EncodeFields(fields))| < TWO31
    requires FoldFields(EmptyRequest, fields) == Ok(req)
    ensures Parses(EncodeTlv(TAG_SEQUENCE, EncodeFields(fields)), r) <==> r == Ok(req)
  {
    var body := EncodeFields(fields);
    var buf := EncodeTlv(TAG_SEQUENCE, body);
    WholeReads(TAG_SEQUENCE, body);
    WholeBodyParses(body, fields);
    assert Parses(buf, Ok(req));
    if Parses(buf, r) {
      ParsesIsUnique(buf, r, Ok(req));
    }
  }

  lemma WholeReads(tag: Byte, content: Bytes)
    requires |content| < TWO31
    ensures ReadTlv(EncodeTlv(tag, content), 0) == Ok(Tlv(tag, content, |EncodeTlv(tag, content)|))
  {
    var whole := EncodeTlv(tag, content);
    Alone(whole);
    TlvRoundTrip([], tag, content, []);
  }

  lemma Alone(s: Bytes)
    ensures [] + s + [] == s
  {
  }

  lemma WholeBodyParses(body: Bytes, fields: seq<Field>)
    requires body == EncodeFields(fields) && |body| < TWO31
    ensures ParseFrom(body, 0, EmptyRequest, |fields|) == Some(FoldFields(EmptyRequest, fields))
  {
    FieldsFit(fields);
    FitAll(fields);
    assert [] + body == body;
    ParseEncoded(body, [], fields, EmptyRequest);
  }

  const RDCLEANPATH_VERSION := 3390

  datatype Response = Response(x224: Bytes, certChain: seq<Bytes>, serverAddr: Bytes)

  function EncodeAll(tag: Byte, contents: seq<Bytes>): Bytes {
    if contents == [] then [] else EncodeTlv(tag, contents[0]) + EncodeAll(tag, contents[1..])
  }

  function ResponseFields(res: Response): seq<Field> {
    [ Field(0xa0, EncodeInteger(RDCLEANPATH_VERSION)),
      Field(0xa6, EncodeTlv(TAG_OCTET_STRING, res.x224)),
      Field(0xa7, EncodeTlv(TAG_SEQUENCE, EncodeAll(TAG_OCTET_STRING, res.certChain))),
      Field(0xa9, EncodeTlv(TAG_UTF8STRING, res.serverAddr)) ]
  }

  function BuildRdCleanPathResponse(res: Response): Bytes {
    EncodeTlv(TAG_SEQUENCE, EncodeFields(ResponseFields(res)))
  }

  /** The parser applied to a built response finds version 3390, exactly its X.224 bytes, and nothing else. */
  lemma ResponseRoundTrip(res: Response, r: Result<Request>)
    requires |BuildRdCleanPathResponse(res)| < TWO31
    ensures Parses(BuildRdCleanPathResponse(res), r)
      <==> r == Ok(Request(Some(RDCLEANPATH_VERSION), None, None, None, Some(res.x224)))
  {
    FieldsFit(ResponseFields(res));
    ResponseFolds(res);
    EncodedSequenceParses(ResponseFields(res), Request(Some(RDCLEANPATH_VERSION), None, None, None, Some(res.x224)), r);
  }

  lemma {:induction false} FieldsFit(fields: seq<Field>)
    ensures forall f <- fields :: |f.content| <= |EncodeFields(fields)|
  {
    if fields != [] {
      FieldsFit(fields[1..]);
      forall f <- fields
        ensures |f.content| <= |EncodeFields(fields)|
      {
        assert f == fields[0] || f in fields[1..];
      }
    }
  }

  /** A context field holding one value: what the parser makes of it. */
  lemma FieldReads(req: Request, tag: Byte, innerTag: Byte, content: Bytes)
    requires tag / 32 == 5 && |EncodeTlv(innerTag, content)| < TWO31
    ensures ApplyField(req, Tlv(tag, EncodeTlv(innerTag, content), 0)) == Ok(SetField(req, tag % 32, content))
  {
    WholeReads(innerTag, content);
  }

  lemma FoldStep(req: Request, fields: seq<Field>, req': Request)
    requires fields != [] && ApplyField(req, Tlv(fields[0].tag, fields[0].content, 0)) == Ok(req')
    ensures FoldFields(req, fields) == FoldFields(req', fields[1..])
  {
  }

  lemma ResponseFolds(res: Response)
    requires forall f <- ResponseFields(res) :: |f.content| < TWO31
    ensures FoldFields(EmptyRequest, ResponseFields(res))
      == Ok(Request(Some(RDCLEANPATH_VERSION), None, None, None, Some(res.x224)))
  {
    var fields := ResponseFields(res);
    assert fields[0] in fields && fields[1] in fields && fields[2] in fields && fields[3] in fields;
    var chain := EncodeAll(TAG_OCTET_STRING, res.certChain);
    var r1 := EmptyRequest.(version := Some(RDCLEANPATH_VERSION));
    var r2 := r1.(x224 := Some(res.x224));
    VersionReads(EmptyRequest, RDCLEANPATH_VERSION);
    FieldReads(r1, 0xa6, TAG_OCTET_STRING, res.x224);
    FieldReads(r2, 0xa7, TAG_SEQUENCE, chain);
    FieldReads(r2, 0xa9, TAG_UTF8STRING, res.serverAddr);
    FoldFour(fields, r1, r2);
  }

  lemma VersionReads(req: Request, version: nat)
    requires version < TWO31 && |EncodeInteger(version)| < TWO31
    ensures ApplyField(req, Tlv(0xa0, EncodeInteger(version), 0)) == Ok(req.(version := Some(version)))
  {
    IntegerRoundTrip(version);
    FieldReads(req, 0xa0, TAG_INTEGER, IntContent(version));
  }

  lemma FoldFour(fields: seq<Field>, r1: Request, r2: Request)
    requires |fields| == 4
    requires ApplyField(EmptyRequest, Tlv(fields[0].tag, fields[0].content, 0)) == Ok(r1)
    requires ApplyField(r1, Tlv(fields[1].tag, fields[1].content, 0)) == Ok(r2)
    requires ApplyField(r2, Tlv(fields[2].tag, fields[2].content, 0)) == Ok(r2)
    requires ApplyField(r2, Tlv(fields[3].tag, fields[3].content, 0)) == Ok(r2)
    ensures FoldFields(EmptyRequest, fields) == Ok(r2)
  {
    FoldStep(EmptyRequest, fields, r1);
    FoldStep(r1, fields[1..], r2);
    FoldStep(r2, fields[1..][1..], r2);
    FoldStep(r2, fields[1..][1..][1..], r2);
  }

  // ----- A client's request -----

  function OptionalField(n: nat, innerTag: Byte, content: Option<Bytes>): seq<Field>
    requires n < 32
  {
    if content.Some? then [Field(0xa0 + n, EncodeTlv(innerTag, content.value))] else []
  }

  function VersionContent(version: Option<int>): Option<Bytes>
    requires version.Some? ==> version.value >= 0
  {
    if version.Some? then Some(IntContent(version.value)) else None
  }

  predicate VersionOk(req: Request) {
    req.version.Some? ==> 0 <= req.version.value < TWO31
  }

  /** The fields a client sends, in the order of their numbers. */
  function RequestFields(req: Request): seq<Field>
    requires VersionOk(req)
  {
    OptionalField(0, TAG_INTEGER, VersionContent(req.version)) + (OptionalField(2, TAG_UTF8STRING, req.destination)
      + (OptionalField(3, TAG_UTF8STRING, req.proxyAuth) + (OptionalField(5, TAG_UTF8STRING, req.preconnectionBlob)
      + OptionalField(6, TAG_OCTET_STRING, req.x224))))
  }

  function BuildRequest(req: Request): Bytes
    requires VersionOk(req)
  {
    EncodeTlv(TAG_SEQUENCE, EncodeFields(RequestFields(req)))
  }

  lemma OptionalReads(req: Request, n: nat, innerTag: Byte, content: Option<Bytes>, rest: seq<Field>)
    requires n < 32 && forall f <- OptionalField(n, innerTag, content) + rest :: |f.content| < TWO31
    ensures FoldFields(req, OptionalField(n, innerTag, content) + rest)
      == FoldFields(if content.Some? then SetField(req, n, content.value) else req, rest)
    ensures forall f <- rest :: |f.content| < TWO31
  {
    var all := OptionalField(n, innerTag, content) + rest;
    assert forall f <- rest :: f in all;
    if content.Some? {
      assert all[0] in all && all[1..] == rest;
      FieldReads(req, 0xa0 + n, innerTag, content.value);
      FoldStep(req, all, SetField(req, n, content.value));
    } else {
      assert all == rest;
    }
  }

  lemma RequestFolds(req: Request)
    requires VersionOk(req) && forall f <- RequestFields(req) :: |f.content| < TWO31
    ensures FoldFields(EmptyRequest, RequestFields(req)) == Ok(req)
  {
    var x224 := OptionalField(6, TAG_OCTET_STRING, req.x224);
    var blob := OptionalField(5, TAG_UTF8STRING, req.preconnectionBlob) + x224;
    var auth := OptionalField(3, TAG_UTF8STRING, req.proxyAuth) + blob;
    var dest := OptionalField(2, TAG_UTF8STRING, req.destination) + auth;
    var r0 := EmptyRequest.(version := req.version);
    var r2 := r0.(destination := req.destination);
    var r3 := r2.(proxyAuth := req.proxyAuth);
    var r5 := r3.(preconnectionBlob := req.preconnectionBlob);
    if req.version.Some? {
      IntegerRoundTrip(req.version.value);
    }
    OptionalReads(EmptyRequest, 0, TAG_INTEGER, VersionContent(req.version), dest);
    OptionalReads(r0, 2, TAG_UTF8STRING, req.destination, auth);
    OptionalReads(r2, 3, TAG_UTF8STRING, req.proxyAuth, blob);
    OptionalReads(r3, 5, TAG_UTF8STRING, req.preconnectionBlob, x224);
    assert x224 + [] == x224;
    OptionalReads(r5, 6, TAG_OCTET_STRING, req.x224, []);
  }

  /** Any request a client encodes is parsed back exactly, whichever of its fields are present. */
  lemma RequestRoundTrip(req: Request, r: Result<Request>)
    requires VersionOk(req) && |BuildRequest(req)| < TWO31
    ensures Parses(BuildRequest(req), r) <==> r == Ok(req)
  {
    FieldsFit(RequestFields(req));
    RequestFolds(req);
    EncodedSequenceParses(RequestFields(req), req, r);
  }

  // ----- TPKT (section 6 of RFC 1006) -----

  function TpktLength(buf: Bytes): Result<Option<int>> {
    if |buf| < 4 then Ok(None)
    else if buf[0] != 0x03 then Fail(NotATpktFrame)
    else
      var len := buf[2] as int * 256 + buf[3] as int;
      if len < 4 then Fail(TpktLengthTooSmall)
      else if |buf| >= len then Ok(Some(len)) else Ok(None)
  }
}
