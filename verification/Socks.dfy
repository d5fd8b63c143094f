/** The SOCKS5 server side of a dynamic forward (sections 3 to 6 of RFC 1928): two parsers and the handshake. */
module Socks {
  import opened Wrappers
  import opened Text
  import opened Der
  import opened Framing
  import opened Unicode

  const SOCKS5_VERSION: Byte := 0x05
  const REP_SUCCESS: Byte := 0x00
  const REP_CMD_NOT_SUPPORTED: Byte := 0x07
  const REP_ATYP_NOT_SUPPORTED: Byte := 0x08

  function Reply(rep: Byte): Bytes {
    [SOCKS5_VERSION, rep, 0, 1, 0, 0, 0, 0, 0, 0]
  }

  datatype GreetingResult = GreetingIncomplete | GreetingOk(reply: Bytes) | GreetingError(refusal: Option<Bytes>)

  function ParseGreeting(data: Bytes): GreetingResult {
    if |data| < 2 then GreetingIncomplete
    else if data[0] != SOCKS5_VERSION then GreetingError(None)
    else
      var nMethods := data[1] as nat;
      if |data| < 2 + nMethods then GreetingIncomplete
      else if 0x00 !in data[2..2 + nMethods] then GreetingError(Some([SOCKS5_VERSION, 0xff]))
      else GreetingOk([SOCKS5_VERSION, 0x00])
  }

  datatype ConnectResult = ConnectIncomplete | ConnectOk(host: string, port: nat, reply: Bytes) | ConnectError(refusal: Option<Bytes>)

  function Word(data: Bytes, i: nat): nat
    requires i + 2 <= |data|
  {
    data[i] as int * 256 + data[i + 1] as int
  }

  /** The eight groups of an IPv6 address, from group `k` on. */
  function Groups(data: Bytes, k: nat): seq<string>
    requires k <= 8 && |data| >= 20
    decreases 8 - k
  {
    if k == 8 then [] else [Numeral(Word(data, 4 + 2 * k), 16)] + Groups(data, k + 1)
  }

  function V6Text(data: Bytes): string
    requires |data| >= 20
  {
    Join(Groups(data, 0), ':')
  }

  function ParseConnect(data: Bytes): ConnectResult {
    if |data| < 4 then ConnectIncomplete
    else if data[0] != SOCKS5_VERSION then ConnectError(None)
    else if data[1] != 0x01 then ConnectError(Some(Reply(REP_CMD_NOT_SUPPORTED)))
    else if data[3] == 0x01 then
      if |data| < 10 then ConnectIncomplete
      else
        var parts := [Decimal(data[4]), Decimal(data[5]), Decimal(data[6]), Decimal(data[7])];
        ConnectOk(Join(parts, '.'), Word(data, 8), Reply(REP_SUCCESS))
    else if data[3] == 0x03 then
      var len: nat := if |data| > 4 then data[4] as nat else 0;
      if |data| < 5 + len + 2 then ConnectIncomplete
      else ConnectOk(Decode(data[5..5 + len]), Word(data, 5 + len), Reply(REP_SUCCESS))
    else if data[3] == 0x04 then
      if |data| < 22 then ConnectIncomplete
      else ConnectOk(V6Text(data), Word(data, 20), Reply(REP_SUCCESS))
    else ConnectError(Some(Reply(REP_ATYP_NOT_SUPPORTED)))
  }

  /** The parser's loop over the groups. */
  method CollectGroups(data: Bytes) returns (parts: seq<string>)
    requires |data| >= 20
    ensures parts == Groups(data, 0)
  {
    parts := [];
    var i := 0;
    ghost var k: nat := 0;
    while i < 16
      invariant i == 2 * k && k <= 8
      invariant parts + Groups(data, k) == Groups(data, 0)
    {
      NextGroup(data, parts, k);
      parts := parts + [Numeral(Word(data, 4 + i), 16)];
      i, k := i + 2, k + 1;
    }
  }

  lemma NextGroup(data: Bytes, parts: seq<string>, k: nat)
    requires k < 8 && |data| >= 20
    ensures parts + [Numeral(Word(data, 4 + 2 * k), 16)] + Groups(data, k + 1) == parts + Groups(data, k)
  {
  }

  // ----- What a client sends -----

  datatype Address = V4(b: Bytes) | V6(words: seq<nat>) | Domain(name: Bytes)

  predicate AddressOk(a: Address) {
    match a
    case V4(b) => |b| == 4
    case V6(words) => |words| == 8 && forall w <- words :: w < 0x10000
    case Domain(name) => |name| < 256
  }

  /** The host string: an address written out, or a name decoded. */
  function HostOf(a: Address): string {
    match a
    case V4(b) => Join(seq(|b|, i requires 0 <= i < |b| => Decimal(b[i])), '.')
    case V6(words) => Join(seq(|words|, i requires 0 <= i < |words| => Numeral(words[i], 16)), ':')
    case Domain(name) => Decode(name)
  }

  function WordBytes(w: nat): Bytes {
    [w / 256 % 256, w % 256]
  }

  function AllWordBytes(words: seq<nat>): Bytes {
    if words == [] then [] else WordBytes(words[0]) + AllWordBytes(words[1..])
  }

  function EncodeAddress(a: Address): Bytes
    requires AddressOk(a)
  {
    match a
    case V4(b) => [0x01] + b
    case V6(words) => [0x04] + AllWordBytes(words)
    case Domain(name) => [0x03, |name|] + name
  }

  function EncodeConnect(reserved: Byte, a: Address, port: nat): Bytes
    requires AddressOk(a)
  {
    [SOCKS5_VERSION, 0x01, reserved] + EncodeAddress(a) + WordBytes(port)
  }

  function EncodeGreeting(methods: Bytes): Bytes
    requires |methods| < 256
  {
    [SOCKS5_VERSION, |methods|] + methods
  }

  lemma {:induction false} WordsLaidOut(words: seq<nat>, k: nat)
    requires k < |words| && words[k] < 0x10000
    ensures |AllWordBytes(words)| == 2 * |words| && Word(AllWordBytes(words), 2 * k) == words[k]
  {
    WordsLength(words);
    if k > 0 {
      WordsLaidOut(words[1..], k - 1);
    }
  }

  lemma {:induction false} WordsLength(words: seq<nat>)
    ensures |AllWordBytes(words)| == 2 * |words|
  {
    if words != [] {
      WordsLength(words[1..]);
    }
  }

  /** The groups of an address in hexadecimal, from the `k`-th on. */
  function Hexadecimals(words: seq<nat>, k: nat): seq<string>
    requires k <= |words|
  {
    seq(|words| - k, i requires 0 <= i < |words| - k => Numeral(words[k + i], 16))
  }

  lemma HexadecimalsStep(words: seq<nat>, k: nat)
    requires k < |words|
    ensures Hexadecimals(words, k) == [Numeral(words[k], 16)] + Hexadecimals(words, k + 1)
  {
  }

  lemma {:induction false} GroupsAre(data: Bytes, words: seq<nat>, k: nat)
    requires k <= 8 == |words| && |data| >= 20 && forall i | 0 <= i < 8 :: Word(data, 4 + 2 * i) == words[i]
    ensures Groups(data, k) == Hexadecimals(words, k)
    decreases 8 - k
  {
    if k < 8 {
      GroupsAre(data, words, k + 1);
      HexadecimalsStep(words, k);
    }
  }

  lemma V4RoundTrip(data: Bytes, b: Bytes, port: nat)
    requires |b| == 4 && port < 0x10000 && |data| >= 10
    requires data[0] == SOCKS5_VERSION && data[1] == 0x01 && data[3..8] == [0x01] + b && Word(data, 8) == port
    ensures ParseConnect(data) == ConnectOk(HostOf(V4(b)), port, Reply(REP_SUCCESS))
  {
    assert data[3] == data[3..8][0];
    assert data[4] == data[3..8][1] && data[5] == data[3..8][2] && data[6] == data[3..8][3] && data[7] == data[3..8][4];
    assert seq(|b|, i requires 0 <= i < |b| => Decimal(b[i])) == [Decimal(data[4]), Decimal(data[5]), Decimal(data[6]), Decimal(data[7])];
  }

  lemma DomainRoundTrip(data: Bytes, name: Bytes, port: nat)
    requires |name| < 256 && port < 0x10000 && |data| >= 7 + |name|
    requires data[0] == SOCKS5_VERSION && data[1] == 0x01 && data[3..5 + |name|] == [0x03, |name|] + name
    requires Word(data, 5 + |name|) == port
    ensures ParseConnect(data) == ConnectOk(Decode(name), port, Reply(REP_SUCCESS))
  {
    assert data[3] == data[3..5 + |name|][0] && data[4] == data[3..5 + |name|][1];
    assert data[5..5 + |name|] == data[3..5 + |name|][2..] == name;
  }

  lemma V6RoundTrip(data: Bytes, words: seq<nat>, port: nat)
    requires |words| == 8 && (forall i | 0 <= i < 8 :: words[i] < 0x10000) && port < 0x10000 && |data| >= 22
    requires data[0] == SOCKS5_VERSION && data[1] == 0x01 && data[3..20] == [0x04] + AllWordBytes(words)
    requires Word(data, 20) == port
    ensures ParseConnect(data) == ConnectOk(HostOf(V6(words)), port, Reply(REP_SUCCESS))
  {
    var part := AllWordBytes(words);
    assert data[3] == data[3..20][0] && data[4..20] == data[3..20][1..] == part;
    AllWordsLaidOut(words);
    WordsRead(data, part, words);
    V6Groups(data, words);
    V6Reads(data);
  }

  lemma V6Groups(data: Bytes, words: seq<nat>)
    requires |data| >= 20 && |words| == 8 && forall i | 0 <= i < 8 :: Word(data, 4 + 2 * i) == words[i]
    ensures Groups(data, 0) == seq(|words|, i requires 0 <= i < |words| => Numeral(words[i], 16))
  {
    GroupsAre(data, words, 0);
  }

  lemma AllWordsLaidOut(words: seq<nat>)
    requires forall i | 0 <= i < |words| :: words[i] < 0x10000
    ensures |AllWordBytes(words)| == 2 * |words|
    ensures forall i | 0 <= i < |words| :: Word(AllWordBytes(words), 2 * i) == words[i]
  {
    WordsLength(words);
    forall i | 0 <= i < |words|
      ensures Word(AllWordBytes(words), 2 * i) == words[i]
    {
      WordsLaidOut(words, i);
    }
  }

  lemma WordsRead(data: Bytes, part: Bytes, words: seq<nat>)
    requires |words| == 8 && |part| == 16 && |data| >= 20 && data[4..20] == part
    requires forall i | 0 <= i < 8 :: Word(part, 2 * i) == words[i]
    ensures forall i | 0 <= i < 8 :: Word(data, 4 + 2 * i) == words[i]
  {
    forall i | 0 <= i < 8
      ensures Word(data, 4 + 2 * i) == words[i]
    {
      WordWithin(data, part, 4, 2 * i);
    }
  }

  lemma WordWithin(data: Bytes, part: Bytes, start: nat, i: nat)
    requires start + |part| <= |data| && data[start..start + |part|] == part && i + 2 <= |part|
    ensures Word(data, start + i) == Word(part, i)
  {
    assert data[start..start + |part|][i] == data[start + i] && data[start..start + |part|][i + 1] == data[start + i + 1];
  }

  /** The parser reads back the host and port of any well-formed CONNECT, whatever follows it. */
  lemma ConnectRoundTrip(reserved: Byte, a: Address, port: nat, more: Bytes)
    requires AddressOk(a) && port < 0x10000
    ensures ParseConnect(EncodeConnect(reserved, a, port) + more) == ConnectOk(HostOf(a), port, Reply(REP_SUCCESS))
  {
    var data, address := EncodeConnect(reserved, a, port) + more, EncodeAddress(a);
    ConnectLayout(reserved, address, port, more);
    match a {
      case V4(b) => V4RoundTrip(data, b, port);
      case Domain(name) => DomainRoundTrip(data, name, port);
      case V6(words) =>
        WordsLength(words);
        assert forall i | 0 <= i < 8 :: words[i] in words;
        V6RoundTrip(data, words, port);
    }
  }

  lemma ConnectLayout(reserved: Byte, address: Bytes, port: nat, more: Bytes)
    requires port < 0x10000
    ensures var data := [SOCKS5_VERSION, 0x01, reserved] + address + WordBytes(port) + more;
      && data[0] == SOCKS5_VERSION && data[1] == 0x01
      && data[3..3 + |address|] == address && Word(data, 3 + |address|) == port
  {
  }

  lemma ConnectPrefixIncomplete(reserved: Byte, a: Address, port: nat, k: nat)
    requires AddressOk(a) && k < |EncodeConnect(reserved, a, port)|
    ensures ParseConnect(EncodeConnect(reserved, a, port)[..k]) == ConnectIncomplete
  {
    if a.V6? {
      WordsLength(a.words);
    }
  }

  lemma JoinedNumeralsDiffer(xs: seq<nat>, ys: seq<nat>, base: nat, sep: char)
    requires IsBase(base) && !IsDigit(sep) && xs != [] && ys != []
    requires Join(seq(|xs|, i requires 0 <= i < |xs| => Numeral(xs[i], base)), sep)
          == Join(seq(|ys|, i requires 0 <= i < |ys| => Numeral(ys[i], base)), sep)
    ensures xs == ys
  {
    var ps := seq(|xs|, i requires 0 <= i < |xs| => Numeral(xs[i], base));
    var qs := seq(|ys|, i requires 0 <= i < |ys| => Numeral(ys[i], base));
    forall i | 0 <= i < |xs| { NumeralHasDigits(xs[i], base); }
    forall i | 0 <= i < |ys| { NumeralHasDigits(ys[i], base); }
    SplitJoin(ps, sep);
    SplitJoin(qs, sep);
    forall i | 0 <= i < |xs|
      ensures xs[i] == ys[i]
    {
      NumeralDenotes(xs[i], base);
      NumeralDenotes(ys[i], base);
      assert ps[i] == qs[i];
    }
  }

  /** Different addresses of one kind are forwarded to different host strings, well-formed names included. */
  lemma HostTextIsFaithful(a: Address, b: Address)
    requires AddressOk(a) && AddressOk(b) && HostOf(a) == HostOf(b)
    requires (a.V4? && b.V4?) || (a.V6? && b.V6?) || (a.Domain? && b.Domain? && WellFormed(a.name) && WellFormed(b.name))
    ensures a == b
  {
    if a.V4? {
      var xs: seq<nat> := seq(|a.b|, i requires 0 <= i < |a.b| => a.b[i] as nat);
      var ys: seq<nat> := seq(|b.b|, i requires 0 <= i < |b.b| => b.b[i] as nat);
      assert seq(|xs|, i requires 0 <= i < |xs| => Numeral(xs[i], 10)) == seq(|a.b|, i requires 0 <= i < |a.b| => Decimal(a.b[i]));
      assert seq(|ys|, i requires 0 <= i < |ys| => Numeral(ys[i], 10)) == seq(|b.b|, i requires 0 <= i < |b.b| => Decimal(b.b[i]));
      JoinedNumeralsDiffer(xs, ys, 10, '.');
      assert forall i | 0 <= i < 4 :: a.b[i] as nat == xs[i] == ys[i] == b.b[i] as nat;
    } else if a.V6? {
      JoinedNumeralsDiffer(a.words, b.words, 16, ':');
    }
  }

  /** Malformed names can be forwarded to the same host. */
  lemma MalformedNamesCollide()
    ensures HostOf(Domain([0xff])) == HostOf(Domain([0xfe]))
  {
    var a, b: Bytes := [0xff], [0xfe];
    assert a[1..] == [] && b[1..] == [];
    assert Next(a) == Next(b) == (REPLACEMENT, 1);
    assert Decode(a) == [REPLACEMENT] + Decode(a[1..]);
    assert Decode(b) == [REPLACEMENT] + Decode(b[1..]);
  }

  /** A name that a client writes is the name that is forwarded. */
  lemma NameRoundTrip(reserved: Byte, name: string, port: nat, more: Bytes)
    requires |Encode(name)| < 256 && port < 0x10000
    ensures ParseConnect(EncodeConnect(reserved, Domain(Encode(name)), port) + more) == ConnectOk(name, port, Reply(REP_SUCCESS))
  {
    ConnectRoundTrip(reserved, Domain(Encode(name)), port, more);
    DecodeEncode(name);
  }

  /** More bytes change no answer but "incomplete". */
  lemma ParsersAreStable(data: Bytes, more: Bytes)
    ensures ParseGreeting(data) != GreetingIncomplete ==> ParseGreeting(data + more) == ParseGreeting(data)
    ensures ParseConnect(data) != ConnectIncomplete ==> ParseConnect(data + more) == ParseConnect(data)
  {
    if |data| >= 2 && |data| >= 2 + data[1] as nat {
      assert (data + more)[2..2 + data[1] as nat] == data[2..2 + data[1] as nat];
    }
    if ParseConnect(data) != ConnectIncomplete {
      if data[3] == 0x01 {
        V4Stable(data, more);
      } else if data[3] == 0x03 {
        DomainStable(data, more);
      } else if data[3] == 0x04 {
        V6Stable(data, more);
      }
    }
  }

  lemma V4Stable(data: Bytes, more: Bytes)
    requires |data| >= 4 && data[3] == 0x01 && ParseConnect(data) != ConnectIncomplete
    ensures ParseConnect(data + more) == ParseConnect(data)
  {
    assert forall i | 0 <= i < |data| :: (data + more)[i] == data[i];
  }

  lemma DomainStable(data: Bytes, more: Bytes)
    requires |data| >= 4 && data[3] == 0x03 && ParseConnect(data) != ConnectIncomplete
    ensures ParseConnect(data + more) == ParseConnect(data)
  {
    assert forall i | 0 <= i < |data| :: (data + more)[i] == data[i];
    if |data| >= 7 && |data| >= 7 + data[4] as nat {
      assert (data + more)[5..5 + data[4] as nat] == data[5..5 + data[4] as nat];
    }
  }

  lemma V6Stable(data: Bytes, more: Bytes)
    requires |data| >= 4 && data[3] == 0x04 && ParseConnect(data) != ConnectIncomplete
    ensures ParseConnect(data + more) == ParseConnect(data)
  {
    V6Reads(data);
    if |data| >= 22 {
      V6Reads(data + more);
      V6TextStable(data, more);
    }
  }

  lemma V6TextStable(data: Bytes, more: Bytes)
    requires |data| >= 22
    ensures V6Text(data + more) == V6Text(data) && Word(data + more, 20) == Word(data, 20)
  {
    GroupsStable(data, more, 0);
  }

  lemma V6Reads(data: Bytes)
    requires |data| >= 4 && data[3] == 0x04
    ensures ParseConnect(data) ==
      if data[0] != SOCKS5_VERSION then ConnectError(None)
      else if data[1] != 0x01 then ConnectError(Some(Reply(REP_CMD_NOT_SUPPORTED)))
      else if |data| < 22 then ConnectIncomplete
      else ConnectOk(V6Text(data), Word(data, 20), Reply(REP_SUCCESS))
  {
  }

  lemma {:induction false} GroupsStable(data: Bytes, more: Bytes, k: nat)
    requires k <= 8 && |data| >= 20
    ensures Groups(data + more, k) == Groups(data, k)
    decreases 8 - k
  {
    if k < 8 {
      GroupsStable(data, more, k + 1);
    }
  }

  // ----- The handshake -----

  datatype Phase = Greeting | Connect | Done

  /** `writes` and `forwards` log what the connection sent back and the destinations it asked for. */
  datatype Session = Session(phase: Phase, buf: Bytes, destroyed: bool, writes: seq<Bytes>, forwards: seq<(string, nat)>)

  const NewSession := Session(Greeting, [], false, [], [])

  function WriteIf(writes: seq<Bytes>, reply: Option<Bytes>): seq<Bytes> {
    if reply.Some? then writes + [reply.value] else writes
  }

  function OnChunk(s: Session, chunk: Bytes): Session {
    if s.destroyed || s.phase == Done then s
    else
      var buf := s.buf + chunk;
      if s.phase == Greeting then
        match ParseGreeting(buf)
        case GreetingIncomplete => s.(buf := buf)
        case GreetingError(reply) => s.(buf := buf, destroyed := true, writes := WriteIf(s.writes, reply))
        case GreetingOk(reply) => s.(phase := Connect, buf := [], writes := s.writes + [reply])
      else
        match ParseConnect(buf)
        case ConnectIncomplete => s.(buf := buf)
        case ConnectError(reply) => s.(buf := buf, destroyed := true, writes := WriteIf(s.writes, reply))
        case ConnectOk(host, port, reply) =>
          s.(phase := Done, buf := buf, writes := s.writes + [reply], forwards := s.forwards + [(host, port)])
  }

  function OnChunks(s: Session, chunks: seq<Bytes>): Session
    decreases |chunks|
  {
    if chunks == [] then s else OnChunks(OnChunk(s, chunks[0]), chunks[1..])
  }

  class SocksConnection {
    var phase: Phase
    var buf: Bytes
    var destroyed: bool
    ghost var writes: seq<Bytes>
    ghost var forwards: seq<(string, nat)>

    ghost function Abs(): Session
      reads this
    {
      Session(phase, buf, destroyed, writes, forwards)
    }

    constructor ()
      ensures Abs() == NewSession
    {
      phase, buf, destroyed, writes, forwards := Greeting, [], false, [], [];
    }

    method OnData(chunk: Bytes)
      modifies this
      ensures Abs() == OnChunk(old(Abs()), chunk)
    {
      if destroyed || phase == Done {
        return;
      }
      buf := buf + chunk;
      if phase == Greeting {
        var g := ParseGreeting(buf);
        if g.GreetingIncomplete? {
          return;
        }
        if g.GreetingError? {
          writes := WriteIf(writes, g.refusal);
          destroyed := true;
          return;
        }
        writes := writes + [g.reply];
        phase := Connect;
        buf := [];
        return;
      }
      var c := ParseConnect(buf);
      if c.ConnectIncomplete? {
        return;
      }
      if c.ConnectError? {
        writes := WriteIf(writes, c.refusal);
        destroyed := true;
        return;
      }
      phase := Done;
      writes := writes + [c.reply];
      forwards := forwards + [(c.host, c.port)];
    }
  }

  lemma GreetingPrefixes(methods: Bytes, k: nat, more: Bytes)
    requires |methods| < 256 && 0x00 in methods && k <= |EncodeGreeting(methods)|
    ensures var g := EncodeGreeting(methods);
      && (k < |g| ==> ParseGreeting(g[..k]) == GreetingIncomplete)
      && ParseGreeting(g + more) == GreetingOk([SOCKS5_VERSION, 0x00])
  {
    var g := EncodeGreeting(methods);
    assert (g + more)[2..2 + |methods|] == methods;
  }

  const Greeted := Session(Connect, [], false, [[SOCKS5_VERSION, 0x00]], [])

  /** The chunks after the one that completes the greeting: all the connect parser will ever see. */
  function AfterGreeting(before: nat, chunks: seq<Bytes>, size: nat): seq<Bytes>
    decreases |chunks|
  {
    if chunks == [] then []
    else if before + |chunks[0]| >= size then chunks[1..]
    else AfterGreeting(before + |chunks[0]|, chunks[1..], size)
  }

  /** Some chunk ends exactly where the greeting does. */
  predicate Aligned(before: nat, chunks: seq<Bytes>, size: nat)
    decreases |chunks|
  {
    chunks != [] && (before + |chunks[0]| == size || (before + |chunks[0]| < size && Aligned(before + |chunks[0]|, chunks[1..], size)))
  }

  /**
   * For every way of cutting up a greeting and what follows: the connect phase gets exactly the chunks
   * after the one completing the greeting, and so the whole request iff a chunk ends at the greeting's end.
   */
  lemma {:induction false} GreetingPhase(s: Session, chunks: seq<Bytes>, methods: Bytes, request: Bytes)
    requires |methods| < 256 && 0x00 in methods
    requires s == NewSession.(buf := s.buf) && |s.buf| < |EncodeGreeting(methods)|
    requires s.buf + Concat(chunks) == EncodeGreeting(methods) + request
    ensures var rest := AfterGreeting(|s.buf|, chunks, |EncodeGreeting(methods)|);
      && OnChunks(s, chunks) == OnChunks(Greeted, rest)
      && (Concat(rest) == request <==> Aligned(|s.buf|, chunks, |EncodeGreeting(methods)|))
    decreases |chunks|
  {
    var g := EncodeGreeting(methods);
    assert |s.buf + Concat(chunks)| >= |g|;
    if chunks != [] {
      var buf := s.buf + chunks[0];
      assert buf + Concat(chunks[1..]) == g + request;
      if |buf| < |g| {
        assert buf == g[..|buf|] by { assert buf == (g + request)[..|buf|]; }
        GreetingPrefixes(methods, |buf|, []);
        GreetingPhase(s.(buf := buf), chunks[1..], methods, request);
      } else {
        CompletesGreeting(s, chunks[0], methods, Concat(chunks[1..]), request);
      }
    }
  }

  lemma CompletesGreeting(s: Session, chunk: Bytes, methods: Bytes, rest: Bytes, request: Bytes)
    requires |methods| < 256 && 0x00 in methods && s == NewSession.(buf := s.buf)
    requires s.buf + chunk + rest == EncodeGreeting(methods) + request
    requires |s.buf + chunk| >= |EncodeGreeting(methods)|
    ensures OnChunk(s, chunk) == Greeted
    ensures rest == request <==> |s.buf + chunk| == |EncodeGreeting(methods)|
  {
    var g, buf := EncodeGreeting(methods), s.buf + chunk;
    assert buf == g + buf[|g|..] by { assert buf == (g + request)[..|buf|]; }
    GreetingPrefixes(methods, |g|, buf[|g|..]);
    assert [] + [[SOCKS5_VERSION, 0x00]] == [[SOCKS5_VERSION, 0x00]];
    assert |rest| == |g| + |request| - |buf|;
    assert |buf| == |g| ==> rest == (g + request)[|g|..] == request;
  }

  lemma {:induction false} ConnectPhase(s: Session, chunks: seq<Bytes>, reserved: Byte, a: Address, port: nat, more: Bytes)
    requires AddressOk(a) && port < 0x10000
    requires s == Greeted.(buf := s.buf) && |s.buf| < |EncodeConnect(reserved, a, port)|
    requires s.buf + Concat(chunks) == EncodeConnect(reserved, a, port) + more
    ensures var t := OnChunks(s, chunks);
      && t.phase == Done && !t.destroyed
      && t.writes == [[SOCKS5_VERSION, 0x00], Reply(REP_SUCCESS)] && t.forwards == [(HostOf(a), port)]
    decreases |chunks|
  {
    var r := EncodeConnect(reserved, a, port);
    assert |s.buf + Concat(chunks)| >= |r|;
    if chunks != [] {
      var buf := s.buf + chunks[0];
      assert buf + Concat(chunks[1..]) == r + more;
      if |buf| < |r| {
        assert buf == r[..|buf|] by { assert buf == (r + more)[..|buf|]; }
        ConnectPrefixIncomplete(reserved, a, port, |buf|);
        ConnectPhase(s.(buf := buf), chunks[1..], reserved, a, port, more);
      } else {
        assert buf == r + buf[|r|..] by { assert buf == (r + more)[..|buf|]; }
        ConnectRoundTrip(reserved, a, port, buf[|r|..]);
        StaysPut(OnChunk(s, chunks[0]), chunks[1..]);
      }
    }
  }

  lemma {:induction false} StaysPut(s: Session, chunks: seq<Bytes>)
    requires s.destroyed || s.phase == Done
    ensures OnChunks(s, chunks) == s
    decreases |chunks|
  {
    if chunks != [] {
      StaysPut(s, chunks[1..]);
    }
  }

  /**
   * A client that waits for the greeting's reply: however greeting and request are cut up, the connection
   * writes the same two replies and forwards once, to the encoded host and port.
   */
  lemma WaitingClientIsForwarded(chunks: seq<Bytes>, methods: Bytes, reserved: Byte, a: Address, port: nat, more: Bytes)
    requires |methods| < 256 && 0x00 in methods && AddressOk(a) && port < 0x10000
    requires Concat(chunks) == EncodeGreeting(methods) + (EncodeConnect(reserved, a, port) + more)
    requires Aligned(0, chunks, |EncodeGreeting(methods)|)
    ensures var t := OnChunks(NewSession, chunks);
      && t.phase == Done && !t.destroyed
      && t.writes == [[SOCKS5_VERSION, 0x00], Reply(REP_SUCCESS)] && t.forwards == [(HostOf(a), port)]
  {
    assert [] + Concat(chunks) == Concat(chunks);
    GreetingPhase(NewSession, chunks, methods, EncodeConnect(reserved, a, port) + more);
    var rest := AfterGreeting(0, chunks, |EncodeGreeting(methods)|);
    assert [] + Concat(rest) == Concat(rest);
    ConnectPhase(Greeted, rest, reserved, a, port, more);
  }

  // ----- A client that does not wait -----

  /** What the connect parser sees is a suffix of what follows the greeting. */
  lemma {:induction false} RestIsSuffix(before: Bytes, chunks: seq<Bytes>, g: Bytes, request: Bytes) returns (j: nat)
    requires before + Concat(chunks) == g + request && |before| < |g|
    ensures j <= |request| && Concat(AfterGreeting(|before|, chunks, |g|)) == request[j..]
    decreases |chunks|
  {
    assert |before + Concat(chunks)| >= |g|;
    var buf, tail := before + chunks[0], Concat(chunks[1..]);
    assert buf + tail == g + request;
    if |buf| >= |g| {
      j := |buf| - |g|;
      assert tail == (g + request)[|buf|..] == request[j..];
    } else {
      j := RestIsSuffix(buf, chunks[1..], g, request);
    }
  }

  /** In the connect phase nothing is forwarded but what the whole of the bytes received parses to. */
  lemma {:induction false} ForwardsAreParsed(s: Session, chunks: seq<Bytes>)
    requires s.phase == Connect && !s.destroyed && s.forwards == [] && ParseConnect(s.buf) == ConnectIncomplete
    ensures var t, r := OnChunks(s, chunks), ParseConnect(s.buf + Concat(chunks));
      t.forwards == if r.ConnectOk? then [(r.host, r.port)] else []
    decreases |chunks|
  {
    if chunks == [] {
      assert s.buf + Concat(chunks) == s.buf;
    } else {
      var buf, rest := s.buf + chunks[0], Concat(chunks[1..]);
      assert s.buf + Concat(chunks) == buf + rest;
      var t := OnChunk(s, chunks[0]);
      if ParseConnect(buf) == ConnectIncomplete {
        ForwardsAreParsed(t, chunks[1..]);
      } else {
        ParsersAreStable(buf, rest);
        StaysPut(t, chunks[1..]);
      }
    }
  }

  predicate Numerals(parts: seq<string>) {
    forall i | 0 <= i < |parts| :: parts[i] != "" && AllDigits(parts[i])
  }

  predicate AllDigits(s: string) {
    forall c <- s :: IsDigit(c)
  }

  lemma {:induction false} JoinedNumerals(parts: seq<string>, sep: char)
    requires parts != [] && Numerals(parts)
    ensures var s := Join(parts, sep);
      && (forall c <- s :: IsDigit(c) || c == sep) && |s| >= 2 * |parts| - 1 && (|parts| >= 2 ==> sep in s)
    decreases |parts|
  {
    if |parts| > 1 {
      JoinedNumerals(parts[1..], sep);
    }
  }

  /** The text of an IPv4 address, and that of an IPv6 address: what tells them apart, and from any name. */
  predicate AddressText(s: string, parts: nat, sep: char) {
    && (forall c <- s :: IsDigit(c) || c == sep) && |s| >= 2 * parts - 1 && sep in s
  }

  lemma V4HasText(b: seq<Byte>)
    requires |b| == 4
    ensures AddressText(HostOf(V4(b)), 4, '.')
  {
    var parts := seq(|b|, i requires 0 <= i < |b| => Decimal(b[i]));
    forall i | 0 <= i < |parts|
      ensures parts[i] != "" && AllDigits(parts[i])
    {
      NumeralHasDigits(b[i], 10);
    }
    JoinedNumerals(parts, '.');
  }

  lemma V6HasText(words: seq<nat>)
    requires |words| == 8
    ensures AddressText(HostOf(V6(words)), 8, ':')
  {
    var parts := seq(|words|, i requires 0 <= i < |words| => Numeral(words[i], 16));
    forall i | 0 <= i < |parts|
      ensures parts[i] != "" && AllDigits(parts[i])
    {
      NumeralHasDigits(words[i], 16);
    }
    JoinedNumerals(parts, ':');
  }

  lemma ParsedV4(t: Bytes)
    requires |t| >= 10 && ParseConnect(t).ConnectOk? && t[3] == 0x01
    ensures AddressText(ParseConnect(t).host, 4, '.')
  {
    var b := [t[4], t[5], t[6], t[7]];
    V4HasText(b);
    assert seq(|b|, i requires 0 <= i < |b| => Decimal(b[i])) == [Decimal(t[4]), Decimal(t[5]), Decimal(t[6]), Decimal(t[7])];
  }

  lemma ParsedV6(t: Bytes)
    requires |t| >= 22 && ParseConnect(t).ConnectOk? && t[3] == 0x04
    ensures AddressText(ParseConnect(t).host, 8, ':')
  {
    V6Reads(t);
    V6TextIsAddress(t);
  }

  lemma V6TextIsAddress(t: Bytes)
    requires |t| >= 20
    ensures AddressText(V6Text(t), 8, ':')
  {
    var words: seq<nat> := seq(8, i requires 0 <= i < 8 => Word(t, 4 + 2 * i));
    V6Groups(t, words);
    V6HasText(words);
  }

  lemma ParsedKinds(t: Bytes)
    requires ParseConnect(t).ConnectOk?
    ensures |t| >= 7 && t[0] == SOCKS5_VERSION && t[1] == 0x01
    ensures || (|t| >= 10 && t[3] == 0x01) || (|t| >= 22 && t[3] == 0x04)
            || (|t| >= 7 + t[4] as nat && ParseConnect(t).host == Decode(t[5..5 + t[4] as nat]))
  {
  }

  /** What a successful parse says about the host. */
  lemma ParsedHost(t: Bytes)
    requires ParseConnect(t).ConnectOk?
    ensures |t| >= 7 && t[0] == SOCKS5_VERSION && t[1] == 0x01
    ensures var host := ParseConnect(t).host;
      || (|t| >= 10 && AddressText(host, 4, '.'))
      || (|t| >= 22 && AddressText(host, 8, ':'))
      || (|t| >= 7 + t[4] as nat && host == Decode(t[5..5 + t[4] as nat]))
  {
    ParsedKinds(t);
    if |t| >= 10 && t[3] == 0x01 {
      ParsedV4(t);
    } else if |t| >= 22 && t[3] == 0x04 {
      ParsedV6(t);
    }
  }

  /** A strict suffix of a request for an address is too short to name the same host. */
  lemma AddressSuffixDiffers(a: Address, t: Bytes)
    requires AddressOk(a) && !a.Domain? && ParseConnect(t).ConnectOk? && |t| < (if a.V4? then 10 else 22)
    ensures ParseConnect(t).host != HostOf(a)
  {
    ParsedHost(t);
    if a.V4? {
      V4HasText(a.b);
    } else {
      V6HasText(a.words);
    }
    if |t| >= 7 + t[4] as nat {
      DecodeShortens(t[5..5 + t[4] as nat]);
    }
  }

  lemma {:induction false} CharIsCounted(s: string, c: char)
    ensures CharCount(s, c) > 0 <==> c in s
  {
    if s != "" {
      CharIsCounted(s[1..], c);
      assert s == [s[0]] + s[1..];
    }
  }

  lemma {:induction false} ByteIsCounted(b: Bytes, x: Byte)
    ensures ByteCount(b, x) > 0 <==> x in b
  {
    if b != [] {
      ByteIsCounted(b[1..], x);
      assert b == [b[0]] + b[1..];
    }
  }

  /** The text of an address is not that of a name with a control character. */
  lemma NameWithControl(name: Bytes, x: Byte, s: string, parts: nat, sep: char)
    requires x < 0x20 && x in name && AddressText(s, parts, sep) && sep in {'.', ':'}
    ensures Decode(name) != s
  {
    AsciiIsKept(name, x);
    ByteIsCounted(name, x);
    CharIsCounted(Decode(name), x as char);
  }

  lemma PartCountsLess(name: Bytes, i: nat, j: nat, k: nat)
    requires i < j <= k <= |name|
    ensures ByteCount(name[j..k], name[i]) < ByteCount(name, name[i])
  {
    var x, left, right := name[i], name[..j], name[j..];
    assert left + right == name && right[..k - j] + right[k - j..] == right && right[..k - j] == name[j..k];
    ByteCountConcat(left, right, x);
    ByteCountConcat(right[..k - j], right[k - j..], x);
    assert left[i] == x;
    ByteIsCounted(left, x);
  }

  /** A part of a name that leaves out one of its ASCII bytes reads differently. */
  lemma PartReadsDifferently(name: Bytes, i: nat, j: nat, k: nat, part: Bytes)
    requires i < j <= k <= |name| && name[i] < 0x80 && part == name[j..k]
    ensures Decode(part) != Decode(name)
  {
    PartCountsLess(name, i, j, k);
    AsciiIsKept(name, name[i]);
    AsciiIsKept(part, name[i]);
  }

  /** `t` is what is left of a request for a name without its first `j` bytes. */
  predicate LeftOf(name: Bytes, port: nat, j: nat, t: Bytes)
    requires |name| < 256
  {
    && |t| == 7 + |name| - j
    && (j == 1 ==> t[0] == 0x01) && (j == 2 ==> t[1] == 0x03) && (j == 3 ==> t[0] == 0x03)
    && (j == 4 ==> t == [|name|] + (name + WordBytes(port)))
    && (5 <= j <= 5 + |name| ==> t == name[j - 5..] + WordBytes(port))
  }

  lemma RequestSuffix(reserved: Byte, name: Bytes, port: nat, j: nat)
    requires |name| < 256 && 0 < j <= 7 + |name|
    ensures LeftOf(name, port, j, EncodeConnect(reserved, Domain(name), port)[j..])
  {
    var head: Bytes := [SOCKS5_VERSION, 0x01, reserved, 0x03];
    var body := name + WordBytes(port);
    var tail := [|name|] + body;
    assert EncodeConnect(reserved, Domain(name), port) == head + tail;
    DropHead(head, tail, j);
    if j > 4 {
      DropHead([|name|], body, j - 4);
      DropTail(name, WordBytes(port), j - 5);
    }
  }

  lemma DropHead(head: Bytes, tail: Bytes, j: nat)
    requires j <= |head| + |tail|
    ensures |(head + tail)[j..]| == |head| + |tail| - j
    ensures j >= |head| ==> (head + tail)[j..] == tail[j - |head|..]
    ensures j < |head| ==> (head + tail)[j..][0] == head[j]
    ensures j + 1 < |head| ==> (head + tail)[j..][1] == head[j + 1]
  {
  }

  lemma DropTail(a: Bytes, b: Bytes, j: nat)
    ensures j <= |a| ==> (a + b)[j..] == a[j..] + b
  {
  }

  /** Neither is a strict suffix of a request for a name. */
  lemma NameSuffixDiffers(name: Bytes, port: nat, j: nat, t: Bytes)
    requires |name| < 256 && port < 0x10000 && 0 < j && LeftOf(name, port, j, t) && ParseConnect(t).ConnectOk?
    ensures ParseConnect(t).host != Decode(name)
  {
    ParsedKinds(t);
    if j >= 5 {
      LaterSuffixDiffers(name, t, port, j - 5);
    } else {
      LengthSuffixDiffers(name, t, port);
    }
  }

  /** The name in a suffix that begins within a name is a part of that name. */
  lemma PartOfName(name: Bytes, t: Bytes, port: nat, i: nat, len: nat)
    requires i <= |name| && t == name[i..] + WordBytes(port) && 7 + len <= |t|
    ensures i + 5 + len <= |name| && t[0] == name[i] && t[5..5 + len] == name[i + 5..i + 5 + len]
  {
  }

  lemma LaterSuffixDiffers(name: Bytes, t: Bytes, port: nat, i: nat)
    requires i <= |name| && t == name[i..] + WordBytes(port) && ParseConnect(t).ConnectOk?
    ensures ParseConnect(t).host != Decode(name)
  {
    ParsedHost(t);
    PartOfName(name, t, port, i, 0);
    PartDiffers(name, t, port, i, ParseConnect(t).host);
  }

  lemma PartDiffers(name: Bytes, t: Bytes, port: nat, i: nat, host: string)
    requires i < |name| && name[i] == SOCKS5_VERSION && |t| >= 7 && t == name[i..] + WordBytes(port)
    requires || AddressText(host, 4, '.') || AddressText(host, 8, ':')
             || (|t| >= 7 + t[4] as nat && host == Decode(t[5..5 + t[4] as nat]))
    ensures host != Decode(name)
  {
    if AddressText(host, 4, '.') {
      NameWithControl(name, SOCKS5_VERSION, host, 4, '.');
    } else if AddressText(host, 8, ':') {
      NameWithControl(name, SOCKS5_VERSION, host, 8, ':');
    } else {
      NamePartDiffers(name, t, port, i, t[4] as nat);
    }
  }

  lemma NamePartDiffers(name: Bytes, t: Bytes, port: nat, i: nat, len: nat)
    requires i < |name| && name[i] < 0x80 && t == name[i..] + WordBytes(port) && 7 + len <= |t|
    ensures Decode(t[5..5 + len]) != Decode(name)
  {
    PartOfName(name, t, port, i, len);
    PartReadsDifferently(name, i, i + 5, i + 5 + len, t[5..5 + len]);
  }

  lemma LengthSuffix(name: Bytes, t: Bytes, port: nat, len: nat)
    requires |name| == 5 && t == [5] + (name + WordBytes(port)) && 7 + len <= |t|
    ensures 4 + len <= |name| && t[5..5 + len] == name[4..4 + len] && name[0] == t[1]
  {
  }

  /** The suffix that begins at a name length of five. */
  lemma LengthSuffixDiffers(name: Bytes, t: Bytes, port: nat)
    requires |name| < 256 && t == [|name|] + (name + WordBytes(port)) && ParseConnect(t).ConnectOk?
    ensures ParseConnect(t).host != Decode(name)
  {
    ParsedHost(t);
    assert t[0] == |name| && |t| == |name| + 3;
    var len := t[4] as nat;
    LengthSuffix(name, t, port, len);
    PartReadsDifferently(name, 0, 4, 4 + len, t[5..5 + len]);
  }

  lemma SuffixDiffers(reserved: Byte, a: Address, port: nat, j: nat)
    requires AddressOk(a) && port < 0x10000 && 0 < j <= |EncodeConnect(reserved, a, port)|
    ensures var t := EncodeConnect(reserved, a, port)[j..];
      ParseConnect(t).ConnectOk? ==> ParseConnect(t).host != HostOf(a)
  {
    var t := EncodeConnect(reserved, a, port)[j..];
    if ParseConnect(t).ConnectOk? {
      match a {
        case Domain(name) =>
          RequestSuffix(reserved, name, port, j);
          NameSuffixDiffers(name, port, j, t);
        case V6(words) =>
          WordsLength(words);
          AddressSuffixDiffers(a, t);
        case V4(_) => AddressSuffixDiffers(a, t);
      }
    }
  }

  /**
   * However greeting and request are cut up, the client is forwarded, once, to its host and port exactly
   * if some chunk ends where the greeting does: if it waits for the first reply, or is as good as that.
   */
  lemma ForwardedIffAligned(chunks: seq<Bytes>, methods: Bytes, reserved: Byte, a: Address, port: nat)
    requires |methods| < 256 && 0x00 in methods && AddressOk(a) && port < 0x10000
    requires Concat(chunks) == EncodeGreeting(methods) + EncodeConnect(reserved, a, port)
    ensures OnChunks(NewSession, chunks).forwards == [(HostOf(a), port)] <==> Aligned(0, chunks, |EncodeGreeting(methods)|)
  {
    var g, request := EncodeGreeting(methods), EncodeConnect(reserved, a, port);
    if Aligned(0, chunks, |g|) {
      assert request + [] == request;
      WaitingClientIsForwarded(chunks, methods, reserved, a, port, []);
    } else {
      assert [] + Concat(chunks) == Concat(chunks);
      GreetingPhase(NewSession, chunks, methods, request);
      var j := RestIsSuffix([], chunks, g, request);
      var rest := AfterGreeting(0, chunks, |g|);
      assert j > 0 by { assert request[0..] == request; }
      assert [] + Concat(rest) == Concat(rest);
      ForwardsAreParsed(Greeted, rest);
      SuffixDiffers(reserved, a, port, j);
    }
  }

  /** A client that sends both in one chunk is never answered: the request is discarded with the greeting. */
  lemma PipelinedRequestIsLost(methods: Bytes, request: Bytes)
    requires |methods| < 256 && 0x00 in methods
    ensures OnChunks(NewSession, [EncodeGreeting(methods) + request]) == Greeted
  {
    var chunks := [EncodeGreeting(methods) + request];
    assert Concat([]) == [] && chunks[1..] == [];
    assert [] + Concat(chunks) == EncodeGreeting(methods) + request;
    GreetingPhase(NewSession, chunks, methods, request);
    assert OnChunks(Greeted, []) == Greeted;
  }
}
