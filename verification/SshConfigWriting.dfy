/** Writing hosts as an ssh_config file: what the parser makes of the file is the hosts. */
module SshConfigWriting {
  import opened Wrappers
  import opened Text
  import opened Sorting
  import opened SshConfig

  // ----- Whole blocks compose -----

  lemma {:induction false} BlockAfterConcat(a: seq<Line>, b: seq<Line>)
    requires b != [] && b[0].keyword == "host"
    ensures BlockAfter(a + b) == BlockAfter(b)
    decreases |b|
  {
    var n := |b| - 1;
    assert (a + b)[|a| + n] == b[n] && (a + b)[..|a| + n] == a + b[..n];
    if n > 0 {
      BlockAfterConcat(a, b[..n]);
    }
  }

  /** A file of whole blocks put after another: each value is the first file's, or else the second's. */
  lemma {:induction false} WholeBlocksCompose(a: seq<Line>, b: seq<Line>, alias: string, keyword: string)
    requires b != [] ==> b[0].keyword == "host"
    requires keyword in KNOWN_KEYWORDS
    ensures FlatLookup(a + b, alias, keyword) == Or(FlatLookup(a, alias, keyword), FlatLookup(b, alias, keyword))
    decreases |b|
  {
    if b == [] {
      assert a + b == a;
    } else {
      var n := |b| - 1;
      WholeBlocksCompose(a, b[..n], alias, keyword);
      assert (a + b)[|a| + n] == b[n] && (a + b)[..|a| + n] == a + b[..n];
      if n > 0 {
        BlockAfterConcat(a, b[..n]);
      }
    }
  }

  lemma {:induction false} AliasesConcat(a: seq<Line>, b: seq<Line>)
    ensures AllAliases(a + b) == AllAliases(a) + AllAliases(b)
    decreases |b|
  {
    if b == [] {
      assert a + b == a;
    } else {
      var n := |b| - 1;
      AliasesConcat(a, b[..n]);
      assert a + b[..n] + [b[n]] == a + b && b[..n] + [b[n]] == b;
      AliasesMore(a, b[..n], b[n]);
    }
  }

  lemma AliasesMore(a: seq<Line>, b: seq<Line>, l: Line)
    requires AllAliases(a + b) == AllAliases(a) + AllAliases(b)
    ensures AllAliases(a + b + [l]) == AllAliases(a) + AllAliases(b + [l])
  {
    AliasesStep(a + b, l);
    AliasesStep(b, l);
  }

  lemma AliasesStep(lines: seq<Line>, l: Line)
    ensures AllAliases(lines + [l]) == AllAliases(lines) + (if l.keyword == "host" then ConcreteAliases(l.args) else [])
  {
    assert (lines + [l])[..|lines|] == lines;
  }

  // ----- One block -----

  type Setting = (string, string)

  function Section(alias: string, settings: seq<Setting>): seq<Line> {
    [Line("host", [alias])] + seq(|settings|, i requires 0 <= i < |settings| => Line(settings[i].0, [settings[i].1]))
  }

  /** The first value set for a keyword. */
  function ValueOf(settings: seq<Setting>, keyword: string): Option<string> {
    if settings == [] then None
    else
      var n := |settings| - 1;
      Or(ValueOf(settings[..n], keyword), if settings[n].0 == keyword then Some(settings[n].1) else None)
  }

  lemma {:induction false} ValueOfConcat(a: seq<Setting>, b: seq<Setting>, keyword: string)
    ensures ValueOf(a + b, keyword) == Or(ValueOf(a, keyword), ValueOf(b, keyword))
    decreases |b|
  {
    if b == [] {
      assert a + b == a;
    } else {
      var n := |b| - 1;
      ValueOfConcat(a, b[..n], keyword);
      assert (a + b)[|a| + n] == b[n] && (a + b)[..|a| + n] == a + b[..n];
    }
  }

  predicate SettingsOk(settings: seq<Setting>) {
    forall s <- settings :: s.0 in KNOWN_KEYWORDS && s.1 != ""
  }

  predicate Concrete(alias: string) {
    alias != "" && !IsPatternAlias(alias)
  }

  lemma LiteralBlock(pattern: string, alias: string)
    requires Concrete(pattern)
    ensures NonEmpty([pattern]) == [pattern] && ConcreteAliases([pattern]) == [pattern]
    ensures BlockMatches([pattern], alias) <==> pattern == alias
  {
    assert [pattern][1..] == [];
    assert pattern in [pattern];
  }

  lemma {:induction false} SectionReads(alias: string, settings: seq<Setting>, a: string, keyword: string)
    requires Concrete(alias) && SettingsOk(settings) && keyword in KNOWN_KEYWORDS
    ensures var lines := Section(alias, settings);
      && BlockAfter(lines) == Some([alias]) && AllAliases(lines) == [alias]
      && FlatLookup(lines, a, keyword) == if a == alias then ValueOf(settings, keyword) else None
    decreases |settings|
  {
    var lines := Section(alias, settings);
    if settings == [] {
      assert lines == [Line("host", [alias])];
      HostLineReads(alias, a, keyword);
    } else {
      var n := |settings| - 1;
      assert settings[n] in settings;
      SectionReads(alias, settings[..n], a, keyword);
      var l := Line(settings[n].0, [settings[n].1]);
      assert lines == Section(alias, settings[..n]) + [l];
      SettingReads(Section(alias, settings[..n]), alias, l, a, keyword);
    }
  }

  lemma HostLineReads(alias: string, a: string, keyword: string)
    requires Concrete(alias) && keyword in KNOWN_KEYWORDS
    ensures var lines := [Line("host", [alias])];
      BlockAfter(lines) == Some([alias]) && AllAliases(lines) == [alias] && FlatLookup(lines, a, keyword) == None
  {
    var lines := [Line("host", [alias])];
    LiteralBlock(alias, a);
    assert lines[..0] == [] && [] + [alias] == [alias];
  }

  lemma SettingReads(lines: seq<Line>, alias: string, l: Line, a: string, keyword: string)
    requires Concrete(alias) && l.keyword in KNOWN_KEYWORDS && |l.args| == 1 && l.args[0] != ""
    requires BlockAfter(lines) == Some([alias])
    ensures var more := lines + [l];
      && BlockAfter(more) == Some([alias]) && AllAliases(more) == AllAliases(lines)
      && FlatLookup(more, a, keyword)
           == Or(FlatLookup(lines, a, keyword), if a == alias && l.keyword == keyword then Some(l.args[0]) else None)
  {
    assert (lines + [l])[..|lines|] == lines;
    LiteralBlock(alias, a);
  }

  // ----- Several blocks -----

  datatype Entry = Entry(alias: string, settings: seq<Setting>)

  predicate EntryOk(e: Entry) {
    Concrete(e.alias) && SettingsOk(e.settings)
  }

  function AliasesOf(es: seq<Entry>): seq<string> {
    seq(|es|, i requires 0 <= i < |es| => es[i].alias)
  }

  function Written(es: seq<Entry>): seq<Line> {
    if es == [] then [] else var n := |es| - 1; Written(es[..n]) + Section(es[n].alias, es[n].settings)
  }

  lemma OneMoreEntry(es: seq<Entry>, alias: string, keyword: string)
    requires es != [] && EntryOk(es[|es| - 1]) && keyword in KNOWN_KEYWORDS
    ensures var n := |es| - 1;
      FlatLookup(Written(es), alias, keyword) == Or(FlatLookup(Written(es[..n]), alias, keyword),
           if alias == es[n].alias then ValueOf(es[n].settings, keyword) else None)
  {
    var n := |es| - 1;
    SectionReads(es[n].alias, es[n].settings, alias, keyword);
    WholeBlocksCompose(Written(es[..n]), Section(es[n].alias, es[n].settings), alias, keyword);
  }

  /** The first value among the entries for an alias. */
  function EntryValue(es: seq<Entry>, alias: string, keyword: string): Option<string> {
    if es == [] then None
    else
      var n := |es| - 1;
      Or(EntryValue(es[..n], alias, keyword), if alias == es[n].alias then ValueOf(es[n].settings, keyword) else None)
  }

  lemma {:induction false} WrittenReads(es: seq<Entry>, alias: string, keyword: string)
    requires (forall e <- es :: EntryOk(e)) && keyword in KNOWN_KEYWORDS
    ensures FlatLookup(Written(es), alias, keyword) == EntryValue(es, alias, keyword)
  {
    if es != [] {
      assert es[|es| - 1] in es;
      OneMoreEntry(es, alias, keyword);
      WrittenReads(es[..|es| - 1], alias, keyword);
    }
  }

  lemma {:induction false} OnlyEntry(es: seq<Entry>, i: nat, alias: string, keyword: string)
    requires i < |es| && alias == es[i].alias
    requires forall j | 0 <= j < |es| && j != i :: es[j].alias != alias
    ensures EntryValue(es, alias, keyword) == ValueOf(es[i].settings, keyword)
    decreases |es|
  {
    var n := |es| - 1;
    if i < n {
      OnlyEntry(es[..n], i, alias, keyword);
    } else {
      NoEntry(es[..n], alias, keyword);
    }
  }

  lemma {:induction false} NoEntry(es: seq<Entry>, alias: string, keyword: string)
    requires forall j | 0 <= j < |es| :: es[j].alias != alias
    ensures EntryValue(es, alias, keyword).None?
  {
    if es != [] {
      NoEntry(es[..|es| - 1], alias, keyword);
    }
  }

  lemma {:induction false} WrittenAliases(es: seq<Entry>)
    requires forall e <- es :: EntryOk(e)
    ensures AllAliases(Written(es)) == AliasesOf(es)
  {
    if es != [] {
      var n := |es| - 1;
      assert es[n] in es;
      OneMoreAlias(es);
      WrittenAliases(es[..n]);
      assert AliasesOf(es) == AliasesOf(es[..n]) + [es[n].alias];
    }
  }

  lemma OneMoreAlias(es: seq<Entry>)
    requires es != [] && EntryOk(es[|es| - 1])
    ensures var n := |es| - 1; AllAliases(Written(es)) == AllAliases(Written(es[..n])) + [es[n].alias]
  {
    var n := |es| - 1;
    SectionReads(es[n].alias, es[n].settings, "", "port");
    AliasesConcat(Written(es[..n]), Section(es[n].alias, es[n].settings));
  }

  lemma {:induction false} FirstSeenOfDistinct(s: seq<string>)
    requires Distinct(s)
    ensures FirstSeen(s) == s
  {
    if s != [] {
      var n := |s| - 1;
      FirstSeenOfDistinct(s[..n]);
      FirstSeenOrder(s[..n], s[n]);
      assert s == s[..n] + [s[n]];
    }
  }

  // ----- Hosts -----

  function Optional(keyword: string, value: Option<string>): seq<Setting> {
    if value.Some? then [(keyword, value.value)] else []
  }

  function SettingsOf(h: Host): seq<Setting> {
    Optional("hostname", Some(h.hostname)) + (Optional("port", Some(Decimal(h.port))) + (Optional("user", h.username)
      + (Optional("identityfile", h.identityFile) + Optional("proxyjump", h.proxyJump))))
  }

  /** What one `Host` block can say. */
  predicate Writable(h: Host) {
    && Concrete(h.alias) && h.hostname != "" && 1 <= h.port <= 65535
    && h.username != Some("") && h.identityFile != Some("") && h.proxyJump != Some("")
  }

  function EntriesOf(hosts: seq<Host>): seq<Entry> {
    seq(|hosts|, i requires 0 <= i < |hosts| => Entry(hosts[i].alias, SettingsOf(hosts[i])))
  }

  /** A decimal port is read back exactly if it is a port; every other number is the default. */
  lemma PortReads(n: nat)
    ensures ParsePort(Decimal(n)) == if 1 <= n <= 65535 then n else 22
  {
    DecimalIsDecimal(n);
    NumeralDenotes(n, 10);
  }

  lemma {:induction false} DecimalIsDecimal(n: nat)
    ensures forall c <- Decimal(n) :: '0' <= c <= '9'
  {
    if n >= 10 {
      DecimalIsDecimal(Quotient(n, 10));
      assert Decimal(n) == Decimal(Quotient(n, 10)) + [DigitChar(Remainder(n, 10))];
    }
  }

  lemma OneValue(keyword: string, value: Option<string>, k: string)
    ensures ValueOf(Optional(keyword, value), k) == if k == keyword then value else None
  {
    if value.Some? {
      assert Optional(keyword, value)[..0] == [];
    }
  }

  lemma FirstSetting(keyword: string, value: Option<string>, rest: seq<Setting>, k: string)
    ensures ValueOf(Optional(keyword, value) + rest, k) == Or(if k == keyword then value else None, ValueOf(rest, k))
  {
    OneValue(keyword, value, k);
    ValueOfConcat(Optional(keyword, value), rest, k);
  }

  lemma SettingsRead(h: Host, k: string)
    ensures ValueOf(SettingsOf(h), k) ==
      if k == "hostname" then Some(h.hostname) else if k == "port" then Some(Decimal(h.port))
      else if k == "user" then h.username else if k == "identityfile" then h.identityFile
      else if k == "proxyjump" then h.proxyJump else None
  {
    var proxy := Optional("proxyjump", h.proxyJump);
    var identity := Optional("identityfile", h.identityFile) + proxy;
    var user := Optional("user", h.username) + identity;
    var port := Optional("port", Some(Decimal(h.port))) + user;
    OneValue("proxyjump", h.proxyJump, k);
    FirstSetting("identityfile", h.identityFile, proxy, k);
    FirstSetting("user", h.username, identity, k);
    FirstSetting("port", Some(Decimal(h.port)), user, k);
    FirstSetting("hostname", Some(h.hostname), port, k);
  }

  lemma WritableEntry(h: Host)
    requires Writable(h)
    ensures EntryOk(Entry(h.alias, SettingsOf(h)))
  {
  }

  lemma WritableEntries(hosts: seq<Host>)
    requires forall h <- hosts :: Writable(h)
    ensures forall e <- EntriesOf(hosts) :: EntryOk(e)
  {
    forall i | 0 <= i < |hosts|
      ensures EntryOk(EntriesOf(hosts)[i])
    {
      assert hosts[i] in hosts;
      WritableEntry(hosts[i]);
    }
  }

  /** Any hosts with distinct concrete aliases, written one block each, are resolved to themselves, in order. */
  lemma HostsReadBack(hosts: seq<Host>)
    requires (forall h <- hosts :: Writable(h)) && Distinct(AliasesOf(EntriesOf(hosts)))
    ensures var lines := Written(EntriesOf(hosts)); FlatHosts(lines, FirstSeen(AllAliases(lines))) == hosts
  {
    var es := EntriesOf(hosts);
    var lines := Written(es);
    WritableEntries(hosts);
    WrittenAliases(es);
    FirstSeenOfDistinct(AliasesOf(es));
    forall i | 0 <= i < |hosts|
      ensures FlatHost(lines, AliasesOf(es)[i]) == hosts[i]
    {
      assert hosts[i] in hosts;
      OwnSettings(es, i);
      HostReadsBack(lines, hosts[i]);
    }
  }

  lemma OwnSettings(es: seq<Entry>, i: nat)
    requires (forall e <- es :: EntryOk(e)) && Distinct(AliasesOf(es)) && i < |es|
    ensures forall k | k in KNOWN_KEYWORDS :: FlatLookup(Written(es), es[i].alias, k) == ValueOf(es[i].settings, k)
  {
    assert forall j | 0 <= j < |es| :: AliasesOf(es)[j] == es[j].alias;
    forall k | k in KNOWN_KEYWORDS
      ensures FlatLookup(Written(es), es[i].alias, k) == ValueOf(es[i].settings, k)
    {
      WrittenReads(es, es[i].alias, k);
      OnlyEntry(es, i, es[i].alias, k);
    }
  }

  lemma HostReadsBack(lines: seq<Line>, h: Host)
    requires Writable(h) && forall k | k in KNOWN_KEYWORDS :: FlatLookup(lines, h.alias, k) == ValueOf(SettingsOf(h), k)
    ensures FlatHost(lines, h.alias) == h
  {
    SettingsRead(h, "hostname");
    SettingsRead(h, "port");
    SettingsRead(h, "user");
    SettingsRead(h, "identityfile");
    SettingsRead(h, "proxyjump");
    PortReads(h.port);
  }

  // ----- The file's text -----

  predicate LineOk(l: Line) {
    && l.keyword in KNOWN_KEYWORDS + {"host"}
    && |l.args| == 1 && '"' !in l.args[0] && '\n' !in l.args[0]
  }

  function Printed(l: Line): string {
    l.keyword + ("" + QuoteAll(l.args))
  }

  function TextOf(lines: seq<Line>): string
    requires lines != []
  {
    if |lines| == 1 then Printed(lines[0]) else TextOf(lines[..|lines| - 1]) + ['\n'] + Printed(lines[|lines| - 1])
  }

  lemma KeywordsArePlain(k: string)
    requires k in KNOWN_KEYWORDS + {"host"}
    ensures k != "" && k[0] != '#' && Lower(k) == k && forall c <- k :: c != '=' && !IsSpace(c)
  {
    assert k in {"host", "hostname", "port"} || k in {"user", "identityfile", "proxyjump"};
  }

  lemma PrintedReads(l: Line)
    requires LineOk(l)
    ensures LinesOf(Printed(l)) == [l]
  {
    var s := Printed(l);
    KeywordsArePlain(l.keyword);
    assert l.args == [l.args[0]];
    LineReads(l.keyword, l.args, "");
    PrintedIsOneLine(l);
    SplitOne(s, '\n');
    assert RawLines(s) == [s];
    assert Parsed([s]) == [Some(l)] && [Some(l)][..0] == [];
    assert Present([Some(l)]) == [] + [l];
  }

  lemma PrintedIsOneLine(l: Line)
    requires LineOk(l)
    ensures '\n' !in Printed(l)
  {
    KeywordsArePlain(l.keyword);
    assert l.args == [l.args[0]] && l.args[1..] == [];
    assert QuoteAll(l.args) == " \"" + (l.args[0] + ("\"" + ""));
  }

  lemma {:induction false} TextReads(lines: seq<Line>)
    requires lines != [] && forall l <- lines :: LineOk(l)
    ensures LinesOf(TextOf(lines)) == lines
  {
    var n := |lines| - 1;
    assert lines[n] in lines;
    PrintedReads(lines[n]);
    assert lines == lines[..n] + [lines[n]];
    if n > 0 {
      TextReads(lines[..n]);
      LinesConcat(TextOf(lines[..n]), Printed(lines[n]));
    }
  }

  /** No quote or line feed in anything that is written. */
  predicate PrintableEntry(e: Entry) {
    && '"' !in e.alias && '\n' !in e.alias
    && forall s <- e.settings :: '"' !in s.1 && '\n' !in s.1
  }

  lemma SectionPrints(e: Entry)
    requires EntryOk(e) && PrintableEntry(e)
    ensures forall l <- Section(e.alias, e.settings) :: LineOk(l)
  {
    forall i | 0 <= i < |e.settings|
      ensures LineOk(Line(e.settings[i].0, [e.settings[i].1]))
    {
      assert e.settings[i] in e.settings;
    }
  }

  lemma {:induction false} WrittenPrints(es: seq<Entry>)
    requires forall e <- es :: EntryOk(e) && PrintableEntry(e)
    ensures forall l <- Written(es) :: LineOk(l)
  {
    if es != [] {
      assert es[|es| - 1] in es;
      SectionPrints(es[|es| - 1]);
      WrittenPrints(es[..|es| - 1]);
    }
  }

  /** So the parser, given the text of such a file, returns exactly the hosts it was written from. */
  lemma WrittenFileReadsBack(hosts: seq<Host>)
    requires hosts != [] && (forall h <- hosts :: Writable(h)) && (forall e <- EntriesOf(hosts) :: PrintableEntry(e))
    requires Distinct(AliasesOf(EntriesOf(hosts)))
    ensures Written(EntriesOf(hosts)) != []
    ensures var lines := LinesOf(TextOf(Written(EntriesOf(hosts)))); FlatHosts(lines, FirstSeen(AllAliases(lines))) == hosts
  {
    WritableEntries(hosts);
    WrittenPrints(EntriesOf(hosts));
    TextReads(Written(EntriesOf(hosts)));
    HostsReadBack(hosts);
  }
}
