/** The OpenSSH client config parser: lines and tokens, host patterns, and first-obtained-wins resolution. */
module SshConfig {
  import opened Wrappers
  import opened Text
  import opened Unicode
  import opened Sorting

  // ----- Lines and tokens -----

  /** Lower case for ASCII letters; no other letter is lowered to one of the keywords' letters. */
  function Lower(s: string): string {
    seq(|s|, i requires 0 <= i < |s| => if 'A' <= s[i] <= 'Z' then s[i] - 'A' + 'a' else s[i])
  }

  datatype Line = Line(keyword: string, args: seq<string>)

  /** `acc` and the text up to the closing quote, and what follows the quote. */
  function Quoted(acc: string, s: string): (r: (string, string))
    ensures |r.1| <= |s|
    decreases |s|
  {
    if s == "" then (acc, "")
    else if s[0] == '"' then (acc, s[1..])
    else Quoted(acc + [s[0]], s[1..])
  }

  /** `acc` and the rest of one token, quotes removed, and what follows it. */
  function Token(acc: string, s: string): (r: (string, string))
    ensures |r.1| <= |s|
    ensures s != "" && !IsSpace(s[0]) ==> |r.1| < |s|
    decreases |s|
  {
    if s == "" || IsSpace(s[0]) then (acc, s)
    else if s[0] == '"' then var (q, rest) := Quoted(acc, s[1..]); Token(q, rest)
    else Token(acc + [s[0]], s[1..])
  }

  function Tokens(s: string): seq<string>
    decreases |s|
  {
    var t := TrimLeft(s);
    if t == "" then [] else [Token("", t).0] + Tokens(Token("", t).1)
  }

  /** The loop that skips white space from `i`. */
  method SkipSpaces(s: string, i: nat) returns (j: nat)
    requires i <= |s|
    ensures i <= j <= |s| && s[j..] == TrimLeft(s[i..])
  {
    j := i;
    while j < |s| && IsSpace(s[j])
      invariant i <= j <= |s| && TrimLeft(s[j..]) == TrimLeft(s[i..])
    {
      assert s[j..][1..] == s[j + 1..];
      j := j + 1;
    }
    assert TrimLeft(s[j..]) == s[j..];
  }

  method Tokenize(input: string) returns (tokens: seq<string>)
    ensures tokens == Tokens(input)
  {
    tokens := [];
    var i := 0;
    while i < |input|
      invariant 0 <= i <= |input|
      invariant tokens + Tokens(input[i..]) == Tokens(input)
      decreases |input| - i
    {
      ghost var from := input[i..];
      i := SkipSpaces(input, i);
      if i >= |input| {
        break;
      }
      ghost var start := i;
      var token: string;
      token, i := NextToken(input, i);
      assert Tokens(from) == [token] + Tokens(input[i..]);
      assert tokens + [token] + Tokens(input[i..]) == tokens + Tokens(from);
      tokens := tokens + [token];
    }
    assert input[|input|..] == "";
  }

  /** The loop inside double quotes, from just after the opening one. */
  method ReadQuoted(input: string, open: nat, before: string) returns (token: string, i: nat)
    requires open <= |input|
    ensures open <= i <= |input| && Quoted(before, input[open..]) == (token, input[i..])
  {
    token, i := before, open;
    while i < |input| && input[i] != '"'
      invariant open <= i <= |input| && Quoted(token, input[i..]) == Quoted(before, input[open..])
    {
      assert input[i..][1..] == input[i + 1..];
      token := token + [input[i]];
      i := i + 1;
    }
    if i < |input| {
      assert input[i..][1..] == input[i + 1..];
      i := i + 1;
    }
  }

  method NextToken(input: string, start: nat) returns (token: string, i: nat)
    requires start < |input| && !IsSpace(input[start])
    ensures start < i <= |input| && Token("", input[start..]) == (token, input[i..])
  {
    token, i := "", start;
    while i < |input| && !IsSpace(input[i])
      invariant start <= i <= |input| && Token(token, input[i..]) == Token("", input[start..])
      decreases |input| - i
    {
      assert input[i..][1..] == input[i + 1..];
      if input[i] == '"' {
        token, i := ReadQuoted(input, i + 1, token);
      } else {
        token := token + [input[i]];
        i := i + 1;
      }
    }
  }

  /** The length of the keyword a line starts with. */
  function KeywordLength(line: string): (n: nat)
    ensures n <= |line|
  {
    if line == "" || line[0] == '=' || IsSpace(line[0]) then 0 else 1 + KeywordLength(line[1..])
  }

  /** White space, at most one `=`, white space. */
  function SkipSeparator(s: string): string {
    var t := TrimLeft(s);
    if t != "" && t[0] == '=' then TrimLeft(t[1..]) else t
  }

  function ParseConfigLine(rawLine: string): Option<Line> {
    var line := Trim(rawLine);
    if line == "" || line[0] == '#' then None
    else
      var n := KeywordLength(line);
      if n == 0 then None else Some(Line(Lower(line[..n]), Tokens(SkipSeparator(line[n..]))))
  }

  method ParseLine(rawLine: string) returns (r: Option<Line>)
    ensures r == ParseConfigLine(rawLine)
  {
    var line := Trim(rawLine);
    if line == "" || line[0] == '#' {
      return None;
    }
    var i := 0;
    while i < |line| && line[i] != '=' && !IsSpace(line[i])
      invariant 0 <= i <= |line| && i + KeywordLength(line[i..]) == KeywordLength(line)
    {
      assert line[i..][1..] == line[i + 1..];
      i := i + 1;
    }
    var keyword := Lower(line[..i]);
    if keyword == "" {
      return None;
    }
    i := SkipToArguments(line, i);
    var args := Tokenize(line[i..]);
    return Some(Line(keyword, args));
  }

  method SkipToArguments(line: string, start: nat) returns (i: nat)
    requires start <= |line|
    ensures start <= i <= |line| && line[i..] == SkipSeparator(line[start..])
  {
    i := SkipSpaces(line, start);
    if i < |line| && line[i] == '=' {
      assert line[i..][1..] == line[i + 1..];
      i := SkipSpaces(line, i + 1);
    }
  }

  function QuoteOne(a: string, rest: string): string {
    " \"" + (a + ("\"" + rest))
  }

  /** Arguments written in double quotes, one space before each. */
  function QuoteAll(args: seq<string>): string {
    if args == [] then "" else QuoteOne(args[0], QuoteAll(args[1..]))
  }

  lemma {:induction false} QuotedReads(acc: string, a: string, rest: string)
    requires '"' !in a
    ensures Quoted(acc, a + ("\"" + rest)) == (acc + a, rest)
    decreases |a|
  {
    var s := a + ("\"" + rest);
    if a == "" {
      assert s[1..] == rest && acc + a == acc;
    } else {
      QuotedReads(acc + [a[0]], a[1..], rest);
      assert s[1..] == a[1..] + ("\"" + rest);
      assert acc + [a[0]] + a[1..] == acc + a;
    }
  }

  lemma QuoteOneReads(a: string, rest: string)
    requires '"' !in a && (rest == "" || IsSpace(rest[0]))
    ensures Tokens(QuoteOne(a, rest)) == [a] + Tokens(rest)
  {
    var s, u := QuoteOne(a, rest), a + ("\"" + rest);
    var t := "\"" + u;
    assert s[0] == ' ' && s[1..] == t && t[1..] == u;
    assert TrimLeft(s) == t;
    QuotedReads("", a, rest);
    assert "" + a == a;
    assert Token("", t) == Token(a, rest) == (a, rest);
  }

  /** The tokenizer undoes quoting: any arguments without a double quote come back, empty and blank ones too. */
  lemma {:induction false} TokensOfQuoted(args: seq<string>)
    requires forall a <- args :: '"' !in a
    ensures Tokens(QuoteAll(args)) == args
    decreases |args|
  {
    if args != [] {
      QuoteOneReads(args[0], QuoteAll(args[1..]));
      TokensOfQuoted(args[1..]);
    }
  }

  lemma {:induction false} KeywordReads(keyword: string, rest: string)
    requires (forall c <- keyword :: c != '=' && !IsSpace(c)) && (rest == "" || rest[0] == '=' || IsSpace(rest[0]))
    ensures KeywordLength(keyword + rest) == |keyword|
  {
    var line := keyword + rest;
    if keyword != "" {
      assert keyword[0] in keyword && forall c <- keyword[1..] :: c in keyword;
      KeywordReads(keyword[1..], rest);
      assert line[1..] == keyword[1..] + rest;
    } else {
      assert line == rest;
    }
  }

  lemma KeywordLineReads(keyword: string, rest: string)
    requires keyword != "" && keyword[0] != '#' && forall c <- keyword :: c != '=' && !IsSpace(c)
    requires rest != "" && (rest[0] == '=' || IsSpace(rest[0])) && !IsSpace(rest[|rest| - 1])
    ensures ParseConfigLine(keyword + rest) == Some(Line(Lower(keyword), Tokens(SkipSeparator(rest))))
  {
    var line := keyword + rest;
    assert line[|line| - 1] == rest[|rest| - 1] && line[0] == keyword[0] && keyword[0] in keyword;
    TrimIdentity(line);
    KeywordReads(keyword, rest);
    assert line[..|keyword|] == keyword && line[|keyword|..] == rest;
  }

  /** `Key value`, `Key=value` and `Key = value` with quoted values all read back, the keyword in lower case. */
  lemma LineReads(keyword: string, args: seq<string>, separator: string)
    requires keyword != "" && keyword[0] != '#' && forall c <- keyword :: c != '=' && !IsSpace(c)
    requires args != [] && forall a <- args :: '"' !in a
    requires separator in {"", "=", " ="}
    ensures ParseConfigLine(keyword + (separator + QuoteAll(args))) == Some(Line(Lower(keyword), args))
  {
    var q := QuoteAll(args);
    QuoteAllEnds(args);
    SeparatorSkipped(q, separator);
    KeywordLineReads(keyword, separator + q);
    TokensOfQuoted(args);
    TokensTrimmed(q);
  }

  lemma TrimIdentity(s: string)
    requires s != "" && !IsSpace(s[0]) && !IsSpace(s[|s| - 1])
    ensures Trim(s) == s
  {
  }

  lemma TokensTrimmed(s: string)
    ensures Tokens(TrimLeft(s)) == Tokens(s)
  {
    assert TrimLeft(TrimLeft(s)) == TrimLeft(s);
  }

  lemma SeparatorSkipped(q: string, separator: string)
    requires separator in {"", "=", " ="} && |q| > 1 && q[0] == ' ' && q[1] == '"'
    ensures SkipSeparator(separator + q) == TrimLeft(q)
    ensures (separator + q)[0] == '=' || IsSpace((separator + q)[0])
  {
    var s := separator + q;
    if separator == "" {
      assert s == q && q[1..] == TrimLeft(q);
    } else if separator == "=" {
      assert s[1..] == q;
    } else {
      assert s[0] == ' ' && s[1..] == "=" + q && ("=" + q)[1..] == q;
      assert TrimLeft(s) == TrimLeft("=" + q) == "=" + q;
    }
  }

  lemma {:induction false} QuoteAllEnds(args: seq<string>)
    requires args != []
    ensures var q := QuoteAll(args); q[0] == ' ' && q[1] == '"' && q[|q| - 1] == '"'
  {
    if |args| > 1 {
      QuoteAllEnds(args[1..]);
    }
  }

  // ----- Host patterns -----

  const STAR: nat := '*' as nat
  const QUESTION: nat := '?' as nat

  predicate IsLineTerminator(u: nat) {
    u == 0x0a || u == 0x0d || u == 0x2028 || u == 0x2029
  }

  /** The anchored matcher that a glob compiles to, on UTF-16 code units: `*` any run, `?` one unit, the rest literal. */
  predicate UnitsMatch(pattern: seq<nat>, s: seq<nat>)
    decreases |pattern| + |s|
  {
    if pattern == [] then s == []
    else if pattern[0] == STAR then
      UnitsMatch(pattern[1..], s)
      || (s != [] && !IsLineTerminator(s[0]) && UnitsMatch(pattern, s[1..]))
    else if pattern[0] == QUESTION then s != [] && !IsLineTerminator(s[0]) && UnitsMatch(pattern[1..], s[1..])
    else s != [] && pattern[0] == s[0] && UnitsMatch(pattern[1..], s[1..])
  }

  predicate GlobMatch(pattern: string, s: string) {
    UnitsMatch(Utf16(pattern), Utf16(s))
  }

  /** What one unit of a pattern stands for. */
  predicate Expands(p: nat, w: seq<nat>) {
    if p == STAR then forall u <- w :: !IsLineTerminator(u)
    else if p == QUESTION then |w| == 1 && !IsLineTerminator(w[0])
    else w == [p]
  }

  function Flatten(ws: seq<seq<nat>>): seq<nat> {
    if ws == [] then [] else ws[0] + Flatten(ws[1..])
  }

  ghost predicate Expansion(pattern: seq<nat>, ws: seq<seq<nat>>) {
    |ws| == |pattern| && forall i | 0 <= i < |ws| :: Expands(pattern[i], ws[i])
  }

  /** The matcher accepts exactly the strings that are an expansion of the pattern, unit by unit. */
  lemma GlobMatchIff(pattern: string, s: string)
    ensures GlobMatch(pattern, s) <==> exists ws :: Expansion(Utf16(pattern), ws) && Flatten(ws) == Utf16(s)
  {
    if GlobMatch(pattern, s) {
      var ws := FindExpansion(Utf16(pattern), Utf16(s));
    }
    if ws :| Expansion(Utf16(pattern), ws) && Flatten(ws) == Utf16(s) {
      ExpansionMatches(Utf16(pattern), ws);
    }
  }

  lemma {:induction false} FindExpansion(pattern: seq<nat>, s: seq<nat>) returns (ws: seq<seq<nat>>)
    requires UnitsMatch(pattern, s)
    ensures Expansion(pattern, ws) && Flatten(ws) == s
    decreases |pattern| + |s|
  {
    if pattern == [] {
      ws := [];
    } else if pattern[0] == STAR {
      if UnitsMatch(pattern[1..], s) {
        var rest := FindExpansion(pattern[1..], s);
        ws := [[]] + rest;
        assert ws[1..] == rest;
      } else {
        var rest := FindExpansion(pattern, s[1..]);
        ws := [[s[0]] + rest[0]] + rest[1..];
        assert ws[1..] == rest[1..];
        assert Flatten(ws) == [s[0]] + (rest[0] + Flatten(rest[1..]));
        assert s == [s[0]] + s[1..];
      }
    } else {
      var rest := FindExpansion(pattern[1..], s[1..]);
      ws := [[s[0]]] + rest;
      assert ws[1..] == rest;
      assert s == [s[0]] + s[1..];
    }
  }

  lemma {:induction false} ExpansionMatches(pattern: seq<nat>, ws: seq<seq<nat>>)
    requires Expansion(pattern, ws)
    ensures UnitsMatch(pattern, Flatten(ws))
    decreases |pattern|
  {
    if pattern != [] {
      var rest := Flatten(ws[1..]);
      forall i | 0 <= i < |ws| - 1
        ensures Expands(pattern[1..][i], ws[1..][i])
      {
        assert Expands(pattern[i + 1], ws[i + 1]);
      }
      ExpansionMatches(pattern[1..], ws[1..]);
      assert Expands(pattern[0], ws[0]);
      if pattern[0] == STAR {
        StarAbsorbs(pattern, ws[0], rest);
      } else {
        assert Flatten(ws)[1..] == rest;
      }
    }
  }

  lemma {:induction false} StarAbsorbs(pattern: seq<nat>, w: seq<nat>, rest: seq<nat>)
    requires pattern != [] && pattern[0] == STAR && UnitsMatch(pattern[1..], rest)
    requires forall u <- w :: !IsLineTerminator(u)
    ensures UnitsMatch(pattern, w + rest)
    decreases |w|
  {
    if w == [] {
      assert w + rest == rest;
    } else {
      StarAbsorbs(pattern, w[1..], rest);
      assert (w + rest)[1..] == w[1..] + rest;
    }
  }

  predicate HasGlob(pattern: string) {
    '*' in pattern || '?' in pattern
  }

  predicate MatchesPattern(pattern: string, alias: string) {
    if !HasGlob(pattern) then pattern == alias else GlobMatch(pattern, alias)
  }

  predicate IsNegated(pattern: string) {
    pattern != "" && pattern[0] == '!'
  }

  predicate IsPatternAlias(alias: string) {
    HasGlob(alias) || IsNegated(alias)
  }

  /** A block applies to an alias that some positive pattern matches and no negated one. */
  predicate BlockMatches(patterns: seq<string>, alias: string) {
    && (exists p <- patterns :: !IsNegated(p) && MatchesPattern(p, alias))
    && (forall p <- patterns :: IsNegated(p) ==> !MatchesPattern(p[1..], alias))
  }

  method BlockMatchesAlias(patterns: seq<string>, alias: string) returns (r: bool)
    ensures r <==> BlockMatches(patterns, alias)
  {
    var positiveMatch := false;
    for i := 0 to |patterns|
      invariant positiveMatch <==> exists p <- patterns[..i] :: !IsNegated(p) && MatchesPattern(p, alias)
      invariant forall p <- patterns[..i] :: IsNegated(p) ==> !MatchesPattern(p[1..], alias)
    {
      var raw := patterns[i];
      assert patterns[..i + 1] == patterns[..i] + [raw];
      assert raw in patterns;
      if IsNegated(raw) {
        if MatchesPattern(raw[1..], alias) {
          return false;
        }
      } else if MatchesPattern(raw, alias) {
        positiveMatch := true;
      }
    }
    assert patterns[..|patterns|] == patterns;
    return positiveMatch;
  }

  lemma {:induction false} LiteralUnits(pattern: seq<nat>, s: seq<nat>)
    requires STAR !in pattern && QUESTION !in pattern
    ensures UnitsMatch(pattern, s) <==> pattern == s
    decreases |pattern|
  {
    if pattern != [] {
      assert pattern[0] in pattern && forall u <- pattern[1..] :: u in pattern;
      if s != [] {
        LiteralUnits(pattern[1..], s[1..]);
        assert pattern == [pattern[0]] + pattern[1..] && s == [s[0]] + s[1..];
      }
    }
  }

  /** The shortcut for patterns without wildcards agrees with the glob matcher. */
  lemma MatchesPatternIsGlob(pattern: string, alias: string)
    ensures MatchesPattern(pattern, alias) <==> GlobMatch(pattern, alias)
  {
    if !HasGlob(pattern) {
      UnitIsChar(pattern, '*');
      UnitIsChar(pattern, '?');
      LiteralUnits(Utf16(pattern), Utf16(alias));
      if GlobMatch(pattern, alias) {
        Utf16IsFaithful(pattern, alias);
      }
    }
  }

  // ----- The flat rule -----

  const KNOWN_KEYWORDS := {"hostname", "port", "user", "identityfile", "proxyjump"}

  function NonEmpty(args: seq<string>): seq<string> {
    if args == [] then [] else (if args[0] != "" then [args[0]] else []) + NonEmpty(args[1..])
  }

  /** The patterns of the block that a line after `lines` belongs to; none at the top and after `Match`. */
  function BlockAfter(lines: seq<Line>): Option<seq<string>> {
    if lines == [] then None
    else
      var last := lines[|lines| - 1];
      if last.keyword == "host" then Some(NonEmpty(last.args))
      else if last.keyword == "match" then None
      else BlockAfter(lines[..|lines| - 1])
  }

  /** Line `i` gives `alias` a value for `keyword`. */
  predicate Obtains(lines: seq<Line>, i: nat, alias: string, keyword: string)
    requires i < |lines|
  {
    && lines[i].keyword == keyword && lines[i].args != [] && lines[i].args[0] != ""
    && BlockAfter(lines[..i]).Some? && BlockMatches(BlockAfter(lines[..i]).value, alias)
  }

  /** The flat rule: the first line, in file order, that gives the alias a non-empty value for the keyword. */
  function FlatLookup(lines: seq<Line>, alias: string, keyword: string): Option<string> {
    if lines == [] then None
    else
      var n := |lines| - 1;
      var earlier := FlatLookup(lines[..n], alias, keyword);
      if earlier.Some? then earlier else if Obtains(lines, n, alias, keyword) then Some(lines[n].args[0]) else None
  }

  lemma {:induction false} FlatLookupIsFirst(lines: seq<Line>, alias: string, keyword: string, v: string)
    ensures FlatLookup(lines, alias, keyword) == Some(v) <==>
      exists i | 0 <= i < |lines| ::
        && Obtains(lines, i, alias, keyword) && lines[i].args[0] == v
        && forall j | 0 <= j < i :: !Obtains(lines, j, alias, keyword)
    ensures FlatLookup(lines, alias, keyword).None? <==> forall i | 0 <= i < |lines| :: !Obtains(lines, i, alias, keyword)
  {
    if lines != [] {
      var n := |lines| - 1;
      var init := lines[..n];
      FlatLookupIsFirst(init, alias, keyword, v);
      forall i | 0 <= i < n
        ensures Obtains(init, i, alias, keyword) == Obtains(lines, i, alias, keyword)
      {
        assert init[..i] == lines[..i];
      }
      if FlatLookup(init, alias, keyword).Some? {
        FlatLookupIsFirst(init, alias, keyword, FlatLookup(init, alias, keyword).value);
      }
    }
  }

  /** Every value once obtained stays obtained, whatever lines follow. */
  lemma {:induction false} AppendKeepsValues(lines: seq<Line>, more: seq<Line>, alias: string, keyword: string)
    requires FlatLookup(lines, alias, keyword).Some?
    ensures FlatLookup(lines + more, alias, keyword) == FlatLookup(lines, alias, keyword)
    decreases |more|
  {
    if more == [] {
      assert lines + more == lines;
    } else {
      var n := |more| - 1;
      AppendKeepsValues(lines, more[..n], alias, keyword);
      assert (lines + more)[..|lines| + n] == lines + more[..n];
    }
  }

  // ----- The two-level rule, as the parser computes it -----

  datatype Block = Block(patterns: seq<string>, values: map<string, string>)

  /** The blocks of `lines`, and whether the next line belongs to the last of them. */
  function Collect(lines: seq<Line>): (r: (seq<Block>, bool))
    ensures r.1 ==> r.0 != []
  {
    if lines == [] then ([], false)
    else
      var n := |lines| - 1;
      var (blocks, active) := Collect(lines[..n]);
      AddLine(blocks, active, lines[n])
  }

  function AddLine(blocks: seq<Block>, active: bool, line: Line): (r: (seq<Block>, bool))
    requires active ==> blocks != []
    ensures r.1 ==> r.0 != []
  {
    if line.keyword == "host" then (blocks + [Block(NonEmpty(line.args), map[])], true)
    else if line.keyword == "match" then (blocks, false)
    else if !active || line.keyword !in KNOWN_KEYWORDS || line.args == [] || line.args[0] == "" then (blocks, active)
    else
      var b := blocks[|blocks| - 1];
      if line.keyword in b.values then (blocks, active)
      else (blocks[|blocks| - 1 := b.(values := b.values[line.keyword := line.args[0]])], active)
  }

  function Lookup(m: map<string, string>, k: string): Option<string> {
    if k in m then Some(m[k]) else None
  }

  /** The value in the first matching block that has one. */
  function MergeLookup(blocks: seq<Block>, alias: string, keyword: string): Option<string> {
    if blocks == [] then None
    else
      var n := |blocks| - 1;
      var earlier := MergeLookup(blocks[..n], alias, keyword);
      if earlier.Some? || !BlockMatches(blocks[n].patterns, alias) then earlier else Lookup(blocks[n].values, keyword)
  }

  lemma {:induction false} CollectTracksBlock(lines: seq<Line>)
    ensures var (blocks, active) := Collect(lines);
      BlockAfter(lines) == if active then Some(blocks[|blocks| - 1].patterns) else None
  {
    if lines != [] {
      CollectTracksBlock(lines[..|lines| - 1]);
    }
  }

  /** One more line adds at most the value it gives, and only where none was. */
  lemma AddLineLookup(blocks: seq<Block>, active: bool, line: Line, alias: string, keyword: string)
    requires keyword in KNOWN_KEYWORDS && (active ==> blocks != [])
    ensures MergeLookup(AddLine(blocks, active, line).0, alias, keyword) ==
      if MergeLookup(blocks, alias, keyword).Some? then MergeLookup(blocks, alias, keyword)
      else if active && line.keyword == keyword && line.args != [] && line.args[0] != ""
              && BlockMatches(blocks[|blocks| - 1].patterns, alias) then Some(line.args[0])
      else None
  {
    var blocks' := AddLine(blocks, active, line).0;
    if line.keyword == "host" {
      assert blocks'[..|blocks|] == blocks;
    } else if blocks' != blocks {
      assert blocks'[..|blocks| - 1] == blocks[..|blocks| - 1];
    }
  }

  /** First-wins within a block and first-wins among blocks together are the flat rule. */
  lemma {:induction false} TwoLevelsAreFlat(lines: seq<Line>, alias: string, keyword: string)
    requires keyword in KNOWN_KEYWORDS
    ensures MergeLookup(Collect(lines).0, alias, keyword) == FlatLookup(lines, alias, keyword)
  {
    if lines != [] {
      var n := |lines| - 1;
      TwoLevelsAreFlat(lines[..n], alias, keyword);
      CollectTracksBlock(lines[..n]);
      var (blocks, active) := Collect(lines[..n]);
      AddLineLookup(blocks, active, lines[n], alias, keyword);
    }
  }

  // ----- Emitted hosts -----

  function ConcreteAliases(args: seq<string>): seq<string> {
    if args == [] then []
    else (if args[0] != "" && !IsPatternAlias(args[0]) then [args[0]] else []) + ConcreteAliases(args[1..])
  }

  /** Every concrete alias on a `Host` line, in file order, repeats included. */
  function AllAliases(lines: seq<Line>): seq<string> {
    if lines == [] then []
    else
      var n := |lines| - 1;
      AllAliases(lines[..n]) + (if lines[n].keyword == "host" then ConcreteAliases(lines[n].args) else [])
  }

  datatype Host = Host(
    alias: string, hostname: string, port: nat, username: Option<string>, identityFile: Option<string>, proxyJump: Option<string>)

  function ParsePort(value: string): nat {
    if value == "" || exists c <- value :: !('0' <= c <= '9') then 22
    else
      var port := Denoted(value, 10);
      if port < 1 || port > 65535 then 22 else port
  }

  function HostFrom(alias: string, get: string -> Option<string>): Host {
    var hostname, port := get("hostname"), get("port");
    Host(alias, if hostname.Some? then hostname.value else alias, if port.Some? then ParsePort(port.value) else 22,
         get("user"), get("identityfile"), get("proxyjump"))
  }

  /** The host the flat rule gives an alias. */
  function FlatHost(lines: seq<Line>, alias: string): Host {
    HostFrom(alias, keyword => FlatLookup(lines, alias, keyword))
  }

  function FlatHosts(lines: seq<Line>, aliases: seq<string>): seq<Host> {
    seq(|aliases|, i requires 0 <= i < |aliases| => FlatHost(lines, aliases[i]))
  }

  /** `split(/\r?\n/)`: a carriage return is dropped only before a line feed. */
  function RawLines(content: string): seq<string> {
    var parts := Split(content, '\n');
    seq(|parts|, i requires 0 <= i < |parts| => if i < |parts| - 1 then DropReturn(parts[i]) else parts[i])
  }

  function DropReturn(s: string): string {
    if s != "" && s[|s| - 1] == '\r' then s[..|s| - 1] else s
  }

  function Parsed(raw: seq<string>): seq<Option<Line>> {
    seq(|raw|, i requires 0 <= i < |raw| => ParseConfigLine(raw[i]))
  }

  function Present(lines: seq<Option<Line>>): seq<Line> {
    if lines == [] then []
    else
      var n := |lines| - 1;
      Present(lines[..n]) + (if lines[n].Some? then [lines[n].value] else [])
  }

  /** The meaningful lines of a file. */
  function LinesOf(content: string): seq<Line> {
    Present(Parsed(RawLines(content)))
  }

  method ParseSshConfig(content: string) returns (hosts: seq<Host>)
    ensures hosts == FlatHosts(LinesOf(content), FirstSeen(AllAliases(LinesOf(content))))
  {
    var blocks, aliasOrder := CollectBlocks(RawLines(content));
    hosts := ResolveHosts(blocks, aliasOrder, LinesOf(content));
  }

  /** The first loop: blocks in file order, and concrete aliases in first-seen order. */
  method CollectBlocks(raw: seq<string>) returns (blocks: seq<Block>, aliasOrder: seq<string>)
    ensures var lines := Present(Parsed(raw));
      blocks == Collect(lines).0 && aliasOrder == FirstSeen(AllAliases(lines))
  {
    blocks, aliasOrder := [], [];
    var active := false;
    ghost var parsed := Parsed(raw);
    ghost var lines: seq<Line> := [];
    for i := 0 to |raw|
      invariant lines == Present(parsed[..i])
      invariant (blocks, active) == Collect(lines)
      invariant aliasOrder == FirstSeen(AllAliases(lines))
    {
      assert parsed[..i + 1][..i] == parsed[..i];
      var line := ParseLine(raw[i]);
      assert line == parsed[i];
      if line.Some? {
        blocks, active, aliasOrder := AddOne(blocks, active, aliasOrder, line.value, lines);
        lines := lines + [line.value];
      }
    }
    assert parsed[..|raw|] == parsed;
  }

  method AddOne(blocks: seq<Block>, active: bool, aliasOrder: seq<string>, line: Line, ghost lines: seq<Line>)
    returns (blocks': seq<Block>, active': bool, aliasOrder': seq<string>)
    requires (blocks, active) == Collect(lines) && aliasOrder == FirstSeen(AllAliases(lines))
    ensures (blocks', active') == Collect(lines + [line]) && aliasOrder' == FirstSeen(AllAliases(lines + [line]))
  {
    assert (lines + [line])[..|lines|] == lines;
    blocks', active', aliasOrder' := blocks, active, aliasOrder;
    assert AllAliases(lines) + [] == AllAliases(lines);
    if line.keyword == "host" {
      blocks', active' := blocks + [Block(NonEmpty(line.args), map[])], true;
      AddUnseenConcat([], AllAliases(lines), ConcreteAliases(line.args));
      aliasOrder' := AddAliases(aliasOrder, line.args);
    } else if line.keyword == "match" {
      active' := false;
    } else if active && line.keyword in KNOWN_KEYWORDS && line.args != [] && line.args[0] != "" {
      var b := blocks[|blocks| - 1];
      if line.keyword !in b.values {
        blocks' := blocks[|blocks| - 1 := b.(values := b.values[line.keyword := line.args[0]])];
      }
    }
  }

  /** The second loop: each alias against every block that matches it. */
  method ResolveHosts(blocks: seq<Block>, aliasOrder: seq<string>, ghost lines: seq<Line>) returns (hosts: seq<Host>)
    requires blocks == Collect(lines).0
    ensures hosts == FlatHosts(lines, aliasOrder)
  {
    hosts := [];
    for i := 0 to |aliasOrder|
      invariant hosts == FlatHosts(lines, aliasOrder[..i])
    {
      var merged := MergeBlocks(blocks, aliasOrder[i]);
      forall keyword | keyword in KNOWN_KEYWORDS
        ensures Lookup(merged, keyword) == FlatLookup(lines, aliasOrder[i], keyword)
      {
        TwoLevelsAreFlat(lines, aliasOrder[i], keyword);
      }
      hosts := hosts + [HostFrom(aliasOrder[i], keyword => Lookup(merged, keyword))];
    }
    assert aliasOrder[..|aliasOrder|] == aliasOrder;
  }

  /** Adds the aliases of one `Host` line not seen before. */
  method AddAliases(order: seq<string>, args: seq<string>) returns (order': seq<string>)
    ensures order' == AddUnseen(order, ConcreteAliases(args))
  {
    order' := order;
    for i := 0 to |args|
      invariant AddUnseen(order', ConcreteAliases(args[i..])) == AddUnseen(order, ConcreteAliases(args))
    {
      ghost var rest := ConcreteAliases(args[i + 1..]);
      assert args[i..][1..] == args[i + 1..];
      if args[i] != "" && !IsPatternAlias(args[i]) {
        assert ([args[i]] + rest)[1..] == rest;
        if args[i] !in order' {
          order' := order' + [args[i]];
        }
      } else {
        assert [] + rest == rest;
      }
    }
    assert args[|args|..] == [];
  }

  method MergeBlocks(blocks: seq<Block>, alias: string) returns (merged: map<string, string>)
    ensures forall keyword :: Lookup(merged, keyword) == MergeLookup(blocks, alias, keyword)
  {
    merged := map[];
    for i := 0 to |blocks|
      invariant forall keyword :: Lookup(merged, keyword) == MergeLookup(blocks[..i], alias, keyword)
    {
      assert blocks[..i + 1][..i] == blocks[..i];
      var applies := BlockMatchesAlias(blocks[i].patterns, alias);
      if applies {
        merged := AddMissing(merged, blocks[i].values);
      }
    }
    assert blocks[..|blocks|] == blocks;
  }

  method AddMissing(merged: map<string, string>, values: map<string, string>) returns (merged': map<string, string>)
    ensures forall k :: Lookup(merged', k) == if k in merged then Lookup(merged, k) else Lookup(values, k)
  {
    merged' := merged;
    var left := values.Keys;
    while left != {}
      invariant left <= values.Keys
      invariant forall k :: Lookup(merged', k) == if k in merged || k in left then Lookup(merged, k) else Lookup(values, k)
      decreases left
    {
      var k :| k in left;
      if k !in merged' {
        merged' := merged'[k := values[k]];
      }
      left := left - {k};
    }
  }

  // ----- Main results about a parsed file -----

  /** One entry per distinct concrete alias, in first-seen order. */
  lemma HostsAreDistinct(content: string)
    ensures var lines := LinesOf(content);
      var hosts := FlatHosts(lines, FirstSeen(AllAliases(lines)));
      && (forall i, j | 0 <= i < j < |hosts| :: hosts[i].alias != hosts[j].alias)
      && (forall x :: x in AllAliases(lines) <==> exists h <- hosts :: h.alias == x)
  {
    var lines := LinesOf(content);
    var aliases := FirstSeen(AllAliases(lines));
    var hosts := FlatHosts(lines, aliases);
    AddUnseenIsDistinct([], AllAliases(lines));
    HostsHaveAliases(lines, aliases);
    assert forall x :: x in aliases <==> x in AllAliases(lines);
  }

  lemma HostsHaveAliases(lines: seq<Line>, aliases: seq<string>)
    ensures var hosts := FlatHosts(lines, aliases);
      && |hosts| == |aliases| && (forall i | 0 <= i < |hosts| :: hosts[i].alias == aliases[i])
      && (forall x :: x in aliases <==> exists h <- hosts :: h.alias == x)
  {
    var hosts := FlatHosts(lines, aliases);
    forall x | x in aliases
      ensures exists h <- hosts :: h.alias == x
    {
      var i :| 0 <= i < |aliases| && aliases[i] == x;
      assert hosts[i] in hosts;
    }
  }

  lemma {:induction false} PresentConcat(a: seq<Option<Line>>, b: seq<Option<Line>>)
    ensures Present(a + b) == Present(a) + Present(b)
    decreases |b|
  {
    if b == [] {
      assert a + b == a;
    } else {
      var n := |b| - 1;
      PresentConcat(a, b[..n]);
      assert (a + b)[..|a| + n] == a + b[..n];
    }
  }

  lemma TrailingReturnIgnored(s: string)
    ensures ParseConfigLine(DropReturn(s)) == ParseConfigLine(s)
  {
    if s != "" && s[|s| - 1] == '\r' {
      assert TrimRight(s) == TrimRight(s[..|s| - 1]);
    }
  }

  /** Carriage returns at line ends make no difference to what is parsed. */
  lemma ParsedIsSplit(content: string)
    ensures Parsed(RawLines(content)) == Parsed(Split(content, '\n'))
  {
    var raw, parts := RawLines(content), Split(content, '\n');
    forall i | 0 <= i < |parts|
      ensures ParseConfigLine(raw[i]) == ParseConfigLine(parts[i])
    {
      TrailingReturnIgnored(parts[i]);
    }
  }

  /** Text appended on a new line adds its lines after those already there. */
  lemma LinesConcat(content: string, more: string)
    ensures LinesOf(content + ['\n'] + more) == LinesOf(content) + LinesOf(more)
  {
    var a, b := Split(content, '\n'), Split(more, '\n');
    SplitConcat(content, more, '\n');
    ParsedIsSplit(content + ['\n'] + more);
    ParsedIsSplit(content);
    ParsedIsSplit(more);
    ParsedConcat(a, b);
    PresentConcat(Parsed(a), Parsed(b));
  }

  lemma ParsedConcat(a: seq<string>, b: seq<string>)
    ensures Parsed(a + b) == Parsed(a) + Parsed(b)
  {
  }

  /** Appending text to a file never changes a value an alias already obtained. */
  lemma AppendedTextKeepsValues(content: string, more: string, alias: string, keyword: string)
    requires FlatLookup(LinesOf(content), alias, keyword).Some?
    ensures FlatLookup(LinesOf(content + ['\n'] + more), alias, keyword) == FlatLookup(LinesOf(content), alias, keyword)
  {
    LinesConcat(content, more);
    AppendKeepsValues(LinesOf(content), LinesOf(more), alias, keyword);
  }
}
