/** Resolving `Include` directives by splicing files in place, under guards on cycles, depth, count and size. */
module SshInclude {
  import opened Wrappers
  import opened Text
  import opened Sorting
  import opened SshConfig
  import Unicode

  const MAX_DEPTH := 16
  const MAX_FILES := 256
  /** Compared with string lengths, so it counts UTF-16 code units. */
  const MAX_TOTAL := 5 * 1024 * 1024

  /** The file system during one resolution: readable files, listable directories, and the path functions. */
  datatype Env = Env(
    files: map<string, string>,
    dirs: map<string, seq<string>>,
    home: string,
    join: (string, string) -> string,
    isAbsolute: string -> bool,
    basename: string -> string,
    dirname: string -> string,
    canonical: string -> string)

  /** `text.length`. */
  function TextLength(s: string): nat {
    |Unicode.Utf16(s)|
  }

  // ----- One Include token -----

  function ExpandTilde(path: string, home: string, join: (string, string) -> string): string {
    if path == "~" then home else if "~/" <= path then join(home, path[2..]) else path
  }

  /** A name a glob in the last path segment picks: dot files only if the pattern starts with a dot. */
  predicate Picks(base: string, name: string) {
    (("." <= base) || !("." <= name)) && GlobMatch(base, name)
  }

  function Filter(base: string, entries: seq<string>): seq<string> {
    if entries == [] then []
    else (if Picks(base, entries[0]) then [entries[0]] else []) + Filter(base, entries[1..])
  }

  function PickedNames(base: string, entries: seq<string>): seq<string> {
    SortBy(Unicode.StringLeq, Filter(base, entries))
  }

  /** The names are exactly the matching entries, as often as listed, in order. */
  lemma PickedNamesAre(base: string, entries: seq<string>, name: string)
    ensures multiset(PickedNames(base, entries))[name] == if Picks(base, name) then multiset(entries)[name] else 0
    ensures Sorted(Unicode.StringLeq, PickedNames(base, entries))
  {
    SortByIsPermutation(Unicode.StringLeq, Filter(base, entries));
    Unicode.StringLeqIsOrder();
    SortByIsSorted(Unicode.StringLeq, Filter(base, entries));
    FilterCounts(base, entries, name);
  }

  lemma {:induction false} FilterCounts(base: string, entries: seq<string>, name: string)
    ensures multiset(Filter(base, entries))[name] == if Picks(base, name) then multiset(entries)[name] else 0
  {
    if entries != [] {
      FilterCounts(base, entries[1..], name);
      assert entries == [entries[0]] + entries[1..];
    }
  }

  function ResolveIncludeToken(env: Env, token: string): seq<string> {
    var expanded := ExpandTilde(token, env.home, env.join);
    var abs := if env.isAbsolute(expanded) then expanded else env.join(env.join(env.home, ".ssh"), expanded);
    var base := env.basename(abs);
    if !HasGlob(base) then [abs]
    else
      var dir := env.dirname(abs);
      if dir !in env.dirs then []
      else
        var names := PickedNames(base, env.dirs[dir]);
        seq(|names|, i requires 0 <= i < |names| => env.join(dir, names[i]))
  }

  /** The path tokens of an `Include` line. */
  function IncludeTokens(rawLine: string): Option<seq<string>> {
    var parsed := ParseConfigLine(rawLine);
    if parsed.Some? && parsed.value.keyword == "include" then Some(NonEmpty(parsed.value.args)) else None
  }

  function Targets(env: Env, tokens: seq<string>): seq<string> {
    if tokens == [] then [] else ResolveIncludeToken(env, tokens[0]) + Targets(env, tokens[1..])
  }

  // ----- The guarded expansion -----

  /** One accepted read: the canonical paths from the root to the file, and the length of its text. */
  datatype Read = Read(chain: seq<string>, size: nat)

  /** The shared state; `log` and `fired` (some guard stopped a file that could be read) are history variables. */
  datatype State = State(filesRead: nat, total: nat, capped: bool, log: seq<Read>, fired: bool)

  const Fresh := State(0, 0, false, [], false)

  /** No guard stops this file, and it can be read. */
  predicate Opens(env: Env, path: string, depth: nat, chain: seq<string>, st: State) {
    && depth <= MAX_DEPTH && env.canonical(path) !in chain && !st.capped && st.filesRead < MAX_FILES
    && path in env.files && st.total + TextLength(env.files[path]) <= MAX_TOTAL
  }

  /** The state when it is not opened: a count or size limit caps everything after it. */
  function Refuse(env: Env, path: string, depth: nat, chain: seq<string>, st: State): State {
    var fired := st.fired || path in env.files;
    if depth > MAX_DEPTH || env.canonical(path) in chain || st.capped then st.(fired := fired)
    else if st.filesRead >= MAX_FILES then st.(capped := true, fired := fired)
    else if path !in env.files then st
    else st.(capped := true, fired := fired)
  }

  function Accept(st: State, chain: seq<string>, size: nat): State {
    st.(filesRead := st.filesRead + 1, total := st.total + size, log := st.log + [Read(chain, size)])
  }

  function Expand(env: Env, path: string, depth: nat, chain: seq<string>, st: State): (r: (string, State))
    requires depth <= MAX_DEPTH + 1
    decreases MAX_DEPTH + 1 - depth, 2, 0
  {
    if !Opens(env, path, depth, chain, st) then ("", Refuse(env, path, depth, chain, st))
    else
      var text, chain' := env.files[path], chain + [env.canonical(path)];
      var (out, st') := ExpandLines(env, RawLines(text), depth, chain', Accept(st, chain', TextLength(text)));
      (Join(out, '\n'), st')
  }

  function ExpandLines(env: Env, lines: seq<string>, depth: nat, chain: seq<string>, st: State): (r: (seq<string>, State))
    requires depth <= MAX_DEPTH
    decreases MAX_DEPTH + 1 - depth, 1, |lines|
  {
    if lines == [] then ([], st)
    else
      var (head, st1) := ExpandLine(env, lines[0], depth, chain, st);
      var (rest, st2) := ExpandLines(env, lines[1..], depth, chain, st1);
      (head + rest, st2)
  }

  function ExpandLine(env: Env, line: string, depth: nat, chain: seq<string>, st: State): (r: (seq<string>, State))
    requires depth <= MAX_DEPTH
    decreases MAX_DEPTH + 1 - depth, 1, 0
  {
    var tokens := IncludeTokens(line);
    if tokens.None? then ([line], st) else ExpandTargets(env, Targets(env, tokens.value), depth, chain, st)
  }

  function ExpandTargets(env: Env, targets: seq<string>, depth: nat, chain: seq<string>, st: State): (r: (seq<string>, State))
    requires depth <= MAX_DEPTH
    decreases MAX_DEPTH + 1 - depth, 0, |targets|
  {
    if targets == [] then ([], st)
    else
      var (text, st1) := Expand(env, targets[0], depth + 1, chain, st);
      var (rest, st2) := ExpandTargets(env, targets[1..], depth, chain, st1);
      ([text] + rest, st2)
  }

  /** `None` when the root file cannot be read. */
  function Resolve(env: Env, root: string): Option<(string, State)> {
    if root !in env.files then None else Some(Expand(env, root, 0, [], Fresh))
  }

  lemma ExpandOpened(env: Env, path: string, depth: nat, chain: seq<string>, st: State)
    requires Opens(env, path, depth, chain, st)
    ensures var chain' := chain + [env.canonical(path)];
      var r := ExpandLines(env, RawLines(env.files[path]), depth, chain', Accept(st, chain', TextLength(env.files[path])));
      Expand(env, path, depth, chain, st) == (Join(r.0, '\n'), r.1)
  {
  }

  class IncludeResolver {
    var filesRead: nat
    var total: nat
    var capped: bool
    ghost var log: seq<Read>
    ghost var fired: bool

    ghost function Abs(): State
      reads this
    {
      State(filesRead, total, capped, log, fired)
    }

    constructor ()
      ensures Abs() == Fresh
    {
      filesRead, total, capped, log, fired := 0, 0, false, [], false;
    }

    method ExpandFile(env: Env, path: string, depth: nat, ancestors: set<string>, ghost chain: seq<string>) returns (text: string)
      requires depth <= MAX_DEPTH + 1 && ancestors == set x | x in chain
      modifies this
      ensures (text, Abs()) == Expand(env, path, depth, chain, old(Abs()))
      decreases MAX_DEPTH + 1 - depth, 3
    {
      var canonical := env.canonical(path);
      if depth > MAX_DEPTH || canonical in ancestors || capped {
        fired := fired || path in env.files;
        return "";
      }
      if filesRead >= MAX_FILES {
        capped, fired := true, fired || path in env.files;
        return "";
      }
      if path !in env.files {
        return "";
      }
      var content := env.files[path];
      if total + TextLength(content) > MAX_TOTAL {
        capped, fired := true, true;
        return "";
      }
      ghost var nextChain := chain + [canonical];
      assert Opens(env, path, depth, chain, Abs());
      filesRead, total, log := filesRead + 1, total + TextLength(content), log + [Read(nextChain, TextLength(content))];
      assert Abs() == Accept(old(Abs()), nextChain, TextLength(content));
      var next := ancestors + {canonical};
      assert next == set x | x in nextChain;
      var out := ExpandAll(env, RawLines(content), depth, next, nextChain);
      text := Join(out, '\n');
      ExpandOpened(env, path, depth, chain, old(Abs()));
    }

    /** The loop over a file's lines. */
    method ExpandAll(env: Env, lines: seq<string>, depth: nat, ancestors: set<string>, ghost chain: seq<string>) returns (out: seq<string>)
      requires depth <= MAX_DEPTH && ancestors == set x | x in chain
      modifies this
      ensures (out, Abs()) == ExpandLines(env, lines, depth, chain, old(Abs()))
      decreases MAX_DEPTH + 1 - depth, 2
    {
      out := [];
      ghost var entry := Abs();
      PrefixedNone(ExpandLines(env, lines, depth, chain, entry));
      assert lines[0..] == lines;
      for i := 0 to |lines|
        invariant Prefixed(out, ExpandLines(env, lines[i..], depth, chain, Abs())) == ExpandLines(env, lines, depth, chain, entry)
      {
        assert lines[i..][1..] == lines[i + 1..];
        var piece := ExpandOne(env, lines[i], depth, ancestors, chain);
        PrefixedMore(out, piece, ExpandLines(env, lines[i + 1..], depth, chain, Abs()));
        out := out + piece;
      }
      PrefixedEnd(out, Abs());
    }

    /** The loop's body: one line, or the files an `Include` line names. */
    method ExpandOne(env: Env, line: string, depth: nat, ancestors: set<string>, ghost chain: seq<string>) returns (out: seq<string>)
      requires depth <= MAX_DEPTH && ancestors == set x | x in chain
      modifies this
      ensures (out, Abs()) == ExpandLine(env, line, depth, chain, old(Abs()))
      decreases MAX_DEPTH + 1 - depth, 1
    {
      var tokens := IncludeTokens(line);
      if tokens.None? {
        return [line];
      }
      out := ExpandEach(env, Targets(env, tokens.value), depth, ancestors, chain);
    }

    method ExpandEach(env: Env, targets: seq<string>, depth: nat, ancestors: set<string>, ghost chain: seq<string>) returns (out: seq<string>)
      requires depth <= MAX_DEPTH && ancestors == set x | x in chain
      modifies this
      ensures (out, Abs()) == ExpandTargets(env, targets, depth, chain, old(Abs()))
      decreases MAX_DEPTH + 1 - depth, 0
    {
      out := [];
      ghost var entry := Abs();
      assert targets[0..] == targets;
      PrefixedNone(ExpandTargets(env, targets, depth, chain, entry));
      for i := 0 to |targets|
        invariant Prefixed(out, ExpandTargets(env, targets[i..], depth, chain, Abs())) == ExpandTargets(env, targets, depth, chain, entry)
      {
        assert targets[i..][1..] == targets[i + 1..];
        var text := ExpandFile(env, targets[i], depth + 1, ancestors, chain);
        PrefixedMore(out, [text], ExpandTargets(env, targets[i + 1..], depth, chain, Abs()));
        out := out + [text];
      }
      PrefixedEnd(out, Abs());
    }
  }

  /** What a loop has produced so far, and what it will. */
  ghost function Prefixed(out: seq<string>, r: (seq<string>, State)): (seq<string>, State) {
    (out + r.0, r.1)
  }

  lemma PrefixedNone(r: (seq<string>, State))
    ensures Prefixed([], r) == r
  {
    assert [] + r.0 == r.0;
  }

  lemma PrefixedEnd(out: seq<string>, st: State)
    ensures Prefixed(out, ([], st)) == (out, st)
  {
    assert out + [] == out;
  }

  lemma PrefixedMore(out: seq<string>, piece: seq<string>, r: (seq<string>, State))
    ensures Prefixed(out + piece, r) == Prefixed(out, (piece + r.0, r.1))
  {
    assert out + piece + r.0 == out + (piece + r.0);
  }

  // ----- Bounds and chains -----

  function Sizes(log: seq<Read>): nat {
    if log == [] then 0 else Sizes(log[..|log| - 1]) + log[|log| - 1].size
  }

  ghost predicate StateOk(st: State) {
    && st.filesRead == |st.log| <= MAX_FILES
    && st.total == Sizes(st.log) <= MAX_TOTAL
    && forall r <- st.log :: Distinct(r.chain) && 0 < |r.chain| <= MAX_DEPTH + 1
  }

  lemma AcceptOk(st: State, chain: seq<string>, size: nat)
    requires StateOk(st) && st.filesRead < MAX_FILES && st.total + size <= MAX_TOTAL
    requires Distinct(chain) && 0 < |chain| <= MAX_DEPTH + 1
    ensures StateOk(Accept(st, chain, size))
  {
    assert Accept(st, chain, size).log[..|st.log|] == st.log;
  }

  lemma {:induction false} ExpandOk(env: Env, path: string, depth: nat, chain: seq<string>, st: State)
    requires depth <= MAX_DEPTH + 1 && StateOk(st) && Distinct(chain) && |chain| == depth
    ensures var st' := Expand(env, path, depth, chain, st).1; StateOk(st') && (st.fired ==> st'.fired)
    decreases MAX_DEPTH + 1 - depth, 2, 0
  {
    if Opens(env, path, depth, chain, st) {
      var text, chain' := env.files[path], chain + [env.canonical(path)];
      AcceptOk(st, chain', TextLength(text));
      ExpandLinesOk(env, RawLines(text), depth, chain', Accept(st, chain', TextLength(text)));
    }
  }

  lemma {:induction false} ExpandLinesOk(env: Env, lines: seq<string>, depth: nat, chain: seq<string>, st: State)
    requires depth <= MAX_DEPTH && StateOk(st) && Distinct(chain) && |chain| == depth + 1
    ensures var st' := ExpandLines(env, lines, depth, chain, st).1; StateOk(st') && (st.fired ==> st'.fired)
    decreases MAX_DEPTH + 1 - depth, 1, |lines|
  {
    if lines != [] {
      var tokens := IncludeTokens(lines[0]);
      if tokens.Some? {
        ExpandTargetsOk(env, Targets(env, tokens.value), depth, chain, st);
      }
      ExpandLinesOk(env, lines[1..], depth, chain, ExpandLine(env, lines[0], depth, chain, st).1);
    }
  }

  lemma {:induction false} ExpandTargetsOk(env: Env, targets: seq<string>, depth: nat, chain: seq<string>, st: State)
    requires depth <= MAX_DEPTH && StateOk(st) && Distinct(chain) && |chain| == depth + 1
    ensures var st' := ExpandTargets(env, targets, depth, chain, st).1; StateOk(st') && (st.fired ==> st'.fired)
    decreases MAX_DEPTH + 1 - depth, 0, |targets|
  {
    if targets != [] {
      ExpandOk(env, targets[0], depth + 1, chain, st);
      ExpandTargetsOk(env, targets[1..], depth, chain, Expand(env, targets[0], depth + 1, chain, st).1);
    }
  }

  /** On every file graph: at most 256 files and 5 Mi code units are accepted, none twice on one include chain. */
  lemma ResolutionIsBounded(env: Env, root: string)
    requires Resolve(env, root).Some?
    ensures var st := Resolve(env, root).value.1;
      && st.filesRead == |st.log| <= MAX_FILES
      && st.total == Sizes(st.log) <= MAX_TOTAL
      && forall r <- st.log :: Distinct(r.chain) && |r.chain| <= MAX_DEPTH + 1
  {
    ExpandOk(env, root, 0, [], Fresh);
  }

  // ----- What the size limit measures -----

  function Repeated(c: char, n: nat): string {
    if n == 0 then "" else [c] + Repeated(c, n - 1)
  }

  lemma {:induction false} RepeatedSizes(n: nat)
    ensures TextLength(Repeated('\U{e9}', n)) == n && |Unicode.Encode(Repeated('\U{e9}', n))| == 2 * n
  {
    if n > 0 {
      var s := Repeated('\U{e9}', n);
      RepeatedSizes(n - 1);
      assert s[1..] == Repeated('\U{e9}', n - 1);
      assert |Unicode.EncodeChar(s[0])| == 2;
    }
  }

  /** The limit is meant for bytes but compared with code units: a file of twice the limit in bytes is accepted. */
  lemma LimitIsNotInBytes(env: Env, root: string)
    requires root in env.files && env.files[root] == Repeated('\U{e9}', MAX_TOTAL)
    ensures |Unicode.Encode(env.files[root])| == 2 * MAX_TOTAL && Opens(env, root, 0, [], Fresh)
  {
    RepeatedSizes(MAX_TOTAL);
  }

  /** It measures bytes exactly for texts that are all ASCII, and never more than bytes. */
  lemma LimitIsInBytesIff(st: State, chain: seq<string>, text: string)
    ensures var total := Accept(st, chain, TextLength(text)).total;
      && total <= st.total + |Unicode.Encode(text)|
      && (total == st.total + |Unicode.Encode(text)| <==> forall i | 0 <= i < |text| :: text[i] as int < 0x80)
  {
    Unicode.UnitsAreBytesIff(text);
  }

  // ----- After a limit is hit -----

  /** A readable file that is on no cycle and not too deep is refused only by a limit, and that caps the rest. */
  lemma RefusedByLimitCaps(env: Env, path: string, depth: nat, chain: seq<string>, st: State)
    requires depth <= MAX_DEPTH && env.canonical(path) !in chain && path in env.files
    ensures var (text, st') := Expand(env, path, depth, chain, st);
      !Opens(env, path, depth, chain, st) <==>
        && text == "" && st'.capped && st'.log == st.log
        && (st.capped || st.filesRead >= MAX_FILES || st.total + TextLength(env.files[path]) > MAX_TOTAL)
  {
  }

  /** Once capped, no further file is read: each remaining line is kept or, for an Include, replaced by nothing. */
  lemma {:induction false} CapIsFinal(env: Env, lines: seq<string>, depth: nat, chain: seq<string>, st: State)
    requires depth <= MAX_DEPTH && st.capped
    ensures var (out, st') := ExpandLines(env, lines, depth, chain, st);
      && st'.capped && st'.log == st.log && st'.filesRead == st.filesRead && st'.total == st.total
      && forall t <- out :: t == "" || (t in lines && IncludeTokens(t).None?)
    decreases |lines|
  {
    if lines != [] {
      var tokens := IncludeTokens(lines[0]);
      if tokens.Some? {
        CappedTargets(env, Targets(env, tokens.value), depth, chain, st);
      }
      CapIsFinal(env, lines[1..], depth, chain, ExpandLine(env, lines[0], depth, chain, st).1);
    }
  }

  lemma {:induction false} CappedTargets(env: Env, targets: seq<string>, depth: nat, chain: seq<string>, st: State)
    requires depth <= MAX_DEPTH && st.capped
    ensures var (out, st') := ExpandTargets(env, targets, depth, chain, st);
      && st'.capped && st'.log == st.log && st'.filesRead == st.filesRead && st'.total == st.total
      && forall t <- out :: t == ""
    decreases |targets|
  {
    if targets != [] {
      CappedTargets(env, targets[1..], depth, chain, Expand(env, targets[0], depth + 1, chain, st).1);
    }
  }

  // ----- No Include line is left -----

  ghost predicate NoInclude(text: string) {
    forall p <- Split(text, '\n') :: IncludeTokens(p).None?
  }

  /** The lines of joined texts are the lines of the texts. */
  lemma {:induction false} JoinedLines(out: seq<string>, good: string -> bool)
    requires forall t <- out, p <- Split(t, '\n') :: good(p)
    requires good("")
    ensures forall p <- Split(Join(out, '\n'), '\n') :: good(p)
  {
    if |out| == 1 {
      assert out[0] in out;
    } else if out != [] {
      JoinedLines(out[1..], good);
      SplitConcat(out[0], Join(out[1..], '\n'), '\n');
      assert out[0] in out;
    }
  }

  lemma RawLineIsOneLine(text: string, line: string)
    requires line in RawLines(text)
    ensures '\n' !in line
  {
    var parts := Split(text, '\n');
    var i :| 0 <= i < |parts| && RawLines(text)[i] == line;
    assert parts[i] in parts;
  }

  lemma {:induction false} ExpandNoInclude(env: Env, path: string, depth: nat, chain: seq<string>, st: State)
    requires depth <= MAX_DEPTH + 1
    ensures NoInclude(Expand(env, path, depth, chain, st).0)
    decreases MAX_DEPTH + 1 - depth, 2, 0
  {
    assert Split("", '\n') == [""];
    if Opens(env, path, depth, chain, st) {
      var text, chain' := env.files[path], chain + [env.canonical(path)];
      forall line <- RawLines(text)
        ensures '\n' !in line
      {
        RawLineIsOneLine(text, line);
      }
      ExpandLinesNoInclude(env, RawLines(text), depth, chain', Accept(st, chain', TextLength(text)));
      JoinNoInclude(ExpandLines(env, RawLines(text), depth, chain', Accept(st, chain', TextLength(text))).0);
    }
  }

  lemma JoinNoInclude(out: seq<string>)
    requires forall t <- out :: NoInclude(t)
    ensures NoInclude(Join(out, '\n'))
  {
    var good := p => IncludeTokens(p).None?;
    JoinedLines(out, good);
    forall p <- Split(Join(out, '\n'), '\n')
      ensures IncludeTokens(p).None?
    {
      assert good(p);
    }
  }

  lemma {:induction false} ExpandLinesNoInclude(env: Env, lines: seq<string>, depth: nat, chain: seq<string>, st: State)
    requires depth <= MAX_DEPTH && forall line <- lines :: '\n' !in line
    ensures forall t <- ExpandLines(env, lines, depth, chain, st).0 :: NoInclude(t)
    decreases MAX_DEPTH + 1 - depth, 1, |lines|
  {
    if lines != [] {
      var tokens := IncludeTokens(lines[0]);
      if tokens.Some? {
        ExpandTargetsNoInclude(env, Targets(env, tokens.value), depth, chain, st);
      } else {
        assert lines[0] in lines;
        SplitOne(lines[0], '\n');
      }
      ExpandLinesNoInclude(env, lines[1..], depth, chain, ExpandLine(env, lines[0], depth, chain, st).1);
    }
  }

  lemma {:induction false} ExpandTargetsNoInclude(env: Env, targets: seq<string>, depth: nat, chain: seq<string>, st: State)
    requires depth <= MAX_DEPTH
    ensures forall t <- ExpandTargets(env, targets, depth, chain, st).0 :: NoInclude(t)
    decreases MAX_DEPTH + 1 - depth, 0, |targets|
  {
    if targets != [] {
      ExpandNoInclude(env, targets[0], depth + 1, chain, st);
      ExpandTargetsNoInclude(env, targets[1..], depth, chain, Expand(env, targets[0], depth + 1, chain, st).1);
    }
  }

  /** The parser of the flattened text meets no `Include` line. */
  lemma NoIncludeIsLeft(env: Env, root: string, line: string)
    requires Resolve(env, root).Some? && line in RawLines(Resolve(env, root).value.0)
    ensures IncludeTokens(line).None?
  {
    ExpandNoInclude(env, root, 0, [], Fresh);
    var text := Resolve(env, root).value.0;
    var parts := Split(text, '\n');
    var i :| 0 <= i < |parts| && RawLines(text)[i] == line;
    assert parts[i] in parts;
    TrailingReturnIgnored(parts[i]);
  }

  // ----- The plain textual splice -----

  /** OpenSSH's meaning of a config with includes, to `fuel` levels: no state, no guards. */
  function Splice(env: Env, path: string, fuel: nat): string
    decreases fuel, 2, 0
  {
    if fuel == 0 || path !in env.files then ""
    else Join(SpliceLines(env, RawLines(env.files[path]), fuel), '\n')
  }

  function SpliceLines(env: Env, lines: seq<string>, fuel: nat): seq<string>
    requires fuel > 0
    decreases fuel, 1, |lines|
  {
    if lines == [] then []
    else
      var tokens := IncludeTokens(lines[0]);
      (if tokens.None? then [lines[0]] else SpliceTargets(env, Targets(env, tokens.value), fuel)) + SpliceLines(env, lines[1..], fuel)
  }

  function SpliceTargets(env: Env, targets: seq<string>, fuel: nat): seq<string>
    requires fuel > 0
    decreases fuel, 0, |targets|
  {
    if targets == [] then [] else [Splice(env, targets[0], fuel - 1)] + SpliceTargets(env, targets[1..], fuel)
  }

  lemma {:induction false} ExpandIsSplice(env: Env, path: string, depth: nat, chain: seq<string>, st: State, fuel: nat)
    requires depth <= MAX_DEPTH + 1 && fuel >= MAX_DEPTH + 1 - depth
    requires !Expand(env, path, depth, chain, st).1.fired
    ensures Expand(env, path, depth, chain, st).0 == Splice(env, path, fuel) && !st.fired
    decreases MAX_DEPTH + 1 - depth, 2, 0
  {
    if path in env.files {
      var text, chain' := env.files[path], chain + [env.canonical(path)];
      ExpandLinesIsSplice(env, RawLines(text), depth, chain', Accept(st, chain', TextLength(text)), fuel);
    }
  }

  lemma {:induction false} ExpandLinesIsSplice(env: Env, lines: seq<string>, depth: nat, chain: seq<string>, st: State, fuel: nat)
    requires depth <= MAX_DEPTH && fuel >= MAX_DEPTH + 1 - depth && !ExpandLines(env, lines, depth, chain, st).1.fired
    ensures ExpandLines(env, lines, depth, chain, st).0 == SpliceLines(env, lines, fuel) && !st.fired
    decreases MAX_DEPTH + 1 - depth, 1, |lines|
  {
    if lines != [] {
      var tokens := IncludeTokens(lines[0]);
      ExpandLinesIsSplice(env, lines[1..], depth, chain, ExpandLine(env, lines[0], depth, chain, st).1, fuel);
      if tokens.Some? {
        ExpandTargetsIsSplice(env, Targets(env, tokens.value), depth, chain, st, fuel);
      }
    }
  }

  lemma {:induction false} ExpandTargetsIsSplice(env: Env, targets: seq<string>, depth: nat, chain: seq<string>, st: State, fuel: nat)
    requires depth <= MAX_DEPTH && fuel >= MAX_DEPTH + 1 - depth && !ExpandTargets(env, targets, depth, chain, st).1.fired
    ensures ExpandTargets(env, targets, depth, chain, st).0 == SpliceTargets(env, targets, fuel) && !st.fired
    decreases MAX_DEPTH + 1 - depth, 0, |targets|
  {
    if targets != [] {
      ExpandTargetsIsSplice(env, targets[1..], depth, chain, Expand(env, targets[0], depth + 1, chain, st).1, fuel);
      ExpandIsSplice(env, targets[0], depth + 1, chain, st, fuel - 1);
    }
  }

  // ----- When no guard fires -----

  /** In the plain splice, no readable file stands below `fuel` levels, or again on the chain that leads to it. */
  predicate Clean(env: Env, path: string, chain: seq<string>, fuel: nat)
    decreases fuel, 2, 0
  {
    path in env.files ==>
      && fuel > 0 && env.canonical(path) !in chain
      && CleanLines(env, RawLines(env.files[path]), chain + [env.canonical(path)], fuel)
  }

  predicate CleanLines(env: Env, lines: seq<string>, chain: seq<string>, fuel: nat)
    requires fuel > 0
    decreases fuel, 1, |lines|
  {
    lines == [] ||
      var tokens := IncludeTokens(lines[0]);
      && (tokens.Some? ==> CleanTargets(env, Targets(env, tokens.value), chain, fuel))
      && CleanLines(env, lines[1..], chain, fuel)
  }

  predicate CleanTargets(env: Env, targets: seq<string>, chain: seq<string>, fuel: nat)
    requires fuel > 0
    decreases fuel, 0, |targets|
  {
    targets == [] || (Clean(env, targets[0], chain, fuel - 1) && CleanTargets(env, targets[1..], chain, fuel))
  }

  /** The lengths of the files in the plain splice, as often as they are spliced. */
  function Spliced(env: Env, path: string, fuel: nat): seq<nat>
    decreases fuel, 2, 0
  {
    if fuel == 0 || path !in env.files then []
    else [TextLength(env.files[path])] + SplicedLines(env, RawLines(env.files[path]), fuel)
  }

  function SplicedLines(env: Env, lines: seq<string>, fuel: nat): seq<nat>
    requires fuel > 0
    decreases fuel, 1, |lines|
  {
    if lines == [] then []
    else
      var tokens := IncludeTokens(lines[0]);
      (if tokens.None? then [] else SplicedTargets(env, Targets(env, tokens.value), fuel)) + SplicedLines(env, lines[1..], fuel)
  }

  function SplicedTargets(env: Env, targets: seq<string>, fuel: nat): seq<nat>
    requires fuel > 0
    decreases fuel, 0, |targets|
  {
    if targets == [] then [] else Spliced(env, targets[0], fuel - 1) + SplicedTargets(env, targets[1..], fuel)
  }

  function Total(sizes: seq<nat>): nat {
    if sizes == [] then 0 else sizes[0] + Total(sizes[1..])
  }

  lemma {:induction false} TotalConcat(a: seq<nat>, b: seq<nat>)
    ensures Total(a + b) == Total(a) + Total(b)
    decreases |a|
  {
    if a == [] {
      assert a + b == b;
    } else {
      assert (a + b)[1..] == a[1..] + b;
      TotalConcat(a[1..], b);
    }
  }

  /** No guard has fired so far, and none is set to unless the files have run out. */
  predicate Ready(st: State) {
    && !st.fired && st.filesRead <= MAX_FILES && st.total <= MAX_TOTAL
    && (st.capped ==> st.filesRead == MAX_FILES)
  }

  predicate Fits(st: State, sizes: seq<nat>) {
    st.filesRead + |sizes| <= MAX_FILES && st.total + Total(sizes) <= MAX_TOTAL
  }

  /** From `st` to `st'` a guard fires unless the files are clean and fit, and else exactly they have been read. */
  ghost predicate Outcome(st: State, st': State, clean: bool, sizes: seq<nat>) {
    && (!st'.fired <==> clean && Fits(st, sizes))
    && (!st'.fired ==> Ready(st') && st'.filesRead == st.filesRead + |sizes| && st'.total == st.total + Total(sizes))
  }

  lemma OutcomesCompose(st: State, st1: State, st2: State, c1: bool, z1: seq<nat>, c2: bool, z2: seq<nat>)
    requires Outcome(st, st1, c1, z1) && (st1.fired ==> st2.fired) && (!st1.fired ==> Outcome(st1, st2, c2, z2))
    ensures Outcome(st, st2, c1 && c2, z1 + z2)
  {
    TotalConcat(z1, z2);
  }

  lemma RefusedOutcome(env: Env, path: string, depth: nat, chain: seq<string>, st: State)
    requires depth <= MAX_DEPTH + 1 && Ready(st) && !Opens(env, path, depth, chain, st)
    ensures Outcome(st, Refuse(env, path, depth, chain, st), Clean(env, path, chain, MAX_DEPTH + 1 - depth), Spliced(env, path, MAX_DEPTH + 1 - depth))
  {
    if path !in env.files {
      assert Total([]) == 0;
    } else if depth <= MAX_DEPTH {
      var rest := SplicedLines(env, RawLines(env.files[path]), MAX_DEPTH + 1 - depth);
      TotalConcat([TextLength(env.files[path])], rest);
      assert Total([TextLength(env.files[path])]) == TextLength(env.files[path]);
    }
  }

  lemma AcceptedOutcome(st: State, chain: seq<string>, size: nat)
    requires Ready(st) && !st.capped && st.filesRead < MAX_FILES && st.total + size <= MAX_TOTAL
    ensures Outcome(st, Accept(st, chain, size), true, [size])
  {
    assert [size][1..] == [] && Total([size]) == size + Total([]);
  }

  lemma {:induction false} ExpandFits(env: Env, path: string, depth: nat, chain: seq<string>, st: State)
    requires depth <= MAX_DEPTH + 1 && Ready(st)
    ensures Outcome(st, Expand(env, path, depth, chain, st).1,
      Clean(env, path, chain, MAX_DEPTH + 1 - depth), Spliced(env, path, MAX_DEPTH + 1 - depth))
    decreases MAX_DEPTH + 1 - depth, 2, 0
  {
    if !Opens(env, path, depth, chain, st) {
      RefusedOutcome(env, path, depth, chain, st);
    } else {
      var text, chain' := env.files[path], chain + [env.canonical(path)];
      var st1 := Accept(st, chain', TextLength(text));
      AcceptedOutcome(st, chain', TextLength(text));
      ExpandLinesFit(env, RawLines(text), depth, chain', st1);
      ExpandOpened(env, path, depth, chain, st);
      OutcomesCompose(st, st1, Expand(env, path, depth, chain, st).1, true, [TextLength(text)],
        CleanLines(env, RawLines(text), chain', MAX_DEPTH + 1 - depth), SplicedLines(env, RawLines(text), MAX_DEPTH + 1 - depth));
    }
  }

  lemma {:induction false} ExpandLinesFit(env: Env, lines: seq<string>, depth: nat, chain: seq<string>, st: State)
    requires depth <= MAX_DEPTH && Ready(st)
    ensures Outcome(st, ExpandLines(env, lines, depth, chain, st).1,
      CleanLines(env, lines, chain, MAX_DEPTH + 1 - depth), SplicedLines(env, lines, MAX_DEPTH + 1 - depth))
    decreases MAX_DEPTH + 1 - depth, 1, |lines|
  {
    var fuel := MAX_DEPTH + 1 - depth;
    if lines != [] {
      var tokens := IncludeTokens(lines[0]);
      var st1 := ExpandLine(env, lines[0], depth, chain, st).1;
      var st2 := ExpandLines(env, lines[1..], depth, chain, st1).1;
      if !st2.fired {
        ExpandLinesIsSplice(env, lines[1..], depth, chain, st1, fuel);
      }
      if tokens.Some? {
        ExpandTargetsFit(env, Targets(env, tokens.value), depth, chain, st);
      }
      if !st1.fired {
        ExpandLinesFit(env, lines[1..], depth, chain, st1);
      }
      if tokens.Some? {
        OutcomesCompose(st, st1, st2, CleanTargets(env, Targets(env, tokens.value), chain, fuel),
          SplicedTargets(env, Targets(env, tokens.value), fuel), CleanLines(env, lines[1..], chain, fuel), SplicedLines(env, lines[1..], fuel));
      } else {
        assert [] + SplicedLines(env, lines[1..], fuel) == SplicedLines(env, lines[1..], fuel);
      }
    }
  }

  lemma {:induction false} ExpandTargetsFit(env: Env, targets: seq<string>, depth: nat, chain: seq<string>, st: State)
    requires depth <= MAX_DEPTH && Ready(st)
    ensures Outcome(st, ExpandTargets(env, targets, depth, chain, st).1,
      CleanTargets(env, targets, chain, MAX_DEPTH + 1 - depth), SplicedTargets(env, targets, MAX_DEPTH + 1 - depth))
    decreases MAX_DEPTH + 1 - depth, 0, |targets|
  {
    var fuel := MAX_DEPTH + 1 - depth;
    if targets != [] {
      var st1 := Expand(env, targets[0], depth + 1, chain, st).1;
      var st2 := ExpandTargets(env, targets[1..], depth, chain, st1).1;
      ExpandFits(env, targets[0], depth + 1, chain, st);
      if !st2.fired {
        ExpandTargetsIsSplice(env, targets[1..], depth, chain, st1, fuel);
      }
      if !st1.fired {
        ExpandTargetsFit(env, targets[1..], depth, chain, st1);
      }
      OutcomesCompose(st, st1, st2, Clean(env, targets[0], chain, fuel - 1), Spliced(env, targets[0], fuel - 1),
        CleanTargets(env, targets[1..], chain, fuel), SplicedTargets(env, targets[1..], fuel));
    }
  }

  /** The files that the plain splice reads are within all four limits. */
  predicate WithinLimits(env: Env, root: string) {
    var sizes := Spliced(env, root, MAX_DEPTH + 1);
    Clean(env, root, [], MAX_DEPTH + 1) && |sizes| <= MAX_FILES && Total(sizes) <= MAX_TOTAL
  }

  /** A guard fires iff, in the plain splice, some file is too deep or on its own chain, or they are too many or too long. */
  lemma NoGuardFiresIff(env: Env, root: string)
    requires Resolve(env, root).Some?
    ensures !Resolve(env, root).value.1.fired <==> WithinLimits(env, root)
  {
    ExpandFits(env, root, 0, [], Fresh);
  }

  /** For every file graph within the limits, the result is the plain splice, to any number of levels from 17 on. */
  lemma WithinLimitsIsSplice(env: Env, root: string, fuel: nat)
    requires root in env.files && WithinLimits(env, root) && fuel > MAX_DEPTH
    ensures Resolve(env, root).value.0 == Splice(env, root, fuel)
  {
    NoGuardFiresIff(env, root);
    ExpandIsSplice(env, root, 0, [], Fresh, fuel);
  }

  /** Whenever no guard fires, the result is the plain splice, to any number of levels from 17 on. */
  lemma UnguardedIsSplice(env: Env, root: string, fuel: nat)
    requires Resolve(env, root).Some? && !Resolve(env, root).value.1.fired && fuel > MAX_DEPTH
    ensures Resolve(env, root).value.0 == Splice(env, root, fuel)
  {
    ExpandIsSplice(env, root, 0, [], Fresh, fuel);
  }
}
