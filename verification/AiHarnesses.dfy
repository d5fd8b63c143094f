/**
 * Composing a command line for an AI harness, and a POSIX shell's reading of it: tokens and quote removal
 * (sections 2.2 and 2.3 of the POSIX.1-2017 Shell Command Language) and here-documents (section 2.7.4).
 */
module AiHarnesses {
  import opened Wrappers
  import opened Text

  datatype Delivery = Flag | Positional | Stdin

  /** Absent argument lists are empty ones. */
  datatype Harness = Harness(
    bin: string, delivery: Delivery, promptFlag: Option<string>, runSubcommand: Option<string>,
    extraArgs: seq<string>, autoApproveArgs: seq<string>, outputArgs: seq<string>)

  function Truthy(o: Option<string>): seq<string> {
    if o.Some? && o.value != "" then [o.value] else []
  }

  // ----- Composing -----

  /** Embedded quotes become `'\''`. */
  function EscapeQuotes(value: string): string {
    if value == "" then "" else (if value[0] == '\'' then "'\\''" else [value[0]]) + EscapeQuotes(value[1..])
  }

  function ShellSingleQuote(value: string): string {
    "'" + (EscapeQuotes(value) + "'")
  }

  const TAG := "TERMDESK_PROMPT"

  /** The candidates in the order they are tried. */
  function Candidate(k: nat): string {
    if k == 0 then TAG else TAG + "_" + Decimal(k - 1)
  }

  /** A candidate in the prompt is no longer than it, so its number has few digits. */
  lemma CandidateBound(prompt: string, k: nat)
    requires Contains(prompt, Candidate(k))
    ensures k <= Pow10(|prompt|)
  {
    if k > Pow10(|prompt|) {
      DecimalIsLong(k - 1, |prompt|);
    }
  }

  /** The first candidate, from the `k`-th on, that does not occur in the prompt. */
  function FirstFree(prompt: string, k: nat): (tag: string)
    ensures !Contains(prompt, tag) && exists j: nat :: tag == Candidate(j)
    decreases Pow10(|prompt|) + 1 - k
  {
    if !Contains(prompt, Candidate(k)) then Candidate(k)
    else CandidateBound(prompt, k); FirstFree(prompt, k + 1)
  }

  /** The loop ends for every prompt, because the numbers' digits outgrow it. */
  method HeredocDelimiter(prompt: string) returns (tag: string)
    ensures tag == FirstFree(prompt, 0)
    ensures !Contains(prompt, tag)
  {
    tag := TAG;
    var n := 0;
    while Contains(prompt, tag)
      invariant tag == Candidate(n) && FirstFree(prompt, n) == FirstFree(prompt, 0)
      decreases Pow10(|prompt|) + 1 - n
    {
      CandidateBound(prompt, n);
      tag := TAG + "_" + Decimal(n);
      n := n + 1;
    }
  }

  function CommonWords(h: Harness, autonomy: bool): seq<string> {
    [h.bin] + Truthy(h.runSubcommand) + h.extraArgs + (if autonomy then h.autoApproveArgs else [])
  }

  function FlagWords(h: Harness): seq<string> {
    if h.delivery == Flag then Truthy(h.promptFlag) else []
  }

  function ComposeInteractiveCommand(h: Harness, prompt: string, autonomy: bool): string {
    if h.delivery == Stdin then
      var tag := FirstFree(prompt, 0);
      Join(CommonWords(h, autonomy), ' ') + (" <<" + ("'" + (tag + ("'" + ("\n" + (prompt + (['\n'] + tag)))))))
    else Join(CommonWords(h, autonomy) + FlagWords(h) + [ShellSingleQuote(prompt)], ' ')
  }

  datatype Invocation = Invocation(argv: seq<string>, stdin: Option<string>)

  function ComposeHeadlessArgv(h: Harness, prompt: string, autonomy: bool): Invocation {
    var argv := Truthy(h.runSubcommand) + h.extraArgs + h.outputArgs + (if autonomy then h.autoApproveArgs else []);
    if h.delivery == Stdin then Invocation([h.bin] + argv, Some(prompt))
    else Invocation([h.bin] + (argv + FlagWords(h) + [prompt]), None)
  }

  // ----- A shell's reading -----

  /** Characters with a meaning of their own somewhere outside quotes, white space and quotes aside. */
  predicate IsSpecial(c: char) {
    c in "|&;<>()$`\"*?[]#~=%!{}"
  }

  predicate IsPlain(c: char) {
    c != ' ' && c != '\t' && c != '\n' && c != '\'' && c != '\\' && !IsSpecial(c)
  }

  predicate PlainWord(w: string) {
    w != "" && forall c <- w :: IsPlain(c)
  }

  /** The words up to an unquoted newline or redirection, and the text from there. */
  datatype Lexed = Lexed(words: seq<string>, rest: string) | LexError

  function Emit(cur: Option<string>, l: Lexed): Lexed {
    if cur.Some? && l.Lexed? then l.(words := [cur.value] + l.words) else l
  }

  function Grow(cur: Option<string>, c: string): Option<string> {
    Some((if cur.Some? then cur.value else "") + c)
  }

  /** Reads on outside quotes; `cur` is the word being read, if one has begun. */
  function Lex(s: string, cur: Option<string>): Lexed
    decreases |s|
  {
    if s == "" || s[0] == '\n' || s[0] == '<' then Emit(cur, Lexed([], s))
    else if s[0] == ' ' || s[0] == '\t' then Emit(cur, Lex(s[1..], None))
    else if s[0] == '\'' then LexQuoted(s[1..], if cur.Some? then cur.value else "")
    else if s[0] == '\\' then
      if |s| < 2 then LexError
      else if s[1] == '\n' then Lex(s[2..], cur)
      else Lex(s[2..], Grow(cur, [s[1]]))
    else if IsSpecial(s[0]) then LexError
    else Lex(s[1..], Grow(cur, [s[0]]))
  }

  /** Reads on inside single quotes. */
  function LexQuoted(s: string, cur: string): Lexed
    decreases |s|
  {
    if s == "" then LexError
    else if s[0] == '\'' then Lex(s[1..], Some(cur))
    else LexQuoted(s[1..], cur + [s[0]])
  }

  /** The lines of a here-document up to the one that is exactly the delimiter, each with its newline. */
  function ReadBody(lines: seq<string>, delimiter: string): Option<string> {
    if lines == [] then None
    else if lines[0] == delimiter then Some("")
    else
      var rest := ReadBody(lines[1..], delimiter);
      if rest.None? then None else Some(lines[0] + (['\n'] + rest.value))
  }

  /** A simple command: its words, and its standard input if a quoted-delimiter here-document gives it. */
  function ReadCommand(text: string): Option<Invocation> {
    match Lex(text, None)
    case LexError => None
    case Lexed(words, rest) =>
      if rest == "" then Some(Invocation(words, None))
      else if !("<<'" <= rest) then None
      else match Lex(rest[2..], None)
        case LexError => None
        case Lexed(delimiter, doc) =>
          if |delimiter| != 1 || doc == "" || doc[0] != '\n' then None
          else
            var body := ReadBody(Split(doc[1..], '\n'), delimiter[0]);
            if body.None? then None else Some(Invocation(words, body))
  }

  // ----- Reading back what is composed -----

  lemma {:induction false} LexPlain(cur: Option<string>, w: string, rest: string)
    requires w != "" && forall c <- w :: IsPlain(c)
    ensures Lex(w + rest, cur) == Lex(rest, Grow(cur, w))
    decreases |w|
  {
    var s, base := w + rest, if cur.Some? then cur.value else "";
    assert w[0] in w && s[0] == w[0] && s[1..] == w[1..] + rest;
    if |w| == 1 {
      assert w == [w[0]] && s[1..] == rest;
    } else {
      LexPlain(Grow(cur, [w[0]]), w[1..], rest);
      assert base + [w[0]] + w[1..] == base + w;
    }
  }

  /** Quote removal undoes the escaping, from just inside the opening quote. */
  lemma {:induction false} LexEscaped(cur: string, value: string, rest: string)
    ensures LexQuoted(EscapeQuotes(value) + ("'" + rest), cur) == Lex(rest, Some(cur + value))
    decreases |value|
  {
    if value == "" {
      assert EscapeQuotes(value) + ("'" + rest) == "'" + rest;
      assert ("'" + rest)[1..] == rest && cur + "" == cur;
    } else {
      LexEscaped(cur + [value[0]], value[1..], rest);
      assert cur + [value[0]] + value[1..] == cur + value;
      FirstEscapedReads(cur, value, "'" + rest);
    }
  }

  lemma FirstEscapedReads(cur: string, value: string, rest: string)
    requires value != ""
    ensures LexQuoted(EscapeQuotes(value) + rest, cur) == LexQuoted(EscapeQuotes(value[1..]) + rest, cur + [value[0]])
  {
    var tail := EscapeQuotes(value[1..]) + rest;
    if value[0] == '\'' {
      EscapeReads(cur, tail);
      assert EscapeQuotes(value) + rest == "'\\''" + tail;
    } else {
      OrdinaryReads(cur, value[0], tail);
      assert EscapeQuotes(value) + rest == [value[0]] + tail;
    }
  }

  lemma OrdinaryReads(cur: string, c: char, tail: string)
    requires c != '\''
    ensures LexQuoted([c] + tail, cur) == LexQuoted(tail, cur + [c])
  {
    assert ([c] + tail)[1..] == tail;
  }

  /** `'\''` closes the quotes, adds one quote and opens them again. */
  lemma EscapeReads(cur: string, tail: string)
    ensures LexQuoted("'\\''" + tail, cur) == LexQuoted(tail, cur + ['\''])
  {
    var s := "'\\''" + tail;
    var s1 := s[1..];
    var s3 := s1[2..];
    assert s1[0] == '\\' && s1[1] == '\'' && s3[0] == '\'' && s3[1..] == tail;
    assert LexQuoted(s, cur) == Lex(s1, Some(cur));
    assert Lex(s1, Some(cur)) == Lex(s3, Some(cur + ['\'']));
  }

  lemma QuotedWordReads(value: string, rest: string)
    ensures Lex(ShellSingleQuote(value) + rest, None) == Lex(rest, Some(value))
  {
    var s := ShellSingleQuote(value) + rest;
    assert s[0] == '\'' && s[1..] == EscapeQuotes(value) + ("'" + rest);
    LexEscaped("", value, rest);
    assert "" + value == value;
  }

  /** Every value whatever, single-quoted, is read as one word: itself. */
  lemma SingleQuoteIsOneWord(value: string)
    ensures Lex(ShellSingleQuote(value), None) == Lexed([value], "")
  {
    QuotedWordReads(value, "");
    assert ShellSingleQuote(value) + "" == ShellSingleQuote(value);
    assert [value] + [] == [value];
  }

  lemma PlainThenSpace(w: string, rest: string)
    requires PlainWord(w)
    ensures Lex(w + ([' '] + rest), None) == Emit(Some(w), Lex(rest, None))
  {
    LexPlain(None, w, [' '] + rest);
    assert "" + w == w && ([' '] + rest)[1..] == rest;
  }

  /** Plain words joined by spaces, then one last word given by what it reads as. */
  lemma {:induction false} JoinedReads(words: seq<string>, last: string, l: Lexed)
    requires (forall w <- words :: PlainWord(w)) && Lex(last, None) == l && l.Lexed?
    ensures Lex(Join(words + [last], ' '), None) == Lexed(words + l.words, l.rest)
    decreases |words|
  {
    if words == [] {
      assert words + [last] == [last] && words + l.words == l.words;
    } else {
      var all := words + [last];
      assert all[0] == words[0] && words[0] in words && all[1..] == words[1..] + [last];
      var tail := Join(all[1..], ' ');
      assert Join(all, ' ') == words[0] + ([' '] + tail);
      JoinedReads(words[1..], last, l);
      PlainThenSpace(words[0], tail);
      assert [words[0]] + (words[1..] + l.words) == words + l.words;
    }
  }

  /** The words a harness contributes need no quoting. */
  predicate PlainHarness(h: Harness) {
    && PlainWord(h.bin) && (forall w <- Truthy(h.runSubcommand) + Truthy(h.promptFlag) :: PlainWord(w))
    && (forall w <- h.extraArgs + h.autoApproveArgs :: PlainWord(w))
  }

  lemma WordsArePlain(h: Harness, autonomy: bool)
    requires PlainHarness(h)
    ensures forall w <- CommonWords(h, autonomy) + FlagWords(h) :: PlainWord(w)
  {
    forall w <- CommonWords(h, autonomy) + FlagWords(h)
      ensures PlainWord(w)
    {
      assert w == h.bin || w in Truthy(h.runSubcommand) + Truthy(h.promptFlag) || w in h.extraArgs + h.autoApproveArgs;
    }
  }

  /** The prompt as an argument: a shell reads the composed line as the harness's words and the prompt, unchanged. */
  lemma ArgumentIsDelivered(h: Harness, prompt: string, autonomy: bool)
    requires PlainHarness(h) && h.delivery != Stdin
    ensures ReadCommand(ComposeInteractiveCommand(h, prompt, autonomy))
      == Some(Invocation(CommonWords(h, autonomy) + FlagWords(h) + [prompt], None))
  {
    WordsArePlain(h, autonomy);
    SingleQuoteIsOneWord(prompt);
    JoinedReads(CommonWords(h, autonomy) + FlagWords(h), ShellSingleQuote(prompt), Lexed([prompt], ""));
  }

  lemma ArgvDiffersByOutputArgs(h: Harness, autonomy: bool, tail: seq<string>)
    ensures var auto := if autonomy then h.autoApproveArgs else [];
      var headless := [h.bin] + (Truthy(h.runSubcommand) + h.extraArgs + h.outputArgs + auto + tail);
      (headless == CommonWords(h, autonomy) + tail) <==> h.outputArgs == []
  {
    var auto := if autonomy then h.autoApproveArgs else [];
    var with := [h.bin] + (Truthy(h.runSubcommand) + h.extraArgs + h.outputArgs + auto + tail);
    assert |with| == |CommonWords(h, autonomy) + tail| + |h.outputArgs|;
    if h.outputArgs == [] {
      assert with == CommonWords(h, autonomy) + tail;
    }
  }

  /** So the visible terminal runs exactly the headless argument vector, iff the harness has no output arguments. */
  lemma InteractiveIsHeadlessIff(h: Harness, prompt: string, autonomy: bool)
    requires PlainHarness(h) && h.delivery != Stdin
    ensures h.outputArgs == [] <==>
      ReadCommand(ComposeInteractiveCommand(h, prompt, autonomy)) == Some(ComposeHeadlessArgv(h, prompt, autonomy))
  {
    ArgumentIsDelivered(h, prompt, autonomy);
    ArgvDiffersByOutputArgs(h, autonomy, FlagWords(h) + [prompt]);
    var auto := if autonomy then h.autoApproveArgs else [];
    var argv := Truthy(h.runSubcommand) + h.extraArgs + h.outputArgs + auto;
    assert argv + (FlagWords(h) + [prompt]) == argv + FlagWords(h) + [prompt];
    assert CommonWords(h, autonomy) + (FlagWords(h) + [prompt]) == CommonWords(h, autonomy) + FlagWords(h) + [prompt];
  }

  // ----- Here-documents -----

  lemma {:induction false} BodyReads(lines: seq<string>, delimiter: string)
    requires delimiter !in lines && lines != []
    ensures ReadBody(lines + [delimiter], delimiter) == Some(Join(lines, '\n') + ['\n'])
    decreases |lines|
  {
    var all := lines + [delimiter];
    assert all[0] == lines[0] && all[1..] == lines[1..] + [delimiter];
    if |lines| == 1 {
      assert all[1..] == [delimiter];
      assert lines[0] + (['\n'] + "") == lines[0] + ['\n'];
    } else {
      BodyReads(lines[1..], delimiter);
      var tail := Join(lines[1..], '\n');
      assert lines[0] + (['\n'] + (tail + ['\n'])) == lines[0] + ['\n'] + tail + ['\n'];
    }
  }

  /** A line of the prompt is a part of it, so none is the delimiter. */
  lemma {:induction false} LineIsContained(s: string, line: string)
    requires line in Split(s, '\n')
    ensures Contains(s, line)
    decreases |s|
  {
    var parts := Split(s, '\n');
    if s == "" {
      assert OccursAt(s, line, 0);
    } else {
      var rest := Split(s[1..], '\n');
      var i :| 0 <= i < |parts| && parts[i] == line;
      if s[0] != '\n' && i == 0 {
        FirstLineLeads(s);
        assert OccursAt(s, line, 0);
      } else if s[0] == '\n' && i == 0 {
        assert OccursAt(s, line, 0);
      } else {
        assert line in rest;
        LineIsContained(s[1..], line);
        var j :| 0 <= j <= |s[1..]| && OccursAt(s[1..], line, j);
        assert s[j + 1..j + 1 + |line|] == s[1..][j..j + |line|];
        assert OccursAt(s, line, j + 1);
      }
    }
  }

  lemma {:induction false} FirstLineLeads(s: string)
    ensures Split(s, '\n')[0] <= s
  {
    if s != "" {
      FirstLineLeads(s[1..]);
    }
  }

  lemma TagIsWord(k: nat)
    ensures forall c <- Candidate(k) :: c == '_' || 'A' <= c <= 'Z' || IsDigit(c)
  {
    if k > 0 {
      NumeralHasDigits(k - 1, 10);
    }
  }

  lemma {:induction false} NoQuotesNoEscape(s: string)
    requires '\'' !in s
    ensures EscapeQuotes(s) == s
  {
    if s != "" {
      assert s == [s[0]] + s[1..];
      NoQuotesNoEscape(s[1..]);
    }
  }

  /** What follows the words: the redirection, its quoted delimiter, the prompt and the closing line. */
  function HereDoc(tag: string, prompt: string): string {
    "<<" + ("'" + (tag + ("'" + ("\n" + (prompt + (['\n'] + tag))))))
  }

  lemma HereDocReads(tag: string, prompt: string)
    requires !Contains(prompt, tag) && '\n' !in tag && '\'' !in tag
    ensures var text := HereDoc(tag, prompt);
      && "<<'" <= text
      && Lex(text[2..], None) == Lexed([tag], "\n" + (prompt + (['\n'] + tag)))
      && ReadBody(Split(prompt + (['\n'] + tag), '\n'), tag) == Some(prompt + ['\n'])
  {
    var text, doc := HereDoc(tag, prompt), "\n" + (prompt + (['\n'] + tag));
    assert text[0] == '<' && text[1] == '<' && text[2] == '\'';
    NoQuotesNoEscape(tag);
    assert text[2..] == ShellSingleQuote(tag) + doc;
    QuotedWordReads(tag, doc);
    assert [tag] + [] == [tag];
    SplitConcat(prompt, tag, '\n');
    assert prompt + ['\n'] + tag == prompt + (['\n'] + tag);
    SplitOne(tag, '\n');
    if tag in Split(prompt, '\n') {
      LineIsContained(prompt, tag);
    }
    BodyReads(Split(prompt, '\n'), tag);
    JoinSplit(prompt, '\n');
  }

  /** The prompt on standard input: a here-document reader recovers it whole, with one newline added. */
  lemma StdinIsDelivered(h: Harness, prompt: string, autonomy: bool)
    requires PlainHarness(h) && h.delivery == Stdin
    ensures ReadCommand(ComposeInteractiveCommand(h, prompt, autonomy))
      == Some(Invocation(CommonWords(h, autonomy), Some(prompt + ['\n'])))
  {
    var tag, words := FirstFree(prompt, 0), CommonWords(h, autonomy);
    var k: nat :| tag == Candidate(k);
    TagIsWord(k);
    var doc := HereDoc(tag, prompt);
    HereDocReads(tag, prompt);
    WordsArePlain(h, autonomy);
    forall w <- words
      ensures PlainWord(w)
    {
      assert w in words + FlagWords(h);
    }
    RedirectedReads(words, doc);
    assert ("\n" + (prompt + (['\n'] + tag)))[1..] == prompt + (['\n'] + tag);
    assert [' '] + doc == " <<" + doc[2..];
    assert ComposeInteractiveCommand(h, prompt, autonomy) == Join(words, ' ') + ([' '] + doc);
  }

  lemma RedirectedReads(words: seq<string>, doc: string)
    requires words != [] && (forall w <- words :: PlainWord(w)) && doc != "" && doc[0] == '<'
    ensures Lex(Join(words, ' ') + ([' '] + doc), None) == Lexed(words, doc)
  {
    assert Lex(doc, None) == Lexed([], doc);
    JoinedReads(words, doc, Lexed([], doc));
    JoinLast(words, doc);
    assert words + [] == words;
  }

  lemma {:induction false} JoinLast(words: seq<string>, last: string)
    requires words != []
    ensures Join(words + [last], ' ') == Join(words, ' ') + ([' '] + last)
  {
    var all := words + [last];
    assert all[0] == words[0] && all[1..] == words[1..] + [last];
    if |words| == 1 {
      assert all[1..] == [last];
      assert words[0] + [' '] + last == words[0] + ([' '] + last);
    } else {
      JoinLast(words[1..], last);
    }
  }
}
