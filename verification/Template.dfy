/** Logic-less prompt templates: placeholders, the variables they declare, and rendering. */
module Template {
  import opened Wrappers
  import opened Sorting
  import opened Text

  // ----- Placeholders -----

  predicate IsBrace(c: char) {
    c == '{' || c == '}'
  }

  /** The length of the leading run of non-brace characters. */
  function BodyLength(s: string): (n: nat)
    ensures n <= |s|
  {
    if s == "" || IsBrace(s[0]) then 0 else 1 + BodyLength(s[1..])
  }

  /** The body of a placeholder that `s` starts with: `{{`, no braces, `}}`. */
  function HoleBody(s: string): (r: Option<string>)
    ensures r.Some? ==> Source(Hole(r.value)) <= s
  {
    if !("{{" <= s) then None
    else
      var n := BodyLength(s[2..]);
      if "}}" <= s[2 + n..] then HoleText(s, n); Some(s[2..2 + n]) else None
  }

  lemma HoleText(s: string, n: nat)
    requires "{{" <= s && n <= |s| - 2 && "}}" <= s[2 + n..]
    ensures Source(Hole(s[2..2 + n])) <= s
  {
    var src := Source(Hole(s[2..2 + n]));
    assert s[2 + n..][0] == '}' && s[2 + n..][1] == '}';
    assert src == s[..n + 4];
  }

  datatype Segment = Literal(c: char) | Hole(body: string)

  function Source(seg: Segment): string {
    match seg
    case Literal(c) => [c]
    case Hole(body) => "{{" + body + "}}"
  }

  /**
   * Placeholders found from left to right, never overlapping, and the characters between them. `escaped`:
   * the character before `s` is a backslash, so that `s` starts no placeholder.
   */
  function Segments(s: string, escaped: bool): seq<Segment>
    decreases |s|
  {
    if s == "" then []
    else
      var body := HoleBody(s);
      if !escaped && body.Some? then [Hole(body.value)] + Segments(s[|body.value| + 4..], false)
      else [Literal(s[0])] + Segments(s[1..], s[0] == '\\')
  }

  function SegmentsOf(text: string): seq<Segment> {
    Segments(text, false)
  }

  function Sources(segs: seq<Segment>): string {
    if segs == [] then "" else Source(segs[0]) + Sources(segs[1..])
  }

  /** The segments are the text, cut up. */
  lemma {:induction false} SegmentsLoseNothing(s: string, escaped: bool)
    ensures Sources(Segments(s, escaped)) == s
    decreases |s|
  {
    if s != "" {
      var body := HoleBody(s);
      if !escaped && body.Some? {
        SegmentsLoseNothing(s[|body.value| + 4..], false);
        SourcesStep(Hole(body.value), Segments(s[|body.value| + 4..], false));
        HoleSplits(s, body.value);
      } else {
        SegmentsLoseNothing(s[1..], s[0] == '\\');
        SourcesStep(Literal(s[0]), Segments(s[1..], s[0] == '\\'));
        assert s == [s[0]] + s[1..];
      }
    }
  }

  lemma SourcesStep(seg: Segment, rest: seq<Segment>)
    ensures Sources([seg] + rest) == Source(seg) + Sources(rest)
  {
  }

  lemma HoleSplits(s: string, body: string)
    requires Source(Hole(body)) <= s
    ensures |body| + 4 <= |s| && s == Source(Hole(body)) + s[|body| + 4..]
  {
  }

  datatype Placeholder = Placeholder(name: string, default: Option<string>, description: Option<string>)

  /** What precedes the first `c`, and what follows it if there is one. */
  function Cut(s: string, c: char): (string, Option<string>) {
    if s == "" then ("", None)
    else if s[0] == c then ("", Some(s[1..]))
    else var (head, tail) := Cut(s[1..], c); ([s[0]] + head, tail)
  }

  function TrimOption(o: Option<string>): Option<string> {
    if o.Some? then Some(Trim(o.value)) else None
  }

  /** `name[:default][|description]`; `None` when the name is blank. */
  function ParsePlaceholderBody(body: string): Option<Placeholder> {
    var (head, description) := Cut(body, '|');
    var (name, default) := Cut(head, ':');
    if Trim(name) == "" then None else Some(Placeholder(Trim(name), TrimOption(default), TrimOption(description)))
  }

  /** The placeholders with a name, in order. */
  function Placeholders(segs: seq<Segment>): seq<Placeholder> {
    if segs == [] then []
    else
      var p := if segs[0].Hole? then ParsePlaceholderBody(segs[0].body) else None;
      (if p.Some? then [p.value] else []) + Placeholders(segs[1..])
  }

  // ----- Variables -----

  function Names(ps: seq<Placeholder>): seq<string> {
    seq(|ps|, i requires 0 <= i < |ps| => ps[i].name)
  }

  /** The first default given for `name`. */
  function FirstDefault(ps: seq<Placeholder>, name: string): Option<string> {
    if ps == [] then None
    else var n := |ps| - 1; Or(FirstDefault(ps[..n], name), if ps[n].name == name then ps[n].default else None)
  }

  function FirstDescription(ps: seq<Placeholder>, name: string): Option<string> {
    if ps == [] then None
    else var n := |ps| - 1; Or(FirstDescription(ps[..n], name), if ps[n].name == name then ps[n].description else None)
  }

  /** One variable per distinct name, in order of first occurrence, with the first default and description given. */
  function Variables(ps: seq<Placeholder>): seq<Placeholder> {
    var names := FirstSeen(Names(ps));
    seq(|names|, i requires 0 <= i < |names| => Variable(ps, names[i]))
  }

  function Variable(ps: seq<Placeholder>, name: string): Placeholder {
    Placeholder(name, FirstDefault(ps, name), FirstDescription(ps, name))
  }

  /** What the loop's `byName` map holds after the placeholders `seen`. */
  ghost predicate Gathered(byName: map<string, Placeholder>, order: seq<string>, seen: seq<Placeholder>) {
    && order == FirstSeen(Names(seen))
    && (forall name :: name in byName <==> name in Names(seen))
    && (forall name <- byName :: byName[name] == Variable(seen, name))
  }

  lemma Gather(byName: map<string, Placeholder>, order: seq<string>, seen: seq<Placeholder>, p: Placeholder)
    requires Gathered(byName, order, seen)
    ensures p.name !in byName ==> Gathered(byName[p.name := p], order + [p.name], seen + [p])
    ensures p.name in byName ==>
      var old_ := byName[p.name];
      Gathered(byName[p.name := Placeholder(p.name, Or(old_.default, p.default), Or(old_.description, p.description))], order, seen + [p])
  {
    var seen' := seen + [p];
    assert Names(seen') == Names(seen) + [p.name];
    FirstSeenOrder(Names(seen), p.name);
    assert seen'[..|seen|] == seen;
    forall name
      ensures Variable(seen', name) == if name != p.name then Variable(seen, name)
        else Placeholder(name, Or(FirstDefault(seen, name), p.default), Or(FirstDescription(seen, name), p.description))
    {
    }
    if p.name !in byName {
      NothingFirst(seen, p.name);
    }
  }

  lemma {:induction false} NothingFirst(ps: seq<Placeholder>, name: string)
    requires name !in Names(ps)
    ensures FirstDefault(ps, name).None? && FirstDescription(ps, name).None?
  {
    if ps != [] {
      var n := |ps| - 1;
      assert Names(ps)[n] == ps[n].name;
      assert Names(ps[..n]) == Names(ps)[..n];
      NothingFirst(ps[..n], name);
    }
  }

  method ParseTemplateVars(text: string) returns (vars: seq<Placeholder>)
    ensures vars == Variables(Placeholders(SegmentsOf(text)))
  {
    var matches := Placeholders(SegmentsOf(text));
    var order, byName := GatherAll(matches);
    vars := InOrder(order, byName, matches);
  }

  /** The final `map` over the order list. */
  method InOrder(order: seq<string>, byName: map<string, Placeholder>, ghost matches: seq<Placeholder>) returns (vars: seq<Placeholder>)
    requires Gathered(byName, order, matches)
    ensures vars == Variables(matches)
  {
    AddUnseenIsDistinct([], Names(matches));
    vars := [];
    for i := 0 to |order|
      invariant |vars| == i && forall k | 0 <= k < i :: vars[k] == Variable(matches, order[k])
    {
      assert order[i] in order;
      vars := vars + [byName[order[i]]];
    }
  }

  /** The loop over the matches. */
  method GatherAll(matches: seq<Placeholder>) returns (order: seq<string>, byName: map<string, Placeholder>)
    ensures Gathered(byName, order, matches)
  {
    order, byName := [], map[];
    for i := 0 to |matches|
      invariant Gathered(byName, order, matches[..i])
    {
      var parsed := matches[i];
      assert matches[..i + 1] == matches[..i] + [parsed];
      Gather(byName, order, matches[..i], parsed);
      if parsed.name !in byName {
        order := order + [parsed.name];
        byName := byName[parsed.name := parsed];
      } else {
        var existing := byName[parsed.name];
        byName := byName[parsed.name :=
          Placeholder(parsed.name, Or(existing.default, parsed.default), Or(existing.description, parsed.description))];
      }
    }
    assert matches[..|matches|] == matches;
  }

  /** The variables have distinct names: exactly those some placeholder has. */
  lemma VariablesAreDistinct(ps: seq<Placeholder>)
    ensures var vars := Variables(ps);
      && Distinct(Names(vars)) && forall name :: name in Names(vars) <==> name in Names(ps)
  {
    AddUnseenIsDistinct([], Names(ps));
    assert Names(Variables(ps)) == FirstSeen(Names(ps));
  }

  // ----- Rendering -----

  function Resolve(seg: Segment, values: map<string, string>): string {
    match seg
    case Literal(c) => [c]
    case Hole(body) =>
      var p := ParsePlaceholderBody(body);
      if p.None? then Source(seg)
      else if p.value.name in values then values[p.value.name]
      else if p.value.default.Some? then p.value.default.value else ""
  }

  /** The literal text interleaved with the resolved values. */
  function Interleave(segs: seq<Segment>, values: map<string, string>): string {
    if segs == [] then "" else Resolve(segs[0], values) + Interleave(segs[1..], values)
  }

  const ESCAPED := "\\{{"

  function Unescape(s: string): string
    decreases |s|
  {
    if s == "" then ""
    else if ESCAPED <= s then "{{" + Unescape(s[3..])
    else [s[0]] + Unescape(s[1..])
  }

  function RenderTemplate(text: string, values: map<string, string>): string {
    Unescape(Interleave(SegmentsOf(text), values))
  }

  ghost predicate AgreeOn(v: map<string, string>, w: map<string, string>, names: seq<string>) {
    forall name <- names :: (name in v <==> name in w) && (name in v ==> v[name] == w[name])
  }

  lemma {:induction false} InterleaveReadsNames(segs: seq<Segment>, v: map<string, string>, w: map<string, string>)
    requires AgreeOn(v, w, Names(Placeholders(segs)))
    ensures Interleave(segs, v) == Interleave(segs, w)
  {
    if segs != [] {
      var ps, rest := Placeholders(segs), Placeholders(segs[1..]);
      assert forall x <- Names(rest) :: x in Names(ps) by {
        assert Names(ps)[|ps| - |rest|..] == Names(rest);
      }
      InterleaveReadsNames(segs[1..], v, w);
      if segs[0].Hole? && ParsePlaceholderBody(segs[0].body).Some? {
        assert Names(ps)[0] == ParsePlaceholderBody(segs[0].body).value.name;
      }
    }
  }

  /** Rendering reads nothing but the values of the declared variables. */
  lemma RenderReadsVariablesOnly(text: string, v: map<string, string>, w: map<string, string>)
    requires AgreeOn(v, w, Names(Variables(Placeholders(SegmentsOf(text)))))
    ensures RenderTemplate(text, v) == RenderTemplate(text, w)
  {
    var ps := Placeholders(SegmentsOf(text));
    VariablesAreDistinct(ps);
    InterleaveReadsNames(SegmentsOf(text), v, w);
  }

  lemma ContainsFirst(s: string, t: string)
    requires t <= s
    ensures Contains(s, t)
  {
    assert OccursAt(s, t, 0);
  }

  lemma ContainsStep(s: string, t: string)
    requires s != "" && !(t <= s)
    ensures Contains(s, t) <==> Contains(s[1..], t)
  {
    if i :| 0 <= i <= |s| && OccursAt(s, t, i) {
      assert s[1..][i - 1..i - 1 + |t|] == s[i..i + |t|];
      assert OccursAt(s[1..], t, i - 1);
    }
    if i :| 0 <= i <= |s[1..]| && OccursAt(s[1..], t, i) {
      assert s[1..][i..i + |t|] == s[i + 1..i + 1 + |t|];
      assert OccursAt(s, t, i + 1);
    }
  }

  lemma {:induction false} UnescapeShortens(s: string)
    ensures |Unescape(s)| <= |s| && (Unescape(s) == s <==> !Contains(s, ESCAPED))
    ensures Contains(s, ESCAPED) ==> |Unescape(s)| < |s|
    decreases |s|
  {
    if s == "" {
    } else if ESCAPED <= s {
      UnescapeShortens(s[3..]);
      ContainsFirst(s, ESCAPED);
    } else {
      UnescapeShortens(s[1..]);
      ContainsStep(s, ESCAPED);
      assert s == [s[0]] + s[1..];
    }
  }

  // ----- What rendering is meant to give -----

  /** A character of the text to unescape: the template's own, or part of a value or default put in. */
  datatype Glyph = Own(c: char) | Inserted(c: char)

  function Owned(s: string): seq<Glyph> {
    seq(|s|, i requires 0 <= i < |s| => Own(s[i]))
  }

  function InsertedAll(s: string): seq<Glyph> {
    seq(|s|, i requires 0 <= i < |s| => Inserted(s[i]))
  }

  /** Where each character of the interleaving comes from; a placeholder without a name stays as written. */
  function Glyphs(segs: seq<Segment>, values: map<string, string>): seq<Glyph> {
    if segs == [] then []
    else
      var kept := segs[0].Literal? || ParsePlaceholderBody(segs[0].body).None?;
      (if kept then Owned(Resolve(segs[0], values)) else InsertedAll(Resolve(segs[0], values))) + Glyphs(segs[1..], values)
  }

  function Plain(gs: seq<Glyph>): string {
    seq(|gs|, i requires 0 <= i < |gs| => gs[i].c)
  }

  lemma {:induction false} GlyphsSpellInterleave(segs: seq<Segment>, values: map<string, string>)
    ensures Plain(Glyphs(segs, values)) == Interleave(segs, values)
  {
    if segs != [] {
      GlyphsSpellInterleave(segs[1..], values);
    }
  }

  /** `\{{` stands at `i`. */
  predicate EscapeAt(gs: seq<Glyph>, i: nat) {
    i + 3 <= |gs| && gs[i].c == '\\' && gs[i + 1].c == '{' && gs[i + 2].c == '{'
  }

  predicate OwnEscapeAt(gs: seq<Glyph>, i: nat) {
    EscapeAt(gs, i) && gs[i].Own? && gs[i + 1].Own? && gs[i + 2].Own?
  }

  /** The template's own `\{{` becomes `{{`, and everything else, inserted text above all, is kept. */
  function Intended(gs: seq<Glyph>): string
    decreases |gs|
  {
    if gs == [] then ""
    else if OwnEscapeAt(gs, 0) then "{{" + Intended(gs[3..])
    else [gs[0].c] + Intended(gs[1..])
  }

  /** Inserted text is kept, whatever it holds. */
  lemma {:induction false} InsertedIsKept(v: string, gs: seq<Glyph>)
    ensures Intended(InsertedAll(v) + gs) == v + Intended(gs)
    decreases |v|
  {
    var all := InsertedAll(v) + gs;
    if v == "" {
      assert all == gs && v + Intended(gs) == Intended(gs);
    } else {
      InsertedIsKept(v[1..], gs);
      assert all[0] == Inserted(v[0]) && all[1..] == InsertedAll(v[1..]) + gs;
      assert [v[0]] + (v[1..] + Intended(gs)) == v + Intended(gs);
    }
  }

  /** Every escape is wholly the template's own. */
  ghost predicate EscapesAreOwn(gs: seq<Glyph>) {
    forall i: nat | EscapeAt(gs, i) :: OwnEscapeAt(gs, i)
  }

  lemma EscapesAfter(gs: seq<Glyph>, n: nat)
    requires n <= |gs| && forall i: nat | i < n && EscapeAt(gs, i) :: OwnEscapeAt(gs, i)
    ensures EscapesAreOwn(gs) <==> EscapesAreOwn(gs[n..])
  {
    if EscapesAreOwn(gs[n..]) {
      forall i: nat | EscapeAt(gs, i)
        ensures OwnEscapeAt(gs, i)
      {
        assert i >= n ==> EscapeAt(gs[n..], i - n);
      }
    }
    if EscapesAreOwn(gs) {
      forall i: nat | EscapeAt(gs[n..], i)
        ensures OwnEscapeAt(gs[n..], i)
      {
        assert EscapeAt(gs, n + i);
      }
    }
  }

  lemma PlainStarts(gs: seq<Glyph>)
    ensures ESCAPED <= Plain(gs) <==> EscapeAt(gs, 0)
    ensures |gs| >= 3 ==> Plain(gs)[3..] == Plain(gs[3..])
    ensures gs != [] ==> Plain(gs)[0] == gs[0].c && Plain(gs)[1..] == Plain(gs[1..])
  {
    var s := Plain(gs);
    assert ESCAPED[0] == '\\' && ESCAPED[1] == '{' && ESCAPED[2] == '{';
    if ESCAPED <= s {
      assert s[0] == ESCAPED[0] && s[1] == ESCAPED[1] && s[2] == ESCAPED[2];
    }
    if EscapeAt(gs, 0) {
      assert s[..3] == ESCAPED;
    }
  }

  /** Unescaping in one pass is never longer than what is meant, and is it exactly if every escape is the template's own. */
  lemma {:induction false} UnescapeIsIntendedIff(gs: seq<Glyph>)
    ensures |Unescape(Plain(gs))| <= |Intended(gs)|
    ensures EscapesAreOwn(gs) ==> Unescape(Plain(gs)) == Intended(gs)
    ensures !EscapesAreOwn(gs) ==> |Unescape(Plain(gs))| < |Intended(gs)|
    decreases |gs|
  {
    PlainStarts(gs);
    if gs == [] {
    } else if EscapeAt(gs, 0) {
      UnescapeIsIntendedIff(gs[3..]);
      if OwnEscapeAt(gs, 0) {
        EscapesAfter(gs, 3);
      } else {
        ForeignEscapeKept(gs);
      }
    } else {
      UnescapeIsIntendedIff(gs[1..]);
      EscapesAfter(gs, 1);
    }
  }

  lemma ForeignEscapeKept(gs: seq<Glyph>)
    requires EscapeAt(gs, 0) && !OwnEscapeAt(gs, 0)
    ensures Intended(gs) == "\\{{" + Intended(gs[3..])
  {
    assert gs[1..][1..] == gs[2..] && gs[2..][1..] == gs[3..];
    assert Intended(gs[2..]) == "{" + Intended(gs[3..]);
    assert Intended(gs[1..]) == "{" + Intended(gs[2..]);
  }

  /**
   * For every template and all values: given the placeholders that the scanner finds, the text is unescaped
   * as intended exactly when each `\{{` of the substituted text lies wholly in the template's own text, and
   * is not held by a value or made up by a value and its surroundings.
   */
  lemma RenderIsIntendedIff(text: string, values: map<string, string>)
    ensures var gs := Glyphs(SegmentsOf(text), values);
      RenderTemplate(text, values) == Intended(gs) <==> EscapesAreOwn(gs)
  {
    GlyphsSpellInterleave(SegmentsOf(text), values);
    UnescapeIsIntendedIff(Glyphs(SegmentsOf(text), values));
  }

  /** Rendering is the plain interleaving exactly when there is no escape at all. */
  lemma RenderIsInterleaveIff(text: string, values: map<string, string>)
    ensures var literal := Interleave(SegmentsOf(text), values);
      RenderTemplate(text, values) == literal <==> !Contains(literal, ESCAPED)
  {
    UnescapeShortens(Interleave(SegmentsOf(text), values));
  }

  lemma {:induction false} CutParts(s: string, c: char)
    ensures var (head, tail) := Cut(s, c);
      forall x | x in head || (tail.Some? && x in tail.value) :: x in s
  {
    if s != "" {
      CutParts(s[1..], c);
      assert forall x :: x in s <==> x == s[0] || x in s[1..];
    }
  }

  lemma {:induction false} TrimLeftParts(s: string)
    ensures forall x <- TrimLeft(s) :: x in s
  {
    if s != "" && IsSpace(s[0]) {
      TrimLeftParts(s[1..]);
    }
  }

  lemma TrimParts(s: string)
    ensures forall x <- Trim(s) :: x in s
  {
    TrimLeftParts(TrimRight(s));
    assert TrimRight(s) <= s;
  }

  lemma ResolveParts(seg: Segment, values: map<string, string>)
    ensures forall x <- Resolve(seg, values) :: x in Source(seg) || exists name <- values :: x in values[name]
  {
    if seg.Hole? {
      var p := ParsePlaceholderBody(seg.body);
      var (head, description) := Cut(seg.body, '|');
      CutParts(seg.body, '|');
      CutParts(head, ':');
      var default := Cut(head, ':').1;
      if default.Some? {
        TrimParts(default.value);
      }
      assert forall x <- seg.body :: x in Source(seg);
    }
  }

  lemma {:induction false} InterleaveParts(segs: seq<Segment>, values: map<string, string>)
    ensures forall x <- Interleave(segs, values) :: x in Sources(segs) || exists name <- values :: x in values[name]
  {
    if segs != [] {
      ResolveParts(segs[0], values);
      InterleaveParts(segs[1..], values);
    }
  }

  /**
   * With no backslash in the text and the values, rendering is the interleaving: in particular a value
   * holding `{{x}}` is inserted as it is, and never expanded.
   */
  lemma BackslashFreeIsLiteral(text: string, values: map<string, string>)
    requires '\\' !in text && forall name <- values :: '\\' !in values[name]
    ensures RenderTemplate(text, values) == Interleave(SegmentsOf(text), values)
  {
    var literal := Interleave(SegmentsOf(text), values);
    InterleaveParts(SegmentsOf(text), values);
    SegmentsLoseNothing(text, false);
    NoBackslashNoEscape(literal);
    RenderIsInterleaveIff(text, values);
  }

  lemma NoBackslashNoEscape(s: string)
    requires '\\' !in s
    ensures !Contains(s, ESCAPED)
  {
    forall i | 0 <= i <= |s|
      ensures !OccursAt(s, ESCAPED, i)
    {
      if i + 3 <= |s| {
        assert s[i] in s && s[i..i + 3][0] == s[i];
      }
    }
  }
}
