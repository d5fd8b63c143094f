/**
 * What rendering promises: `\{{` is a literal `{{`, never the start of a placeholder, and values are inserted
 * literally; when the code keeps it, and the two ways in which it fails.
 */
module TemplatePromise {
  import opened Wrappers
  import opened Sorting
  import opened Text
  import opened Template

  // ----- The promise -----

  const EscapeSegments := [Literal('\\'), Literal('{'), Literal('{')]

  /** The text as it is meant to be read: at each `\{{` the escape comes first, and only then a placeholder. */
  function MeantSegments(s: string): seq<Segment>
    decreases |s|
  {
    if s == "" then []
    else if ESCAPED <= s then EscapeSegments + MeantSegments(s[3..])
    else
      var body := HoleBody(s);
      if body.Some? then [Hole(body.value)] + MeantSegments(s[|body.value| + 4..])
      else [Literal(s[0])] + MeantSegments(s[1..])
  }

  function Promised(text: string, values: map<string, string>): string {
    Intended(Glyphs(MeantSegments(text), values))
  }

  // ----- What the code reads -----

  /** At `i` stands an escape whose second brace begins what looks like a placeholder. */
  predicate OverlapAt(s: string, i: nat) {
    i + 3 <= |s| && s[i] == '\\' && s[i + 1] == '{' && s[i + 2] == '{' && HoleBody(s[i + 2..]).Some?
  }

  ghost predicate NoOverlap(s: string) {
    forall i: nat :: !OverlapAt(s, i)
  }

  lemma NoOverlapAfter(s: string, n: nat)
    requires n <= |s| && forall i: nat | i < n :: !OverlapAt(s, i)
    ensures NoOverlap(s) <==> NoOverlap(s[n..])
  {
    forall i: nat
      ensures OverlapAt(s[n..], i) <==> OverlapAt(s, n + i)
    {
      if n + i + 3 <= |s| {
        assert s[n..][i + 2..] == s[n + i + 2..];
      }
    }
    if NoOverlap(s[n..]) {
      forall i: nat
        ensures !OverlapAt(s, i)
      {
        assert i >= n ==> !OverlapAt(s[n..], i - n);
      }
    }
  }

  lemma {:induction false} BodyHasNoBrace(s: string, i: nat)
    requires i < BodyLength(s)
    ensures !IsBrace(s[i])
  {
    if i > 0 {
      BodyHasNoBrace(s[1..], i - 1);
    }
  }

  /** No escape begins within a placeholder. */
  lemma HoleHasNoOverlap(s: string, i: nat)
    requires HoleBody(s).Some? && i < |HoleBody(s).value| + 4
    ensures !OverlapAt(s, i)
  {
    var n := |HoleBody(s).value|;
    assert s[0] == '{' && s[1] == '{' && n == BodyLength(s[2..]);
    assert s[n + 2] == s[2 + n..][0] == '}' && s[n + 3] == s[2 + n..][1] == '}';
    if 2 <= i < n + 1 {
      BodyHasNoBrace(s[2..], i - 1);
    }
  }

  /** One step of the scan. */
  datatype Head = AtEscape | AtOverlap | AtHole(body: string) | AtChar

  function HeadOf(s: string): Head
    requires s != ""
  {
    if ESCAPED <= s then (if HoleBody(s[2..]).Some? then AtOverlap else AtEscape)
    else if HoleBody(s).Some? then AtHole(HoleBody(s).value)
    else AtChar
  }

  /** What the two readings have in common at the head of `s`, and how much of it that is. */
  function HeadSegments(s: string): seq<Segment>
    requires s != "" && !HeadOf(s).AtOverlap?
  {
    match HeadOf(s)
    case AtEscape => EscapeSegments
    case AtHole(body) => [Hole(body)]
    case AtChar => [Literal(s[0])]
  }

  function HeadLength(s: string): (n: nat)
    requires s != "" && !HeadOf(s).AtOverlap?
    ensures 0 < n <= |s|
  {
    match HeadOf(s)
    case AtEscape => 3
    case AtHole(body) => |body| + 4
    case AtChar => 1
  }

  /** Both readings take the head and go on with the rest, where any overlap must be. */
  ghost predicate GoesOn(s: string, head: seq<Segment>, rest: string) {
    && (NoOverlap(s) <==> NoOverlap(rest))
    && SegmentsOf(s) == head + SegmentsOf(rest) && MeantSegments(s) == head + MeantSegments(rest)
  }

  lemma Steps(s: string)
    requires s != "" && !HeadOf(s).AtOverlap?
    ensures GoesOn(s, HeadSegments(s), s[HeadLength(s)..])
  {
    match HeadOf(s) {
      case AtEscape => EscapeGoesOn(s);
      case AtHole(body) => HoleGoesOn(s, body);
      case AtChar => CharGoesOn(s);
    }
  }

  lemma EscapeGoesOn(s: string)
    requires s != "" && HeadOf(s).AtEscape?
    ensures GoesOn(s, EscapeSegments, s[3..])
  {
    EscapeStep(s);
    NoOverlapAfter(s, 3);
  }

  lemma HoleGoesOn(s: string, body: string)
    requires s != "" && HeadOf(s) == AtHole(body)
    ensures GoesOn(s, [Hole(body)], s[|body| + 4..])
  {
    forall i: nat | i < |body| + 4
      ensures !OverlapAt(s, i)
    {
      HoleHasNoOverlap(s, i);
    }
    NoOverlapAfter(s, |body| + 4);
  }

  lemma CharGoesOn(s: string)
    requires s != "" && HeadOf(s).AtChar?
    ensures GoesOn(s, [Literal(s[0])], s[1..])
  {
    CharStep(s);
    NoOverlapAfter(s, 1);
  }

  lemma EscapeIff(s: string)
    ensures ESCAPED <= s <==> |s| >= 3 && s[0] == '\\' && s[1] == '{' && s[2] == '{'
  {
    if |s| >= 3 {
      assert s[..3] == [s[0], s[1], s[2]] && ESCAPED == ['\\', '{', '{'];
    }
  }

  lemma DoubleBraceIff(s: string)
    ensures "{{" <= s <==> |s| >= 2 && s[0] == '{' && s[1] == '{'
  {
    if |s| >= 2 {
      assert s[..2] == [s[0], s[1]] && "{{" == ['{', '{'];
    }
  }

  lemma EscapeChars(s: string)
    requires ESCAPED <= s
    ensures s[0] == '\\' && s[1] == '{' && s[2] == '{' && s[1..][1..] == s[2..] && s[2..][1..] == s[3..]
    ensures HoleBody(s) == None
  {
    assert s[0] == ESCAPED[0] && s[1] == ESCAPED[1] && s[2] == ESCAPED[2];
  }

  lemma CharScans(c: char, rest: string, escaped: bool)
    requires escaped || c != '{'
    ensures Segments([c] + rest, escaped) == [Literal(c)] + Segments(rest, c == '\\')
  {
    var s := [c] + rest;
    assert s[0] == c && s[1..] == rest;
  }

  /** The scanner takes the escape's backslash and first brace alone. */
  lemma EscapeBegins(s: string)
    requires ESCAPED <= s
    ensures SegmentsOf(s) == [Literal('\\'), Literal('{')] + SegmentsOf(s[2..])
  {
    EscapeChars(s);
    assert s == "\\" + ("{" + s[2..]);
    CharScans('\\', "{" + s[2..], false);
    CharScans('{', s[2..], true);
    assert [Literal('\\')] + ([Literal('{')] + SegmentsOf(s[2..])) == [Literal('\\'), Literal('{')] + SegmentsOf(s[2..]);
  }

  lemma EscapeStep(s: string)
    requires s != "" && HeadOf(s).AtEscape?
    ensures SegmentsOf(s) == EscapeSegments + SegmentsOf(s[3..])
    ensures !OverlapAt(s, 0) && !OverlapAt(s, 1) && !OverlapAt(s, 2)
  {
    EscapeChars(s);
    EscapeBegins(s);
    assert Segments(s[2..], false) == [Literal('{')] + Segments(s[3..], false);
    Regroup(Literal('\\'), Literal('{'), Literal('{'), SegmentsOf(s[3..]));
  }

  lemma Regroup(a: Segment, b: Segment, c: Segment, rest: seq<Segment>)
    ensures [a, b] + ([c] + rest) == [a, b, c] + rest
  {
  }

  lemma CharStep(s: string)
    requires s != "" && HeadOf(s).AtChar?
    ensures SegmentsOf(s) == [Literal(s[0])] + SegmentsOf(s[1..]) && !OverlapAt(s, 0)
  {
    if s[0] == '\\' {
      NotEscaped(s);
    }
  }

  /** A backslash before anything but two braces changes nothing. */
  lemma NotEscaped(s: string)
    requires s != "" && s[0] == '\\' && !(ESCAPED <= s)
    ensures Segments(s[1..], true) == SegmentsOf(s[1..]) && !OverlapAt(s, 0)
  {
    EscapeIff(s);
    DoubleBraceIff(s[1..]);
  }

  /** Where there is an overlap, the scanner finds a placeholder that is not meant. */
  lemma OverlapStep(s: string) returns (body: string, rest: seq<Segment>)
    requires s != "" && HeadOf(s).AtOverlap?
    ensures !NoOverlap(s)
    ensures SegmentsOf(s) == SplitEscape(body, rest) && SegmentsOf(s)[2] == Hole(body)
    ensures MeantSegments(s) == EscapeSegments + MeantSegments(s[3..])
  {
    EscapeChars(s);
    EscapeBegins(s);
    assert OverlapAt(s, 0);
    body := HoleBody(s[2..]).value;
    rest := SegmentsOf(s[2..][|body| + 4..]);
    assert SegmentsOf(s[2..]) == [Hole(body)] + rest;
    NestTwo(Literal('\\'), Literal('{'), [Hole(body)] + rest);
  }

  /** What the scanner makes of an overlap. */
  function SplitEscape(body: string, rest: seq<Segment>): seq<Segment> {
    [Literal('\\')] + ([Literal('{')] + ([Hole(body)] + rest))
  }

  lemma NestTwo(a: Segment, b: Segment, rest: seq<Segment>)
    ensures [a, b] + rest == [a] + ([b] + rest)
  {
  }

  /** The scanner finds exactly the placeholders that are meant iff no escape's second brace begins another. */
  lemma {:induction false} ReadAsMeantIff(s: string)
    ensures SegmentsOf(s) == MeantSegments(s) <==> NoOverlap(s)
    decreases |s|
  {
    if s == "" {
    } else if HeadOf(s).AtOverlap? {
      var body, rest := OverlapStep(s);
      assert MeantSegments(s)[2] == Literal('{');
    } else {
      var head, rest := HeadSegments(s), s[HeadLength(s)..];
      Steps(s);
      ReadAsMeantIff(rest);
      SameTails(head, SegmentsOf(rest), MeantSegments(rest));
    }
  }

  lemma SameTails<T>(head: seq<T>, a: seq<T>, b: seq<T>)
    ensures head + a == head + b <==> a == b
  {
    assert (head + a)[|head|..] == a && (head + b)[|head|..] == b;
  }

  // ----- What is meant, piece by piece -----

  lemma OwnIsKept(c: char, gs: seq<Glyph>)
    requires c != '\\'
    ensures Intended([Own(c)] + gs) == [c] + Intended(gs)
  {
    assert ([Own(c)] + gs)[1..] == gs;
  }

  lemma DoubleBraceIsMeant(gs: seq<Glyph>)
    ensures Intended([Own('\\'), Own('{'), Own('{')] + gs) == "{{" + Intended(gs)
  {
    assert ([Own('\\'), Own('{'), Own('{')] + gs)[3..] == gs;
  }

  lemma GlyphsOfLiteral(c: char, rest: seq<Segment>, values: map<string, string>)
    ensures Glyphs([Literal(c)] + rest, values) == [Own(c)] + Glyphs(rest, values)
  {
    assert ([Literal(c)] + rest)[1..] == rest;
    assert Owned([c]) == [Own(c)];
  }

  lemma GlyphsOfEscape(rest: seq<Segment>, values: map<string, string>)
    ensures Glyphs(EscapeSegments + rest, values) == [Own('\\'), Own('{'), Own('{')] + Glyphs(rest, values)
  {
    var r1 := [Literal('{')] + rest;
    var r2 := [Literal('{')] + r1;
    assert EscapeSegments + rest == [Literal('\\')] + r2;
    GlyphsOfLiteral('{', rest, values);
    GlyphsOfLiteral('{', r1, values);
    GlyphsOfLiteral('\\', r2, values);
  }

  lemma GlyphsOfNamed(body: string, rest: seq<Segment>, values: map<string, string>)
    requires ParsePlaceholderBody(body).Some?
    ensures Glyphs([Hole(body)] + rest, values) == InsertedAll(Resolve(Hole(body), values)) + Glyphs(rest, values)
  {
    assert ([Hole(body)] + rest)[1..] == rest;
  }

  // ----- When the promise is kept -----

  /** Where the scanner reads what is meant, the promise is kept iff every escape is the template's own. */
  lemma KeptIffEscapesAreOwn(text: string, values: map<string, string>)
    requires NoOverlap(text)
    ensures RenderTemplate(text, values) == Promised(text, values) <==> EscapesAreOwn(Glyphs(SegmentsOf(text), values))
  {
    ReadAsMeantIff(text);
    RenderIsIntendedIff(text, values);
  }

  predicate Harmless(s: string) {
    '\\' !in s && '{' !in s
  }

  lemma {:induction false} InsertedIsHarmless(segs: seq<Segment>, values: map<string, string>)
    requires forall name <- values :: Harmless(values[name])
    requires forall p <- Placeholders(segs) :: p.default.Some? ==> Harmless(p.default.value)
    ensures forall g <- Glyphs(segs, values) :: g.Inserted? ==> g.c != '\\' && g.c != '{'
  {
    if segs != [] {
      var p := if segs[0].Hole? then ParsePlaceholderBody(segs[0].body) else None;
      assert Placeholders(segs) == (if p.Some? then [p.value] else []) + Placeholders(segs[1..]);
      InsertedIsHarmless(segs[1..], values);
      if p.Some? {
        assert p.value in Placeholders(segs);
        assert Harmless(Resolve(segs[0], values));
      }
    }
  }

  /** With no backslash and no opening brace in the values and defaults, only an overlap can break the promise. */
  lemma HarmlessValuesAreSafe(text: string, values: map<string, string>)
    requires forall name <- values :: Harmless(values[name])
    requires forall p <- Placeholders(SegmentsOf(text)) :: p.default.Some? ==> Harmless(p.default.value)
    ensures RenderTemplate(text, values) == Intended(Glyphs(SegmentsOf(text), values))
    ensures NoOverlap(text) ==> RenderTemplate(text, values) == Promised(text, values)
  {
    InsertedIsHarmless(SegmentsOf(text), values);
    HarmlessGlyphs(Glyphs(SegmentsOf(text), values));
    RenderIsIntendedIff(text, values);
    if NoOverlap(text) {
      KeptIffEscapesAreOwn(text, values);
    }
  }

  /** Every placeholder found has a name, and something harmless to show. */
  predicate AllShown(segs: seq<Segment>, values: map<string, string>) {
    forall seg <- segs :: seg.Hole? ==>
      && ParsePlaceholderBody(seg.body).Some? && Harmless(Resolve(seg, values)) && Resolve(seg, values) != ""
  }

  lemma {:induction false} ShownIsHarmless(segs: seq<Segment>, values: map<string, string>)
    requires AllShown(segs, values)
    ensures forall g <- Glyphs(segs, values) :: g.Inserted? ==> g.c != '\\' && g.c != '{'
  {
    if segs != [] {
      assert segs[0] in segs && forall seg <- segs[1..] :: seg in segs;
      ShownIsHarmless(segs[1..], values);
    }
  }

  lemma HarmlessGlyphs(gs: seq<Glyph>)
    requires forall g <- gs :: g.Inserted? ==> g.c != '\\' && g.c != '{'
    ensures EscapesAreOwn(gs)
  {
    forall i: nat | EscapeAt(gs, i)
      ensures OwnEscapeAt(gs, i)
    {
      assert gs[i] in gs && gs[i + 1] in gs && gs[i + 2] in gs;
    }
  }

  lemma ShownTail(head: seq<Segment>, tail: seq<Segment>, values: map<string, string>)
    requires AllShown(head + tail, values)
    ensures AllShown(tail, values) && AllShown(head, values)
  {
    assert forall seg <- tail :: seg in head + tail;
    assert forall seg <- head :: seg in head + tail;
  }

  /** At an overlap the escape is not undone: the placeholder's text comes between its braces. */
  lemma OverlapShows(s: string, values: map<string, string>)
    requires s != "" && HeadOf(s).AtOverlap? && AllShown(SegmentsOf(s), values)
    ensures Intended(Glyphs(SegmentsOf(s), values)) != Promised(s, values)
  {
    var body, rest := OverlapStep(s);
    var meant := MeantSegments(s[3..]);
    SplitEscapeShows(body, rest, values);
    GlyphsOfEscape(meant, values);
    DoubleBraceIsMeant(Glyphs(meant, values));
  }

  lemma SplitEscapeShows(body: string, rest: seq<Segment>, values: map<string, string>)
    requires ParsePlaceholderBody(body).Some? && Resolve(Hole(body), values) != ""
    ensures var t := Intended(Glyphs(SplitEscape(body, rest), values)); t != "" && t[0] == '\\'
  {
    GlyphsOfLiteral('\\', [Literal('{')] + ([Hole(body)] + rest), values);
    GlyphsOfLiteral('{', [Hole(body)] + rest, values);
    GlyphsOfNamed(body, rest, values);
    InsertedBreaksEscape(InsertedAll(Resolve(Hole(body), values)), Glyphs(rest, values));
  }

  lemma InsertedBreaksEscape(ins: seq<Glyph>, rest: seq<Glyph>)
    requires ins != [] && ins[0].Inserted?
    ensures var t := Intended([Own('\\')] + ([Own('{')] + (ins + rest))); t != "" && t[0] == '\\'
  {
    var gs := [Own('\\')] + ([Own('{')] + (ins + rest));
    assert gs[2] == ins[0] && gs[0] == Own('\\');
  }

  /** Both readings come to the same text exactly where they are the same. */
  lemma {:induction false} IntendedIsPromisedIff(s: string, values: map<string, string>)
    requires AllShown(SegmentsOf(s), values)
    ensures Intended(Glyphs(SegmentsOf(s), values)) == Promised(s, values) <==> NoOverlap(s)
    decreases |s|
  {
    if s == "" {
    } else if HeadOf(s).AtOverlap? {
      OverlapShows(s, values);
      var body, found := OverlapStep(s);
    } else {
      var rest := s[HeadLength(s)..];
      Steps(s);
      ShownTail(HeadSegments(s), SegmentsOf(rest), values);
      IntendedIsPromisedIff(rest, values);
      HeadShows(s, rest, values);
    }
  }

  /** What is shown for the head is the same, so the texts are the same iff those for the rest are. */
  lemma HeadShows(s: string, rest: string, values: map<string, string>)
    requires s != "" && !HeadOf(s).AtOverlap? && GoesOn(s, HeadSegments(s), rest) && AllShown(HeadSegments(s), values)
    requires rest == s[HeadLength(s)..]
    ensures Intended(Glyphs(SegmentsOf(s), values)) == Promised(s, values)
      <==> Intended(Glyphs(SegmentsOf(rest), values)) == Promised(rest, values)
  {
    match HeadOf(s) {
      case AtEscape => EscapeShows(SegmentsOf(rest), MeantSegments(rest), values);
      case AtHole(body) =>
        assert Hole(body) in HeadSegments(s);
        HoleShows(body, SegmentsOf(rest), MeantSegments(rest), values);
      case AtChar =>
        CharIsNoEscape(s, values);
        CharShows(s[0], SegmentsOf(rest), MeantSegments(rest), values);
    }
  }

  lemma FirstIsOwn(s: string, values: map<string, string>)
    requires s != "" && !HeadOf(s).AtHole?
    ensures var gs := Glyphs(SegmentsOf(s), values); gs != [] && gs[0] == Own(s[0])
    ensures var gs := Glyphs(MeantSegments(s), values); gs != [] && gs[0] == Own(s[0])
  {
    LiteralFirst(s);
    LiteralLeads(SegmentsOf(s), values);
    LiteralLeads(MeantSegments(s), values);
  }

  lemma LiteralFirst(s: string)
    requires s != "" && !HeadOf(s).AtHole?
    ensures SegmentsOf(s) != [] && SegmentsOf(s)[0] == Literal(s[0])
    ensures MeantSegments(s) != [] && MeantSegments(s)[0] == Literal(s[0])
  {
    if ESCAPED <= s {
      EscapeChars(s);
      EscapeBegins(s);
    }
  }

  lemma LiteralLeads(segs: seq<Segment>, values: map<string, string>)
    requires segs != [] && segs[0].Literal?
    ensures Glyphs(segs, values) == [Own(segs[0].c)] + Glyphs(segs[1..], values)
  {
    assert segs == [segs[0]] + segs[1..];
    GlyphsOfLiteral(segs[0].c, segs[1..], values);
  }

  /** A character that begins no escape in the text begins none in either reading. */
  lemma CharIsNoEscape(s: string, values: map<string, string>)
    requires s != "" && HeadOf(s).AtChar?
    ensures !OwnEscapeAt(Glyphs(SegmentsOf(s), values), 0) && !OwnEscapeAt(Glyphs(MeantSegments(s), values), 0)
  {
    Steps(s);
    GlyphsOfLiteral(s[0], SegmentsOf(s[1..]), values);
    GlyphsOfLiteral(s[0], MeantSegments(s[1..]), values);
    if s[0] == '\\' {
      NoBracesFollow(s, values);
    }
  }

  lemma NoBracesFollow(s: string, values: map<string, string>)
    requires s != "" && s[0] == '\\' && !(ESCAPED <= s)
    ensures var gs := Glyphs(SegmentsOf(s[1..]), values); |gs| > 1 ==> gs[0] != Own('{') || gs[1] != Own('{')
    ensures var gs := Glyphs(MeantSegments(s[1..]), values); |gs| > 1 ==> gs[0] != Own('{') || gs[1] != Own('{')
  {
    var t := s[1..];
    if t != "" {
      BraceAfterBackslash(s);
      if t[0] == '{' {
        SecondBraceIsNone(t, values);
      } else {
        FirstIsOwn(t, values);
      }
    }
  }

  lemma BraceAfterBackslash(s: string)
    requires |s| >= 2 && s[0] == '\\' && !(ESCAPED <= s)
    ensures !HeadOf(s[1..]).AtHole? && !("{{" <= s[1..])
  {
    EscapeIff(s);
    DoubleBraceIff(s[1..]);
  }

  lemma SecondBraceIsNone(t: string, values: map<string, string>)
    requires t != "" && t[0] == '{' && !("{{" <= t)
    ensures var gs := Glyphs(SegmentsOf(t), values); |gs| > 1 ==> gs[1] != Own('{')
    ensures var gs := Glyphs(MeantSegments(t), values); |gs| > 1 ==> gs[1] != Own('{')
  {
    Steps(t);
    DoubleBraceIff(t);
    GlyphsOfLiteral('{', SegmentsOf(t[1..]), values);
    GlyphsOfLiteral('{', MeantSegments(t[1..]), values);
    NoBraceFirst(t[1..], values);
  }

  lemma NoBraceFirst(u: string, values: map<string, string>)
    requires u == "" || u[0] != '{'
    ensures var gs := Glyphs(SegmentsOf(u), values); gs != [] ==> gs[0] != Own('{')
    ensures var gs := Glyphs(MeantSegments(u), values); gs != [] ==> gs[0] != Own('{')
  {
    if u != "" {
      FirstIsOwn(u, values);
    }
  }

  lemma CharShows(c: char, a: seq<Segment>, b: seq<Segment>, values: map<string, string>)
    requires !OwnEscapeAt(Glyphs([Literal(c)] + a, values), 0) && !OwnEscapeAt(Glyphs([Literal(c)] + b, values), 0)
    ensures Intended(Glyphs([Literal(c)] + a, values)) == Intended(Glyphs([Literal(c)] + b, values))
      <==> Intended(Glyphs(a, values)) == Intended(Glyphs(b, values))
  {
    FirstIsKept(c, a, values);
    FirstIsKept(c, b, values);
    SameTails([c], Intended(Glyphs(a, values)), Intended(Glyphs(b, values)));
  }

  lemma FirstIsKept(c: char, a: seq<Segment>, values: map<string, string>)
    requires !OwnEscapeAt(Glyphs([Literal(c)] + a, values), 0)
    ensures Intended(Glyphs([Literal(c)] + a, values)) == [c] + Intended(Glyphs(a, values))
  {
    GlyphsOfLiteral(c, a, values);
    assert ([Own(c)] + Glyphs(a, values))[1..] == Glyphs(a, values);
  }

  lemma EscapeShows(a: seq<Segment>, b: seq<Segment>, values: map<string, string>)
    ensures Intended(Glyphs(EscapeSegments + a, values)) == Intended(Glyphs(EscapeSegments + b, values))
      <==> Intended(Glyphs(a, values)) == Intended(Glyphs(b, values))
  {
    GlyphsOfEscape(a, values);
    GlyphsOfEscape(b, values);
    DoubleBraceIsMeant(Glyphs(a, values));
    DoubleBraceIsMeant(Glyphs(b, values));
    SameTails("{{", Intended(Glyphs(a, values)), Intended(Glyphs(b, values)));
  }

  lemma HoleShows(body: string, a: seq<Segment>, b: seq<Segment>, values: map<string, string>)
    requires ParsePlaceholderBody(body).Some?
    ensures Intended(Glyphs([Hole(body)] + a, values)) == Intended(Glyphs([Hole(body)] + b, values))
      <==> Intended(Glyphs(a, values)) == Intended(Glyphs(b, values))
  {
    var v := Resolve(Hole(body), values);
    GlyphsOfNamed(body, a, values);
    GlyphsOfNamed(body, b, values);
    InsertedIsKept(v, Glyphs(a, values));
    InsertedIsKept(v, Glyphs(b, values));
    SameTails(v, Intended(Glyphs(a, values)), Intended(Glyphs(b, values)));
  }

  /**
   * When every placeholder found has a name and shows some text without backslash and opening brace, the
   * promise is kept iff no escape's second brace begins one of them.
   */
  lemma KeptIffNoOverlap(text: string, values: map<string, string>)
    requires AllShown(SegmentsOf(text), values)
    ensures RenderTemplate(text, values) == Promised(text, values) <==> NoOverlap(text)
  {
    ShownIsHarmless(SegmentsOf(text), values);
    HarmlessGlyphs(Glyphs(SegmentsOf(text), values));
    RenderIsIntendedIff(text, values);
    IntendedIsPromisedIff(text, values);
  }

  // ----- The two ways to fail -----

  /** A value that holds an escape is unescaped where it should be kept. */
  lemma EscapeInValueIsLost()
    ensures RenderTemplate("{{x}}", map["x" := ESCAPED]) == "{{"
    ensures Promised("{{x}}", map["x" := ESCAPED]) == ESCAPED
  {
    OnePlaceholderRenders();
    var values := map["x" := ESCAPED];
    assert [Hole("x")][1..] == [] && Glyphs([], values) == [];
    assert MeantSegments("{{x}}") == [Hole("x")] + MeantSegments("") == [Hole("x")];
    assert Glyphs([Hole("x")], values) == InsertedAll(ESCAPED) + [];
    InsertedIsKept(ESCAPED, []);
    assert ESCAPED + Intended([]) == ESCAPED;
  }

  lemma OnePlaceholderRenders()
    ensures HoleBody("{{x}}") == Some("x") && SegmentsOf("{{x}}") == [Hole("x")]
    ensures ParsePlaceholderBody("x") == Some(Placeholder("x", None, None))
    ensures RenderTemplate("{{x}}", map["x" := ESCAPED]) == "{{"
  {
    var text, values := "{{x}}", map["x" := ESCAPED];
    assert text[2..] == "x}}" && "x}}"[1..] == "}}" && text[3..] == "}}" && text[2..3] == "x";
    assert BodyLength("}}") == 0 && BodyLength("x}}") == 1;
    assert HoleBody(text) == Some("x") && text[5..] == "";
    assert SegmentsOf(text) == [Hole("x")];
    assert ['x'] + "" == "x";
    assert Cut("x", '|') == ("x", None) && Cut("x", ':') == ("x", None);
    assert Trim("x") == "x";
    assert [Hole("x")][1..] == [];
    assert Interleave([], values) == "" && Interleave([Hole("x")], values) == ESCAPED + "";
    assert ESCAPED + "" == ESCAPED && ESCAPED[3..] == "";
    assert Unescape(ESCAPED) == "{{" + "";
  }

  lemma ShortRenders()
    ensures RenderTemplate("\\{" + "{{x}}", map["x" := "v"]) == "\\{v"
  {
    var values, text := map["x" := "v"], "\\{" + "{{x}}";
    OnePlaceholderRenders();
    assert text[..3] == ESCAPED && text[2..] == "{{x}}";
    EscapeBegins(text);
    var segs := [Literal('\\'), Literal('{'), Hole("x")];
    assert SegmentsOf(text) == segs;
    assert segs[1..][1..][1..] == [] && segs[1..][1..][0] == Hole("x");
    assert Interleave([], values) == "";
    assert Interleave(segs[1..][1..], values) == "v" + "" == "v";
    assert Interleave(segs[1..], values) == "{" + "v" == "{v";
    assert Interleave(segs, values) == "\\" + "{v" == "\\{v";
    assert !Contains("\\{v", ESCAPED) by {
      assert forall i | 0 <= i <= 3 :: !OccursAt("\\{v", ESCAPED, i);
    }
    RenderIsInterleaveIff(text, values);
  }

  lemma PlainEscape()
    ensures Escape("{{{x}}") == "\\{" + "{{x}}"
  {
    var t := "{{{x}}";
    assert t[2..] == "{x}}" && "{x}}"[1..] == "x}}" && "x}}"[1..] == "}}" && "}}"[1..] == "}" && "}"[1..] == "";
    assert Escape("}}") == "}" + Escape("}") == "}}";
    assert Escape("x}}") == "x" + Escape("}}") == "x}}";
    assert Escape("{x}}") == "{" + Escape("x}}") == "{x}}";
  }

  /** An escaped brace that begins a placeholder does not escape: the backslash stays and the value is put in. */
  lemma EscapedPlaceholderFails()
    ensures RenderTemplate("\\{" + "{{x}}", map["x" := "v"]) == "\\{v"
    ensures Promised("\\{" + "{{x}}", map["x" := "v"]) == "{{{x}}"
  {
    var values, text := map["x" := "v"], "\\{" + "{{x}}";
    ShortRenders();
    PlainEscape();
    EscapeMeansItself("{{{x}}", values);
  }

  // ----- Writing a literal double brace -----

  /** Every `{{`, from left to right, written `\{{`. */
  function Escape(t: string): string
    decreases |t|
  {
    if t == "" then "" else if "{{" <= t then ESCAPED + Escape(t[2..]) else [t[0]] + Escape(t[1..])
  }

  lemma EscapeOfDouble(t: string)
    requires "{{" <= t
    ensures |t| >= 2 && t == "{{" + t[2..] && Escape(t) == ESCAPED + Escape(t[2..]) && Escape(t)[3..] == Escape(t[2..])
  {
  }

  lemma EscapeOfChar(t: string)
    requires t != "" && '\\' !in t && !("{{" <= t)
    ensures t == [t[0]] + t[1..] && Escape(t) == [t[0]] + Escape(t[1..]) && Escape(t)[1..] == Escape(t[1..])
    ensures t[0] != '\\' && HeadOf(Escape(t)).AtChar?
  {
    assert t[0] in t;
    EscapeStarts(t[1..]);
    DoubleBraceIff(t);
    DoubleBraceIff(Escape(t));
    EscapeIff(Escape(t));
  }

  lemma EscapeStarts(t: string)
    ensures Escape(t) != "" && Escape(t)[0] == '{' ==> t != "" && t[0] == '{' && !("{{" <= t)
  {
  }

  /** As it is meant, escaping always works: any text without a backslash, escaped, is promised to come out as itself. */
  lemma {:induction false} EscapeMeansItself(t: string, values: map<string, string>)
    requires '\\' !in t
    ensures Promised(Escape(t), values) == t
    ensures forall g <- Glyphs(MeantSegments(Escape(t)), values) :: g.Own?
    decreases |t|
  {
    if t == "" {
    } else if "{{" <= t {
      var meant := MeantSegments(Escape(t[2..]));
      EscapeOfDouble(t);
      EscapeMeansItself(t[2..], values);
      assert MeantSegments(Escape(t)) == EscapeSegments + meant;
      GlyphsOfEscape(meant, values);
      DoubleBraceIsMeant(Glyphs(meant, values));
    } else {
      var meant := MeantSegments(Escape(t[1..]));
      EscapeOfChar(t);
      EscapeMeansItself(t[1..], values);
      assert MeantSegments(Escape(t)) == [Literal(t[0])] + meant;
      GlyphsOfLiteral(t[0], meant, values);
      OwnIsKept(t[0], Glyphs(meant, values));
    }
  }

  /** To the code it does for every text in which no escape's second brace begins a placeholder. */
  lemma EscapedRendersAsItself(t: string, values: map<string, string>)
    requires '\\' !in t && NoOverlap(Escape(t))
    ensures RenderTemplate(Escape(t), values) == t
  {
    EscapeMeansItself(t, values);
    ReadAsMeantIff(Escape(t));
    HarmlessGlyphs(Glyphs(MeantSegments(Escape(t)), values));
    KeptIffEscapesAreOwn(Escape(t), values);
  }

  /** And only for those, once there is something to show in the placeholder. */
  lemma EscapedRendersIff(t: string, values: map<string, string>)
    requires '\\' !in t && AllShown(SegmentsOf(Escape(t)), values)
    ensures RenderTemplate(Escape(t), values) == t <==> NoOverlap(Escape(t))
  {
    EscapeMeansItself(t, values);
    KeptIffNoOverlap(Escape(t), values);
  }

  predicate NoTriple(t: string) {
    |t| < 3 || (!(t[0] == t[1] == t[2] == '{') && NoTriple(t[1..]))
  }

  /** Three braces in a row are what it takes. */
  lemma {:induction false} NoTripleNoOverlap(t: string)
    requires '\\' !in t && NoTriple(t)
    ensures NoOverlap(Escape(t))
    decreases |t|
  {
    if t == "" {
    } else if "{{" <= t {
      EscapeOfDouble(t);
      assert t[1..][1..] == t[2..];
      NoTripleNoOverlap(t[2..]);
      AfterEscape(t);
      Steps(Escape(t));
    } else {
      EscapeOfChar(t);
      NoTripleNoOverlap(t[1..]);
      Steps(Escape(t));
    }
  }

  lemma AfterEscape(t: string)
    requires "{{" <= t && (|t| < 3 || t[2] != '{')
    ensures HeadOf(Escape(t)).AtEscape?
  {
    var e, rest := Escape(t), Escape(t[2..]);
    EscapeOfDouble(t);
    EscapeStarts(t[2..]);
    assert e[2..] == "{" + rest;
    DoubleBraceIff(e[2..]);
  }
}
