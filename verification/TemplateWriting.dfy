/** Writing templates: text and placeholders, written out, are scanned, declared and rendered as what they are. */
module TemplateWriting {
  import opened Wrappers
  import opened Text
  import opened Template
  import opened TemplatePromise

  // ----- One placeholder -----

  function Marked(mark: char, o: Option<string>): string {
    if o.Some? then [mark] + o.value else ""
  }

  /** `name[:default][|description]`. */
  function Body(p: Placeholder): string {
    (p.name + Marked(':', p.default)) + Marked('|', p.description)
  }

  predicate Trimmed(s: string) {
    s == "" || (!IsSpace(s[0]) && !IsSpace(s[|s| - 1]))
  }

  predicate Lacks(s: string, c: char) {
    c !in s
  }

  /** What a placeholder can say: trimmed parts, with no separator where it would be read as one. */
  predicate PlaceholderOk(p: Placeholder) {
    && p.name != "" && Trimmed(p.name) && Lacks(p.name, ':') && Lacks(p.name, '|')
    && (p.default.Some? ==> Trimmed(p.default.value) && Lacks(p.default.value, '|'))
    && (p.description.Some? ==> Trimmed(p.description.value))
  }

  lemma {:induction false} CutReads(head: string, mark: char, o: Option<string>)
    requires Lacks(head, mark)
    ensures Cut(head + Marked(mark, o), mark) == (head, o)
    decreases |head|
  {
    var s := head + Marked(mark, o);
    if head == "" {
      assert s == Marked(mark, o);
      assert o.Some? ==> s[1..] == o.value;
    } else {
      assert head[0] in head && s[1..] == head[1..] + Marked(mark, o);
      CutReads(head[1..], mark, o);
      assert [head[0]] + head[1..] == head;
    }
  }

  lemma TrimmedStays(s: string)
    requires Trimmed(s)
    ensures Trim(s) == s
  {
  }

  /** A placeholder's body reads back as the placeholder. */
  lemma BodyReads(p: Placeholder)
    requires PlaceholderOk(p)
    ensures ParsePlaceholderBody(Body(p)) == Some(p)
  {
    var head := p.name + Marked(':', p.default);
    CutReads(head, '|', p.description);
    CutReads(p.name, ':', p.default);
    TrimmedStays(p.name);
    if p.default.Some? {
      TrimmedStays(p.default.value);
    }
    if p.description.Some? {
      TrimmedStays(p.description.value);
    }
  }

  // ----- Scanning what is written -----

  predicate SegmentOk(seg: Segment) {
    match seg
    case Literal(c) => !IsBrace(c) && c != '\\'
    case Hole(body) => Lacks(body, '{') && Lacks(body, '}')
  }

  /** Placeholders, characters that are neither braces nor backslashes, and escaped double braces. */
  predicate SegmentsOk(segs: seq<Segment>)
    decreases |segs|
  {
    || segs == []
    || (SegmentOk(segs[0]) && SegmentsOk(segs[1..]))
    || (EscapeSegments <= segs && SegmentsOk(segs[3..]))
  }

  lemma {:induction false} BodyEnds(body: string, rest: string)
    requires Lacks(body, '{') && Lacks(body, '}')
    ensures BodyLength(body + ("}}" + rest)) == |body|
    decreases |body|
  {
    var s := body + ("}}" + rest);
    if body == "" {
      assert s == "}}" + rest;
    } else {
      assert body[0] in body && s[1..] == body[1..] + ("}}" + rest);
      BodyEnds(body[1..], rest);
    }
  }

  lemma HoleReads(body: string, rest: string)
    requires Lacks(body, '{') && Lacks(body, '}')
    ensures var s := Source(Hole(body)) + rest;
      HoleBody(s) == Some(body) && s != "" && |body| + 4 <= |s| && s[|body| + 4..] == rest
  {
    var s := Source(Hole(body)) + rest;
    assert s[2..] == body + ("}}" + rest);
    BodyEnds(body, rest);
    assert s[2 + |body|..] == "}}" + rest && s[2..2 + |body|] == body;
  }

  /** What is written begins with no brace, or with a placeholder's two. */
  lemma SourcesStart(segs: seq<Segment>)
    requires SegmentsOk(segs)
    ensures var s := Sources(segs); s == "" || s[0] != '{' || (|s| > 2 && s[1] == '{')
  {
  }

  /** The scanner undoes writing the segments out. */
  lemma {:induction false} SegmentsReadBack(segs: seq<Segment>)
    requires SegmentsOk(segs)
    ensures SegmentsOf(Sources(segs)) == segs
    decreases |segs|
  {
    if segs == [] {
    } else if SegmentOk(segs[0]) {
      var rest := Sources(segs[1..]);
      SegmentsReadBack(segs[1..]);
      match segs[0] {
        case Hole(body) => HoleScans(body, rest);
        case Literal(c) => LiteralScans(c, rest);
      }
      assert segs == [segs[0]] + segs[1..];
    } else {
      SegmentsReadBack(segs[3..]);
      SourcesStart(segs[3..]);
      assert segs == EscapeSegments + segs[3..];
      EscapeWrites(segs[3..]);
      EscapeScans(Sources(segs[3..]));
    }
  }

  lemma EscapeWrites(rest: seq<Segment>)
    ensures Sources(EscapeSegments + rest) == ESCAPED + Sources(rest)
  {
    var r1 := [Literal('{')] + rest;
    var r2 := [Literal('{')] + r1;
    assert EscapeSegments + rest == [Literal('\\')] + r2;
    SourcesStep(Literal('{'), rest);
    SourcesStep(Literal('{'), r1);
    SourcesStep(Literal('\\'), r2);
  }

  lemma EscapeScans(rest: string)
    requires rest == "" || rest[0] != '{' || (|rest| > 2 && rest[1] == '{')
    ensures SegmentsOf(ESCAPED + rest) == EscapeSegments + SegmentsOf(rest)
  {
    var s2 := "{" + rest;
    var s1 := "{" + s2;
    assert ESCAPED + rest == "\\" + s1;
    CharScans('\\', s1, false);
    CharScans('{', s2, true);
    ThirdBraceScans(rest);
    ThreeLiterals(SegmentsOf(rest));
  }

  lemma ThreeLiterals(segs: seq<Segment>)
    ensures [Literal('\\')] + ([Literal('{')] + ([Literal('{')] + segs)) == EscapeSegments + segs
  {
  }

  lemma ThirdBraceScans(rest: string)
    requires rest == "" || rest[0] != '{' || (|rest| > 2 && rest[1] == '{')
    ensures Segments("{" + rest, false) == [Literal('{')] + Segments(rest, false)
  {
    var s := "{" + rest;
    assert s[1..] == rest;
    if "{{" <= s {
      assert s[1] == rest[0] == '{' && s[2] == rest[1] == '{';
      assert s[2..][0] == '{' && BodyLength(s[2..]) == 0;
    }
    assert HoleBody(s) == None;
  }

  lemma HoleScans(body: string, rest: string)
    requires SegmentOk(Hole(body))
    ensures SegmentsOf(Source(Hole(body)) + rest) == [Hole(body)] + SegmentsOf(rest)
  {
    var s := Source(Hole(body)) + rest;
    HoleReads(body, rest);
    assert Segments(s, false) == [Hole(body)] + Segments(s[|body| + 4..], false);
  }

  lemma LiteralScans(c: char, rest: string)
    requires SegmentOk(Literal(c))
    ensures SegmentsOf(Source(Literal(c)) + rest) == [Literal(c)] + SegmentsOf(rest)
  {
    CharScans(c, rest, false);
  }

  // ----- Whole templates -----

  /** A character, a literal double brace, or a placeholder. */
  datatype Piece = Char(c: char) | DoubleBrace | Var(p: Placeholder)

  function SegmentsOfPiece(piece: Piece): seq<Segment> {
    match piece
    case Char(c) => [Literal(c)]
    case DoubleBrace => EscapeSegments
    case Var(p) => [Hole(Body(p))]
  }

  function SegmentsFor(pieces: seq<Piece>): seq<Segment> {
    if pieces == [] then [] else SegmentsOfPiece(pieces[0]) + SegmentsFor(pieces[1..])
  }

  function Written(pieces: seq<Piece>): string {
    Sources(SegmentsFor(pieces))
  }

  predicate PieceOk(piece: Piece) {
    match piece
    case Char(c) => SegmentOk(Literal(c))
    case DoubleBrace => true
    case Var(p) => SegmentOk(Hole(Body(p))) && PlaceholderOk(p)
  }

  function Filled(piece: Piece, values: map<string, string>): string {
    match piece
    case Char(c) => [c]
    case DoubleBrace => "{{"
    case Var(p) =>
      if p.name in values then values[p.name] else if p.default.Some? then p.default.value else ""
  }

  function FilledAll(pieces: seq<Piece>, values: map<string, string>): string {
    if pieces == [] then "" else Filled(pieces[0], values) + FilledAll(pieces[1..], values)
  }

  function VarsOf(pieces: seq<Piece>): seq<Placeholder> {
    if pieces == [] then [] else (if pieces[0].Var? then [pieces[0].p] else []) + VarsOf(pieces[1..])
  }

  lemma {:induction false} PiecesAreOk(pieces: seq<Piece>)
    requires forall piece <- pieces :: PieceOk(piece)
    ensures SegmentsOk(SegmentsFor(pieces))
    decreases |pieces|
  {
    if pieces != [] {
      var segs := SegmentsFor(pieces);
      assert pieces[0] in pieces;
      PiecesAreOk(pieces[1..]);
      assert segs[|SegmentsOfPiece(pieces[0])|..] == SegmentsFor(pieces[1..]);
    }
  }

  lemma WrittenScans(pieces: seq<Piece>)
    requires forall piece <- pieces :: PieceOk(piece)
    ensures SegmentsOf(Written(pieces)) == SegmentsFor(pieces)
  {
    PiecesAreOk(pieces);
    SegmentsReadBack(SegmentsFor(pieces));
  }

  lemma {:induction false} PlaceholdersConcat(a: seq<Segment>, b: seq<Segment>)
    ensures Placeholders(a + b) == Placeholders(a) + Placeholders(b)
    decreases |a|
  {
    if a == [] {
      assert a + b == b;
    } else {
      assert (a + b)[1..] == a[1..] + b;
      PlaceholdersConcat(a[1..], b);
    }
  }

  lemma {:induction false} PiecesDeclare(pieces: seq<Piece>)
    requires forall piece <- pieces :: PieceOk(piece)
    ensures Placeholders(SegmentsFor(pieces)) == VarsOf(pieces)
    decreases |pieces|
  {
    if pieces != [] {
      assert pieces[0] in pieces;
      PiecesDeclare(pieces[1..]);
      PlaceholdersConcat(SegmentsOfPiece(pieces[0]), SegmentsFor(pieces[1..]));
      PieceDeclares(pieces[0]);
    }
  }

  lemma PieceDeclares(piece: Piece)
    requires PieceOk(piece)
    ensures Placeholders(SegmentsOfPiece(piece)) == if piece.Var? then [piece.p] else []
  {
    var segs := SegmentsOfPiece(piece);
    match piece {
      case Char(_) => assert segs[1..] == [];
      case DoubleBrace => assert segs[1..][1..][1..] == [];
      case Var(p) =>
        BodyReads(p);
        assert segs[1..] == [];
    }
  }

  /** A written template declares exactly its placeholders' variables. */
  lemma WrittenDeclares(pieces: seq<Piece>)
    requires forall piece <- pieces :: PieceOk(piece)
    ensures Variables(Placeholders(SegmentsOf(Written(pieces)))) == Variables(VarsOf(pieces))
  {
    WrittenScans(pieces);
    PiecesDeclare(pieces);
  }

  lemma GlyphsOfVar(p: Placeholder, rest: seq<Segment>, values: map<string, string>)
    requires PlaceholderOk(p)
    ensures Glyphs([Hole(Body(p))] + rest, values) == InsertedAll(Filled(Var(p), values)) + Glyphs(rest, values)
  {
    BodyReads(p);
    assert ([Hole(Body(p))] + rest)[1..] == rest;
  }

  lemma {:induction false} FilledIsIntended(pieces: seq<Piece>, values: map<string, string>)
    requires forall piece <- pieces :: PieceOk(piece)
    ensures Intended(Glyphs(SegmentsFor(pieces), values)) == FilledAll(pieces, values)
    decreases |pieces|
  {
    if pieces != [] {
      var rest := SegmentsFor(pieces[1..]);
      var gs := Glyphs(rest, values);
      assert pieces[0] in pieces;
      FilledIsIntended(pieces[1..], values);
      match pieces[0] {
        case Char(c) =>
          GlyphsOfLiteral(c, rest, values);
          OwnIsKept(c, gs);
        case DoubleBrace =>
          GlyphsOfEscape(rest, values);
          DoubleBraceIsMeant(gs);
        case Var(p) =>
          GlyphsOfVar(p, rest, values);
          InsertedIsKept(Filled(pieces[0], values), gs);
      }
    }
  }

  /** It is read as meant, too: nothing that can be written overlaps. */
  lemma {:induction false} MeantReadBack(segs: seq<Segment>)
    requires SegmentsOk(segs)
    ensures MeantSegments(Sources(segs)) == segs
    decreases |segs|
  {
    if segs == [] {
    } else if SegmentOk(segs[0]) {
      MeantReadBack(segs[1..]);
      HeadIsMeant(segs[0], Sources(segs[1..]));
      assert segs == [segs[0]] + segs[1..];
    } else {
      MeantReadBack(segs[3..]);
      assert segs == EscapeSegments + segs[3..];
      EscapeWrites(segs[3..]);
      assert (ESCAPED + Sources(segs[3..]))[3..] == Sources(segs[3..]);
    }
  }

  lemma HeadIsMeant(seg: Segment, rest: string)
    requires SegmentOk(seg)
    ensures MeantSegments(Source(seg) + rest) == [seg] + MeantSegments(rest)
  {
    var s := Source(seg) + rest;
    EscapeIff(s);
    match seg {
      case Hole(body) => HoleReads(body, rest);
      case Literal(c) => assert s[0] == c && s[1..] == rest;
    }
  }

  /** What is promised of a written template: its text, and value, else default, else nothing for each placeholder. */
  lemma WrittenMeans(pieces: seq<Piece>, values: map<string, string>)
    requires forall piece <- pieces :: PieceOk(piece)
    ensures Promised(Written(pieces), values) == FilledAll(pieces, values)
  {
    PiecesAreOk(pieces);
    MeantReadBack(SegmentsFor(pieces));
    FilledIsIntended(pieces, values);
  }

  /**
   * A written template renders as its characters, its double braces and, for each placeholder, the given
   * value, else its default, else nothing, exactly when no escape involves inserted text.
   */
  lemma WrittenRendersIff(pieces: seq<Piece>, values: map<string, string>)
    requires forall piece <- pieces :: PieceOk(piece)
    ensures RenderTemplate(Written(pieces), values) == FilledAll(pieces, values)
      <==> EscapesAreOwn(Glyphs(SegmentsFor(pieces), values))
  {
    WrittenScans(pieces);
    FilledIsIntended(pieces, values);
    RenderIsIntendedIff(Written(pieces), values);
  }
}
