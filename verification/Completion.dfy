/** Ranking command completions by how often and how recently each was run. */
module Completion {
  import opened Sorting
  import opened Unicode

  datatype Options = Options(limit: int, caseSensitive: bool)

  /** `score` is the exact score times `span`; it orders as the score does. */
  datatype Completion = Completion(value: string, score: int, frequency: nat)

  function Max(a: int, b: int): int {
    if a >= b then a else b
  }

  /** `lower` is the language's case folding. */
  predicate Matches(candidate: string, prefix: string, caseSensitive: bool, lower: string -> string) {
    var needle := if caseSensitive then prefix else lower(prefix);
    candidate != prefix && (needle == "" || needle <= (if caseSensitive then candidate else lower(candidate)))
  }

  predicate Counts(cmd: string, prefix: string, opts: Options, lower: string -> string) {
    cmd != "" && Matches(cmd, prefix, opts.caseSensitive, lower)
  }

  // ----- What the ranking is about -----

  /** How often `v` occurs in the history. */
  function Frequency(history: seq<string>, v: string): nat {
    multiset(history)[v]
  }

  /** The last position of `v`, or 0. */
  function LastIndex(history: seq<string>, v: string): nat {
    if history == [] then 0
    else var n := |history| - 1; if history[n] == v then n else LastIndex(history[..n], v)
  }

  lemma {:induction false} LastIndexIs(history: seq<string>, v: string)
    requires v in history
    ensures var i := LastIndex(history, v);
      i < |history| && history[i] == v && forall j | i < j < |history| :: history[j] != v
  {
    var n := |history| - 1;
    if history[n] != v {
      LastIndexIs(history[..n], v);
    }
  }

  lemma OnceAtStart(history: seq<string>, v: string)
    requires history != [] && forall j | 0 < j < |history| :: history[j] != v
    ensures Frequency(history, v) <= 1
  {
    assert history == [history[0]] + history[1..];
    assert v !in history[1..];
  }

  /** A value that occurs twice does not occur last at position 0. */
  lemma RepeatedIsLater(history: seq<string>, v: string)
    requires Frequency(history, v) >= 2
    ensures LastIndex(history, v) >= 1
  {
    LastIndexIs(history, v);
    if LastIndex(history, v) == 0 {
      OnceAtStart(history, v);
    }
  }

  function Span(history: seq<string>): int {
    Max(|history| - 1, 1)
  }

  /** `frequency + lastIndex / span`, times `span`. */
  function Score(history: seq<string>, v: string): int {
    Frequency(history, v) * Span(history) + LastIndex(history, v)
  }

  /** The order a user expects: more often first, then more recently. */
  predicate Better(history: seq<string>, a: string, b: string) {
    || Frequency(history, a) > Frequency(history, b)
    || (Frequency(history, a) == Frequency(history, b) && LastIndex(history, a) > LastIndex(history, b))
  }

  lemma MoreOftenScoresMore(history: seq<string>, a: string, b: string)
    requires a in history && b in history && Frequency(history, a) > Frequency(history, b)
    ensures Score(history, a) > Score(history, b)
  {
    var f, g, span := Frequency(history, a), Frequency(history, b), Span(history);
    LastIndexIs(history, b);
    RepeatedIsLater(history, a);
    assert LastIndex(history, b) <= span;
    OneMoreSpan(f, g, span);
  }

  lemma OneMoreSpan(f: nat, g: nat, span: int)
    requires f > g && span >= 1
    ensures f * span >= g * span + span
  {
    var more: nat := f - g - 1;
    assert more * span >= 0;
    assert f * span == (g + (1 + more)) * span == g * span + (1 + more) * span;
    assert (1 + more) * span == span + more * span;
  }

  /** The blended score orders any two values of the history exactly lexicographically. */
  lemma ScoreIsLexicographic(history: seq<string>, a: string, b: string)
    requires a in history && b in history
    ensures Score(history, a) > Score(history, b) <==> Better(history, a, b)
    ensures Score(history, a) == Score(history, b) <==> a == b
  {
    LastIndexIs(history, a);
    LastIndexIs(history, b);
    if Frequency(history, a) > Frequency(history, b) {
      MoreOftenScoresMore(history, a, b);
    } else if Frequency(history, b) > Frequency(history, a) {
      MoreOftenScoresMore(history, b, a);
    }
  }

  // ----- The ranking -----

  /** Adds `s`'s counted elements not yet in `order`: a map's keys keep insertion order. */
  function Candidates(history: seq<string>, prefix: string, opts: Options, lower: string -> string): seq<string> {
    if history == [] then []
    else
      var n := |history| - 1;
      var earlier := Candidates(history[..n], prefix, opts, lower);
      if Counts(history[n], prefix, opts, lower) && history[n] !in earlier then earlier + [history[n]] else earlier
  }

  lemma {:induction false} CandidatesAre(history: seq<string>, prefix: string, opts: Options, lower: string -> string)
    ensures Distinct(Candidates(history, prefix, opts, lower))
    ensures forall v :: v in Candidates(history, prefix, opts, lower) <==> v in history && Counts(v, prefix, opts, lower)
  {
    if history != [] {
      var n := |history| - 1;
      CandidatesAre(history[..n], prefix, opts, lower);
      assert history == history[..n] + [history[n]];
    }
  }

  /** The comparator, by exact scores, then last use, then the text. */
  function RankLeq(history: seq<string>): (Completion, Completion) -> bool {
    (a: Completion, b: Completion) =>
      if b.score != a.score then b.score < a.score
      else if LastIndex(history, b.value) != LastIndex(history, a.value) then LastIndex(history, b.value) < LastIndex(history, a.value)
      else StringLeq(a.value, b.value)
  }

  function Scored(history: seq<string>, values: seq<string>): seq<Completion> {
    seq(|values|, i requires 0 <= i < |values| => Completion(values[i], Score(history, values[i]), Frequency(history, values[i])))
  }

  /** `slice(0, limit)`: a negative limit counts from the end. */
  function Slice(s: seq<Completion>, limit: int): seq<Completion> {
    if limit >= |s| then s else if limit >= 0 then s[..limit] else if |s| + limit > 0 then s[..|s| + limit] else []
  }

  function Ranked(history: seq<string>, prefix: string, opts: Options, lower: string -> string): seq<Completion> {
    Slice(SortBy(RankLeq(history), Scored(history, Candidates(history, prefix, opts, lower))), opts.limit)
  }

  /** What the first loop has gathered from `seen`. */
  ghost predicate Tallied(freq: map<string, nat>, lastIndex: map<string, nat>, order: seq<string>, seen: seq<string>) {
    && freq.Keys == lastIndex.Keys == (set v | v in order)
    && forall v <- order :: freq[v] == Frequency(seen, v) && lastIndex[v] == LastIndex(seen, v)
  }

  lemma OneMore(seen: seq<string>, cmd: string, v: string)
    ensures Frequency(seen + [cmd], v) == Frequency(seen, v) + (if v == cmd then 1 else 0)
    ensures LastIndex(seen + [cmd], v) == if v == cmd then |seen| else LastIndex(seen, v)
  {
    assert (seen + [cmd])[..|seen|] == seen;
  }

  lemma TallySkip(freq: map<string, nat>, lastIndex: map<string, nat>, order: seq<string>, seen: seq<string>, cmd: string)
    requires Tallied(freq, lastIndex, order, seen) && cmd !in order
    ensures Tallied(freq, lastIndex, order, seen + [cmd])
  {
    forall v <- order
      ensures freq[v] == Frequency(seen + [cmd], v) && lastIndex[v] == LastIndex(seen + [cmd], v)
    {
      OneMore(seen, cmd, v);
    }
  }

  lemma TallyAdd(freq: map<string, nat>, lastIndex: map<string, nat>, order: seq<string>, seen: seq<string>, cmd: string)
    requires Tallied(freq, lastIndex, order, seen) && (cmd in order <==> cmd in seen)
    ensures Tallied(freq[cmd := (if cmd in freq then freq[cmd] else 0) + 1], lastIndex[cmd := |seen|],
                    if cmd in order then order else order + [cmd], seen + [cmd])
  {
    forall v
      ensures Frequency(seen + [cmd], v) == Frequency(seen, v) + (if v == cmd then 1 else 0)
      ensures LastIndex(seen + [cmd], v) == if v == cmd then |seen| else LastIndex(seen, v)
    {
      OneMore(seen, cmd, v);
    }
  }

  method Tally(history: seq<string>, prefix: string, opts: Options, lower: string -> string)
    returns (freq: map<string, nat>, lastIndex: map<string, nat>, order: seq<string>)
    ensures order == Candidates(history, prefix, opts, lower) && Tallied(freq, lastIndex, order, history)
  {
    freq, lastIndex, order := map[], map[], [];
    for i := 0 to |history|
      invariant order == Candidates(history[..i], prefix, opts, lower)
      invariant Tallied(freq, lastIndex, order, history[..i])
    {
      var cmd := history[i];
      assert history[..i + 1] == history[..i] + [cmd] && history[..i + 1][..i] == history[..i];
      CandidatesAre(history[..i], prefix, opts, lower);
      if Counts(cmd, prefix, opts, lower) {
        TallyAdd(freq, lastIndex, order, history[..i], cmd);
        if cmd !in freq {
          order := order + [cmd];
        }
        freq := freq[cmd := (if cmd in freq then freq[cmd] else 0) + 1];
        lastIndex := lastIndex[cmd := i];
      } else {
        TallySkip(freq, lastIndex, order, history[..i], cmd);
      }
    }
    assert history[..|history|] == history;
  }

  method RankCompletions(history: seq<string>, prefix: string, opts: Options, lower: string -> string) returns (out: seq<Completion>)
    ensures out == Ranked(history, prefix, opts, lower)
  {
    var freq, lastIndex, order := Tally(history, prefix, opts, lower);
    var scored := ScoreAll(history, order, freq, lastIndex);
    out := Slice(SortBy(RankLeq(history), scored), opts.limit);
  }

  /** The loop over the counted values. */
  method ScoreAll(history: seq<string>, order: seq<string>, freq: map<string, nat>, lastIndex: map<string, nat>)
    returns (scored: seq<Completion>)
    requires Tallied(freq, lastIndex, order, history)
    ensures scored == Scored(history, order)
  {
    var span := Max(|history| - 1, 1);
    scored := [];
    for i := 0 to |order|
      invariant |scored| == i && forall k | 0 <= k < i :: scored[k] == Scored(history, order)[k]
    {
      var v := order[i];
      assert v in order;
      scored := scored + [Completion(v, freq[v] * span + lastIndex[v], freq[v])];
    }
  }

  // ----- Main result -----

  lemma RankLeqIsOrder(history: seq<string>)
    ensures TotalPreorder(RankLeq(history))
  {
    StringLeqIsOrder();
    var leq := RankLeq(history);
    forall a, b
      ensures leq(a, b) || leq(b, a)
    {
      assert StringLeq(a.value, b.value) || StringLeq(b.value, a.value);
    }
    forall a, b, c | leq(a, b) && leq(b, c)
      ensures leq(a, c)
    {
      if StringLeq(a.value, b.value) && StringLeq(b.value, c.value) {
        UnitsLeqTransitive(Utf16(a.value), Utf16(b.value), Utf16(c.value));
      }
    }
  }

  lemma SortedFacts(history: seq<string>, prefix: string, opts: Options, lower: string -> string) returns (all: seq<Completion>)
    ensures all == SortBy(RankLeq(history), Scored(history, Candidates(history, prefix, opts, lower)))
    ensures |all| == |Candidates(history, prefix, opts, lower)| && Sorted(RankLeq(history), all) && Distinct(all)
    ensures forall c <- all :: c.value in history && Counts(c.value, prefix, opts, lower)
              && c == Completion(c.value, Score(history, c.value), Frequency(history, c.value))
    ensures forall v <- Candidates(history, prefix, opts, lower) :: exists c <- all :: c.value == v
  {
    var values := Candidates(history, prefix, opts, lower);
    var scored := Scored(history, values);
    all := SortBy(RankLeq(history), scored);
    CandidatesAre(history, prefix, opts, lower);
    RankLeqIsOrder(history);
    SortByIsSorted(RankLeq(history), scored);
    SortByIsPermutation(RankLeq(history), scored);
    SameElements(all, scored);
    assert Distinct(scored);
    PermutationDistinct(all, scored);
    forall v <- values
      ensures exists c <- all :: c.value == v
    {
      var i :| 0 <= i < |values| && values[i] == v;
      assert scored[i] in scored;
    }
  }

  lemma BetterThanLater(history: seq<string>, all: seq<Completion>, i: nat, j: nat)
    requires Sorted(RankLeq(history), all) && Distinct(all) && i < j < |all|
    requires forall c <- all :: c.value in history && c == Completion(c.value, Score(history, c.value), Frequency(history, c.value))
    ensures Better(history, all[i].value, all[j].value)
  {
    var a, b := all[i], all[j];
    assert RankLeq(history)(a, b) && a in all && b in all && a != b;
    ScoreIsLexicographic(history, a.value, b.value);
  }

  /** How many elements `slice(0, limit)` leaves of `n`. */
  function SliceLength(limit: int, n: nat): nat {
    if limit >= n then n else if limit >= 0 then limit else Max(n + limit, 0)
  }

  /**
   * For every history, prefix and limit: the result holds the `limit` best of the matching values, or all but
   * the `-limit` worst, each once, strictly ordered by frequency in the history and then by last use.
   */
  lemma RankedIsTop(history: seq<string>, prefix: string, opts: Options, lower: string -> string)
    ensures var out, values := Ranked(history, prefix, opts, lower), Candidates(history, prefix, opts, lower);
      && |out| == SliceLength(opts.limit, |values|)
      && (forall i, j | 0 <= i < j < |out| :: Better(history, out[i].value, out[j].value))
      && (forall c <- out :: c.value in values && c.frequency == Frequency(history, c.value))
      && (forall c <- out, v <- values :: (exists d <- out :: d.value == v) || Better(history, c.value, v))
  {
    var all := SortedFacts(history, prefix, opts, lower);
    var out, values := Ranked(history, prefix, opts, lower), Candidates(history, prefix, opts, lower);
    CandidatesAre(history, prefix, opts, lower);
    assert out <= all;
    forall i, j | 0 <= i < j < |all|
      ensures Better(history, all[i].value, all[j].value)
    {
      BetterThanLater(history, all, i, j);
    }
    forall c <- out, v <- values
      ensures (exists d <- out :: d.value == v) || Better(history, c.value, v)
    {
      var d :| d in all && d.value == v;
      var i :| 0 <= i < |out| && out[i] == c;
      var j :| 0 <= j < |all| && all[j] == d;
      if j < |out| {
        assert out[j] == d;
      }
    }
  }
}
