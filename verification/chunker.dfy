/** The overlapping text chunker of `DocumentProcessor.chunk_document`.

    The loop walks a cursor over the text. A window that reaches the end of
    the text becomes the last chunk. Any other window is cut just before its
    last '.' or newline, or at its end when it holds none after the cursor,
    and the cursor then steps back by the overlap from the cut.

    Rounds are described by the slice bounds they take (`Span`), and the
    chunks are the Python slices of the text at those bounds (`SpanText`).

    Two models live here:
    - `Step`, `Run` and `ChunkDocument` follow the code as written, including
      Python's handling of negative indices in `rfind` and in slices. On some
      texts the cursor stalls or goes negative (see `StallForever` and
      `GapDropsText`), so the loop is bounded by a number of rounds.
    - `Spans` and `ChunkText` are the corrected chunker: a boundary that
      leaves no room for the overlap counts as no boundary. It always
      terminates and covers the whole text, and on texts where the code as
      written makes progress (`WellSpaced`) both agree (`RunMatchesChunkText`). */
module Chunker {
  import opened PyText

  /** `self.chunk_size` and `self.chunk_overlap`, fixed by the constructor. */
  const ChunkSize := 1000
  const ChunkOverlap := 200

  predicate IsBoundary(ch: char) { ch == '.' || ch == '\n' }

  /** No '.' and no newline in `content[lo..hi]`. */
  predicate NoBoundary(content: string, lo: nat, hi: nat)
    requires hi <= |content|
  {
    forall k :: lo <= k < hi ==> !IsBoundary(content[k])
  }

  /** The highest index in [lo, hi) holding a boundary, or -1 when there is
      none (`LastBoundarySpec`). */
  function LastBoundary(content: string, lo: nat, hi: nat): (r: int)
    requires lo <= hi <= |content|
    ensures r == -1 || lo <= r < hi
    decreases hi - lo
  {
    if lo == hi then -1
    else if IsBoundary(content[hi - 1]) then hi - 1
    else LastBoundary(content, lo, hi - 1)
  }

  /** `LastBoundary` finds nothing exactly when the range holds no boundary,
      and otherwise a boundary with none after it. */
  lemma {:induction false} LastBoundarySpec(content: string, lo: nat, hi: nat)
    requires lo <= hi <= |content|
    ensures var r := LastBoundary(content, lo, hi);
      && (r == -1 <==> NoBoundary(content, lo, hi))
      && (r != -1 ==> IsBoundary(content[r]) && NoBoundary(content, r + 1, hi))
    decreases hi - lo
  {
    if lo < hi && !IsBoundary(content[hi - 1]) {
      LastBoundarySpec(content, lo, hi - 1);
    }
  }

  /** A boundary with none after it below `hi` is the last one. */
  lemma {:induction false} LastBoundaryIs(content: string, lo: nat, hi: nat, r: nat)
    requires lo <= r < hi <= |content|
    requires IsBoundary(content[r]) && NoBoundary(content, r + 1, hi)
    ensures LastBoundary(content, lo, hi) == r
    decreases hi - lo
  {
    if r < hi - 1 {
      LastBoundaryIs(content, lo, hi - 1, r);
    }
  }

  /** The larger of `rfind('.', i, j)` and `rfind('\n', i, j)` is the last
      boundary in the clamped range, or -1 when the range is empty or holds
      none. */
  lemma MaxRFindIsLastBoundary(content: string, i: int, j: int)
    ensures var a, b := ClampIndex(i, |content|), ClampIndex(j, |content|);
      Max(RFind(content, '.', i, j), RFind(content, '\n', i, j)) ==
        if a <= b then LastBoundary(content, a, b) else -1
  {
    var a, b := ClampIndex(i, |content|), ClampIndex(j, |content|);
    if a <= b {
      LastBoundarySpec(content, a, b);
    }
  }

  /** Where the code as written cuts a window `[start, start + ChunkSize)`
      that does not reach the end of the text: at its last boundary after
      the cursor, or at its end when there is none. A negative cursor is
      read by `rfind` from the end of the text, so the search starts at
      `start + |content|` (see `SplitPointOfRFind`); once the text is longer
      than a window that range is empty and the cut is at the end. The cut
      is never negative, so the cursor never drops below `-ChunkOverlap`. */
  function SplitPoint(content: string, start: int): (sp: int)
    requires -ChunkOverlap <= start && start + ChunkSize < |content|
    ensures 0 <= sp && start < sp <= start + ChunkSize
  {
    var end := start + ChunkSize;
    var from := if start < 0 then start + |content| else start + 1;
    var p := if from <= end then LastBoundary(content, from, end) else -1;
    if p == -1 then end else p
  }

  /** The cut computed the way the loop computes it, from two `rfind`
      calls over `[start, start + ChunkSize)`, is `SplitPoint`. */
  lemma SplitPointOfRFind(content: string, start: int)
    requires -ChunkOverlap <= start && start + ChunkSize < |content|
    ensures var end := start + ChunkSize;
      var p := Max(RFind(content, '.', start, end), RFind(content, '\n', start, end));
      (if p == -1 || p <= start then end else p) == SplitPoint(content, start)
  {
    var end := start + ChunkSize;
    MaxRFindIsLastBoundary(content, start, end);
    if 0 <= start {
      var p := LastBoundary(content, start, end);
      LastBoundarySpec(content, start, end);
      LastBoundarySpec(content, start + 1, end);
      assert Max(RFind(content, '.', start, end), RFind(content, '\n', start, end)) == p;
      if p == -1 {
        assert NoBoundary(content, start + 1, end);
        assert LastBoundary(content, start + 1, end) == -1;
      } else if p > start {
        LastBoundaryIs(content, start + 1, end, p);
      } else {
        assert LastBoundary(content, start + 1, end) == -1;
      }
    }
  }

  /** A window is cut at its end exactly when it holds no boundary after the
      cursor (always, for a negative cursor); otherwise it is cut at its
      last boundary. */
  lemma SplitPointCases(content: string, start: int)
    requires -ChunkOverlap <= start && start + ChunkSize < |content|
    ensures var sp := SplitPoint(content, start);
      && (start < 0 && ChunkSize <= |content| ==> sp == start + ChunkSize)
      && (0 <= start ==> (sp == start + ChunkSize <==> NoBoundary(content, start + 1, start + ChunkSize)))
      && (sp < start + ChunkSize ==> IsBoundary(content[sp]) && NoBoundary(content, sp + 1, start + ChunkSize))
  {
    var end := start + ChunkSize;
    var from := if start < 0 then start + |content| else start + 1;
    if from <= end {
      LastBoundarySpec(content, from, end);
    }
  }

  /** The bounds `[lo:hi]` of one slice of the text, as Python reads them. */
  datatype Span = Span(lo: int, hi: int)

  /** The Python slices of the text at the given bounds. */
  function SpanText(content: string, spans: seq<Span>): (chunks: seq<string>)
    ensures |chunks| == |spans|
  {
    if spans == [] then []
    else
      var last := spans[|spans| - 1];
      SpanText(content, spans[..|spans| - 1]) + [Slice(content, last.lo, last.hi)]
  }

  lemma SpanTextSnoc(content: string, spans: seq<Span>, s: Span)
    ensures SpanText(content, spans + [s]) == SpanText(content, spans) + [Slice(content, s.lo, s.hi)]
  {
    assert (spans + [s])[..|spans|] == spans;
  }

  lemma {:induction false} SpanTextAt(content: string, spans: seq<Span>, j: nat)
    requires j < |spans|
    ensures SpanText(content, spans)[j] == Slice(content, spans[j].lo, spans[j].hi)
    decreases |spans|
  {
    if j < |spans| - 1 {
      SpanTextAt(content, spans[..|spans| - 1], j);
    }
  }

  /** Bounds inside the text give exactly the characters they delimit. */
  lemma SpanTextInRange(content: string, spans: seq<Span>)
    requires forall j :: 0 <= j < |spans| ==> 0 <= spans[j].lo <= spans[j].hi <= |content|
    ensures forall j :: 0 <= j < |spans| ==>
      SpanText(content, spans)[j] == content[spans[j].lo..spans[j].hi]
  {
    forall j | 0 <= j < |spans|
      ensures SpanText(content, spans)[j] == content[spans[j].lo..spans[j].hi]
    {
      SpanTextAt(content, spans, j);
      SliceFacts(content, spans[j].lo, spans[j].hi);
    }
  }

  /** One round of the loop: either the last chunk, or a chunk and the next cursor. */
  datatype Round = Last(span: Span) | Cut(span: Span, next: int)

  function Step(content: string, start: int): (r: Round)
    requires -ChunkOverlap <= start < |content|
    ensures r.Last? <==> start + ChunkSize >= |content|
    ensures r.Cut? ==> -ChunkOverlap <= r.next
  {
    var end := start + ChunkSize;
    if end >= |content| then Last(Span(start, |content|))
    else
      var sp := SplitPoint(content, start);
      Cut(Span(start, sp), sp - ChunkOverlap)
  }

  /** What the loop has taken after at most `rounds` rounds from cursor
      `start`, and whether it has left the loop by then. */
  datatype Trace = Trace(spans: seq<Span>, finished: bool)

  function Run(content: string, start: int, rounds: nat): (t: Trace)
    requires -ChunkOverlap <= start
    ensures |t.spans| <= rounds
    decreases rounds
  {
    if start >= |content| then Trace([], true)
    else if rounds == 0 then Trace([], false)
    else match Step(content, start)
      case Last(s) => Trace([s], true)
      case Cut(s, next) =>
        var rest := Run(content, next, rounds - 1);
        Trace([s] + rest.spans, rest.finished)
  }

  function Prepend(spans: seq<Span>, t: Trace): Trace {
    Trace(spans + t.spans, t.finished)
  }

  /** `Run` with the slices already taken carried along: the shape of the
      loop's own state. */
  function RunAfter(content: string, start: int, rounds: nat, taken: seq<Span>): Trace
    requires -ChunkOverlap <= start
    decreases rounds
  {
    if start >= |content| then Trace(taken, true)
    else if rounds == 0 then Trace(taken, false)
    else match Step(content, start)
      case Last(s) => Trace(taken + [s], true)
      case Cut(s, next) => RunAfter(content, next, rounds - 1, taken + [s])
  }

  lemma {:induction false} RunAfterIsRun(content: string, start: int, rounds: nat, taken: seq<Span>)
    requires -ChunkOverlap <= start
    ensures RunAfter(content, start, rounds, taken) == Prepend(taken, Run(content, start, rounds))
    decreases rounds
  {
    if start >= |content| || rounds == 0 {
      assert taken + [] == taken;
    } else {
      match Step(content, start)
      case Last(s) =>
      case Cut(s, next) =>
        RunAfterIsRun(content, next, rounds - 1, taken + [s]);
        assert (taken + [s]) + Run(content, next, rounds - 1).spans
            == taken + ([s] + Run(content, next, rounds - 1).spans);
    }
  }

  /** The loop of `chunk_document`, stopped after `maxRounds` rounds if it has
      not finished by then. */
  method ChunkDocument(content: string, maxRounds: nat) returns (chunks: seq<string>, finished: bool)
    ensures var t := Run(content, 0, maxRounds);
      finished == t.finished && chunks == SpanText(content, t.spans)
  {
    chunks := [];
    finished := true;
    var start: int := 0;
    var fuel: nat := maxRounds;
    ghost var taken: seq<Span> := [];
    while start < |content|
      invariant -ChunkOverlap <= start
      invariant chunks == SpanText(content, taken)
      invariant RunAfter(content, 0, maxRounds, []) == RunAfter(content, start, fuel, taken)
      decreases fuel
    {
      if fuel == 0 {
        finished := false;
        break;
      }
      var end := start + ChunkSize;
      if end >= |content| {
        SpanTextSnoc(content, taken, Span(start, |content|));
        chunks := chunks + [Slice(content, start, |content|)];
        taken := taken + [Span(start, |content|)];
        break;
      }
      var lastPeriod := RFind(content, '.', start, end);
      var lastNewline := RFind(content, '\n', start, end);
      var splitPoint := Max(lastPeriod, lastNewline);
      if splitPoint == -1 || splitPoint <= start {
        splitPoint := end;
      }
      SplitPointOfRFind(content, start);
      SpanTextSnoc(content, taken, Span(start, splitPoint));
      chunks := chunks + [Slice(content, start, splitPoint)];
      taken := taken + [Span(start, splitPoint)];
      start := splitPoint - ChunkOverlap;
      fuel := fuel - 1;
    }
    RunAfterIsRun(content, 0, maxRounds, []);
    assert [] + Run(content, 0, maxRounds).spans == Run(content, 0, maxRounds).spans;
  }

  // ---------------------------------------------------------------------
  // Properties of the code as written

  /** The shape of every run: the first slice starts at the cursor, no slice
      is empty or longer than `ChunkSize`, every slice starts at least
      `-ChunkOverlap`, and each next slice starts exactly `ChunkOverlap`
      before the previous one ends. */
  lemma {:induction false} RunShape(content: string, start: int, rounds: nat)
    requires -ChunkOverlap <= start
    ensures var r := Run(content, start, rounds).spans;
      && (r != [] ==> r[0].lo == start)
      && (forall j :: 0 <= j < |r| ==> -ChunkOverlap <= r[j].lo < r[j].hi <= r[j].lo + ChunkSize)
      && (forall j :: 0 <= j < |r| - 1 ==> r[j + 1].lo == r[j].hi - ChunkOverlap)
    decreases rounds
  {
    if start < |content| && rounds > 0 && start + ChunkSize < |content| {
      var next := SplitPoint(content, start) - ChunkOverlap;
      RunShape(content, next, rounds - 1);
      var r, rest := Run(content, start, rounds).spans, Run(content, next, rounds - 1).spans;
      assert r == [Span(start, next + ChunkOverlap)] + rest;
      forall j | 0 <= j < |r| - 1 ensures r[j + 1].lo == r[j].hi - ChunkOverlap {
        if 0 < j {
          assert r[j] == rest[j - 1] && r[j + 1] == rest[j];
        }
      }
    }
  }

  /** No chunk of the code as written is longer than `ChunkSize`. */
  lemma RunChunkSizes(content: string, rounds: nat)
    ensures var chunks := SpanText(content, Run(content, 0, rounds).spans);
      forall j :: 0 <= j < |chunks| ==> |chunks[j]| <= ChunkSize
  {
    RunShape(content, 0, rounds);
    var spans := Run(content, 0, rounds).spans;
    forall j | 0 <= j < |spans|
      ensures |SpanText(content, spans)[j]| <= ChunkSize
    {
      SpanTextAt(content, spans, j);
      SliceFacts(content, spans[j].lo, spans[j].hi);
    }
  }

  /** A text that fits one window is one chunk, and an empty text none. */
  lemma RunShortText(content: string, rounds: nat)
    requires |content| <= ChunkSize && (content == [] || 0 < rounds)
    ensures Run(content, 0, rounds).finished
    ensures SpanText(content, Run(content, 0, rounds).spans) == if content == [] then [] else [content]
  {
    if content != [] {
      SpanTextSnoc(content, [], Span(0, |content|));
      SliceFacts(content, 0, |content|);
      assert content[0..|content|] == content;
    }
  }

  /** A window without a boundary after the cursor is cut at its end, and the
      cursor advances by exactly `ChunkSize - ChunkOverlap`. */
  lemma HardCutAdvance(content: string, start: nat)
    requires start + ChunkSize < |content|
    requires NoBoundary(content, start + 1, start + ChunkSize)
    ensures Step(content, start) == Cut(Span(start, start + ChunkSize), start + ChunkSize - ChunkOverlap)
  {
    SplitPointCases(content, start);
  }

  /** A text made only of '.' and longer than one window: the first chunk is
      `content[..999]`, cut before the dot at 999, and the second starts 200
      characters earlier, at 799. */
  lemma AllDotsOverlap(content: string, rounds: nat)
    requires ChunkSize < |content| && 2 <= rounds
    requires forall k :: 0 <= k < |content| ==> content[k] == '.'
    ensures var t := Run(content, 0, rounds);
      && 2 <= |t.spans|
      && t.spans[0] == Span(0, ChunkSize - 1)
      && t.spans[1].lo == ChunkSize - 1 - ChunkOverlap
      && SpanText(content, t.spans)[0] == content[..ChunkSize - 1]
  {
    var second := ChunkSize - 1 - ChunkOverlap;
    LastBoundaryIs(content, 1, ChunkSize, ChunkSize - 1);
    assert SplitPoint(content, 0) == ChunkSize - 1;
    assert Step(content, 0) == Cut(Span(0, ChunkSize - 1), second);
    var rest := Run(content, second, rounds - 1);
    assert rest.spans[0] == Step(content, second).span;
    SpanTextAt(content, Run(content, 0, rounds).spans, 0);
    SliceFacts(content, 0, ChunkSize - 1);
  }

  // ---------------------------------------------------------------------
  // Findings: where the code as written goes wrong

  /** A text of 1701 characters whose only boundary is the '.' at index 700. */
  function StallText(): (s: string)
    ensures |s| == 1701
  {
    seq(1701, i => if i == 700 then '.' else 'a')
  }

  lemma StallAt500(rounds: nat)
    ensures !Run(StallText(), 500, rounds).finished
    decreases rounds
  {
    var w := StallText();
    if rounds > 0 {
      LastBoundaryIs(w, 501, 1500, 700);
      assert SplitPoint(w, 500) == 700;
      StallAt500(rounds - 1);
    }
  }

  /** On `StallText` the cursor goes 0, 500, 500, 500, ...: the boundary at
      700 is found again in every window, the cut is only 200 characters past
      the cursor, and stepping back by the overlap lands on the same cursor.
      The loop never finishes, however many rounds it is given. */
  lemma StallForever(rounds: nat)
    ensures !Run(StallText(), 0, rounds).finished
  {
    var w := StallText();
    if rounds > 0 {
      LastBoundaryIs(w, 1, 1000, 700);
      assert SplitPoint(w, 0) == 700;
      StallAt500(rounds - 1);
    }
  }

  /** A text of 1500 characters whose only boundary is the '.' at index 100. */
  function GapText(): (s: string)
    ensures |s| == 1500
  {
    seq(1500, i => if i == 100 then '.' else 'a')
  }

  /** Texts of 1500 characters whose first window holds one boundary after
      the cursor, at index 100. */
  predicate GapShaped(g: string) {
    |g| == 1500 && IsBoundary(g[100]) && NoBoundary(g, 101, 1000)
  }

  lemma GapTextIsGapShaped()
    ensures GapShaped(GapText())
  {
  }

  /** On such a text the first cut is at 100, so the cursor becomes -100.
      Python reads `rfind(..., -100, 900)` as the empty range [1400, 900) and
      the slice `[-100:900]` as the empty range [1400:900], so the second
      round takes nothing and the cursor jumps to 700. */
  lemma GapRun(g: string, rounds: nat)
    requires GapShaped(g) && 3 <= rounds
    ensures Run(g, 0, rounds) == Trace([Span(0, 100), Span(-100, 900), Span(700, 1500)], true)
  {
    LastBoundaryIs(g, 1, 1000, 100);
    assert SplitPoint(g, 0) == 100;
    assert SplitPoint(g, -100) == 900;
    assert Run(g, 700, rounds - 2) == Trace([Span(700, 1500)], true);
    assert Run(g, -100, rounds - 1) == Trace([Span(-100, 900), Span(700, 1500)], true);
  }

  /** The chunks of such a text are `g[:100]`, an empty chunk and `g[700:]`:
      the characters 100 to 699 are in no chunk. */
  lemma GapDropsText(g: string, rounds: nat)
    requires GapShaped(g) && 3 <= rounds
    ensures SpanText(g, Run(g, 0, rounds).spans) == [g[..100], "", g[700..]]
    ensures var chunks := SpanText(g, Run(g, 0, rounds).spans);
      |chunks| == 3 && |chunks[0]| + |chunks[1]| + |chunks[2]| < |g|
  {
    GapRun(g, rounds);
    var spans := [Span(0, 100), Span(-100, 900), Span(700, 1500)];
    var chunks := SpanText(g, spans);
    SpanTextAt(g, spans, 0);
    SpanTextAt(g, spans, 1);
    SpanTextAt(g, spans, 2);
    SliceFacts(g, 0, 100);
    SliceFacts(g, 700, 1500);
    assert chunks[0] == g[..100];
    assert chunks[1] == "";
    assert chunks[2] == g[700..];
    assert chunks == [g[..100], "", g[700..]];
  }

  // ---------------------------------------------------------------------
  // The corrected chunker

  /** Texts on which the code as written always makes progress: every cut of
      a window that does not reach the end lies more than `ChunkOverlap`
      characters after the cursor. */
  ghost predicate WellSpaced(content: string) {
    forall s :: 0 <= s && s + ChunkSize < |content| ==> SplitPoint(content, s) > s + ChunkOverlap
  }

  /** The cut of the corrected chunker: the last boundary that leaves room
      for the overlap, or the end of the window when there is none. */
  function FixedSplitPoint(content: string, start: nat): (sp: nat)
    requires start + ChunkSize < |content|
    ensures start + ChunkOverlap < sp <= start + ChunkSize
  {
    var p := LastBoundary(content, start + ChunkOverlap + 1, start + ChunkSize);
    if p == -1 then start + ChunkSize else p
  }

  /** Where the code as written cuts more than `ChunkOverlap` after the
      cursor, the corrected chunker cuts at the same place. */
  lemma FixedSplitAgrees(content: string, start: nat)
    requires start + ChunkSize < |content|
    requires SplitPoint(content, start) > start + ChunkOverlap
    ensures FixedSplitPoint(content, start) == SplitPoint(content, start)
  {
    var end := start + ChunkSize;
    var p := LastBoundary(content, start + 1, end);
    LastBoundarySpec(content, start + 1, end);
    LastBoundarySpec(content, start + ChunkOverlap + 1, end);
    if p == -1 {
      assert NoBoundary(content, start + ChunkOverlap + 1, end);
    } else {
      LastBoundaryIs(content, start + ChunkOverlap + 1, end, p);
    }
  }

  /** The chunk bounds the corrected chunker produces from cursor `start`. */
  function Spans(content: string, start: nat): (r: seq<Span>)
    ensures r == [] <==> start >= |content|
    ensures r != [] ==> r[0].lo == start
    decreases |content| - start
  {
    if start >= |content| then []
    else if start + ChunkSize >= |content| then [Span(start, |content|)]
    else
      var sp := FixedSplitPoint(content, start);
      [Span(start, sp)] + Spans(content, sp - ChunkOverlap)
  }

  /** One cut of the corrected chunker, unfolded. */
  lemma SpansCut(content: string, start: nat)
    requires start + ChunkSize < |content|
    ensures var sp := FixedSplitPoint(content, start);
      Spans(content, start) == [Span(start, sp)] + Spans(content, sp - ChunkOverlap)
  {
  }

  /** Slice `j` of the corrected chunker lies inside the text after the
      cursor, is non-empty and at most `ChunkSize` long. */
  lemma {:induction false} SpanBounds(content: string, start: nat, j: nat)
    requires j < |Spans(content, start)|
    ensures var s := Spans(content, start)[j];
      start <= s.lo < s.hi <= |content| && s.hi - s.lo <= ChunkSize
    decreases j
  {
    if start + ChunkSize < |content| {
      var sp := FixedSplitPoint(content, start);
      SpansCut(content, start);
      if 0 < j {
        SpanBounds(content, sp - ChunkOverlap, j - 1);
        assert Spans(content, start)[j] == Spans(content, sp - ChunkOverlap)[j - 1];
      }
    }
  }

  /** Every slice of the corrected chunker but the last is longer than
      `ChunkOverlap`, and the next one starts exactly `ChunkOverlap` before
      it ends. */
  lemma {:induction false} SpanOverlap(content: string, start: nat, j: nat)
    requires j + 1 < |Spans(content, start)|
    ensures var r := Spans(content, start);
      r[j].hi - r[j].lo > ChunkOverlap && r[j + 1].lo == r[j].hi - ChunkOverlap
    decreases j
  {
    assert start + ChunkSize < |content|;
    var sp := FixedSplitPoint(content, start);
    SpansCut(content, start);
    var r, rest := Spans(content, start), Spans(content, sp - ChunkOverlap);
    if j == 0 {
      assert r[0] == Span(start, sp) && r[1] == rest[0];
    } else {
      SpanOverlap(content, sp - ChunkOverlap, j - 1);
      assert r[j] == rest[j - 1] && r[j + 1] == rest[j];
    }
  }

  /** The last slice of the corrected chunker ends at the end of the text
      and fits one window. */
  lemma {:induction false} SpansLast(content: string, start: nat)
    requires start < |content|
    ensures var r := Spans(content, start);
      r[|r| - 1].hi == |content| && r[|r| - 1].lo + ChunkSize >= |content|
    decreases |content| - start
  {
    if start + ChunkSize < |content| {
      var sp := FixedSplitPoint(content, start);
      SpansCut(content, start);
      SpansLast(content, sp - ChunkOverlap);
    }
  }

  /** The shape of the corrected chunker's bounds, for every slice. */
  lemma SpansShape(content: string, start: nat)
    ensures var r := Spans(content, start);
      && (r != [] ==> r[|r| - 1].hi == |content| && r[|r| - 1].lo + ChunkSize >= |content|)
      && (forall j :: 0 <= j < |r| ==>
            start <= r[j].lo < r[j].hi <= |content| && r[j].hi - r[j].lo <= ChunkSize)
      && (forall j :: 0 <= j < |r| - 1 ==>
            r[j].hi - r[j].lo > ChunkOverlap && r[j + 1].lo == r[j].hi - ChunkOverlap)
  {
    var r := Spans(content, start);
    if r != [] {
      SpansLast(content, start);
    }
    forall j | 0 <= j < |r|
      ensures start <= r[j].lo < r[j].hi <= |content| && r[j].hi - r[j].lo <= ChunkSize
    {
      SpanBounds(content, start, j);
    }
    forall j | 0 <= j < |r| - 1
      ensures r[j].hi - r[j].lo > ChunkOverlap && r[j + 1].lo == r[j].hi - ChunkOverlap
    {
      SpanOverlap(content, start, j);
    }
  }

  /** The chunks of the corrected chunker: as many as there are slices, none
      empty and none longer than `ChunkSize`. */
  function ChunkText(content: string): (chunks: seq<string>)
    ensures |chunks| == |Spans(content, 0)|
    ensures forall j :: 0 <= j < |chunks| ==> 0 < |chunks[j]| <= ChunkSize
  {
    var spans := Spans(content, 0);
    SpansShape(content, 0);
    SpanTextInRange(content, spans);
    SpanText(content, spans)
  }

  /** Chunk `j` is the text between the bounds of slice `j`. */
  lemma ChunkTextAt(content: string, j: nat)
    requires j < |ChunkText(content)|
    ensures var s := Spans(content, 0)[j];
      0 <= s.lo < s.hi <= |content| && ChunkText(content)[j] == content[s.lo..s.hi]
  {
    var s := Spans(content, 0)[j];
    SpanBounds(content, 0, j);
    SpanTextAt(content, Spans(content, 0), j);
    SliceFacts(content, s.lo, s.hi);
  }

  /** An empty text has no chunks, a text that fits one window is one chunk,
      and the last chunk is the end of the text. */
  lemma ChunkTextEnds(content: string)
    ensures content == [] <==> ChunkText(content) == []
    ensures 0 < |content| <= ChunkSize ==> ChunkText(content) == [content]
    ensures var chunks := ChunkText(content);
      chunks != [] ==> content[|content| - |chunks[|chunks| - 1]|..] == chunks[|chunks| - 1]
  {
    var chunks := ChunkText(content);
    if chunks != [] {
      var last := |chunks| - 1;
      SpansLast(content, 0);
      ChunkTextAt(content, last);
    }
    if 0 < |content| <= ChunkSize {
      assert Spans(content, 0) == [Span(0, |content|)];
      assert content[0..|content|] == content;
    }
  }

  /** The cursor of the corrected chunker strictly increases, and each chunk
      starts exactly `ChunkOverlap` characters before the previous one ends. */
  lemma SpansAdvance(content: string, j: nat)
    requires j + 1 < |Spans(content, 0)|
    ensures var r := Spans(content, 0);
      r[j].lo < r[j + 1].lo < r[j].hi && r[j].hi - r[j + 1].lo == ChunkOverlap
  {
    SpansShape(content, 0);
  }

  lemma {:induction false} SpansCover(content: string, start: nat, i: nat)
    requires start <= i < |content|
    ensures exists j :: 0 <= j < |Spans(content, start)| &&
                        Spans(content, start)[j].lo <= i < Spans(content, start)[j].hi
    decreases |content| - start
  {
    var r := Spans(content, start);
    if start + ChunkSize < |content| {
      var sp := FixedSplitPoint(content, start);
      SpansCut(content, start);
      assert r[0] == Span(start, sp);
      if i >= sp {
        var rest := Spans(content, sp - ChunkOverlap);
        SpansCover(content, sp - ChunkOverlap, i);
        var j :| 0 <= j < |rest| && rest[j].lo <= i < rest[j].hi;
        assert r[j + 1] == rest[j];
      }
    } else {
      assert r == [Span(start, |content|)];
    }
  }

  /** Every character of the text is in some chunk of the corrected chunker,
      at the place its bounds say. */
  lemma ChunksCoverContent(content: string, i: nat)
    requires i < |content|
    ensures exists j :: 0 <= j < |ChunkText(content)| &&
                        var s := Spans(content, 0)[j];
                        s.lo <= i < s.hi && i - s.lo < |ChunkText(content)[j]| &&
                        ChunkText(content)[j][i - s.lo] == content[i]
  {
    SpansCover(content, 0, i);
    var j :| 0 <= j < |Spans(content, 0)| && Spans(content, 0)[j].lo <= i < Spans(content, 0)[j].hi;
    ChunkTextAt(content, j);
  }

  lemma {:induction false} SpansHoldPiece(content: string, start: nat, a: nat, m: nat)
    requires start <= a && a + m <= |content| && a < |content| && m <= ChunkOverlap + 1
    ensures exists j :: 0 <= j < |Spans(content, start)| &&
                        Spans(content, start)[j].lo <= a && a + m <= Spans(content, start)[j].hi
    decreases |content| - start
  {
    var r := Spans(content, start);
    if start + ChunkSize < |content| {
      var sp := FixedSplitPoint(content, start);
      SpansCut(content, start);
      assert r[0] == Span(start, sp);
      if a + m > sp {
        var rest := Spans(content, sp - ChunkOverlap);
        SpansHoldPiece(content, sp - ChunkOverlap, a, m);
        var j :| 0 <= j < |rest| && rest[j].lo <= a && a + m <= rest[j].hi;
        assert r[j + 1] == rest[j];
      }
    } else {
      assert r == [Span(start, |content|)];
    }
  }

  /** `w` occurs in `t`. */
  ghost predicate Occurs(w: string, t: string) {
    exists p :: 0 <= p && p + |w| <= |t| && OccursAt(w, t, p)
  }

  ghost predicate OccursAt(w: string, t: string, p: nat)
    requires p + |w| <= |t|
  {
    t[p..p + |w|] == w
  }

  function Concat(chunks: seq<string>): string {
    if chunks == [] then "" else chunks[0] + Concat(chunks[1..])
  }

  lemma {:induction false} OccursInConcat(w: string, chunks: seq<string>, j: nat)
    requires j < |chunks| && Occurs(w, chunks[j])
    ensures Occurs(w, Concat(chunks))
    decreases j
  {
    var t := Concat(chunks);
    if j == 0 {
      var p :| 0 <= p && p + |w| <= |chunks[0]| && OccursAt(w, chunks[0], p);
      assert t[p..p + |w|] == chunks[0][p..p + |w|];
      assert OccursAt(w, t, p);
    } else {
      OccursInConcat(w, chunks[1..], j - 1);
      var rest := Concat(chunks[1..]);
      var p :| 0 <= p && p + |w| <= |rest| && OccursAt(w, rest, p);
      var q := |chunks[0]| + p;
      assert t[q..q + |w|] == rest[p..p + |w|];
      assert OccursAt(w, t, q);
    }
  }

  /** A piece of a chunk at an offset inside it is the same piece of the text. */
  lemma SliceOfSlice(content: string, lo: nat, hi: nat, p: nat, m: nat)
    requires lo <= hi <= |content| && p + m <= hi - lo
    ensures content[lo..hi][p..p + m] == content[lo + p..lo + p + m]
  {
    var x, y := content[lo..hi][p..p + m], content[lo + p..lo + p + m];
    assert |x| == m == |y|;
    forall k | 0 <= k < m
      ensures x[k] == y[k]
    {
      assert x[k] == content[lo..hi][p + k] == content[lo + p + k];
    }
  }

  /** Any piece of the text of at most `ChunkOverlap + 1` characters (a
      section heading, say) lies whole inside one chunk of the corrected
      chunker. */
  lemma ShortPieceInChunk(content: string, a: nat, m: nat)
    requires a + m <= |content| && a < |content| && m <= ChunkOverlap + 1
    ensures exists j :: 0 <= j < |ChunkText(content)| && Occurs(content[a..a + m], ChunkText(content)[j])
  {
    var chunks := ChunkText(content);
    var r := Spans(content, 0);
    SpansHoldPiece(content, 0, a, m);
    var j :| 0 <= j < |r| && r[j].lo <= a && a + m <= r[j].hi;
    var lo, hi := r[j].lo, r[j].hi;
    var p := a - lo;
    ChunkTextAt(content, j);
    SliceOfSlice(content, lo, hi, p, m);
    assert chunks[j] == content[lo..hi];
    assert chunks[j][p..p + m] == content[a..a + m];
    assert OccursAt(content[a..a + m], chunks[j], p);
  }

  /** Such a piece therefore also occurs in the chunks joined together. */
  lemma ShortPieceSurvives(content: string, a: nat, m: nat)
    requires a + m <= |content| && a < |content| && m <= ChunkOverlap + 1
    ensures Occurs(content[a..a + m], Concat(ChunkText(content)))
  {
    var chunks := ChunkText(content);
    ShortPieceInChunk(content, a, m);
    var j :| 0 <= j < |chunks| && Occurs(content[a..a + m], chunks[j]);
    OccursInConcat(content[a..a + m], chunks, j);
  }

  /** One cut of the code as written, unfolded. */
  lemma RunCut(content: string, start: int, rounds: nat)
    requires -ChunkOverlap <= start && start + ChunkSize < |content| && 0 < rounds
    ensures var sp := SplitPoint(content, start);
      Run(content, start, rounds) == Prepend([Span(start, sp)], Run(content, sp - ChunkOverlap, rounds - 1))
  {
  }

  /** When the loop as written leaves through `break`, its last slice is the
      suffix `content[start:]` of the last window: it ends at the end of the
      text and fits within one window. This holds whether or not the text is
      well spaced. */
  lemma {:induction false} RunLastSlice(content: string, start: int, rounds: nat)
    requires -ChunkOverlap <= start < |content| && Run(content, start, rounds).finished
    ensures var spans := Run(content, start, rounds).spans;
      && spans != []
      && spans[|spans| - 1].hi == |content|
      && spans[|spans| - 1].lo + ChunkSize >= |content|
    decreases rounds
  {
    if start + ChunkSize < |content| {
      var sp := SplitPoint(content, start);
      RunCut(content, start, rounds);
      RunLastSlice(content, sp - ChunkOverlap, rounds - 1);
    }
  }

  lemma {:induction false} RunMatchesSpans(content: string, start: nat, rounds: nat)
    requires WellSpaced(content)
    requires |content| - start <= rounds
    ensures Run(content, start, rounds) == Trace(Spans(content, start), true)
    decreases |content| - start
  {
    if start + ChunkSize < |content| {
      var sp := SplitPoint(content, start);
      assert sp > start + ChunkOverlap;
      FixedSplitAgrees(content, start);
      RunMatchesSpans(content, sp - ChunkOverlap, rounds - 1);
      RunCut(content, start, rounds);
      SpansCut(content, start);
    }
  }

  /** On a well-spaced text the code as written finishes within `|content|`
      rounds and produces exactly the chunks of the corrected chunker. */
  lemma RunMatchesChunkText(content: string, rounds: nat)
    requires WellSpaced(content) && |content| <= rounds
    ensures Run(content, 0, rounds).finished
    ensures SpanText(content, Run(content, 0, rounds).spans) == ChunkText(content)
  {
    RunMatchesSpans(content, 0, rounds);
  }
}
