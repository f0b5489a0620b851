/**
  The answer panel of the search page. An empty answer shows a placeholder. Any
  other answer is cut at its citation markers `[n]`. A marker that names one of
  the sources becomes a link to it; every other part goes through fenced-code,
  then inline-code, then bold splitting.
*/
module AnswerSection {
  import opened Wrappers
  import opened JsText
  import opened Patterns
  import opened Backend
  import opened Nodes

  /** What the panel shows: the placeholder, or the rendered answer. */
  datatype View = NoAnswer | Answer(nodes: seq<Node>)

  function Show(answer: string, sources: seq<Source>): (v: View)
    ensures v.NoAnswer? <==> answer == ""
  {
    if answer == "" then NoAnswer else Answer(Render(answer, sources))
  }

  /** `renderAnswerWithCitations`: split at markers, keeping them, and render each part in order. */
  function Render(text: string, sources: seq<Source>): seq<Node> {
    var parts := Split(Marker, text);
    Flatten(seq(|parts|, i requires 0 <= i < |parts| => RenderPart(parts[i], sources)))
  }

  /** The digits of the first marker in `part` (`part.match(/\[(\d+)\]/)[1]`). */
  function FirstMarkerDigits(part: string): (r: Option<string>)
    ensures r.Some? ==> AllDigits(r.value)
  {
    match FindFrom(Marker, part, 0)
    case None => None
    case Some((a, e)) => Some(part[a + 1..e - 1])
  }

  /** `sources[parseInt(digits) - 1]`, when that index is inside the list. */
  function Cited(digits: string, sources: seq<Source>): Option<Source>
    requires AllDigits(digits)
  {
    var n := DigitsValue(digits);
    if 1 <= n <= |sources| then Some(sources[n - 1]) else None
  }

  function RenderPart(part: string, sources: seq<Source>): seq<Node> {
    var m := FirstMarkerDigits(part);
    if m.Some? && Cited(m.value, sources).Some? then
      var src := Cited(m.value, sources).value;
      [Citation(src.url, Some(src.title), m.value)]
    else if Contains(part, "```") then FenceSpans(part)
    else if Contains(part, "`") then TickSpans(part)
    else [Text(part)]
  }

  /** A piece of the fenced-block split: one that begins and ends with three backticks is a block, anything else raw text. */
  function FencePiece(b: string): seq<Node> {
    if StartsWith(b, "```") && EndsWith(b, "```") then [FencedBlock(b)] else [Text(b)]
  }

  function FenceSpans(part: string): seq<Node> {
    var bs := Split(Fence, part);
    Flatten(seq(|bs|, i requires 0 <= i < |bs| => FencePiece(bs[i])))
  }

  /** A piece of the inline-code split: a backtick span is code; otherwise bold splitting when `**` occurs, else text. */
  function TickPiece(t: string): seq<Node> {
    if StartsWith(t, "`") && EndsWith(t, "`") then [InlineCode(Slice(t, 1, -1))]
    else if Contains(t, "**") then BoldSpans(t)
    else [Text(t)]
  }

  function TickSpans(part: string): seq<Node> {
    var ts := Split(Tick, part);
    Flatten(seq(|ts|, i requires 0 <= i < |ts| => TickPiece(ts[i])))
  }

  /** The parts of the citation split alternate text and whole markers, and put together they are the answer. */
  lemma CitationSplit(text: string)
    ensures var parts := Split(Marker, text);
      |parts| % 2 == 1 && Concat(parts) == text
    ensures var parts := Split(Marker, text);
      forall i :: 0 <= i < |parts| && i % 2 == 1 ==> IsMatch(Marker, parts[i])
    ensures var parts := Split(Marker, text);
      forall i :: 0 <= i < |parts| && i % 2 == 0 ==> NoMatchIn(Marker, parts[i])
  {
    var parts := Split(Marker, text);
    SplitShape(Marker, text);
    SplitConcat(Marker, text);
    forall i | 0 <= i < |parts| && i % 2 == 1 ensures IsMatch(Marker, parts[i]) {
      assert Uncapture(Marker, parts[i]) == parts[i];
    }
  }

  /**
    How a marker `[d]` reads: a link to source number `parseInt(d)`, titled with its
    title and showing `d` as written, when that source exists; the marker itself otherwise.
  */
  function MarkerNodes(w: string, sources: seq<Source>): seq<Node> {
    if |w| >= 2 && AllDigits(w[1..|w| - 1]) && 1 <= DigitsValue(w[1..|w| - 1]) <= |sources| then
      var src := sources[DigitsValue(w[1..|w| - 1]) - 1];
      [Citation(src.url, Some(src.title), w[1..|w| - 1])]
    else [Text(w)]
  }

  /** A marker part renders as `MarkerNodes`: a link when its number names a source, its own text otherwise. */
  lemma MarkerPart(w: string, sources: seq<Source>)
    requires IsMatch(Marker, w)
    ensures var d := w[1..|w| - 1];
      1 <= DigitsValue(d) <= |sources| ==>
        RenderPart(w, sources) == [Citation(sources[DigitsValue(d) - 1].url, Some(sources[DigitsValue(d) - 1].title), d)]
    ensures var d := w[1..|w| - 1];
      !(1 <= DigitsValue(d) <= |sources|) ==> RenderPart(w, sources) == [Text(w)]
    ensures RenderPart(w, sources) == MarkerNodes(w, sources)
  {
    SplitOfMatch(Marker, w);
    assert FirstMarkerDigits(w) == Some(w[1..|w| - 1]);
    NotContainsWithoutFirst(w, "`");
    NotContainsWithoutFirst(w, "```");
  }

  /** How a text part renders: fenced-code splitting if it holds three backticks, else inline-code splitting if it holds one, else as it is. */
  function Markup(g: string): seq<Node> {
    if Contains(g, "```") then FenceSpans(g)
    else if Contains(g, "`") then TickSpans(g)
    else [Text(g)]
  }

  /** A part between markers never becomes a link, whatever the sources. */
  lemma GapPart(g: string, sources: seq<Source>)
    requires NoMatchIn(Marker, g)
    ensures RenderPart(g, sources) == Markup(g)
  {
    match FindFrom(Marker, g, 0)
    case None =>
    case Some((a, e)) =>
      MatchAtIff(Marker, g, a, e);
      assert false;
  }

  /** The whole answer, part by part: markers by `MarkerNodes`, the text between them by `Markup`. */
  lemma RenderByPosition(text: string, sources: seq<Source>)
    ensures var parts := Split(Marker, text);
      Render(text, sources) == Flatten(seq(|parts|, i requires 0 <= i < |parts| =>
        if i % 2 == 1 then MarkerNodes(parts[i], sources) else Markup(parts[i])))
  {
    var parts := Split(Marker, text);
    CitationSplit(text);
    var a := seq(|parts|, i requires 0 <= i < |parts| => RenderPart(parts[i], sources));
    var b := seq(|parts|, i requires 0 <= i < |parts| =>
      if i % 2 == 1 then MarkerNodes(parts[i], sources) else Markup(parts[i]));
    forall i | 0 <= i < |parts| ensures a[i] == b[i] {
      if i % 2 == 1 { MarkerPart(parts[i], sources); } else { GapPart(parts[i], sources); }
    }
    assert a == b;
  }

  /** A number with a leading zero still finds its source by value, and the link shows the digits as written. */
  lemma LeadingZeroCitation(src: Source)
    ensures Render("[01]", [src]) == [Text(""), Citation(src.url, Some(src.title), "01"), Text("")]
  {
    var w := "[01]";
    LeadingZeroPart(src);
    SplitOfMatch(Marker, w);
    EmptyPart([src]);
    var parts := Split(Marker, w);
    var items := seq(|parts|, i requires 0 <= i < |parts| => RenderPart(parts[i], [src]));
    assert items == [[Text("")], [Citation(src.url, Some(src.title), "01")], [Text("")]];
    FlattenThree([Text("")], [Citation(src.url, Some(src.title), "01")], [Text("")]);
  }

  /** Proof step of `LeadingZeroCitation`, kept apart so that the proof stays fast: the marker piece. */
  lemma LeadingZeroPart(src: Source)
    ensures IsMatch(Marker, "[01]")
    ensures RenderPart("[01]", [src]) == [Citation(src.url, Some(src.title), "01")]
  {
    var w := "[01]";
    assert w[1..|w| - 1] == "01";
    assert DigitsValue("01") == 1;
    MarkerPart(w, [src]);
  }

  /** Proof step of `LeadingZeroCitation`, kept apart so that the proof stays fast: an empty gap piece. */
  lemma EmptyPart(sources: seq<Source>)
    ensures RenderPart("", sources) == [Text("")]
  {
    assert !Contains("", "`") && !Contains("", "```");
  }

  /**
    How a piece of the fenced-block split renders, told by its position: a match is a
    code block; between matches, a run of three to five backticks still passes the
    begins-and-ends test and becomes an empty code block; all other text stays raw,
    without inline-code or bold handling.
  */
  function FenceByPosition(b: string, odd: bool): seq<Node> {
    if odd then [FencedBlock(b)]
    else if 3 <= |b| && Only('`', b) then [CodeBlock("", "")]
    else [Text(b)]
  }

  lemma FencePieceByPosition(b: string, odd: bool)
    requires odd ==> IsMatch(Fence, b)
    requires !odd ==> NoMatchIn(Fence, b)
    ensures FencePiece(b) == FenceByPosition(b, odd)
  {
    if odd || (3 <= |b| && Only('`', b)) {
      assert b[..3] == "```";
      assert b[|b| - 3..] == "```";
    }
    if !odd && StartsWith(b, "```") && EndsWith(b, "```") {
      FenceGapStray(b);
      StrayFenceIsEmptyBlock(b);
    }
  }

  /** The fenced-block split of a part, piece by piece. */
  lemma FenceSpansShape(part: string)
    ensures var bs := Split(Fence, part);
      FenceSpans(part) == Flatten(seq(|bs|, i requires 0 <= i < |bs| => FenceByPosition(bs[i], i % 2 == 1)))
    ensures var bs := Split(Fence, part);
      forall i :: 0 <= i < |bs| && i % 2 == 1 ==> IsMatch(Fence, bs[i])
  {
    var bs := Split(Fence, part);
    SplitShape(Fence, part);
    var a := seq(|bs|, i requires 0 <= i < |bs| => FencePiece(bs[i]));
    var b := seq(|bs|, i requires 0 <= i < |bs| => FenceByPosition(bs[i], i % 2 == 1));
    forall i | 0 <= i < |bs|
      ensures a[i] == b[i]
      ensures i % 2 == 1 ==> IsMatch(Fence, bs[i])
    {
      assert Uncapture(Fence, bs[i]) == bs[i];
      FencePieceByPosition(bs[i], i % 2 == 1);
    }
    assert a == b;
  }

  /**
    How a piece of the inline-code split renders, told by its position: a match is
    inline code without its backticks; between matches, a run of backticks still passes
    the begins-and-ends test and becomes inline code of the run less two; other text
    goes through bold splitting when it holds `**`, and stays text otherwise.
  */
  function TickByPosition(t: string, odd: bool): seq<Node> {
    if odd then [InlineCode(Slice(t, 1, -1))]
    else if |t| >= 1 && Only('`', t) then [InlineCode(Slice(t, 1, -1))]
    else if Contains(t, "**") then BoldSpans(t)
    else [Text(t)]
  }

  lemma TickPieceByPosition(t: string, odd: bool)
    requires odd ==> IsMatch(Tick, t)
    requires !odd ==> NoMatchIn(Tick, t)
    ensures TickPiece(t) == TickByPosition(t, odd)
    ensures odd ==> t == "`" + Slice(t, 1, -1) + "`"
  {
    if odd || (|t| >= 1 && Only('`', t)) {
      assert t[..1] == "`" && t[|t| - 1..] == "`";
    }
    if odd {
      assert t == t[..1] + t[1..|t| - 1] + t[|t| - 1..];
    } else if StartsWith(t, "`") && EndsWith(t, "`") {
      assert t[0] == t[..1][0] && t[|t| - 1] == t[|t| - 1..][0];
      TickGapAllTicks(t);
    }
  }

  /** The inline-code split of a part, piece by piece. */
  lemma TickSpansShape(part: string)
    ensures var ts := Split(Tick, part);
      TickSpans(part) == Flatten(seq(|ts|, i requires 0 <= i < |ts| => TickByPosition(ts[i], i % 2 == 1)))
    ensures var ts := Split(Tick, part);
      forall i :: 0 <= i < |ts| && i % 2 == 1 ==> IsMatch(Tick, ts[i]) && ts[i] == "`" + Slice(ts[i], 1, -1) + "`"
  {
    var ts := Split(Tick, part);
    SplitShape(Tick, part);
    var a := seq(|ts|, i requires 0 <= i < |ts| => TickPiece(ts[i]));
    var b := seq(|ts|, i requires 0 <= i < |ts| => TickByPosition(ts[i], i % 2 == 1));
    forall i | 0 <= i < |ts|
      ensures a[i] == b[i]
      ensures i % 2 == 1 ==> IsMatch(Tick, ts[i]) && ts[i] == "`" + Slice(ts[i], 1, -1) + "`"
    {
      assert Uncapture(Tick, ts[i]) == ts[i];
      TickPieceByPosition(ts[i], i % 2 == 1);
    }
    assert a == b;
  }

  /** In an answer without backticks every text part is shown as written: `**x**` there is not made bold. */
  lemma NoBacktickVerbatim(text: string, sources: seq<Source>)
    requires forall i :: 0 <= i < |text| ==> text[i] != '`'
    ensures var parts := Split(Marker, text);
      forall i :: 0 <= i < |parts| && i % 2 == 0 ==> RenderPart(parts[i], sources) == [Text(parts[i])]
  {
    var parts := Split(Marker, text);
    CitationSplit(text);
    forall i | 0 <= i < |parts| && i % 2 == 0 ensures RenderPart(parts[i], sources) == [Text(parts[i])] {
      GapPart(parts[i], sources);
      ConcatHasNo(parts, i, '`');
      NotContainsWithoutFirst(parts[i], "`");
      NotContainsWithoutFirst(parts[i], "```");
    }
  }

  /** A character missing from the concatenation is missing from every part. */
  lemma {:induction false} ConcatHasNo(parts: seq<string>, i: nat, c: char)
    requires i < |parts|
    requires forall k :: 0 <= k < |Concat(parts)| ==> Concat(parts)[k] != c
    ensures forall k :: 0 <= k < |parts[i]| ==> parts[i][k] != c
  {
    var all := Concat(parts);
    assert all == parts[0] + Concat(parts[1..]);
    if i == 0 {
      forall k | 0 <= k < |parts[0]| ensures parts[0][k] != c { assert all[k] == parts[0][k]; }
    } else {
      forall k | 0 <= k < |Concat(parts[1..])| ensures Concat(parts[1..])[k] != c {
        assert all[|parts[0]| + k] == Concat(parts[1..])[k];
      }
      ConcatHasNo(parts[1..], i - 1, c);
    }
  }

  /**
    Markers are cut out before code blocks are looked for: a fenced block that holds a
    marker never survives whole inside any part.
  */
  lemma MarkerBreaksFence(text: string, w: string, a: nat, e: nat)
    requires IsMatch(Fence, w)
    requires a <= e <= |w| && IsMatch(Marker, w[a..e])
    ensures var parts := Split(Marker, text);
      forall i, k :: 0 <= i < |parts| ==> !OccursAt(parts[i], w, k)
  {
    var parts := Split(Marker, text);
    CitationSplit(text);
    assert FenceAt(w, 0);
    forall i, k | 0 <= i < |parts| ensures !OccursAt(parts[i], w, k) {
      var p := parts[i];
      if i % 2 == 1 {
        MarkerHasNoTick(p);
        NotContainsWithoutFirst(p, w);
      } else if OccursAt(p, w, k) {
        SliceOfSlice(p, k, k + |w|, a, e);
      }
    }
  }

  /** A marker holds no backtick. */
  lemma MarkerHasNoTick(p: string)
    requires IsMatch(Marker, p)
    ensures forall j :: 0 <= j < |p| ==> p[j] != '`'
  {
    forall j | 0 < j < |p| - 1 ensures p[j] != '`' {
      assert p[1..|p| - 1][j - 1] == p[j];
    }
  }
}
