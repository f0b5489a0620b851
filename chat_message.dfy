/**
  One chat message as the chat page shows it. The content is split into fenced
  blocks and the text around them; each block becomes a code block. Each stretch
  of text is split into inline-code spans and the text around them, and that text
  is split into bold spans. Citation markers get no treatment. Below an answer,
  at most three of its sources are listed.
*/
module ChatMessage {
  import opened Wrappers
  import opened JsText
  import opened Patterns
  import opened Backend
  import opened Nodes
  import AnswerSection

  /** `renderContent`. */
  function Render(content: string): seq<Node> {
    var parts := Split(Fence, content);
    Flatten(seq(|parts|, i requires 0 <= i < |parts| => RenderPart(parts[i])))
  }

  /** A part of the fenced-block split: a block if it begins and ends with three backticks, inline text otherwise. */
  function RenderPart(part: string): seq<Node> {
    if StartsWith(part, "```") && EndsWith(part, "```") then [FencedBlock(part)] else InlineSpans(part)
  }

  /** The inline-code split of a text part, each piece rendered by `InlinePiece`. */
  function InlineSpans(part: string): seq<Node> {
    var ts := Split(Tick, part);
    Flatten(seq(|ts|, i requires 0 <= i < |ts| => InlinePiece(ts[i])))
  }

  /** A backtick span is inline code without its backticks; any other piece goes through bold splitting. */
  function InlinePiece(t: string): seq<Node> {
    if StartsWith(t, "`") && EndsWith(t, "`") then [InlineCode(Slice(t, 1, -1))] else BoldSpans(t)
  }

  /** The sources listed under a message: the first three, in their order, and none when the list is missing or empty. */
  function ShownSources(sources: Option<seq<Source>>): (r: seq<Source>)
    ensures sources.None? ==> r == []
    ensures sources.Some? ==> |r| == (if |sources.value| < 3 then |sources.value| else 3)
    ensures sources.Some? ==> forall i :: 0 <= i < |r| ==> r[i] == sources.value[i]
  {
    if sources.Some? && |sources.value| > 0 then
      (if |sources.value| <= 3 then sources.value else sources.value[..3])
    else []
  }

  /** The parts of the fenced-block split put together are the content. */
  lemma PartsRebuildContent(content: string)
    ensures Concat(Split(Fence, content)) == content
    ensures forall i :: 0 <= i < |Split(Fence, content)| && i % 2 == 1 ==> IsMatch(Fence, Split(Fence, content)[i])
  {
    SplitConcat(Fence, content);
    SplitShape(Fence, content);
    forall i | 0 <= i < |Split(Fence, content)| && i % 2 == 1 ensures IsMatch(Fence, Split(Fence, content)[i]) {
      assert Uncapture(Fence, Split(Fence, content)[i]) == Split(Fence, content)[i];
    }
  }

  /**
    How a part renders, told by its position: a fenced block is a code block; between
    blocks, a run of three to five backticks still passes the begins-and-ends test and
    becomes an empty code block; all other text goes through inline-code splitting.
  */
  function PartByPosition(part: string, odd: bool): seq<Node> {
    if odd then [FencedBlock(part)]
    else if 3 <= |part| && Only('`', part) then [CodeBlock("", "")]
    else InlineSpans(part)
  }

  lemma PartByPositionHolds(part: string, odd: bool)
    requires odd ==> IsMatch(Fence, part)
    requires !odd ==> NoMatchIn(Fence, part)
    ensures RenderPart(part) == PartByPosition(part, odd)
  {
    if odd || (3 <= |part| && Only('`', part)) {
      assert part[..3] == "```";
      assert part[|part| - 3..] == "```";
    }
    if !odd && StartsWith(part, "```") && EndsWith(part, "```") {
      FenceGapStray(part);
      StrayFenceIsEmptyBlock(part);
    }
  }

  /** The whole message, part by part. */
  lemma RenderByPosition(content: string)
    ensures var parts := Split(Fence, content);
      Render(content) == Flatten(seq(|parts|, i requires 0 <= i < |parts| => PartByPosition(parts[i], i % 2 == 1)))
  {
    var parts := Split(Fence, content);
    SplitShape(Fence, content);
    var a := seq(|parts|, i requires 0 <= i < |parts| => RenderPart(parts[i]));
    var b := seq(|parts|, i requires 0 <= i < |parts| => PartByPosition(parts[i], i % 2 == 1));
    forall i | 0 <= i < |parts| ensures a[i] == b[i] {
      assert Uncapture(Fence, parts[i]) == parts[i];
      PartByPositionHolds(parts[i], i % 2 == 1);
    }
    assert a == b;
  }

  /**
    How a piece of the inline-code split renders, told by its position: a span is
    inline code without its backticks; between spans, a run of backticks still
    passes the begins-and-ends test; any other text goes through bold splitting.
  */
  function InlineByPosition(t: string, odd: bool): seq<Node> {
    if odd || (|t| >= 1 && Only('`', t)) then [InlineCode(Slice(t, 1, -1))] else BoldSpans(t)
  }

  lemma InlineByPositionHolds(t: string, odd: bool)
    requires odd ==> IsMatch(Tick, t)
    requires !odd ==> NoMatchIn(Tick, t)
    ensures InlinePiece(t) == InlineByPosition(t, odd)
    ensures odd ==> t == "`" + Slice(t, 1, -1) + "`"
  {
    if odd || (|t| >= 1 && Only('`', t)) {
      assert t[..1] == "`" && t[|t| - 1..] == "`";
    }
    if odd {
      assert t == t[..1] + t[1..|t| - 1] + t[|t| - 1..];
    } else if StartsWith(t, "`") && EndsWith(t, "`") {
      assert t[0] == t[..1][0] && t[|t| - 1] == t[|t| - 1..][0];
      TickGapAllTicks(t);
    }
  }

  /** The inline-code split of a text part, piece by piece; each span is inline code of exactly what lies between its backticks. */
  lemma InlineSpansShape(part: string)
    ensures var ts := Split(Tick, part);
      InlineSpans(part) == Flatten(seq(|ts|, i requires 0 <= i < |ts| => InlineByPosition(ts[i], i % 2 == 1)))
    ensures var ts := Split(Tick, part);
      forall i :: 0 <= i < |ts| && i % 2 == 1 ==> IsMatch(Tick, ts[i]) && ts[i] == "`" + Slice(ts[i], 1, -1) + "`"
  {
    var ts := Split(Tick, part);
    SplitShape(Tick, part);
    var a := seq(|ts|, i requires 0 <= i < |ts| => InlinePiece(ts[i]));
    var b := seq(|ts|, i requires 0 <= i < |ts| => InlineByPosition(ts[i], i % 2 == 1));
    forall i | 0 <= i < |ts|
      ensures a[i] == b[i]
      ensures i % 2 == 1 ==> IsMatch(Tick, ts[i]) && ts[i] == "`" + Slice(ts[i], 1, -1) + "`"
    {
      assert Uncapture(Tick, ts[i]) == ts[i];
      InlineByPositionHolds(ts[i], i % 2 == 1);
    }
    assert a == b;
  }

  /**
    The search page's answer panel handles an inline-code piece the same way: it
    skips bold splitting only when `**` does not occur, and then bold splitting
    would have left the piece as plain text anyway.
  */
  lemma SameInlineAsAnswerSection(t: string)
    ensures AnswerSection.TickPiece(t) == InlinePiece(t)
  {
    if !Contains(t, "**") {
      NoBoldText(t);
    }
  }

  /** Nothing in the nodes is a link. */
  predicate CitationFree(ns: seq<Node>) {
    forall j :: 0 <= j < |ns| ==> !ns[j].Citation?
  }

  lemma {:induction false} FlattenCitationFree(groups: seq<seq<Node>>)
    requires forall i :: 0 <= i < |groups| ==> CitationFree(groups[i])
    ensures CitationFree(Flatten(groups))
    decreases |groups|
  {
    if groups != [] {
      FlattenCitationFree(groups[1..]);
      var f := Flatten(groups);
      forall j | 0 <= j < |f| ensures !f[j].Citation? {
        if j >= |groups[0]| { assert f[j] == Flatten(groups[1..])[j - |groups[0]|]; }
      }
    }
  }

  lemma BoldSpansCitationFree(x: string)
    ensures CitationFree(BoldSpans(x))
  {
    var bs := Split(Bold, x);
    var items := seq(|bs|, i requires 0 <= i < |bs| => BoldPiece(bs[i]));
    FlattenCitationFree(items);
  }

  lemma InlineSpansCitationFree(part: string)
    ensures CitationFree(InlineSpans(part))
  {
    var ts := Split(Tick, part);
    var items := seq(|ts|, i requires 0 <= i < |ts| => InlinePiece(ts[i]));
    forall i | 0 <= i < |ts| ensures CitationFree(items[i]) {
      BoldSpansCitationFree(ts[i]);
    }
    FlattenCitationFree(items);
  }

  /** A message never shows a link in its text: a marker `[n]` stays as it is written. */
  lemma NoCitations(content: string)
    ensures CitationFree(Render(content))
  {
    var parts := Split(Fence, content);
    var items := seq(|parts|, i requires 0 <= i < |parts| => RenderPart(parts[i]));
    forall i | 0 <= i < |parts| ensures CitationFree(items[i]) {
      InlineSpansCitationFree(parts[i]);
    }
    FlattenCitationFree(items);
  }

  /** Content without backticks or asterisks is shown as one piece of text. */
  lemma PlainContent(content: string)
    requires forall i :: 0 <= i < |content| ==> content[i] != '`' && content[i] != '*'
    ensures Render(content) == [Text(content)]
  {
    SplitPlain(Fence, content);
    SplitPlain(Tick, content);
    SplitPlain(Bold, content);
    NotContainsWithoutFirst(content, "**");
    NoBoldText(content);
    if |content| >= 3 { assert content[..3][0] == content[0]; }
    if |content| >= 1 { assert content[..1][0] == content[0]; }
    assert InlinePiece(content) == [Text(content)];
    assert InlineSpans(content) == Flatten([[Text(content)]]) by {
      assert seq(1, i requires 0 <= i < 1 => InlinePiece([content][i])) == [[Text(content)]];
    }
    assert Flatten([[Text(content)]]) == [Text(content)] + Flatten([]);
    assert RenderPart(content) == [Text(content)];
    assert Render(content) == Flatten([[Text(content)]]) by {
      assert seq(1, i requires 0 <= i < 1 => RenderPart([content][i])) == [[Text(content)]];
    }
  }
}
