/**
  The answer card. The answer is split at citation markers `[n]`, keeping only the
  digits of each marker. At an odd position, the digits become a link to source
  number n, or nothing when there is no such source. At an even position, the text is
  laid out as paragraphs separated by two breaks, made of lines separated by one break.
*/
module AnswerCard {
  import opened Wrappers
  import opened JsText
  import opened Patterns
  import opened Backend
  import opened Nodes

  /** `renderAnswerWithCitations` of the card. */
  function Render(text: string, sources: seq<Source>): seq<Node> {
    var parts := Split(MarkerDigits, text);
    Flatten(seq(|parts|, i requires 0 <= i < |parts| =>
      if i % 2 == 1 then CitationNodes(parts[i], sources) else Paragraphs(parts[i])))
  }

  /** `parseInt` of a string that is all decimal digits; anything else reads as NaN. */
  function ParseInt(d: string): Option<nat> {
    if |d| >= 1 && AllDigits(d) then Some(DigitsValue(d)) else None
  }

  /** A citation part: a link to `sources[n - 1]` showing the number n, or nothing when that source is missing. */
  function CitationNodes(part: string, sources: seq<Source>): seq<Node> {
    match ParseInt(part)
    case None => []
    case Some(n) => if 1 <= n <= |sources| then [Citation(sources[n - 1].url, None, DecimalString(n))] else []
  }

  /** The lines of a paragraph, a break before each line but the first. */
  function Lines(paragraph: string): seq<Node> {
    Separated(LineGroups(SplitOn(paragraph, "\n")), [Break])
  }

  /** Each line as one text piece. */
  function LineGroups(ls: seq<string>): (r: seq<seq<Node>>)
    ensures |r| == |ls| && forall i :: 0 <= i < |ls| ==> r[i] == [Text(ls[i])]
  {
    seq(|ls|, i requires 0 <= i < |ls| => [Text(ls[i])])
  }

  /** The paragraphs of a text part, two breaks before each paragraph but the first. */
  function Paragraphs(part: string): seq<Node> {
    Separated(ParagraphGroups(SplitOn(part, "\n\n")), [Break, Break])
  }

  /** Each paragraph as its lines. */
  function ParagraphGroups(ps: seq<string>): (r: seq<seq<Node>>)
    ensures |r| == |ps| && forall i :: 0 <= i < |ps| ==> r[i] == Lines(ps[i])
  {
    seq(|ps|, i requires 0 <= i < |ps| => Lines(ps[i]))
  }

  /**
    The split keeps only the digits of each marker: the parts alternate text and
    non-empty digit strings, one per marker in order, and putting each digit string
    back between brackets gives the answer again.
  */
  lemma DigitsSplit(text: string)
    ensures var parts := Split(MarkerDigits, text);
      |parts| % 2 == 1 && Rejoin(MarkerDigits, parts) == text
    ensures var parts := Split(MarkerDigits, text);
      forall i :: 0 <= i < |parts| && i % 2 == 1 ==> |parts[i]| >= 1 && AllDigits(parts[i])
    ensures var parts := Split(MarkerDigits, text);
      forall i :: 0 <= i < |parts| && i % 2 == 0 ==> NoMatchIn(MarkerDigits, parts[i])
  {
    var parts := Split(MarkerDigits, text);
    SplitShape(MarkerDigits, text);
    forall i | 0 <= i < |parts| && i % 2 == 1 ensures |parts[i]| >= 1 && AllDigits(parts[i]) {
      var w := Uncapture(MarkerDigits, parts[i]);
      assert w[1..|w| - 1] == parts[i];
    }
  }

  /**
    A digit string names source n = `parseInt` of it: inside the list it becomes a link to
    that source's url labelled with the number n; outside the list (0 included) it vanishes.
  */
  lemma CitationOfDigits(d: string, sources: seq<Source>)
    requires |d| >= 1 && AllDigits(d)
    ensures var n := DigitsValue(d);
      1 <= n <= |sources| ==> CitationNodes(d, sources) == [Citation(sources[n - 1].url, None, DecimalString(n))]
    ensures var n := DigitsValue(d);
      !(1 <= n <= |sources|) ==> CitationNodes(d, sources) == []
    ensures (d[0] == '0' ==> |d| == 1) && 1 <= DigitsValue(d) <= |sources| ==>
      CitationNodes(d, sources)[0].number == d
  {
    if (d[0] == '0' ==> |d| == 1) {
      DecimalOfDigits(d);
    }
  }

  /** The label drops leading zeros: "007" shows as "7". */
  lemma LeadingZerosDropped(sources: seq<Source>)
    requires |sources| >= 7
    ensures CitationNodes("007", sources) == [Citation(sources[6].url, None, "7")]
  {
    assert AllDigits("007");
    assert DigitsValue("007") == 7 by {
      assert "007"[..2] == "00" && "00"[..1] == "0";
    }
  }

  /** The text a reader sees of a paragraph's lines, a break read as a newline, is the paragraph. */
  lemma LinesVisible(paragraph: string)
    ensures Visible(Lines(paragraph)) == paragraph
  {
    var ls := SplitOn(paragraph, "\n");
    var groups := LineGroups(ls);
    assert Texts(groups) == ls by {
      forall i | 0 <= i < |ls| ensures Texts(groups)[i] == ls[i] {
        VisibleSingle(Text(ls[i]));
      }
    }
    VisibleSingle(Break);
    SeparatedVisible(groups, [Break]);
  }

  /** The text a reader sees of a part's paragraphs, breaks read as newlines, is the part. */
  lemma ParagraphsVisible(part: string)
    ensures Visible(Paragraphs(part)) == part
  {
    var ps := SplitOn(part, "\n\n");
    var groups := ParagraphGroups(ps);
    assert Texts(groups) == ps by {
      forall i | 0 <= i < |ps| ensures Texts(groups)[i] == ps[i] {
        LinesVisible(ps[i]);
      }
    }
    assert Visible([Break, Break]) == "\n\n" by {
      VisibleAppend([Break], [Break]);
      VisibleSingle(Break);
      assert [Break] + [Break] == [Break, Break];
    }
    SeparatedVisible(groups, [Break, Break]);
  }

  /** An answer without markers reads back exactly: its visible text is the answer. */
  lemma NoMarkerVisible(text: string, sources: seq<Source>)
    requires NoMatchIn(MarkerDigits, text)
    ensures Visible(Render(text, sources)) == text
  {
    SplitWithoutMatch(MarkerDigits, text);
    var parts := Split(MarkerDigits, text);
    var items := seq(1, i requires 0 <= i < 1 =>
      if i % 2 == 1 then CitationNodes([text][i], sources) else Paragraphs([text][i]));
    assert items == [Paragraphs(text)];
    assert Render(text, sources) == Flatten(items);
    assert items[1..] == [];
    assert Flatten(items) == Paragraphs(text) + Flatten([]);
    ParagraphsVisible(text);
    assert Render(text, sources) == Paragraphs(text);
    assert Visible(Paragraphs(text)) == text;
  }
}
