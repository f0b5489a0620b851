/**
  The pieces an answer or a chat message is rendered into, the code-block
  header/body split that two renderers share, and the text a reader sees.
*/
module Nodes {
  import opened Wrappers
  import opened JsText
  import opened Patterns

  /** One rendered piece, in document order. */
  datatype Node =
    | Text(text: string)                                             // a plain string child
    | Citation(href: string, title: Option<string>, number: string)  // an <a> to a source, showing a number
    | CodeBlock(language: string, code: string)                      // a fenced block
    | InlineCode(code: string)                                       // a <code> span
    | Strong(text: string)                                           // a <strong> span
    | Break                                                          // a <br />

  /** Nested lists of pieces, as React flattens arrays of children. */
  function Flatten(groups: seq<seq<Node>>): seq<Node> {
    if groups == [] then [] else groups[0] + Flatten(groups[1..])
  }

  /** Proof step for worked examples, kept apart so that their proofs stay fast. */
  lemma FlattenThree(a: seq<Node>, b: seq<Node>, c: seq<Node>)
    ensures Flatten([a, b, c]) == a + b + c
  {
    var g := [a, b, c];
    assert g[1..][1..][1..] == [];
    assert Flatten(g[1..][1..]) == c;
    assert Flatten(g[1..]) == b + c;
  }

  /**
    A block the fence pattern cut out, turned into a code block the way both
    renderers do it: drop three characters at each end; if the first newline of
    what is left is not its first character, the line before it, trimmed, names the
    language and the rest after the newline is the code; otherwise there is no
    language and all of it is code.
  */
  function FencedBlock(block: string): Node {
    var content := Slice(block, 3, -3);
    var nl := IndexOfNewline(content);
    if nl > 0 then CodeBlock(Trim(content[..nl]), content[nl + 1..]) else CodeBlock("", content)
  }

  /**
    The language/code split of a fenced block, stated on the text between the fences:
    a first newline past index 0 splits off a trimmed language line; no newline, or a
    newline first, leaves the language empty and all the text as code.
  */
  lemma {:induction false} FencedBlockSplit(block: string)
    requires |block| >= 6
    ensures var c := block[3..|block| - 3];
      forall i :: 0 < i < |c| && c[i] == '\n' && (forall j :: 0 <= j < i ==> c[j] != '\n') ==>
        FencedBlock(block) == CodeBlock(Trim(c[..i]), c[i + 1..]) && c == c[..i] + "\n" + c[i + 1..]
    ensures var c := block[3..|block| - 3];
      (|c| == 0 || c[0] == '\n' || forall j :: 0 <= j < |c| ==> c[j] != '\n') ==>
        FencedBlock(block) == CodeBlock("", c)
  {
    var c := block[3..|block| - 3];
    assert Slice(block, 3, -3) == c;
    forall i | 0 < i < |c| && c[i] == '\n' && (forall j :: 0 <= j < i ==> c[j] != '\n')
      ensures FencedBlock(block) == CodeBlock(Trim(c[..i]), c[i + 1..]) && c == c[..i] + "\n" + c[i + 1..]
    {
      assert IndexOfNewline(c) == i;
      assert c == c[..i] + [c[i]] + c[i + 1..];
    }
  }

  /**
    Writing a code block out as a fence and reading it back gives the same block, when
    its language is one non-empty line without white space at either end.
  */
  lemma FencedBlockRoundTrip(language: string, code: string)
    requires language != [] && forall j :: 0 <= j < |language| ==> language[j] != '\n'
    requires !IsJsWhite(language[0]) && !IsJsWhite(language[|language| - 1])
    ensures FencedBlock("```" + language + "\n" + code + "```") == CodeBlock(language, code)
  {
    var c := language + "\n" + code;
    assert "```" + language + "\n" + code + "```" == "```" + c + "```";
    FenceContent(c);
    FirstNewlineAfter(language, code);
    TrimOfTrimmed(language);
  }

  /** Proof step of `FencedBlockRoundTrip`, kept apart so that the proof stays fast: the text between the fences. */
  lemma FenceContent(c: string)
    ensures Slice("```" + c + "```", 3, -3) == c
  {
    var block := "```" + c + "```";
    assert block[3..|block| - 3] == c;
  }

  /** Proof step of `FencedBlockRoundTrip`, kept apart so that the proof stays fast: the first newline ends the language line. */
  lemma FirstNewlineAfter(language: string, code: string)
    requires forall j :: 0 <= j < |language| ==> language[j] != '\n'
    ensures IndexOfNewline(language + "\n" + code) == |language|
    ensures (language + "\n" + code)[..|language|] == language
    ensures (language + "\n" + code)[|language| + 1..] == code
  {
    var c := language + "\n" + code;
    assert c[|language|] == '\n';
    assert forall j :: 0 <= j < |language| ==> c[j] == language[j];
  }

  /** Three to five backticks left over outside any fenced block still render as an empty code block. */
  lemma StrayFenceIsEmptyBlock(b: string)
    requires 3 <= |b| <= 5
    ensures FencedBlock(b) == CodeBlock("", "")
  {
    assert Slice(b, 3, -3) == "";
  }

  /** The worked example of a fenced block: a language line and a one-line program. */
  lemma PythonBlock()
    ensures FencedBlock("```python\nprint(1)\n```") == CodeBlock("python", "print(1)\n")
  {
    var c := "python\nprint(1)\n";
    PythonContent();
    PythonNewline();
    PythonLines();
    PythonIsTrimmed();
  }

  /** Proof step of `PythonBlock`, kept apart so that the proof stays fast: the two sides of the newline. */
  lemma PythonLines()
    ensures "python\nprint(1)\n"[..6] == "python"
    ensures "python\nprint(1)\n"[7..] == "print(1)\n"
  {
    var c := "python\nprint(1)\n";
    assert |c[..6]| == 6 && forall j :: 0 <= j < 6 ==> c[..6][j] == "python"[j];
    assert |c[7..]| == 9 && forall j :: 0 <= j < 9 ==> c[7..][j] == "print(1)\n"[j];
  }

  /** Proof step of `PythonBlock`, kept apart so that the proof stays fast: the text between the fences. */
  lemma PythonContent()
    ensures Slice("```python\nprint(1)\n```", 3, -3) == "python\nprint(1)\n"
  {
    var block := "```python\nprint(1)\n```";
    assert |block| == 22 && SliceIndex(-3, 22) == 19;
    assert block[3..19] == "python\nprint(1)\n";
  }

  /** Proof step of `PythonBlock`, kept apart so that the proof stays fast: where the first newline is. */
  lemma PythonNewline()
    ensures IndexOfNewline("python\nprint(1)\n") == 6
  {
    var c := "python\nprint(1)\n";
    assert c[6] == '\n';
    assert c[0] != '\n' && c[1] != '\n' && c[2] != '\n' && c[3] != '\n' && c[4] != '\n' && c[5] != '\n';
  }

  /** Proof step of `PythonBlock`, kept apart so that the proof stays fast: the language needs no trimming. */
  lemma PythonIsTrimmed()
    ensures Trim("python") == "python"
  {
    assert forall j :: 0 <= j < 6 ==> !IsJsWhite("python"[j]);
  }

  /** The text a reader sees: a break reads as a newline, a citation as the number it shows. */
  function Visible(nodes: seq<Node>): string {
    if nodes == [] then "" else VisibleNode(nodes[0]) + Visible(nodes[1..])
  }

  function VisibleNode(n: Node): string {
    match n
    case Text(t) => t
    case Citation(_, _, number) => number
    case CodeBlock(_, code) => code
    case InlineCode(code) => code
    case Strong(t) => t
    case Break => "\n"
  }

  lemma VisibleSingle(n: Node)
    ensures Visible([n]) == VisibleNode(n)
  {
    assert [n][1..] == [];
  }

  lemma {:induction false} VisibleAppend(a: seq<Node>, b: seq<Node>)
    ensures Visible(a + b) == Visible(a) + Visible(b)
    decreases |a|
  {
    if a != [] {
      VisibleAppend(a[1..], b);
      assert (a + b)[0] == a[0];
      assert (a + b)[1..] == a[1..] + b;
    } else {
      assert a + b == b;
    }
  }

  lemma {:induction false} FlattenAppend(g: seq<seq<Node>>, h: seq<seq<Node>>)
    ensures Flatten(g + h) == Flatten(g) + Flatten(h)
    decreases |g|
  {
    if g != [] {
      FlattenAppend(g[1..], h);
      assert (g + h)[0] == g[0];
      assert (g + h)[1..] == g[1..] + h;
    } else {
      assert g + h == h;
    }
  }

  /**
    Groups laid out one after another with `sep` in front of every group but the
    first (`items.map((x, i) => <>{i > 0 && sep}{x}</>)`).
  */
  function Separated(groups: seq<seq<Node>>, sep: seq<Node>): seq<Node> {
    if groups == [] then [] else groups[0] + Prefixed(groups[1..], sep)
  }

  /** Each group with `sep` in front of it. */
  function Prefixed(groups: seq<seq<Node>>, sep: seq<Node>): seq<Node> {
    if groups == [] then [] else sep + groups[0] + Prefixed(groups[1..], sep)
  }

  /** The text a reader sees of each group. */
  function Texts(groups: seq<seq<Node>>): (r: seq<string>)
    ensures |r| == |groups| && forall i :: 0 <= i < |groups| ==> r[i] == Visible(groups[i])
  {
    seq(|groups|, i requires 0 <= i < |groups| => Visible(groups[i]))
  }

  lemma {:induction false} PrefixedVisible(groups: seq<seq<Node>>, sep: seq<Node>)
    requires |groups| >= 1
    ensures Visible(Prefixed(groups, sep)) == Visible(sep) + JoinWith(Texts(groups), Visible(sep))
    decreases |groups|
  {
    PrefixedHead(groups, sep);
    var t := Texts(groups);
    if |groups| > 1 {
      PrefixedVisible(groups[1..], sep);
      TextsTail(groups);
      JoinCons(t, Visible(sep));
      Regroup(Visible(sep), t[0], JoinWith(t[1..], Visible(sep)));
    } else {
      assert Prefixed(groups[1..], sep) == [];
      assert JoinWith(t, Visible(sep)) == t[0];
    }
  }

  /** One step of `Prefixed`, as text: the separator, the first group, then the rest. */
  lemma PrefixedHead(groups: seq<seq<Node>>, sep: seq<Node>)
    requires |groups| >= 1
    ensures Visible(Prefixed(groups, sep)) ==
      Visible(sep) + Texts(groups)[0] + Visible(Prefixed(groups[1..], sep))
  {
    VisibleAppend(sep + groups[0], Prefixed(groups[1..], sep));
    VisibleAppend(sep, groups[0]);
  }

  /** Proof step of `PrefixedVisible`, kept apart so that the proof stays fast. */
  lemma TextsTail(groups: seq<seq<Node>>)
    requires |groups| >= 1
    ensures Texts(groups)[1..] == Texts(groups[1..])
  {
  }

  /** Proof step of `PrefixedVisible`, kept apart so that the proof stays fast: concatenation regrouped. */
  lemma Regroup(sep: string, head: string, tail: string)
    ensures sep + head + (sep + tail) == sep + (head + sep + tail)
  {
  }

  /** The visible text of separated groups is the groups' texts joined with the separator's text. */
  lemma SeparatedVisible(groups: seq<seq<Node>>, sep: seq<Node>)
    requires |groups| >= 1
    ensures Visible(Separated(groups, sep)) == JoinWith(Texts(groups), Visible(sep))
  {
    var rest := Prefixed(groups[1..], sep);
    var t := Texts(groups);
    VisibleAppend(groups[0], rest);
    if |groups| > 1 {
      assert t[1..] == Texts(groups[1..]);
      PrefixedVisible(groups[1..], sep);
      assert JoinWith(t, Visible(sep)) == t[0] + Visible(sep) + JoinWith(t[1..], Visible(sep));
    } else {
      assert rest == [];
    }
  }

  /** One piece of the bold split: `**y**` becomes bold text without its asterisks, anything else stays text. */
  function BoldPiece(b: string): seq<Node> {
    if StartsWith(b, "**") && EndsWith(b, "**") then [Strong(Slice(b, 2, -2))] else [Text(b)]
  }

  /** `x.split(/(\*\*[^*]+\*\*)/g)`, each piece rendered by `BoldPiece`. */
  function BoldSpans(x: string): seq<Node> {
    var bs := Split(Bold, x);
    Flatten(seq(|bs|, i requires 0 <= i < |bs| => BoldPiece(bs[i])))
  }

  /** A bold match renders as bold text holding exactly what lies between the asterisk pairs. */
  lemma BoldMatchPiece(w: string)
    requires IsMatch(Bold, w)
    ensures BoldPiece(w) == [Strong(w[2..|w| - 2])]
    ensures w == "**" + w[2..|w| - 2] + "**"
  {
    assert w[..2] == "**" && w[|w| - 2..] == "**";
    assert w == w[..2] + w[2..|w| - 2] + w[|w| - 2..];
  }

  /**
    How a piece of the bold split renders, told by its position: a match (odd index)
    becomes bold text; a gap with `**` in it goes through `BoldPiece`, any other gap is text.
  */
  function BoldByPosition(b: string, odd: bool): seq<Node> {
    if odd then [Strong(Slice(b, 2, -2))]
    else if Contains(b, "**") then BoldPiece(b)
    else [Text(b)]
  }

  lemma BoldPieceByPosition(b: string, odd: bool)
    requires odd ==> IsMatch(Bold, b)
    ensures BoldPiece(b) == BoldByPosition(b, odd)
    ensures odd ==> b == "**" + Slice(b, 2, -2) + "**"
  {
    if odd {
      BoldMatchPiece(b);
    } else if !Contains(b, "**") && StartsWith(b, "**") {
      ContainsAt(b, "**", 0);
      assert false;
    }
  }

  /**
    The bold split in order: every match becomes bold text without its asterisk pairs,
    and a gap without `**` stays as it is.
  */
  lemma BoldSpansShape(x: string)
    ensures var bs := Split(Bold, x);
      BoldSpans(x) == Flatten(seq(|bs|, i requires 0 <= i < |bs| => BoldByPosition(bs[i], i % 2 == 1)))
    ensures var bs := Split(Bold, x);
      forall i :: 0 <= i < |bs| && i % 2 == 1 ==> IsMatch(Bold, bs[i]) && bs[i] == "**" + Slice(bs[i], 2, -2) + "**"
  {
    var bs := Split(Bold, x);
    SplitFromCaptures(Bold, x, 0);
    var a := seq(|bs|, i requires 0 <= i < |bs| => BoldPiece(bs[i]));
    var b := seq(|bs|, i requires 0 <= i < |bs| => BoldByPosition(bs[i], i % 2 == 1));
    forall i | 0 <= i < |bs|
      ensures a[i] == b[i]
      ensures i % 2 == 1 ==> IsMatch(Bold, bs[i]) && bs[i] == "**" + Slice(bs[i], 2, -2) + "**"
    {
      assert Uncapture(Bold, bs[i]) == bs[i];
      BoldPieceByPosition(bs[i], i % 2 == 1);
    }
    assert a == b;
  }

  /** Text in which `**` never occurs renders as that text alone. */
  lemma NoBoldText(x: string)
    requires !Contains(x, "**")
    ensures BoldSpans(x) == [Text(x)]
  {
    forall i, e | 0 <= i <= e <= |x| ensures !IsMatch(Bold, x[i..e]) {
      if IsMatch(Bold, x[i..e]) {
        assert x[i..e][..2] == x[i..i + 2];
        ContainsAt(x, "**", i);
      }
    }
    SplitWithoutMatch(Bold, x);
    if StartsWith(x, "**") { ContainsAt(x, "**", 0); }
    var items := seq(1, i requires 0 <= i < 1 => BoldPiece([x][i]));
    assert items == [[Text(x)]];
    assert Flatten(items) == [Text(x)] + Flatten([]);
  }
}
