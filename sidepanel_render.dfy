/**
 * How the side panel turns a response into what it shows (sidepanel/index.js):
 * the text extraction `extractTextFromResponse`, the paragraph splitting of
 * `renderText`, and the per-part image-or-note decision of `showResponse`.
 * The response area is modelled as the list of nodes appended to it.
 */
module SidePanelRender {
  import opened Strings
  import opened GenAi
  import opened Seqs

  /** A node appended to the response area. */
  datatype Node =
    | TextNode(text: string)
    | LineBreak                // a BR element
    | Image(src: string)       // an IMG element with this source
    | Note(text: string)       // a DIV describing non-image inline data

  /** What `showResponse` is handed. */
  datatype Shown =
    | NoResponse               // a falsy value
    | PlainString(s: string)
    | Structured(r: Response)

  const OctetStream := "application/octet-stream"

  // ---------------------------------------------------------------- text extraction

  /** `extractTextFromResponse`: the pieces are collected part by part, then joined. */
  method ExtractTextFromResponse(r: Response) returns (text: string)
    ensures text == ResponseText(r)
  {
    var candidates := CandidatesOf(r);
    var pieces: seq<string> := [];
    for i := 0 to |candidates|
      invariant pieces == TextsOf(AllParts(candidates[..i]))
    {
      var parts := PartsOf(candidates[i]);
      for j := 0 to |parts|
        invariant pieces == TextsOf(AllParts(candidates[..i])) + TextsOf(parts[..j])
      {
        if parts[j].TextPart? {
          pieces := pieces + [parts[j].text];
        }
        TextsOfStep(parts, j);
      }
      TakeAll(parts);
      AllPartsStep(candidates, i);
      TextsOfAppend(AllParts(candidates[..i]), parts);
    }
    TakeAll(candidates);
    text := Join(pieces, "\n");
  }

  // ---------------------------------------------------------------- renderText

  /** The nodes one paragraph contributes: its text if any, then a break unless it is the last. */
  function ParagraphNodes(paragraphs: seq<string>, i: nat): seq<Node>
    requires i < |paragraphs|
  {
    (if paragraphs[i] != "" then [TextNode(paragraphs[i])] else [])
    + (if i < |paragraphs| - 1 then [LineBreak] else [])
  }

  /** The nodes of the first `i` paragraphs. */
  function RenderPrefix(paragraphs: seq<string>, i: nat): seq<Node>
    requires i <= |paragraphs|
    decreases i
  {
    if i == 0 then [] else RenderPrefix(paragraphs, i - 1) + ParagraphNodes(paragraphs, i - 1)
  }

  /** What `renderText(text)` appends. */
  function RenderPlan(text: string): seq<Node> {
    if text == "" then [] else RenderPrefix(SplitLines(text), |SplitLines(text)|)
  }

  /** `renderText`: split into paragraphs, then a loop appending texts and breaks. */
  method RenderText(text: string) returns (nodes: seq<Node>)
    ensures nodes == RenderPlan(text)
  {
    nodes := [];
    if text == "" {
      return;
    }
    var paragraphs := SplitLines(text);
    for i := 0 to |paragraphs|
      invariant nodes == RenderPrefix(paragraphs, i)
    {
      var paragraph := paragraphs[i];
      if paragraph != "" {
        nodes := nodes + [TextNode(paragraph)];
      }
      if i < |paragraphs| - 1 {
        nodes := nodes + [LineBreak];
      }
    }
  }

  function CountBreaks(nodes: seq<Node>): nat
    decreases |nodes|
  {
    if |nodes| == 0 then 0 else CountBreaks(nodes[..|nodes| - 1]) + (if nodes[|nodes| - 1] == LineBreak then 1 else 0)
  }

  /** The texts of the text nodes, in order. */
  function NodeTexts(nodes: seq<Node>): seq<string>
    decreases |nodes|
  {
    if |nodes| == 0 then []
    else NodeTexts(nodes[..|nodes| - 1]) + (if nodes[|nodes| - 1].TextNode? then [nodes[|nodes| - 1].text] else [])
  }

  /** The non-empty strings of `ps`, in order. */
  function NonEmpty(ps: seq<string>): seq<string>
    decreases |ps|
  {
    if |ps| == 0 then [] else NonEmpty(ps[..|ps| - 1]) + (if ps[|ps| - 1] != "" then [ps[|ps| - 1]] else [])
  }

  /** What the nodes read as, taking a break for "\n" (images and notes read as nothing). */
  function ReadBack(nodes: seq<Node>): string
    decreases |nodes|
  {
    if |nodes| == 0 then ""
    else ReadBack(nodes[..|nodes| - 1]) + (match nodes[|nodes| - 1]
                                          case TextNode(t) => t
                                          case LineBreak => "\n"
                                          case _ => "")
  }

  lemma {:induction false} CountBreaksAppend(a: seq<Node>, b: seq<Node>)
    ensures CountBreaks(a + b) == CountBreaks(a) + CountBreaks(b)
    decreases |b|
  {
    if |b| == 0 {
      assert a + b == a;
    } else {
      AppendDropLast(a, b);
      CountBreaksAppend(a, b[..|b| - 1]);
    }
  }

  lemma {:induction false} NodeTextsAppend(a: seq<Node>, b: seq<Node>)
    ensures NodeTexts(a + b) == NodeTexts(a) + NodeTexts(b)
    decreases |b|
  {
    if |b| == 0 {
      assert a + b == a;
    } else {
      AppendDropLast(a, b);
      NodeTextsAppend(a, b[..|b| - 1]);
    }
  }

  lemma {:induction false} ReadBackAppend(a: seq<Node>, b: seq<Node>)
    ensures ReadBack(a + b) == ReadBack(a) + ReadBack(b)
    decreases |b|
  {
    if |b| == 0 {
      assert a + b == a;
    } else {
      AppendDropLast(a, b);
      ReadBackAppend(a, b[..|b| - 1]);
    }
  }

  lemma SingleNode(n: Node)
    ensures CountBreaks([n]) == if n == LineBreak then 1 else 0
    ensures NodeTexts([n]) == if n.TextNode? then [n.text] else []
    ensures ReadBack([n]) == match n case TextNode(t) => t case LineBreak => "\n" case _ => ""
  {
    assert [n][..0] == [];
  }

  /** One paragraph contributes a break unless it is the last. */
  lemma ParagraphBreaks(paragraphs: seq<string>, j: nat)
    requires j < |paragraphs|
    ensures CountBreaks(ParagraphNodes(paragraphs, j)) == if j < |paragraphs| - 1 then 1 else 0
  {
    var p := paragraphs[j];
    var textPart: seq<Node> := if p != "" then [TextNode(p)] else [];
    var breakPart: seq<Node> := if j < |paragraphs| - 1 then [LineBreak] else [];
    assert ParagraphNodes(paragraphs, j) == textPart + breakPart;
    CountBreaksAppend(textPart, breakPart);
    SingleNode(TextNode(p));
    SingleNode(LineBreak);
  }

  /** One paragraph contributes its text as a text node unless it is empty. */
  lemma ParagraphTexts(paragraphs: seq<string>, j: nat)
    requires j < |paragraphs|
    ensures NodeTexts(ParagraphNodes(paragraphs, j)) == if paragraphs[j] != "" then [paragraphs[j]] else []
  {
    var p := paragraphs[j];
    var textPart: seq<Node> := if p != "" then [TextNode(p)] else [];
    var breakPart: seq<Node> := if j < |paragraphs| - 1 then [LineBreak] else [];
    assert ParagraphNodes(paragraphs, j) == textPart + breakPart;
    NodeTextsAppend(textPart, breakPart);
    SingleNode(TextNode(p));
    SingleNode(LineBreak);
  }

  /** One paragraph reads back as its text, then "\n" unless it is the last. */
  lemma ParagraphReadBack(paragraphs: seq<string>, j: nat)
    requires j < |paragraphs|
    ensures ReadBack(ParagraphNodes(paragraphs, j)) == paragraphs[j] + (if j < |paragraphs| - 1 then "\n" else "")
  {
    var p := paragraphs[j];
    var textPart: seq<Node> := if p != "" then [TextNode(p)] else [];
    var breakPart: seq<Node> := if j < |paragraphs| - 1 then [LineBreak] else [];
    assert ParagraphNodes(paragraphs, j) == textPart + breakPart;
    ReadBackAppend(textPart, breakPart);
    SingleNode(TextNode(p));
    SingleNode(LineBreak);
    assert p == "" ==> ReadBack(textPart) == p;
  }

  lemma NonEmptyStep(ps: seq<string>, i: nat)
    requires i < |ps|
    ensures NonEmpty(ps[..i + 1]) == NonEmpty(ps[..i]) + (if ps[i] != "" then [ps[i]] else [])
  {
    TakeStep(ps, i);
  }

  /** After `i` paragraphs there is a break after each, except after the last paragraph of the text. */
  lemma {:induction false} RenderPrefixBreaks(paragraphs: seq<string>, i: nat)
    requires 1 <= i <= |paragraphs|
    ensures CountBreaks(RenderPrefix(paragraphs, i)) == if i < |paragraphs| then i else i - 1
    decreases i
  {
    CountBreaksAppend(RenderPrefix(paragraphs, i - 1), ParagraphNodes(paragraphs, i - 1));
    ParagraphBreaks(paragraphs, i - 1);
    if i > 1 {
      RenderPrefixBreaks(paragraphs, i - 1);
    }
  }

  /** After `i` paragraphs the text nodes are the non-empty ones among them, in order. */
  lemma {:induction false} RenderPrefixTexts(paragraphs: seq<string>, i: nat)
    requires i <= |paragraphs|
    ensures NodeTexts(RenderPrefix(paragraphs, i)) == NonEmpty(paragraphs[..i])
    decreases i
  {
    if i > 0 {
      NodeTextsAppend(RenderPrefix(paragraphs, i - 1), ParagraphNodes(paragraphs, i - 1));
      ParagraphTexts(paragraphs, i - 1);
      RenderPrefixTexts(paragraphs, i - 1);
      NonEmptyStep(paragraphs, i - 1);
    }
  }

  /** After `i` paragraphs the nodes read as those paragraphs joined by "\n", plus the pending break. */
  lemma {:induction false} RenderPrefixReadBack(paragraphs: seq<string>, i: nat)
    requires 1 <= i <= |paragraphs|
    ensures ReadBack(RenderPrefix(paragraphs, i))
         == Join(paragraphs[..i], "\n") + (if i < |paragraphs| then "\n" else "")
    decreases i
  {
    if i == 1 {
      FirstParagraphReadBack(paragraphs);
    } else {
      RenderPrefixReadBack(paragraphs, i - 1);
      NextParagraphReadBack(paragraphs, i);
    }
  }

  lemma FirstParagraphReadBack(paragraphs: seq<string>)
    requires 1 <= |paragraphs|
    ensures ReadBack(RenderPrefix(paragraphs, 1))
         == Join(paragraphs[..1], "\n") + (if 1 < |paragraphs| then "\n" else "")
  {
    ParagraphReadBack(paragraphs, 0);
    assert RenderPrefix(paragraphs, 1) == [] + ParagraphNodes(paragraphs, 0);
    assert [] + ParagraphNodes(paragraphs, 0) == ParagraphNodes(paragraphs, 0);
    assert paragraphs[..1] == [paragraphs[0]];
  }

  lemma NextParagraphReadBack(paragraphs: seq<string>, i: nat)
    requires 1 < i <= |paragraphs|
    requires ReadBack(RenderPrefix(paragraphs, i - 1)) == Join(paragraphs[..i - 1], "\n") + "\n"
    ensures ReadBack(RenderPrefix(paragraphs, i))
         == Join(paragraphs[..i], "\n") + (if i < |paragraphs| then "\n" else "")
  {
    ParagraphReadBack(paragraphs, i - 1);
    JoinStep(paragraphs, i - 1, "\n");
    ReadBackAfterBreak(RenderPrefix(paragraphs, i - 1), ParagraphNodes(paragraphs, i - 1),
      Join(paragraphs[..i - 1], "\n"), paragraphs[i - 1], if i < |paragraphs| then "\n" else "");
  }

  /** Nodes reading as `joined` and a break, then nodes reading as `p + tail`, read as `joined + "\n" + p`, then `tail`. */
  lemma ReadBackAfterBreak(prev: seq<Node>, next: seq<Node>, joined: string, p: string, tail: string)
    requires ReadBack(prev) == joined + "\n"
    requires ReadBack(next) == p + tail
    ensures ReadBack(prev + next) == joined + "\n" + p + tail
  {
    ReadBackAppend(prev, next);
    Assoc(joined, "\n", p);
    Assoc(joined + "\n", p, tail);
  }

  /**
   * `renderText` emits nothing for empty text; otherwise, for the k pieces of
   * `split(/\r?\n/)`, k - 1 breaks and one text node per non-empty piece, in
   * order, and the nodes read back as the text with "\r\n" written as "\n".
   */
  lemma RenderPlanShape(text: string)
    ensures text == "" ==> RenderPlan(text) == []
    ensures text != "" ==> CountBreaks(RenderPlan(text)) == |SplitLines(text)| - 1
    ensures NodeTexts(RenderPlan(text)) == if text == "" then [] else NonEmpty(SplitLines(text))
    ensures ReadBack(RenderPlan(text)) == NormalizeNewlines(text)
  {
    if text != "" {
      var ps := SplitLines(text);
      RenderPrefixBreaks(ps, |ps|);
      RenderPrefixTexts(ps, |ps|);
      RenderPrefixReadBack(ps, |ps|);
      assert ps[..|ps|] == ps;
      JoinSplitLines(text);
    }
  }

  /**
   * For single-line pieces joined with "\n" (the extracted text when no text
   * part holds a line break), the text nodes are exactly the non-empty pieces.
   */
  lemma {:induction false} RenderPlanSingleLines(pieces: seq<string>)
    requires |pieces| >= 1
    requires forall k :: 0 <= k < |pieces| ==> SingleLine(pieces[k])
    requires Join(pieces, "\n") != ""
    ensures NodeTexts(RenderPlan(Join(pieces, "\n"))) == NonEmpty(pieces)
  {
    SplitLinesJoin(pieces);
    RenderPlanShape(Join(pieces, "\n"));
  }

  // ---------------------------------------------------------------- inline data

  /** `/^image\//i`: "image/" at the start, letters compared without case. */
  predicate IsImageMime(mime: string) {
    && |mime| >= 6
    && LowerAscii(mime[0]) == 'i' && LowerAscii(mime[1]) == 'm' && LowerAscii(mime[2]) == 'a'
    && LowerAscii(mime[3]) == 'g' && LowerAscii(mime[4]) == 'e' && mime[5] == '/'
  }

  /** The image source for an inline payload. */
  function ImageSource(mime: string, data: string): string {
    "data:" + mime + ";base64," + data
  }

  /** The note shown for non-image inline data. */
  function NoteText(mime: string, length: nat): string {
    "Received inlineData (" + mime + "), length " + NatToString(length)
  }

  /** The node one part contributes after the text, if any. */
  function InlineNodes(p: Part): seq<Node> {
    if p.InlineDataPart? && p.inlineData.data != "" then
      var mime := if p.inlineData.mimeType != "" then p.inlineData.mimeType else OctetStream;
      if IsImageMime(mime) then [Image(ImageSource(mime, p.inlineData.data))]
      else [Note(NoteText(mime, |p.inlineData.data|))]
    else []
  }

  /** The inline-data nodes of a list of parts, in order. */
  function AllInlineNodes(ps: seq<Part>): seq<Node>
    decreases |ps|
  {
    if |ps| == 0 then [] else AllInlineNodes(ps[..|ps| - 1]) + InlineNodes(ps[|ps| - 1])
  }

  lemma {:induction false} AllInlineNodesAppend(a: seq<Part>, b: seq<Part>)
    ensures AllInlineNodes(a + b) == AllInlineNodes(a) + AllInlineNodes(b)
    decreases |b|
  {
    if |b| == 0 {
      assert a + b == a;
    } else {
      AppendDropLast(a, b);
      AllInlineNodesAppend(a, b[..|b| - 1]);
    }
  }

  /**
   * A part with a non-empty payload becomes an image exactly when its MIME type
   * (defaulted to application/octet-stream) starts with "image/" in any case;
   * the image's source is the data URL of that type and payload. A part with an
   * empty payload, or no inline data, contributes nothing.
   */
  lemma InlineNodeDecision(mime: string, data: string)
    ensures data == "" ==> InlineNodes(InlineDataPart(Blob(mime, data))) == []
    ensures var m := if mime == "" then OctetStream else mime;
      data != "" ==>
        (InlineNodes(InlineDataPart(Blob(mime, data))) == [Image("data:" + m + ";base64," + data)] <==> IsImageMime(m))
    ensures data != "" && !IsImageMime(if mime == "" then OctetStream else mime) ==>
      InlineNodes(InlineDataPart(Blob(mime, data))) == [Note(NoteText(if mime == "" then OctetStream else mime, |data|))]
  {
  }

  /** The note depends on the payload only through its length: two payloads of one length give the same node. */
  lemma NoteIgnoresPayload(mime: string, d1: string, d2: string)
    requires |d1| == |d2| && d1 != ""
    requires !IsImageMime(if mime == "" then OctetStream else mime)
    ensures InlineNodes(InlineDataPart(Blob(mime, d1))) == InlineNodes(InlineDataPart(Blob(mime, d2)))
    ensures InlineNodes(InlineDataPart(Blob(mime, d1))) != [Image(ImageSource(mime, d1))]
  {
  }

  /** The example of a PNG payload "QQ==". */
  lemma PngExample()
    ensures InlineNodes(InlineDataPart(Blob("image/png", "QQ=="))) == [Image("data:image/png;base64,QQ==")]
  {
    assert IsImageMime("image/png");
    assert ImageSource("image/png", "QQ==") == "data:image/png;base64,QQ==";
  }

  // ---------------------------------------------------------------- showResponse

  /** What `showResponse` appends: the rendered text, then one node per part with inline data. */
  function ShowPlan(x: Shown): seq<Node> {
    match x
    case NoResponse => []
    case PlainString(s) => RenderPlan(s)
    case Structured(r) => RenderPlan(ResponseText(r)) + AllInlineNodes(AllParts(CandidatesOf(r)))
  }

  /** `showResponse`: the response area is emptied, then filled. */
  method ShowResponse(x: Shown) returns (nodes: seq<Node>)
    ensures nodes == ShowPlan(x)
  {
    nodes := [];
    if x.NoResponse? {
      return;
    }
    if x.PlainString? {
      nodes := RenderText(x.s);
      return;
    }
    var r := x.r;
    var extracted := ExtractTextFromResponse(r);
    if extracted != "" {
      nodes := RenderText(extracted);
    }
    var inline := RenderInlineData(r);
    nodes := nodes + inline;
  }

  /** The candidate loop of `showResponse` that renders inline data. */
  method RenderInlineData(r: Response) returns (nodes: seq<Node>)
    ensures nodes == AllInlineNodes(AllParts(CandidatesOf(r)))
  {
    nodes := [];
    var candidates := CandidatesOf(r);
    for cIndex := 0 to |candidates|
      invariant nodes == AllInlineNodes(AllParts(candidates[..cIndex]))
    {
      var added := RenderPartsInline(PartsOf(candidates[cIndex]));
      nodes := nodes + added;
      AllInlineNodesAppend(AllParts(candidates[..cIndex]), PartsOf(candidates[cIndex]));
      AllPartsStep(candidates, cIndex);
    }
    TakeAll(candidates);
  }

  /** The part loop of `showResponse` for one candidate. */
  method RenderPartsInline(parts: seq<Part>) returns (nodes: seq<Node>)
    ensures nodes == AllInlineNodes(parts)
  {
    nodes := [];
    for pIndex := 0 to |parts|
      invariant nodes == AllInlineNodes(parts[..pIndex])
    {
      var added := InlineNodes(parts[pIndex]);
      AllInlineNodesStep(parts, pIndex);
      nodes := nodes + added;
    }
    TakeAll(parts);
  }

  lemma AllInlineNodesStep(ps: seq<Part>, i: nat)
    requires i < |ps|
    ensures AllInlineNodes(ps[..i + 1]) == AllInlineNodes(ps[..i]) + InlineNodes(ps[i])
  {
    TakeStep(ps, i);
  }
}
