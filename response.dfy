/**
 * The generative-AI response as both front-ends read it: a list of candidates,
 * each holding a list of parts. A part carries text, inline data, or something
 * neither front-end reads. Where JavaScript sees `null`, `undefined` or a value
 * that is not an array, the model has `None`. A missing `mimeType` or `data` of
 * inline data is `""`: the side panel reads both by truthiness or `||`, so
 * missing and empty behave alike there. A `text` is different: the side panel
 * asks `typeof part.text === 'string'`, so `TextPart("")` and `OtherPart` are
 * kept apart.
 */
module GenAi {
  import opened Optional
  import opened Strings
  import opened Seqs

  /** `inlineData`: a MIME type and a base64 payload. */
  datatype Blob = Blob(mimeType: string, data: string)

  /** One part of a candidate's content. The API sets at most one of its data fields. */
  datatype Part =
    | TextPart(text: string)
    | InlineDataPart(inlineData: Blob)
    | OtherPart          // a part with a non-string `text`, or only fields neither front-end reads

  /** A candidate; `parts` is `None` when `content` or `content.parts` is missing or not an array. */
  datatype Candidate = Candidate(parts: Option<seq<Part>>)

  /** A response; `candidates` is `None` when it is missing or not an array. */
  datatype Response = Response(candidates: Option<seq<Candidate>>)

  function CandidatesOf(r: Response): seq<Candidate> {
    match r.candidates
    case Some(cs) => cs
    case None => []
  }

  function PartsOf(c: Candidate): seq<Part> {
    match c.parts
    case Some(ps) => ps
    case None => []
  }

  /** Every part of every candidate, candidate by candidate and then part by part. */
  function AllParts(cs: seq<Candidate>): seq<Part>
    decreases |cs|
  {
    if |cs| == 0 then [] else AllParts(cs[..|cs| - 1]) + PartsOf(cs[|cs| - 1])
  }

  /** The string texts of the text parts, in order. */
  function TextsOf(ps: seq<Part>): seq<string>
    decreases |ps|
  {
    if |ps| == 0 then []
    else TextsOf(ps[..|ps| - 1]) + (if ps[|ps| - 1].TextPart? then [ps[|ps| - 1].text] else [])
  }

  /** The text a response carries: all text parts joined with "\n". */
  function ResponseText(r: Response): string {
    Join(TextsOf(AllParts(CandidatesOf(r))), "\n")
  }

  lemma {:induction false} TextsOfAppend(a: seq<Part>, b: seq<Part>)
    ensures TextsOf(a + b) == TextsOf(a) + TextsOf(b)
    decreases |b|
  {
    if |b| == 0 {
      assert a + b == a;
    } else {
      AppendDropLast(a, b);
      TextsOfAppend(a, b[..|b| - 1]);
    }
  }

  lemma {:induction false} AllPartsAppend(a: seq<Candidate>, b: seq<Candidate>)
    ensures AllParts(a + b) == AllParts(a) + AllParts(b)
    decreases |b|
  {
    if |b| == 0 {
      assert a + b == a;
    } else {
      AppendDropLast(a, b);
      AllPartsAppend(a, b[..|b| - 1]);
    }
  }

  /** The parts of the first `i + 1` candidates: those of the first `i`, then those of candidate `i`. */
  lemma AllPartsStep(cs: seq<Candidate>, i: nat)
    requires i < |cs|
    ensures AllParts(cs[..i + 1]) == AllParts(cs[..i]) + PartsOf(cs[i])
  {
    TakeStep(cs, i);
  }

  /** The texts of the first `i + 1` parts: those of the first `i`, then part `i`'s text if it is a text part. */
  lemma TextsOfStep(ps: seq<Part>, i: nat)
    requires i < |ps|
    ensures TextsOf(ps[..i + 1]) == TextsOf(ps[..i]) + (if ps[i].TextPart? then [ps[i].text] else [])
  {
    TakeStep(ps, i);
  }

  /** The parts of the first candidate come first. */
  lemma AllPartsFront(cs: seq<Candidate>)
    requires |cs| > 0
    ensures AllParts(cs) == PartsOf(cs[0]) + AllParts(cs[1..])
  {
    var first := [cs[0]];
    AllPartsAppend(first, cs[1..]);
    assert first + cs[1..] == cs;
    assert first[..0] == [];
    assert AllParts(first) == AllParts(first[..0]) + PartsOf(first[0]);
    assert AllParts(first) == PartsOf(cs[0]);
  }

  /** The first part's text, if it has one, comes first. */
  lemma TextsOfFront(ps: seq<Part>)
    requires |ps| > 0
    ensures TextsOf(ps) == (if ps[0].TextPart? then [ps[0].text] else []) + TextsOf(ps[1..])
  {
    TextsOfAppend([ps[0]], ps[1..]);
    assert [ps[0]] + ps[1..] == ps;
    assert [ps[0]][..0] == [];
  }

  /**
   * `TextsOf` keeps exactly the text parts: one piece per text part, in order,
   * and nothing for any other part.
   */
  lemma {:induction false} TextsOfCounts(ps: seq<Part>)
    ensures |TextsOf(ps)| == |set k | 0 <= k < |ps| && ps[k].TextPart?|
    decreases |ps|
  {
    if |ps| > 0 {
      var n := |ps| - 1;
      TextsOfCounts(ps[..n]);
      var before := set k | 0 <= k < n && ps[..n][k].TextPart?;
      var all := set k | 0 <= k < |ps| && ps[k].TextPart?;
      if ps[n].TextPart? {
        assert all == before + {n};
      } else {
        assert all == before;
      }
    }
  }

  /** A response without candidates carries no text. */
  lemma NoCandidatesNoText(r: Response)
    requires CandidatesOf(r) == []
    ensures ResponseText(r) == ""
  {
  }

  /** A candidate without a parts array adds nothing to the text, wherever it stands. */
  lemma {:induction false} PartlessCandidateAddsNothing(before: seq<Candidate>, after: seq<Candidate>)
    ensures ResponseText(Response(Some(before + [Candidate(None)] + after)))
         == ResponseText(Response(Some(before + after)))
  {
    AllPartsAppend(before + [Candidate(None)], after);
    AllPartsAppend(before, [Candidate(None)]);
    assert [Candidate(None)][..0] == [];
    assert AllParts([Candidate(None)]) == [];
    AllPartsAppend(before, after);
    assert AllParts(before) + [] == AllParts(before);
  }

  /** A part that is not a text part adds nothing to the text, wherever it stands. */
  lemma {:induction false} NonTextPartAddsNothing(before: seq<Part>, p: Part, after: seq<Part>)
    requires !p.TextPart?
    ensures TextsOf(before + [p] + after) == TextsOf(before + after)
  {
    TextsOfAppend(before + [p], after);
    TextsOfAppend(before, [p]);
    TextsOfAppend(before, after);
    assert [p][..0] == [];
    assert TextsOf([p]) == [];
    assert TextsOf(before) + [] == TextsOf(before);
  }

  /** Two text parts of one candidate come out as their texts joined by one line break. */
  lemma TwoTextPartsJoined(a: string, b: string)
    ensures ResponseText(Response(Some([Candidate(Some([TextPart(a), TextPart(b)]))]))) == a + "\n" + b
  {
    var ps := [TextPart(a), TextPart(b)];
    var cs := [Candidate(Some(ps))];
    assert cs[..0] == [];
    assert AllParts(cs) == ps;
    TextsOfFront(ps);
    var last := ps[1..];
    assert last[..0] == [];
    assert TextsOf(last) == [b];
    assert TextsOf(ps) == [a, b];
    assert [a, b][..1] == [a];
    assert Join([a, b], "\n") == Join([a], "\n") + "\n" + b;
    assert ResponseText(Response(Some(cs))) == Join([a, b], "\n");
  }
}
