/**
 * The side panel's page state (sidepanel/index.js): the prompt box, the file
 * input, the module-level `selectedImageFiles` list, the run button and the
 * selected-images summary, with the event handlers that update them and the
 * run-button click that builds the request and shows the reply.
 */
module SidePanelState {
  import opened Strings
  import opened GenAi
  import opened SidePanelRender
  import opened SidePanelRequest

  /** `updateRunButtonEnabled`: enabled when there is a prompt, a selected image, or a file in the input. */
  function RunButtonEnabled(prompt: string, selectedCount: nat, inputCount: nat): bool {
    Trim(prompt) != "" || selectedCount > 0 || inputCount > 0
  }

  /** The run button is enabled exactly when the prompt has a non-blank character or some image is at hand. */
  lemma RunButtonEnabledIff(prompt: string, selectedCount: nat, inputCount: nat)
    ensures RunButtonEnabled(prompt, selectedCount, inputCount)
        <==> (exists k :: 0 <= k < |prompt| && !IsTrimmable(prompt[k])) || selectedCount > 0 || inputCount > 0
  {
    TrimEmptyIff(prompt);
  }

  /** `Math.round(size / 1024)`: the nearest whole number of kibibytes, halves rounded up. */
  function RoundKb(size: nat): (kb: nat)
    ensures 1024 * kb <= size + 512 < 1024 * kb + 1024
  {
    (size + 512) / 1024
  }

  /** One line of the summary: `i. name (k KB)`. */
  function SummaryItem(index: nat, f: ImageFile): string {
    NatToString(index) + ". " + f.name + " (" + NatToString(RoundKb(f.size)) + " KB)"
  }

  function SummaryItems(files: seq<ImageFile>): (items: seq<string>)
    ensures |items| == |files|
    ensures forall k :: 0 <= k < |files| ==> items[k] == SummaryItem(k + 1, files[k])
  {
    seq(|files|, k requires 0 <= k < |files| => SummaryItem(k + 1, files[k]))
  }

  function SummaryHeader(count: nat): string {
    "Selected images (" + NatToString(count) + "):"
  }

  /** The text `renderSelectedImages` puts in the list: empty when nothing is selected. */
  function SelectionSummary(files: seq<ImageFile>): string {
    if |files| == 0 then "" else SummaryHeader(|files|) + "\n" + Join(SummaryItems(files), "\n")
  }

  lemma NumeralSingleLine(n: nat)
    ensures '\n' !in NatToString(n)
  {
  }

  lemma ItemSingleLine(index: nat, f: ImageFile)
    requires '\n' !in f.name
    ensures SingleLine(SummaryItem(index, f))
  {
    var a := NatToString(index) + ". ";
    var b := " (" + NatToString(RoundKb(f.size)) + " KB)";
    NumeralSingleLine(index);
    NumeralSingleLine(RoundKb(f.size));
    assert '\n' !in a;
    assert '\n' !in b;
    assert SummaryItem(index, f) == a + f.name + b;
    assert b[|b| - 1] == ')';
  }

  /**
   * A non-empty summary is the header `Selected images (n):` followed by n
   * lines, the k-th being `k. name (size KB)`, provided no name holds a line break.
   */
  lemma SelectionSummaryLines(files: seq<ImageFile>)
    requires |files| > 0
    requires forall k :: 0 <= k < |files| ==> '\n' !in files[k].name
    ensures SplitLines(SelectionSummary(files)) == [SummaryHeader(|files|)] + SummaryItems(files)
  {
    var header := SummaryHeader(|files|);
    var items := SummaryItems(files);
    HeaderSingleLine(|files|);
    ItemsSingleLine(files);
    var all := [header] + items;
    assert all[1..] == items;
    assert forall k :: 0 <= k < |all| ==> SingleLine(all[k]) by {
      forall k | 0 <= k < |all| ensures SingleLine(all[k]) {
        if k > 0 { assert all[k] == items[k - 1]; }
      }
    }
    JoinCons(header, items, "\n");
    SplitLinesJoin(all);
  }

  lemma HeaderSingleLine(count: nat)
    ensures SingleLine(SummaryHeader(count))
  {
    var header := SummaryHeader(count);
    NumeralSingleLine(count);
    assert header[|header| - 1] == ':';
  }

  lemma ItemsSingleLine(files: seq<ImageFile>)
    requires forall k :: 0 <= k < |files| ==> '\n' !in files[k].name
    ensures forall k :: 0 <= k < |files| ==> SingleLine(SummaryItems(files)[k])
  {
    var items := SummaryItems(files);
    forall k | 0 <= k < |items| ensures SingleLine(items[k]) {
      ItemSingleLine(k + 1, files[k]);
    }
  }

  /** The images a run sends: the selected list, or else whatever the file input holds. */
  function ImagesForRun(selected: seq<ImageFile>, inputFiles: seq<ImageFile>): seq<ImageFile> {
    if |selected| > 0 then selected else inputFiles
  }

  /** The outcome of the `generateContent` call, which the model takes as given. */
  datatype GenerateOutcome = Generated(response: Response) | Threw(message: string)

  /** What the panel shows after a run: the response area's nodes, or the error text. */
  datatype View = ResponseView(nodes: seq<Node>) | ErrorView(message: string)

  /** The click handler's `try`/`catch`: the response is rendered, or the error's message is shown. */
  method ShowOutcome(outcome: GenerateOutcome) returns (view: View)
    ensures outcome.Generated? ==> view == ResponseView(ShowPlan(Structured(outcome.response)))
    ensures outcome.Threw? ==> view == ErrorView(outcome.message)
  {
    match outcome
    case Generated(response) =>
      var nodes := ShowResponse(Structured(response));
      view := ResponseView(nodes);
    case Threw(message) =>
      view := ErrorView(message);
  }

  class SidePanel {
    var promptValue: string                  // #input-prompt
    var inputFiles: seq<ImageFile>           // #image-input's file list
    var selectedImageFiles: seq<ImageFile>
    var runEnabled: bool                     // #button-prompt is not disabled
    var summaryText: string                  // #selected-images text
    var summaryShown: bool                   // #selected-images (and #clear-images) not hidden

    /** The button and the summary reflect the prompt and the files. */
    ghost predicate Consistent()
      reads this
    {
      && runEnabled == RunButtonEnabled(promptValue, |selectedImageFiles|, |inputFiles|)
      && summaryText == SelectionSummary(selectedImageFiles)
      && summaryShown == (|selectedImageFiles| > 0)
    }

    /** An empty form: no prompt, no files, run button disabled, summary hidden. */
    constructor ()
      ensures promptValue == "" && inputFiles == [] && selectedImageFiles == []
      ensures Consistent() && !runEnabled && !summaryShown
    {
      promptValue, inputFiles, selectedImageFiles := "", [], [];
      runEnabled, summaryText, summaryShown := false, "", false;
    }

    method UpdateRunButtonEnabled()
      modifies this`runEnabled
      ensures runEnabled == RunButtonEnabled(promptValue, |selectedImageFiles|, |inputFiles|)
    {
      var hasPrompt := Trim(promptValue) != "";
      var hasImage := |selectedImageFiles| > 0 || |inputFiles| > 0;
      runEnabled := hasPrompt || hasImage;
    }

    method RenderSelectedImages()
      modifies this`summaryText, this`summaryShown
      ensures summaryText == SelectionSummary(selectedImageFiles)
      ensures summaryShown == (|selectedImageFiles| > 0)
    {
      if |selectedImageFiles| == 0 {
        summaryText := "";
        summaryShown := false;
        return;
      }
      summaryText := SummaryHeader(|selectedImageFiles|) + "\n" + Join(SummaryItems(selectedImageFiles), "\n");
      summaryShown := true;
    }

    /** Typing in the prompt box. */
    method OnPromptInput(value: string)
      modifies this`promptValue, this`runEnabled
      ensures promptValue == value
      ensures runEnabled == RunButtonEnabled(value, |selectedImageFiles|, |inputFiles|)
      ensures old(summaryText == SelectionSummary(selectedImageFiles) && summaryShown == (|selectedImageFiles| > 0))
              ==> Consistent()
    {
      promptValue := value;
      UpdateRunButtonEnabled();
    }

    /** Choosing files: they are appended after the ones already selected, in order. */
    method OnImageInputChange(files: seq<ImageFile>)
      modifies this
      ensures inputFiles == files
      ensures selectedImageFiles == old(selectedImageFiles) + files
      ensures promptValue == old(promptValue)
      ensures Consistent()
    {
      inputFiles := files;
      ghost var before := selectedImageFiles;
      if |inputFiles| > 0 {
        for i := 0 to |inputFiles|
          invariant inputFiles == files && promptValue == old(promptValue)
          invariant selectedImageFiles == before + files[..i]
        {
          selectedImageFiles := selectedImageFiles + [inputFiles[i]];
          assert files[..i + 1] == files[..i] + [files[i]];
        }
      }
      assert files[..|files|] == files;
      assert before + [] == before;
      RenderSelectedImages();
      UpdateRunButtonEnabled();
    }

    /**
     * The Clear button, corrected: it empties the selection and also resets the
     * file input, so the cleared images can no longer be sent.
     */
    method OnClearImages()
      modifies this
      ensures selectedImageFiles == [] && inputFiles == []
      ensures promptValue == old(promptValue)
      ensures summaryText == "" && !summaryShown
      ensures runEnabled == (Trim(promptValue) != "")
      ensures Consistent()
    {
      selectedImageFiles := [];
      inputFiles := [];
      RenderSelectedImages();
      UpdateRunButtonEnabled();
    }

    /** The Clear button as written: the selection is emptied but the file input keeps its files. */
    method OnClearImagesAsWritten()
      modifies this
      ensures selectedImageFiles == [] && inputFiles == old(inputFiles)
      ensures promptValue == old(promptValue)
      ensures summaryText == "" && !summaryShown
      ensures Consistent()
    {
      selectedImageFiles := [];
      RenderSelectedImages();
      UpdateRunButtonEnabled();
    }

    /**
     * The run button's click: the trimmed prompt and the images for the run go
     * into the request; the reply, given as `outcome`, is shown.
     */
    method OnRunClicked(outcome: GenerateOutcome) returns (contents: Contents, view: View)
      ensures contents.RawPrompt? <==> Trim(promptValue) == "" && ImagesForRun(selectedImageFiles, inputFiles) == []
      ensures contents.RawPrompt? ==> contents.prompt == ""
      ensures contents.Parts? ==>
        RequestLayout(Trim(promptValue), ImagesForRun(selectedImageFiles, inputFiles), contents.parts)
      ensures outcome.Generated? ==> view == ResponseView(ShowPlan(Structured(outcome.response)))
      ensures outcome.Threw? ==> view == ErrorView(outcome.message)
    {
      var prompt := Trim(promptValue);
      var imageFiles := if |selectedImageFiles| > 0 then selectedImageFiles else inputFiles;
      TrimIdempotent(promptValue);
      assert Trim(prompt) == prompt;
      assert imageFiles == ImagesForRun(selectedImageFiles, inputFiles);
      contents := RunPrompt(prompt, imageFiles);
      view := ShowOutcome(outcome);
    }
  }

  /** Clearing as written, then running with an empty prompt, still sends the image that was cleared, and the button stays enabled. */
  method ClearThenRunAsWritten(f: ImageFile) returns (contents: Contents, enabled: bool)
    ensures contents == Parts([InlineRequest(FileToInlineData(f))]) && enabled
  {
    var panel := new SidePanel();
    panel.OnImageInputChange([f]);
    panel.OnClearImagesAsWritten();
    enabled := panel.runEnabled;
    var view;
    contents, view := panel.OnRunClicked(Threw(""));
  }

  /** Clearing, corrected, then running with an empty prompt sends no image, and the button is disabled. */
  method ClearThenRunCorrected(f: ImageFile) returns (contents: Contents, enabled: bool)
    ensures contents == RawPrompt("") && !enabled
  {
    var panel := new SidePanel();
    panel.OnImageInputChange([f]);
    panel.OnClearImages();
    enabled := panel.runEnabled;
    var view;
    contents, view := panel.OnRunClicked(Threw(""));
  }
}
