# Model of the ModelMe Gemini extension's request and reply logic

This project is a Dafny model of the two pages of the ModelMe browser extension. Both pages send a prompt and images to the Gemini generative-AI API and show the reply. The model states and proves what each page sends and what it shows. The DOM, the network and the SDK are not modelled.

**The side panel** (`sidepanel/index.js`):
- `runPrompt` builds the request: the trimmed prompt first, then one inline-data part per image.
- `fileToInlineData` and `readFileAsBase64` turn a file into its MIME type, defaulted to `application/octet-stream`, and the base64 payload of its data URL.
- `extractTextFromResponse` joins the text parts of every candidate with `"\n"`.
- `showResponse` and its helper `renderText` work out the nodes shown for a reply:
  - text is split into paragraphs and line breaks;
  - an inline-data part becomes either an image or a note.
- The run button is enabled or disabled by a predicate.
- A module-level list holds the selected images. Its numbered summary is shown on the page.

**The popup** (`popup.js`):
- Two image slots are changed by `handleImageUpload` and `removeImage`.
- `saveApiKey` trims the API key and saves it.
- `sendMessage` has three stages:
  - a gate rejects an empty submission, then a missing key;
  - the parts are ordered: slot 1, slot 2, then the text;
  - the reply is selected.
- `formatAIResponse` escapes the reply first, then applies five markdown rewrites.

Modules, one per concern:

| module | file | contents |
|---|---|---|
| `Seqs` | `seqs.dfy` | small generic facts about slicing and concatenation |
| `Optional` | `optional.dfy` | `Option` |
| `Strings` | `strings.dfy` | the JavaScript string operations the pages use |
| `GenAi` | `response.dfy` | the response datatypes: candidate, part = text, inline data or other |
| `SidePanelRequest` | `sidepanel_request.dfy` | request building and file encoding |
| `SidePanelRender` | `sidepanel_render.dfy` | text extraction and the render plan of `showResponse` |
| `SidePanelState` | `sidepanel_state.dfy` | class `SidePanel` (the page state and its handlers), the run-button predicate and the summary |
| `PopupFormat` | `popup_format.dfy` | `escapeHtml` and the markdown rewrites |
| `Popup` | `popup.dfy` | class `PopupPage` (key, slots, prompt box, chat log) and its handlers |

The JavaScript string operations in `Strings` are:
- `trim`, which removes ECMAScript WhiteSpace and LineTerminator;
- `join`;
- `split(/\r?\n/)`;
- `split(',')`;
- `indexOf`;
- `String(n)`.

Behaviour the model takes from the code:
- A reply part is one of three kinds: text, inline data, or something neither page reads.
- A `candidates` or `content.parts` that is `null`, `undefined` or not an array becomes `None`.
- A missing `mimeType` or `data` of inline data is `""`. The side panel reads both by truthiness or `||`, so missing and empty behave alike. The popup's reply `?.text || 'No response received'` treats a missing and an empty text alike too.
- A `text` field is different in the side panel, which asks `typeof part.text === 'string'`. An empty text part (`TextPart("")`) adds an empty piece and a `"\n"`; a part without `text` (`OtherPart`) adds nothing.
- The markdown rewrites run on a sequence of pieces. Each piece is either a character of the escaped text or markup that an earlier rewrite inserted. `FormatAIResponse` serialises the pieces into the string the popup builds.
- The two views agree for a reason. No inserted markup contains a delimiter (`*`, `` ` ``, a line feed) or a line terminator. So a pattern never starts or ends inside markup, and `.` matches every character of it.
- `escapeHtml` follows the "escaping a string" step of the HTML Standard, section 13.3. It writes `&amp;`, `&nbsp;`, `&lt;` and `&gt;`.

Anything that happens outside the page is a parameter of the handler that waits for it:
- the result of the HTTP request (`HttpReply`);
- the SDK call (`GenerateOutcome`);
- the file read (`FileRead`, or the data URL held by `ImageFile`);
- a storage error.

## Model

| member | source | states |
|---|---|---|
| Strings.LeadingBlanks | sidepanel/index.js:157 | the count of leading characters `trim` removes: all of them are WhiteSpace or LineTerminator, and the next one is not |
| Strings.TrailingBlanks | sidepanel/index.js:157 | the count of trailing characters `trim` removes: all of them are WhiteSpace or LineTerminator, and the one before them is not |
| Strings.TrimShape | sidepanel/index.js:157 | `trim` keeps one contiguous slice, drops only trimmable characters on both sides, and the slice neither starts nor ends with one |
| Strings.TrimEmptyIff | sidepanel/index.js:282 | a string trims to `""` exactly when all its characters are trimmable, which is when `!!value.trim()` is false |
| Strings.TrimIdempotent | sidepanel/index.js:69-70 | `runPrompt` trims the prompt the click handler already trimmed at line 157; trimming a trimmed string changes nothing |
| Strings.JoinSplitLines | sidepanel/index.js:193 | joining the pieces of `split(/\r?\n/)` with `"\n"` gives the text back, with every `"\r\n"` written as `"\n"` |
| Strings.SplitLinesJoin | sidepanel/index.js:193 | `split(/\r?\n/)` undoes joining single-line pieces with `"\n"` |
| Strings.SplitLinesAfterSingleLine | sidepanel/index.js:193 | a single-line prefix merges into the first piece of the split |
| Strings.IndexOf | sidepanel/index.js:329 | `indexOf(',')` is -1 exactly when there is no comma; otherwise it is the position of the first comma |
| Strings.SplitOnFields | popup.js:127 | `split(',')` has a second field exactly when the string holds a comma |
| Strings.SplitOnSecondField | popup.js:127 | `split(',')[1]` runs from just past the first comma up to the next comma or the end |
| Strings.SplitOnFirstField | popup.js:127 | `split(',')[0]` is the text before the first comma, or the whole string |
| Strings.SplitOnWithout | popup.js:127 | without a comma, `split(',')` is the string alone |
| Strings.NatToString | sidepanel/index.js:300 | `String(n)` is a non-empty run of decimal digits without a leading zero |
| Strings.ParseNatToString | sidepanel/index.js:300 | the numeral `String(n)` reads back as `n` |
| GenAi.TextsOfCounts | sidepanel/index.js:349-354 | one piece is collected per part whose `text` is a string, and nothing for any other part |
| GenAi.TextsOfAppend | sidepanel/index.js:349-354 | the pieces of two runs of parts are those of the first run followed by those of the second |
| GenAi.AllPartsAppend | sidepanel/index.js:345-348 | candidates are walked in order, each contributing its parts after those of the candidates before it |
| GenAi.NoCandidatesNoText | sidepanel/index.js:343 | a response without a candidates array gives `""` |
| GenAi.PartlessCandidateAddsNothing | sidepanel/index.js:346-348 | a candidate without a `content.parts` array adds nothing to the text, wherever it stands |
| GenAi.NonTextPartAddsNothing | sidepanel/index.js:351-353 | a part without a string `text` adds nothing to the text, wherever it stands |
| GenAi.TwoTextPartsJoined | sidepanel/index.js:356 | two text parts come out joined by exactly one `"\n"` |
| SidePanelRender.ExtractTextFromResponse | sidepanel/index.js:341-361 | the nested candidate and part loops produce the string texts of all parts, candidate by candidate and then part by part, joined with `"\n"` |
| SidePanelRender.RenderText | sidepanel/index.js:191-203 | the paragraph loop appends exactly the nodes of the render plan for the text |
| SidePanelRender.RenderPlanShape | sidepanel/index.js:192-202 | empty text gives no nodes; otherwise, for k pieces of `split(/\r?\n/)`, k-1 breaks and one text node per non-empty piece, in order; the nodes read back as the text with `"\r\n"` written as `"\n"` |
| SidePanelRender.RenderPlanSingleLines | sidepanel/index.js:192-202 | for single-line pieces joined with `"\n"`, the text nodes are exactly the non-empty pieces |
| SidePanelRender.RenderPrefixBreaks | sidepanel/index.js:194-202 | after i paragraphs there is one break after each paragraph except the last of the text |
| SidePanelRender.RenderPrefixTexts | sidepanel/index.js:194-198 | after i paragraphs the text nodes are the non-empty paragraphs among them, in order |
| SidePanelRender.RenderPrefixReadBack | sidepanel/index.js:194-202 | after i paragraphs the nodes read as those paragraphs joined by `"\n"`, plus the break still due |
| SidePanelRender.ParagraphReadBack | sidepanel/index.js:195-201 | one paragraph reads back as its text, then a break unless it is the last |
| SidePanelRender.InlineNodeDecision | sidepanel/index.js:248-259 | a part with an empty payload shows nothing; otherwise, with the MIME type defaulted to `application/octet-stream`, it becomes the image `data:<mime>;base64,<data>` exactly when the type starts with `image/` in any case, and else a note |
| SidePanelRender.NoteIgnoresPayload | sidepanel/index.js:253-255 | the note depends on the payload only through its length, and it is never the image |
| SidePanelRender.PngExample | sidepanel/index.js:250-251 | a PNG payload `QQ==` shows as the image `data:image/png;base64,QQ==` |
| SidePanelRender.AllInlineNodesAppend | sidepanel/index.js:241-262 | the inline nodes of two runs of parts are those of the first run, then those of the second |
| SidePanelRender.RenderPartsInline | sidepanel/index.js:246-261 | the part loop appends the inline nodes of the candidate's parts, in order |
| SidePanelRender.RenderInlineData | sidepanel/index.js:240-262 | the candidate loop appends the inline nodes of all parts, candidate by candidate |
| SidePanelRender.ShowResponse | sidepanel/index.js:181-263 | the emptied response area gets nothing for a falsy response, the rendered text for a string, and for a response object the rendered extracted text followed by the inline nodes |
| SidePanelRequest.ReadFileAsBase64 | sidepanel/index.js:323-333 | the payload is everything after the first comma, with a comma-free header before that comma, or the whole data URL when it has no comma |
| SidePanelRequest.FileToInlineData | sidepanel/index.js:314-321 | the MIME type is the file's, or `application/octet-stream` when that is empty, and the data is the data-URL payload |
| SidePanelRequest.DataUrlRoundTrip | sidepanel/index.js:314-330 | reading a file whose data URL is `data:<mime>;base64,<payload>` gives back that MIME type and payload |
| SidePanelRequest.BuildRequestParts | sidepanel/index.js:68-79 | the parts are the trimmed prompt as the first part exactly when it is non-blank, then one inline-data part per file, in order, and no other text part |
| SidePanelRequest.RequestContents | sidepanel/index.js:84 | `contents` is the part list when it is non-empty, and the prompt otherwise |
| SidePanelRequest.RunPrompt | sidepanel/index.js:57-89 | the raw prompt is sent exactly when it is blank and there are no images; otherwise the request has the layout above |
| SidePanelState.RunButtonEnabledIff | sidepanel/index.js:281-290 | the run button is enabled exactly when the prompt has a non-blank character, some image is selected, or the file input holds files |
| SidePanelState.RoundKb | sidepanel/index.js:300 | `Math.round(size / 1024)` is the nearest whole number of KB, with halves rounded up |
| SidePanelState.SummaryItems | sidepanel/index.js:300 | one item per selected file, the k-th being `k. name (size KB)` with numbering from 1 |
| SidePanelState.ItemSingleLine | sidepanel/index.js:300 | an item whose file name has no line break is one line |
| SidePanelState.SelectionSummaryLines | sidepanel/index.js:300-301 | a non-empty summary splits into the header `Selected images (n):` and the n items, in order |
| SidePanelState.ShowOutcome | sidepanel/index.js:163-168 | a generated response is shown by `showResponse`, and a thrown error shows its message |
| SidePanelState.SidePanel.constructor | sidepanel/index.js:45 | the page starts with no prompt, no files, the run button disabled and the summary hidden |
| SidePanelState.SidePanel.UpdateRunButtonEnabled | sidepanel/index.js:281-290 | the button state becomes the run-button predicate of the prompt, the selection and the input |
| SidePanelState.SidePanel.RenderSelectedImages | sidepanel/index.js:292-304 | the summary becomes the text for the selection, and it is shown exactly when something is selected |
| SidePanelState.SidePanel.OnPromptInput | sidepanel/index.js:136-137 | typing sets the prompt and recomputes the button, and the page stays consistent |
| SidePanelState.SidePanel.OnImageInputChange | sidepanel/index.js:141-153 | chosen files are appended after the ones already selected, in order; the input holds them; the page stays consistent |
| SidePanelState.SidePanel.OnClearImages | sidepanel/index.js:306-311 | corrected Clear: the selection and the file input are empty, the summary is hidden, and the button is enabled exactly when the prompt is non-blank |
| SidePanelState.SidePanel.OnClearImagesAsWritten | sidepanel/index.js:306-311 | Clear as written: the selection is empty and the summary hidden, but the file input keeps its files |
| SidePanelState.SidePanel.OnRunClicked | sidepanel/index.js:155-169 | the run sends the trimmed prompt with the selected images, or else the input's files, and shows the reply or the error |
| SidePanelState.ClearThenRunAsWritten | sidepanel/index.js:158-160 | after Clear as written, a run with an empty prompt still sends the cleared image, and the run button stays enabled |
| SidePanelState.ClearThenRunCorrected | sidepanel/index.js:158-160 | after the corrected Clear, a run with an empty prompt sends no image, and the button is disabled |
| PopupFormat.EscapeHtml | popup.js:415-419 | the escaped text holds no `<` or `>` and is at least as long as the input |
| PopupFormat.UnescapeEscapeHtml | popup.js:415-419 | decoding the four entities gives the text back: escaping loses nothing |
| PopupFormat.EscapeHtmlPlain | popup.js:415-419 | text without `&`, U+00A0, `<` or `>` is left unchanged |
| PopupFormat.EscapeHtmlCountChar | popup.js:415-419 | escaping keeps the count of every character that no entity contains |
| PopupFormat.EscapeHtmlAppend | popup.js:415-419 | escaping distributes over concatenation |
| PopupFormat.FindCloseFound | popup.js:340 | the closing delimiter follows the run that the lazy group `(.*?)` matches |
| PopupFormat.FindCloseShortest | popup.js:340 | that run is the shortest: each piece of it matches `.`, and the delimiter starts nowhere inside it |
| PopupFormat.FindCloseNone | popup.js:340 | with no run found, every later delimiter is preceded by a piece that `.` does not match |
| PopupFormat.ReplaceStep | popup.js:340-352 | one step of a global replace either rewrites a match at the front as open markup, the run and close markup, or keeps one piece; the scan resumes after it |
| PopupFormat.ReplaceAtMatch | popup.js:340-352 | a match at the front is replaced by open markup, the run and close markup, and scanning resumes after the closing delimiter |
| PopupFormat.ReplaceElsewhere | popup.js:340-352 | without a match at the front, the first piece is kept and scanning resumes at the next |
| PopupFormat.ReplaceCount | popup.js:340-352 | a rewrite adds only its markup and removes only delimiter characters; every other piece occurs as often as before |
| PopupFormat.ReplaceAbsent | popup.js:340-352 | without the delimiter there is nothing to rewrite |
| PopupFormat.RestoreReplace | popup.js:340-352 | putting the delimiters back where a rewrite inserted markup gives its input back |
| PopupFormat.BreakLinesCount | popup.js:346 | every line feed becomes one `<br>`, and nothing else changes in number |
| PopupFormat.RestoreBreakLines | popup.js:346 | writing each `<br>` back as a line feed gives the input back |
| PopupFormat.BreakLinesAbsent | popup.js:346 | text without a line feed is unchanged |
| PopupFormat.FormatIsSafe | popup.js:334-355 | since escaping comes first, no `<` or `>` of the reply survives as a character, no line feed is left, and only the rewrites' own markup appears |
| PopupFormat.FormatLineBreaks | popup.js:334-355 | the formatted reply holds exactly one `<br>` per line feed of the reply |
| PopupFormat.NoLineFeedLeft | popup.js:346 | no line feed is left after the line-break rewrite |
| PopupFormat.FormatCount | popup.js:334-355 | any piece that the rewrites neither add nor remove occurs as often as in the escaped reply |
| PopupFormat.FormatRoundTrip | popup.js:334-355 | undoing the five rewrites in reverse order, then the escaping, gives the reply back |
| PopupFormat.FormatWithoutMarkdown | popup.js:334-355 | a reply without `*`, `` ` `` or line feeds is only escaped |
| PopupFormat.FormatPlain | popup.js:334-355 | a reply with nothing to escape and no markdown is shown exactly as it came |
| Popup.Pair.With | popup.js:128 | setting slot n gives it the new value and leaves the other slot as it was |
| Popup.PayloadField | popup.js:127 | `split(',')[1]` is missing exactly when the data URL has no comma |
| Popup.PayloadFieldAgrees | popup.js:127 | when the payload holds no comma, the popup reads a data URL as the side panel does |
| Popup.PayloadFieldRoundTrip | popup.js:127 | the payload of `data:<type>;base64,<payload>` is read back unchanged |
| Popup.BuildParts | popup.js:215-239 | one inline part per filled slot, slot 1 first; the prompt as the only text part, last, when it is non-empty; the count is the number of filled slots plus one for a non-empty prompt |
| Popup.ReplyText | popup.js:267 | the shown reply is never empty: it is the first part's text, or `No response received` when that is missing or empty |
| Popup.ReplyIsFirstPiece | popup.js:267 | when it is present, the popup's reply is the first of the texts the side panel joins |
| Popup.SingleTextReply | popup.js:267 | a reply of one text part reads the same in the popup and in the side panel |
| Popup.SendRejectionIff | popup.js:192-202 | a message is sent exactly when there is a prompt or an image and a key; an empty submission is reported first |
| Popup.PopupPage.constructor | popup.js:1-3 | the popup starts with no key, both slots empty and an empty chat |
| Popup.PopupPage.LoadSavedKey | popup.js:35-53 | a storage error is reported and changes nothing else; a non-empty saved key fills the key and its input; otherwise nothing changes |
| Popup.PopupPage.SaveApiKey | popup.js:73-112 | the key becomes the trimmed input, and it is stored and confirmed only when non-empty; otherwise the storage is untouched and an error is shown |
| Popup.PopupPage.HandleImageUpload | popup.js:115-167 | a non-image is refused and the input cleared; a failed read is reported and the input cleared; a read image fills slot n with its payload, type and name; the other slot is untouched in every case |
| Popup.PopupPage.RemoveImage | popup.js:170-188 | slot n, its input and its preview are emptied, and the other slot is untouched |
| Popup.PopupPage.UploadThenRemove | popup.js:115-188 | whatever an upload to slot n did, removing the image empties slot n, its input and its preview; an empty slot is back as it was; the other slot is untouched |
| Popup.PopupPage.SendMessage | popup.js:191-280 | a rejected message only adds the error to the chat; a sent one empties the prompt box, sends the parts in slot order, logs the message and then the formatted reply or the error, and empties both slots after a reply only |
| Popup.PopupPage.Deliver | popup.js:204-279 | what happens after the gate: the prompt box is emptied, the parts are laid out, the chat gets the message and the reply entry, and the slots are emptied after a reply |

## Left out

- DOM creation, styling, the `hidden` and `disabled` attributes, scrolling and the `setTimeout` dismissals are not modelled. The model keeps what they display: the nodes, the summary text, the button state and the chat entries.
- Extension storage, `fetch` and the SDK's `generateContent` are not modelled. Their results are inputs of the handlers: `HttpReply`, `GenerateOutcome` and the storage error.
- `FileReader` runs asynchronously in the source. The model takes the data URL it produces as given.
- The `typeof result === 'string'` check in `readFileAsBase64` is not modelled. A data URL read is always a string, so the model takes the string.
- The temperature slider and `Number(temperature) || 1` are left out. They are float coercion and UI.
- `safetySettings` and `MODEL_ID` are left out. They are constants passed to the SDK.
- Debug logging is left out, and with it one effect it has. The log in `runPrompt` (sidepanel/index.js:98-100) reads `pt.text` of every part. A `null` or `undefined` part therefore throws a TypeError there. The `catch` at lines 115-118 rethrows it, and the click handler shows the error (lines 166-167). The model has no such part: every part is a text part, inline data or `OtherPart`. So `ShowOutcome` and `OnRunClicked` render such a reply where the source shows an error.
- SidePanelState.SidePanel.OnRunClicked: a file that `FileReader` fails to read (sidepanel/index.js:335) rejects before `generateContent` is called, and the run shows an error. In the model every `ImageFile` already holds its data URL. So `OnRunClicked` always reports the contents as sent.
- Popup.PopupPage.SendMessage: every handler runs to completion before the next one starts. In the source, `sendMessage` awaits `fetch`, and a handler can run during that wait. An image attached to a slot during the wait is then removed, unsent, by `removeImage(1)` and `removeImage(2)` (popup.js:273-274). The model does not capture this interleaving.
- SidePanelState.SidePanel.constructor: the initial state has the run button disabled and the summary hidden. This is assumed from the page markup, which is not part of this model. No startup code calls `updateRunButtonEnabled` or `renderSelectedImages`; they run only at sidepanel/index.js:150-151 and 309-310.
- In the side panel, `runPrompt` wraps a thrown error as `Gemini request failed[...]`. That wrapping is left out: `ShowOutcome` shows the message it is given.
- Popup errors are simplified. A popup request that throws, or whose body cannot be parsed, is one `Failed(message)` reply. The model does not distinguish where the error came from.
- `addUserMessage` builds HTML and `showLoading` adds an indicator. Neither is modelled. The chat records the message text and the images attached to it.
- The Enter-key handler of the prompt box calls `sendMessage`, which is modelled. The handler itself is not.
- The API key is sent in the request URL. The URL is not modelled.
- Strings are sequences of Unicode characters. JavaScript's `.length` counts UTF-16 code units. The model uses the character count, for example for the note's payload length.
- The API sets at most one data field of a part. A part carrying both `text` and `inlineData` is not modelled.
- GenAi.Part: the popup reads a non-string truthy `text` as text. The model reads it as a part with no text, as the side panel does.
- PopupFormat.FormatAIResponse: the regular-expression replacements run on the sequence of pieces, not on the string. Equivalence with the string replacements rests on the argument in the module comment; it is not proved.
- Strings.IsTrimmable: the Unicode space separators (`Zs`) are listed as of the current Unicode version. A separator added by a later version is not included.

## Findings

| source | as written | input that shows it | evidently intended | confidence | as-written member | corrected member |
|---|---|---|---|---|---|---|
| sidepanel/index.js:306-311 | Clear empties `selectedImageFiles` but leaves the file input's files. The run click falls back to `inputImage.files` (lines 158-160), and the button predicate counts them (line 283). | Choose one image, press Clear, then press Run with an empty prompt: the cleared image is still sent, and the button stays enabled. | Clear also empties the file input, so a cleared image is neither sent nor enables the button. | medium, not executed | SidePanelState.ClearThenRunAsWritten | SidePanelState.ClearThenRunCorrected |
