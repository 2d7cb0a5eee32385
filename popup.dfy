/**
 * The popup's page state (popup.js): the API key, the two image slots
 * `uploadedImages`, the prompt box, the two file inputs with their previews,
 * the key kept in extension storage, and the chat log the handlers append to.
 * The reply of the HTTP request is an input of `SendMessage`; the model shows
 * what is sent and what the chat then shows.
 */
module Popup {
  import opened Optional
  import opened Strings
  import opened GenAi
  import opened PopupFormat
  import SidePanelRender
  import SidePanelRequest

  /** An image slot: `image1` or `image2`. */
  type SlotNumber = n: int | n == 1 || n == 2 witness 1

  /** One value per image slot. */
  datatype Pair<T> = Pair(image1: T, image2: T) {
    function Get(n: SlotNumber): T {
      if n == 1 then image1 else image2
    }

    /** The pair with slot `n` set to `v`: that slot reads `v`, the other is unchanged. */
    function With(n: SlotNumber, v: T): (p: Pair<T>)
      ensures p.Get(n) == v
      ensures forall m: SlotNumber :: m != n ==> p.Get(m) == Get(m)
    {
      if n == 1 then Pair(v, image2) else Pair(image1, v)
    }
  }

  /** What a successful read stores in a slot; `data` is `None` when the data URL has no comma. */
  datatype ImageData = ImageData(data: Option<string>, mimeType: string, name: string)

  /** The file chosen in an input: its name and its type, `""` when unknown. */
  datatype UploadFile = UploadFile(name: string, mimeType: string)

  /** The outcome of reading the file as a data URL. */
  datatype FileRead = Loaded(dataUrl: string) | ReadFailed

  /** `result.split(',')[1]`: the text between the first and the second comma, or after the only one. */
  function PayloadField(dataUrl: string): (p: Option<string>)
    ensures p.None? <==> ',' !in dataUrl
  {
    var fields := SplitOn(dataUrl, ',');
    SplitOnFields(dataUrl, ',');
    if |fields| >= 2 then Some(fields[1]) else None
  }

  /**
   * The popup reads a data URL as the side panel does whenever the payload holds
   * no comma, as a base64 payload never does: both keep what follows the first comma.
   */
  lemma PayloadFieldAgrees(dataUrl: string)
    requires ',' in dataUrl && ',' !in SidePanelRequest.ReadFileAsBase64(dataUrl)
    ensures PayloadField(dataUrl) == Some(SidePanelRequest.ReadFileAsBase64(dataUrl))
  {
    SplitOnSecondField(dataUrl, ',');
  }

  /** The payload of a data URL `data:<type>;base64,<payload>` is read back unchanged. */
  lemma PayloadFieldRoundTrip(mime: string, payload: string)
    requires mime != "" && ',' !in mime && ',' !in payload
    ensures PayloadField(SidePanelRender.ImageSource(mime, payload)) == Some(payload)
  {
    var url := SidePanelRender.ImageSource(mime, payload);
    SidePanelRequest.DataUrlRoundTrip("", mime, 0, payload);
    assert SidePanelRequest.ReadFileAsBase64(url) == payload;
    assert ',' in url by {
      assert url == "data:" + mime + ";base64" + "," + payload;
      assert url[5 + |mime| + 7] == ',';
    }
    PayloadFieldAgrees(url);
  }

  /** One part of the outgoing request. */
  datatype OutgoingPart = InlineOut(mimeType: string, data: Option<string>) | TextOut(text: string)

  function InlinePartOf(image: ImageData): OutgoingPart {
    InlineOut(image.mimeType, image.data)
  }

  /** The number of filled slots. */
  function Filled(images: Pair<Option<ImageData>>): nat {
    (if images.image1.Some? then 1 else 0) + (if images.image2.Some? then 1 else 0)
  }

  /**
   * The layout of the parts `sendMessage` pushes for `images` and `prompt`:
   * one inline-data part per filled slot, slot 1's first, then the prompt as
   * the one text part, last, when it is not empty.
   */
  predicate PartsLayout(images: Pair<Option<ImageData>>, prompt: string, parts: seq<OutgoingPart>) {
    && |parts| == Filled(images) + (if prompt != "" then 1 else 0)
    && (images.image1.Some? ==> parts[0] == InlinePartOf(images.image1.value))
    && (images.image2.Some? ==> parts[Filled(images) - 1] == InlinePartOf(images.image2.value))
    && (forall k :: 0 <= k < Filled(images) ==> parts[k].InlineOut?)
    && (prompt != "" ==> parts[|parts| - 1] == TextOut(prompt))
    && (forall k :: 0 <= k < |parts| && parts[k].TextOut? ==> k == |parts| - 1 && prompt != "")
  }

  /**
   * The parts `sendMessage` pushes: slot 1's image, then slot 2's, then the
   * prompt (already trimmed) when it is not empty; the text, if any, is last.
   */
  method BuildParts(images: Pair<Option<ImageData>>, prompt: string) returns (parts: seq<OutgoingPart>)
    ensures PartsLayout(images, prompt, parts)
  {
    parts := [];
    if images.image1.Some? {
      parts := parts + [InlinePartOf(images.image1.value)];
    }
    if images.image2.Some? {
      parts := parts + [InlinePartOf(images.image2.value)];
    }
    if prompt != "" {
      parts := parts + [TextOut(prompt)];
    }
  }

  const NoResponse := "No response received"

  /** `data.candidates?.[0]?.content?.parts?.[0]?.text`, read as `""` when missing or not a string. */
  function FirstPartText(r: Response): string {
    var cs := CandidatesOf(r);
    if |cs| == 0 then ""
    else
      var ps := PartsOf(cs[0]);
      if |ps| > 0 && ps[0].TextPart? then ps[0].text else ""
  }

  /** The reply the popup shows: the first part's text, or the fallback when that is missing or empty. */
  function ReplyText(r: Response): (s: string)
    ensures s != ""
    ensures FirstPartText(r) != "" ==> s == FirstPartText(r)
    ensures FirstPartText(r) == "" ==> s == NoResponse
  {
    if FirstPartText(r) != "" then FirstPartText(r) else NoResponse
  }

  /**
   * When the first part of the first candidate is a non-empty text, the popup
   * shows the first of the pieces the side panel joins.
   */
  lemma ReplyIsFirstPiece(r: Response)
    requires FirstPartText(r) != ""
    ensures |TextsOf(AllParts(CandidatesOf(r)))| > 0
    ensures ReplyText(r) == TextsOf(AllParts(CandidatesOf(r)))[0]
  {
    var cs := CandidatesOf(r);
    var ps := PartsOf(cs[0]);
    AllPartsFront(cs);
    TextsOfAppend(ps, AllParts(cs[1..]));
    TextsOfFront(ps);
  }

  /** A reply of one text part reads the same in the popup and in the side panel. */
  lemma SingleTextReply(text: string)
    requires text != ""
    ensures var r := Response(Some([Candidate(Some([TextPart(text)]))]));
      ReplyText(r) == text && GenAi.ResponseText(r) == text
  {
    var ps := [TextPart(text)];
    var cs := [Candidate(Some(ps))];
    assert cs[..0] == [] && ps[..0] == [];
    assert AllParts(cs) == ps;
    assert TextsOf(ps) == [text];
    assert [text][..0] == [];
  }

  /** What the HTTP request comes to. */
  datatype HttpReply =
    | Ok(body: Response)           // `response.ok`, and the body parsed
    | NotOk(errorMessage: string)  // an error status; `error.message` of the body, `""` when missing
    | Failed(message: string)      // the request or the parsing of a body threw

  /** The entries the chat shows, in order. */
  datatype ChatEntry =
    | UserMessage(text: string, images: Pair<Option<ImageData>>)
    | AIMessage(html: string)
    | ErrorMessage(text: string)
    | Notification(html: string)

  const EmptySubmission := "Please enter a message or upload at least one image"
  const MissingKey := "Please enter your API key first"
  const InvalidKey := "Please enter a valid API key"
  const KeySaved := "API key saved successfully!"
  const NotAnImage := "Please upload an image file"
  const UnreadableImage := "Failed to read the image file"
  const RequestFailed := "API request failed"

  /** Why `sendMessage` sends nothing: an empty submission is reported before a missing key. */
  function SendRejection(prompt: string, images: Pair<Option<ImageData>>, apiKey: string): Option<string> {
    if prompt == "" && images.image1.None? && images.image2.None? then Some(EmptySubmission)
    else if apiKey == "" then Some(MissingKey)
    else None
  }

  /** A message is sent exactly when there is something to send and a key to send it with. */
  lemma SendRejectionIff(prompt: string, images: Pair<Option<ImageData>>, apiKey: string)
    ensures SendRejection(prompt, images, apiKey).None?
        <==> (prompt != "" || Filled(images) > 0) && apiKey != ""
    ensures SendRejection(prompt, images, apiKey) == Some(EmptySubmission)
        <==> prompt == "" && Filled(images) == 0
  {
  }

  /** The error line for a failed request. */
  function FailureText(reply: HttpReply): string
    requires !reply.Ok?
  {
    match reply
    case NotOk(message) => "Error: " + (if message != "" then message else RequestFailed)
    case Failed(message) => "Error: " + message
  }

  /** The chat line a reply adds: the formatted reply text, or the error. */
  function ReplyEntry(reply: HttpReply): ChatEntry {
    match reply
    case Ok(body) => AIMessage(FormatAIResponse(ReplyText(body)))
    case _ => ErrorMessage(FailureText(reply))
  }

  class PopupPage {
    var apiKey: string
    var uploadedImages: Pair<Option<ImageData>>
    var promptValue: string                // #textPrompt
    var apiKeyInput: string                // #apiKeyInput
    var inputs: Pair<Option<UploadFile>>   // the file #image1 and #image2 hold
    var previews: Pair<string>             // the sources of #preview1 and #preview2
    var storedKey: Option<string>          // `geminiApiKey` in extension storage
    var chat: seq<ChatEntry>

    /** A fresh popup: nothing typed, no images, an empty chat; storage keeps what was saved before. */
    constructor (stored: Option<string>)
      ensures apiKey == "" && promptValue == "" && apiKeyInput == ""
      ensures uploadedImages == Pair(None, None) && inputs == Pair(None, None) && previews == Pair("", "")
      ensures storedKey == stored && chat == []
    {
      apiKey, promptValue, apiKeyInput := "", "", "";
      uploadedImages, inputs, previews := Pair(None, None), Pair(None, None), Pair("", "");
      storedKey, chat := stored, [];
    }

    /** Loading the saved key: a storage error is reported; a saved non-empty key fills the key and its box. */
    method LoadSavedKey(storageError: Option<string>)
      modifies this`apiKey, this`apiKeyInput, this`chat
      ensures storageError.Some? ==>
        && chat == old(chat) + [ErrorMessage("Storage error: " + storageError.value)]
        && apiKey == old(apiKey) && apiKeyInput == old(apiKeyInput)
      ensures storageError.None? && storedKey.Some? && storedKey.value != "" ==>
        apiKey == storedKey.value && apiKeyInput == storedKey.value && chat == old(chat)
      ensures storageError.None? && (storedKey.None? || storedKey.value == "") ==>
        apiKey == old(apiKey) && apiKeyInput == old(apiKeyInput) && chat == old(chat)
    {
      if storageError.Some? {
        chat := chat + [ErrorMessage("Storage error: " + storageError.value)];
        return;
      }
      if storedKey.Some? && storedKey.value != "" {
        apiKey := storedKey.value;
        apiKeyInput := apiKey;
      }
    }

    /** `saveApiKey`: the key becomes the trimmed box, and it is stored only when that is not empty. */
    method SaveApiKey()
      modifies this`apiKey, this`storedKey, this`chat
      ensures apiKey == Trim(apiKeyInput)
      ensures apiKey != "" ==> storedKey == Some(apiKey) && chat == old(chat) + [Notification(KeySaved)]
      ensures apiKey == "" ==> storedKey == old(storedKey) && chat == old(chat) + [ErrorMessage(InvalidKey)]
    {
      apiKey := Trim(apiKeyInput);
      if apiKey != "" {
        storedKey := Some(apiKey);
        chat := chat + [Notification(KeySaved)];
      } else {
        chat := chat + [ErrorMessage(InvalidKey)];
      }
    }

    /**
     * Choosing a file in input `n` and `handleImageUpload`: a file whose type
     * does not start with `image/` is refused and the input emptied; a file
     * that cannot be read is reported and the input emptied; otherwise slot `n`
     * gets the file's payload, type and name and shows the data URL. Either way
     * the other slot is untouched.
     */
    method HandleImageUpload(n: SlotNumber, file: Option<UploadFile>, read: FileRead)
      modifies this`uploadedImages, this`inputs, this`previews, this`chat
      ensures file.None? ==>
        && inputs == old(inputs).With(n, None) && uploadedImages == old(uploadedImages)
        && previews == old(previews) && chat == old(chat)
      ensures file.Some? && !StartsWith(file.value.mimeType, "image/") ==>
        && inputs == old(inputs).With(n, None) && uploadedImages == old(uploadedImages)
        && previews == old(previews) && chat == old(chat) + [ErrorMessage(NotAnImage)]
      ensures file.Some? && StartsWith(file.value.mimeType, "image/") && read.ReadFailed? ==>
        && inputs == old(inputs).With(n, None) && uploadedImages == old(uploadedImages)
        && previews == old(previews) && chat == old(chat) + [ErrorMessage(UnreadableImage)]
      ensures file.Some? && StartsWith(file.value.mimeType, "image/") && read.Loaded? ==>
        && inputs == old(inputs).With(n, file)
        && uploadedImages == old(uploadedImages).With(n, Some(ImageData(PayloadField(read.dataUrl), file.value.mimeType, file.value.name)))
        && previews == old(previews).With(n, read.dataUrl) && chat == old(chat)
    {
      inputs := inputs.With(n, file);
      if file.None? {
        return;
      }
      var f := file.value;
      if !StartsWith(f.mimeType, "image/") {
        chat := chat + [ErrorMessage(NotAnImage)];
        inputs := inputs.With(n, None);
        return;
      }
      match read
      case Loaded(dataUrl) =>
        var base64String := PayloadField(dataUrl);
        uploadedImages := uploadedImages.With(n, Some(ImageData(base64String, f.mimeType, f.name)));
        previews := previews.With(n, dataUrl);
      case ReadFailed =>
        chat := chat + [ErrorMessage(UnreadableImage)];
        inputs := inputs.With(n, None);
    }

    /** `removeImage(n)`: slot `n`, its input and its preview are emptied; the other slot is untouched. */
    method RemoveImage(n: SlotNumber)
      modifies this`uploadedImages, this`inputs, this`previews
      ensures uploadedImages == old(uploadedImages).With(n, None)
      ensures inputs == old(inputs).With(n, None)
      ensures previews == old(previews).With(n, "")
    {
      uploadedImages := uploadedImages.With(n, None);
      inputs := inputs.With(n, None);
      previews := previews.With(n, "");
    }

    /**
     * Attaching a file to slot `n` and then removing it: whatever the upload
     * did, slot `n`, its input and its preview end empty, and an empty slot is
     * back where it started; the other slot is untouched throughout.
     */
    method UploadThenRemove(n: SlotNumber, file: Option<UploadFile>, read: FileRead)
      modifies this`uploadedImages, this`inputs, this`previews, this`chat
      ensures uploadedImages == old(uploadedImages).With(n, None)
      ensures inputs == old(inputs).With(n, None)
      ensures previews == old(previews).With(n, "")
      ensures old(uploadedImages.Get(n).None? && inputs.Get(n).None? && previews.Get(n) == "") ==>
        uploadedImages == old(uploadedImages) && inputs == old(inputs) && previews == old(previews)
    {
      HandleImageUpload(n, file, read);
      RemoveImage(n);
    }

    /**
     * `sendMessage`, with `reply` the outcome of the request. A rejected
     * message changes nothing but the chat. A message that is sent empties the
     * prompt box and is logged; then the reply, formatted, or the error is
     * logged, and after a reply both slots are emptied.
     */
    method SendMessage(reply: HttpReply) returns (sent: Option<seq<OutgoingPart>>)
      modifies this`promptValue, this`chat, this`uploadedImages, this`inputs, this`previews
      ensures var rejection := SendRejection(Trim(old(promptValue)), old(uploadedImages), apiKey);
        rejection.Some? ==>
          && sent.None? && chat == old(chat) + [ErrorMessage(rejection.value)]
          && promptValue == old(promptValue) && uploadedImages == old(uploadedImages)
          && inputs == old(inputs) && previews == old(previews)
      ensures var prompt := Trim(old(promptValue));
        SendRejection(prompt, old(uploadedImages), apiKey).None? ==>
          && sent.Some? && promptValue == ""
          && PartsLayout(old(uploadedImages), prompt, sent.value)
          && chat == old(chat) + [UserMessage(prompt, old(uploadedImages))] + [ReplyEntry(reply)]
          && (reply.Ok? ==> uploadedImages == Pair(None, None) && inputs == Pair(None, None) && previews == Pair("", ""))
          && (!reply.Ok? ==> uploadedImages == old(uploadedImages) && inputs == old(inputs) && previews == old(previews))
    {
      var prompt := Trim(promptValue);
      if prompt == "" && uploadedImages.image1.None? && uploadedImages.image2.None? {
        chat := chat + [ErrorMessage(EmptySubmission)];
        return None;
      }
      if apiKey == "" {
        chat := chat + [ErrorMessage(MissingKey)];
        return None;
      }
      var parts := Deliver(prompt, reply);
      sent := Some(parts);
    }

    /** The part of `sendMessage` after the checks: log the message, send it, log the reply, clear the slots after a reply. */
    method Deliver(prompt: string, reply: HttpReply) returns (parts: seq<OutgoingPart>)
      modifies this`promptValue, this`chat, this`uploadedImages, this`inputs, this`previews
      ensures promptValue == "" && PartsLayout(old(uploadedImages), prompt, parts)
      ensures chat == old(chat) + [UserMessage(prompt, old(uploadedImages))] + [ReplyEntry(reply)]
      ensures reply.Ok? ==> uploadedImages == Pair(None, None) && inputs == Pair(None, None) && previews == Pair("", "")
      ensures !reply.Ok? ==> uploadedImages == old(uploadedImages) && inputs == old(inputs) && previews == old(previews)
    {
      promptValue := "";
      chat := chat + [UserMessage(prompt, uploadedImages)];
      parts := BuildParts(uploadedImages, prompt);
      match reply
      case Ok(body) =>
        chat := chat + [AIMessage(FormatAIResponse(ReplyText(body)))];
        RemoveImage(1);
        RemoveImage(2);
      case _ =>
        chat := chat + [ErrorMessage(FailureText(reply))];
    }
  }
}
