/**
 * How the side panel builds its request (sidepanel/index.js): each chosen file
 * becomes inline data (`fileToInlineData`, `readFileAsBase64`), and `runPrompt`
 * lists the trimmed prompt first and the images after it. A file's content is
 * given as the data URL a `FileReader` produces for it,
 * `data:[<mediatype>][;base64],<data>` (section 3 of RFC 2397).
 */
module SidePanelRequest {
  import opened Strings
  import opened SidePanelRender

  /** A chosen file: its name, type (possibly empty), size in bytes, and its content as a data URL. */
  datatype ImageFile = ImageFile(name: string, mimeType: string, size: nat, dataUrl: string)

  /** The `inlineData` sent for a file. */
  datatype InlineData = InlineData(mimeType: string, data: string)

  /** One part of the request. */
  datatype RequestPart = TextRequest(text: string) | InlineRequest(inlineData: InlineData)

  /** The `contents` of the request: the part list, or the prompt itself when there are no parts. */
  datatype Contents = Parts(parts: seq<RequestPart>) | RawPrompt(prompt: string)

  /** `readFileAsBase64`: everything after the first comma of the data URL, or all of it without a comma. */
  function ReadFileAsBase64(dataUrl: string): (payload: string)
    ensures ',' !in dataUrl ==> payload == dataUrl
    ensures ',' in dataUrl ==> |payload| < |dataUrl|
    ensures ',' in dataUrl ==>
      var header := dataUrl[..|dataUrl| - |payload| - 1];
      dataUrl == header + "," + payload && ',' !in header
  {
    var commaIndex := IndexOf(dataUrl, ',');
    if commaIndex >= 0 then
      assert dataUrl == dataUrl[..commaIndex] + "," + dataUrl[commaIndex + 1..];
      dataUrl[commaIndex + 1..]
    else dataUrl
  }

  /** `fileToInlineData`: the file's type, defaulted, and its base64 payload. */
  function FileToInlineData(f: ImageFile): (d: InlineData)
    ensures d.mimeType != ""
    ensures f.mimeType != "" ==> d.mimeType == f.mimeType
    ensures f.mimeType == "" ==> d.mimeType == OctetStream
    ensures d.data == ReadFileAsBase64(f.dataUrl)
  {
    InlineData(if f.mimeType != "" then f.mimeType else OctetStream, ReadFileAsBase64(f.dataUrl))
  }

  /**
   * Reading a data URL undoes writing one: a payload the side panel shows as
   * `data:<type>;base64,<payload>` comes back unchanged, with its type, when
   * that URL is read as a file of that type.
   */
  lemma {:induction false} DataUrlRoundTrip(name: string, mime: string, size: nat, payload: string)
    requires mime != "" && ',' !in mime
    ensures FileToInlineData(ImageFile(name, mime, size, ImageSource(mime, payload))) == InlineData(mime, payload)
  {
    var url := ImageSource(mime, payload);
    var header := "data:" + mime + ";base64";
    assert url == header + "," + payload;
    assert ',' !in header by {
      assert ',' !in "data:" && ',' !in ";base64";
      forall k | 0 <= k < |header| ensures header[k] != ',' {
        if k < 5 { assert header[k] == "data:"[k]; }
        else if k < 5 + |mime| { assert header[k] == mime[k - 5]; }
        else { assert header[k] == ";base64"[k - 5 - |mime|]; }
      }
    }
    assert ',' in url by { assert url[|header|] == ','; }
    var p := ReadFileAsBase64(url);
    var h := url[..|url| - |p| - 1];
    // both headers are comma-free prefixes ending just before a comma, so they coincide
    assert |h| == |header|;
    assert p == url[|header| + 1..] == payload;
  }

  /**
   * The part list of a request for `prompt` (already trimmed) and `files`: a
   * text part first exactly when the prompt is not empty, then one inline-data
   * part per file, in order, and no other text part.
   */
  predicate RequestLayout(prompt: string, files: seq<ImageFile>, parts: seq<RequestPart>) {
    && |parts| == |files| + (if prompt != "" then 1 else 0)
    && (prompt != "" ==> parts[0] == TextRequest(prompt))
    && (forall k :: 0 <= k < |files| ==> parts[|parts| - |files| + k] == InlineRequest(FileToInlineData(files[k])))
    && (forall k :: 0 <= k < |parts| && parts[k].TextRequest? ==> k == 0)
  }

  /** The request parts `runPrompt` assembles: the trimmed prompt if not blank, then the files' inline data. */
  method BuildRequestParts(prompt: string, imageFiles: seq<ImageFile>) returns (parts: seq<RequestPart>)
    ensures RequestLayout(Trim(prompt), imageFiles, parts)
  {
    var text := Trim(prompt);
    parts := [];
    if text != "" {
      parts := parts + [TextRequest(text)];
    }
    ghost var offset := |parts|;
    for i := 0 to |imageFiles|
      invariant offset == if text != "" then 1 else 0
      invariant |parts| == offset + i
      invariant offset == 1 ==> parts[0] == TextRequest(text)
      invariant forall k :: 0 <= k < i ==> parts[offset + k] == InlineRequest(FileToInlineData(imageFiles[k]))
    {
      var inlineData := FileToInlineData(imageFiles[i]);
      parts := parts + [InlineRequest(inlineData)];
    }
    forall k | offset <= k < |parts| ensures parts[k].InlineRequest? {
      assert parts[offset + (k - offset)] == InlineRequest(FileToInlineData(imageFiles[k - offset]));
    }
  }

  /** `contents: parts.length ? parts : prompt`. */
  function RequestContents(parts: seq<RequestPart>, prompt: string): (c: Contents)
    ensures c.Parts? <==> parts != []
    ensures c.Parts? ==> c.parts == parts
    ensures c.RawPrompt? ==> c.prompt == prompt
  {
    if |parts| > 0 then Parts(parts) else RawPrompt(prompt)
  }

  /**
   * The request `runPrompt` sends: the part list when it is not empty, and
   * otherwise the prompt as given, which happens exactly when the prompt is
   * blank and there are no images.
   */
  method RunPrompt(prompt: string, imageFiles: seq<ImageFile>) returns (contents: Contents)
    ensures contents.RawPrompt? <==> Trim(prompt) == "" && imageFiles == []
    ensures contents.RawPrompt? ==> contents.prompt == prompt
    ensures contents.Parts? ==> RequestLayout(Trim(prompt), imageFiles, contents.parts)
  {
    var parts := BuildRequestParts(prompt, imageFiles);
    contents := RequestContents(parts, prompt);
  }
}
