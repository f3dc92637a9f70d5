/** `llm.py`: `extractor_llm`, which checks its argument, turns the document
    into page images, sends one text part and one data URL per image to the
    vision model, and parses the JSON object out of the reply. The model
    call and `json.loads` are fields of `Services`; the instruction text is
    the `prompt` parameter. */
module Extractor {
  import opened Results
  import opened Text
  import opened JsonSpan
  import opened Json
  import FileProcess

  /** One element of `content_list`: `{"type": "text", ...}` or
      `{"type": "image_url", "image_url": {"url": ...}}`. */
  datatype ContentPart = TextPart(text: string) | ImageUrlPart(url: string)

  // ---------------------------------------------------------------------
  // MIME type
  // ---------------------------------------------------------------------

  /** `os.path.splitext(pdf_path)[1].lower().lstrip('.')` */
  function ImageExt(path: string): string {
    LStripChar(Lower(SplitExt(path).ext), '.')
  }

  /** `f"image/{'jpeg' if ext in ('jpg','jpeg') else ext}"`: `jpeg` for
      either JPEG spelling, the bare extension for anything else. */
  function MimeOf(ext: string): (m: string)
    ensures |m| >= 6 && m[..6] == "image/"
    ensures m[6..] == "jpeg" <==> ext in {"jpg", "jpeg"}
    ensures ext !in {"jpg", "jpeg"} ==> m[6..] == ext
  {
    "image/" + (if ext in {"jpg", "jpeg"} then "jpeg" else ext)
  }

  /** The MIME type `llm.py` puts in every data URL. */
  function MimeType(path: string): string {
    MimeOf(ImageExt(path))
  }

  /** The extension `llm.py` derives is the one `file.py` dispatches on,
      without its leading dot. */
  lemma {:induction false} ImageExtDropsDot(path: string)
    ensures FileProcess.DispatchExt(path) == "" ==> ImageExt(path) == ""
    ensures FileProcess.DispatchExt(path) != "" ==> ImageExt(path) == FileProcess.DispatchExt(path)[1..]
  {
    var parts := SplitExt(path);
    var e := FileProcess.DispatchExt(path);
    assert ImageExt(path) == LStripChar(e, '.');
    if e != "" {
      var d := |parts.root|;
      assert parts.ext == path[d..];
      FileProcess.LowerCharKeepsPunctuation(path[d]);
      assert e[0] == '.';
      if |e| >= 2 {
        FileProcess.LowerCharKeepsPunctuation(path[d + 1]);
        assert e[1] != '.';
      }
      assert LStripChar(e, '.') == LStripChar(e[1..], '.');
    }
  }

  /** The MIME type for a dispatched extension `dispatched` whose image
      extension is `ext`, the same text without its dot. */
  lemma {:induction false} MimeOfDispatched(dispatched: string, ext: string)
    requires dispatched != "" ==> ext == dispatched[1..]
    ensures dispatched in {".jpg", ".jpeg"} ==> MimeOf(ext) == "image/jpeg"
    ensures dispatched == ".png" ==> MimeOf(ext) == "image/png"
    ensures dispatched == ".pdf" ==> MimeOf(ext) == "image/pdf"
  {
    if dispatched == ".pdf" {
      assert ext == "pdf";
    } else if dispatched == ".png" {
      assert ext == "png";
    } else if dispatched == ".jpg" {
      assert ext == "jpg";
    } else if dispatched == ".jpeg" {
      assert ext == "jpeg";
    }
  }

  /** JPEG files give `image/jpeg`, PNG files `image/png`, and PDF files,
      whose pages were rendered to JPEG, still give `image/pdf`. */
  lemma {:induction false} MimeFollowsDispatchedExtension(path: string)
    ensures FileProcess.DispatchExt(path) in {".jpg", ".jpeg"} ==> MimeType(path) == "image/jpeg"
    ensures FileProcess.DispatchExt(path) == ".png" ==> MimeType(path) == "image/png"
    ensures FileProcess.DispatchExt(path) == ".pdf" ==> MimeType(path) == "image/pdf"
  {
    ImageExtDropsDot(path);
    MimeOfDispatched(FileProcess.DispatchExt(path), ImageExt(path));
  }

  // ---------------------------------------------------------------------
  // Content list
  // ---------------------------------------------------------------------

  const DataUrlScheme: string := "data:"
  const Base64Marker: string := ";base64,"

  /** `f"data:{mime};base64,{b64}"` */
  function DataUrl(mime: string, b64: string): string {
    DataUrlScheme + mime + Base64Marker + b64
  }

  /** The image parts appended by the loop over `base64_images`, one per
      image, in order. */
  function ImageParts(mime: string, images: seq<string>): (parts: seq<ContentPart>)
    ensures |parts| == |images|
    ensures forall i :: 0 <= i < |images| ==> parts[i] == ImageUrlPart(DataUrl(mime, images[i]))
  {
    if |images| == 0 then []
    else ImageParts(mime, images[..|images| - 1]) + [ImageUrlPart(DataUrl(mime, images[|images| - 1]))]
  }

  /** `content_list`: the instruction, then the images. */
  function BuildContent(prompt: string, mime: string, images: seq<string>): (c: seq<ContentPart>)
    ensures |c| == 1 + |images|
    ensures c[0] == TextPart(prompt)
    ensures forall i :: 0 <= i < |images| ==> c[i + 1] == ImageUrlPart(DataUrl(mime, images[i]))
  {
    [TextPart(prompt)] + ImageParts(mime, images)
  }

  /** The base64 payload of a data URL with the given MIME type. */
  function Payload(mime: string, part: ContentPart): Option<string> {
    var prefix := DataUrlScheme + mime + Base64Marker;
    match part
    case ImageUrlPart(url) => if prefix <= url then Some(url[|prefix|..]) else None
    case TextPart(_) => None
  }

  /** The payloads of the image parts of `parts`, in order. */
  function Payloads(mime: string, parts: seq<ContentPart>): seq<string> {
    if |parts| == 0 then []
    else
      var rest := Payloads(mime, parts[..|parts| - 1]);
      match Payload(mime, parts[|parts| - 1])
      case Some(p) => rest + [p]
      case None => rest
  }

  lemma PayloadOfDataUrl(mime: string, b64: string)
    ensures Payload(mime, ImageUrlPart(DataUrl(mime, b64))) == Some(b64)
  {
    var prefix := DataUrlScheme + mime + Base64Marker;
    assert DataUrl(mime, b64) == prefix + b64;
  }

  lemma {:induction false} PayloadsOfImageParts(mime: string, images: seq<string>)
    ensures Payloads(mime, ImageParts(mime, images)) == images
  {
    if |images| > 0 {
      var parts := ImageParts(mime, images);
      var n := |images| - 1;
      PayloadsOfImageParts(mime, images[..n]);
      PayloadOfDataUrl(mime, images[n]);
      assert parts[..n] == ImageParts(mime, images[..n]);
      assert images == images[..n] + [images[n]];
    }
  }

  /** The content list loses nothing: reading the data URLs back yields
      the images in their original order, and the instruction is not
      mistaken for an image. */
  lemma {:induction false} ContentCarriesImagesInOrder(prompt: string, mime: string, images: seq<string>)
    ensures Payloads(mime, BuildContent(prompt, mime, images)) == images
  {
    PayloadsOfImageParts(mime, images);
    PayloadsOfPrefixedText(prompt, mime, ImageParts(mime, images));
  }

  /** A leading text part contributes no payload. */
  lemma {:induction false} PayloadsOfPrefixedText(prompt: string, mime: string, parts: seq<ContentPart>)
    ensures Payloads(mime, [TextPart(prompt)] + parts) == Payloads(mime, parts)
  {
    if |parts| > 0 {
      var n := |parts| - 1;
      PayloadsOfPrefixedText(prompt, mime, parts[..n]);
      assert ([TextPart(prompt)] + parts)[..n + 1] == [TextPart(prompt)] + parts[..n];
    }
  }

  // ---------------------------------------------------------------------
  // extractor_llm
  // ---------------------------------------------------------------------

  datatype Services = Services(
    /** The file-processing collaborators of `extract_images_base64`. */
    files: FileProcess.Env,
    /** `os.path.exists(path)` */
    pathExists: string -> bool,
    /** `llm.invoke([HumanMessage(content=...)]).content`, or what it raises. */
    invoke: seq<ContentPart> -> Result<string>,
    /** `json.loads(text)` on a text that starts with '{': a dict, or the
        `JSONDecodeError` it raises. */
    parseJson: string -> Result<JsonObject>)

  /** The steps before the model call: the argument checks, the page
      images, and the content list. */
  function Request(svc: Services, prompt: string, paths: seq<string>): (r: Result<seq<ContentPart>>)
    ensures |paths| != 1 ==> r == Err(ValueError("Exactly one PDF path should be provided."))
    ensures |paths| == 1 && !svc.pathExists(paths[0]) ==>
              r == Err(FileNotFoundError("PDF not found: " + paths[0]))
    ensures |paths| == 1 && svc.pathExists(paths[0]) ==>
              var images := FileProcess.ExtractImagesBase64(svc.files, paths[0]).images;
              && (images.Err? ==> r == Err(images.error))
              && (images == Ok([]) ==> r == Err(ValueError("No images found in the provided PDF.")))
              && (images.Ok? && |images.value| > 0 ==>
                    r == Ok(BuildContent(prompt, MimeType(paths[0]), images.value)))
    ensures r.Ok? ==>
              && |paths| == 1 && svc.pathExists(paths[0])
              && var images := FileProcess.ExtractImagesBase64(svc.files, paths[0]).images;
              && images.Ok? && |images.value| > 0
              && r.value == BuildContent(prompt, MimeType(paths[0]), images.value)
  {
    if |paths| != 1 then Err(ValueError("Exactly one PDF path should be provided."))
    else
      var pdfPath := paths[0];
      if !svc.pathExists(pdfPath) then Err(FileNotFoundError("PDF not found: " + pdfPath))
      else
        match FileProcess.ExtractImagesBase64(svc.files, pdfPath).images
        case Err(e) => Err(e)
        case Ok(images) =>
          if |images| == 0 then Err(ValueError("No images found in the provided PDF."))
          else Ok(BuildContent(prompt, MimeType(pdfPath), images))
  }

  /** The steps after the model call: strip the reply, take the span from
      its first '{' to its last '}', and parse that. A reply without a span
      raises `ValueError` carrying the stripped reply; a parse error is
      re-raised unchanged. */
  function ParseReply(parseJson: string -> Result<JsonObject>, reply: string): (r: Result<JsonObject>)
    ensures SearchJson(reply).None? ==>
              r == Err(ValueError("No JSON object found in model response:\n" + Strip(reply)))
    ensures SearchJson(reply).Some? ==> r == parseJson(SearchJson(reply).value)
  {
    var raw := Strip(reply);
    SearchJsonAfterStrip(reply);
    match SearchJson(raw)
    case None => Err(ValueError("No JSON object found in model response:\n" + raw))
    case Some(span) => parseJson(span)
  }

  /** `extractor_llm(image_paths)`. */
  function ExtractorLlm(svc: Services, prompt: string, paths: seq<string>): (r: Result<JsonObject>)
    ensures |paths| != 1 ==> r == Err(ValueError("Exactly one PDF path should be provided."))
    ensures Request(svc, prompt, paths).Err? ==> r == Err(Request(svc, prompt, paths).error)
    ensures Request(svc, prompt, paths).Ok? ==>
              var reply := svc.invoke(Request(svc, prompt, paths).value);
              && (reply.Err? ==> r == Err(reply.error))
              && (reply.Ok? ==> r == ParseReply(svc.parseJson, reply.value))
              && (reply.Ok? && SearchJson(reply.value).None? ==>
                    r == Err(ValueError("No JSON object found in model response:\n" + Strip(reply.value))))
    ensures r.Ok? ==>
              && Request(svc, prompt, paths).Ok?
              && var reply := svc.invoke(Request(svc, prompt, paths).value);
              && reply.Ok?
              && SearchJson(reply.value).Some?
              && svc.parseJson(SearchJson(reply.value).value) == Ok(r.value)
  {
    var content :- Request(svc, prompt, paths);
    var reply :- svc.invoke(content);
    ParseReply(svc.parseJson, reply)
  }
}
