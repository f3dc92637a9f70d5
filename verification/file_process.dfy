/** `file.py`: turning a document (a local path or an http(s) URL) into the
    list of base64 page images sent to the extraction model.

    Everything the module delegates to a library is a field of `Env`: the
    download to a temporary file, reading a file, PIL's `verify`, the OpenCV
    enhancement filter, PyMuPDF's open and page rasterisation, base64, and
    whether `os.unlink` raises. */
module FileProcess {
  import opened Results
  import opened Text

  newtype byte = x: int | 0 <= x < 256

  type Bytes = seq<byte>

  // ---------------------------------------------------------------------
  // Text density (get_text_percentage)
  // ---------------------------------------------------------------------

  /** A PyMuPDF rectangle by its corners. */
  datatype Rect = Rect(x0: real, y0: real, x1: real, y1: real)

  /** `abs(rect)`: the area, zero for an empty rectangle. */
  function Area(r: Rect): (a: real)
    ensures a >= 0.0
    ensures a == 0.0 <==> r.x1 <= r.x0 || r.y1 <= r.y0
  {
    if r.x1 <= r.x0 || r.y1 <= r.y0 then 0.0 else (r.x1 - r.x0) * (r.y1 - r.y0)
  }

  /** One page: its rectangle, the rectangles of its text blocks
      (`page.get_text("blocks")`), and its drawing content, which only
      rendering reads. Pages with the same layout but different content
      are different pages. */
  datatype PdfPage = PdfPage(rect: Rect, textBlocks: seq<Rect>, content: Bytes)

  /** An opened PDF; `page_count` is the number of pages. */
  datatype PdfDoc = PdfDoc(pages: seq<PdfPage>)

  /** Sum of the areas of `blocks`, added in order. */
  function BlockArea(blocks: seq<Rect>): (a: real)
    ensures a >= 0.0
  {
    if |blocks| == 0 then 0.0
    else BlockArea(blocks[..|blocks| - 1]) + Area(blocks[|blocks| - 1])
  }

  /** `total_page_area` after the loop over `pages`. */
  function PageArea(pages: seq<PdfPage>): (a: real)
    ensures a >= 0.0
  {
    if |pages| == 0 then 0.0
    else PageArea(pages[..|pages| - 1]) + Area(pages[|pages| - 1].rect)
  }

  /** `total_text_area` after the loop over `pages`. */
  function TextArea(pages: seq<PdfPage>): (a: real)
    ensures a >= 0.0
  {
    if |pages| == 0 then 0.0
    else TextArea(pages[..|pages| - 1]) + BlockArea(pages[|pages| - 1].textBlocks)
  }

  /** `get_text_percentage`: text-block area over page area, or 0 when the
      pages have no area at all (in particular when there are no pages). */
  function TextPercentage(doc: PdfDoc): (ratio: real)
    ensures ratio >= 0.0
    ensures PageArea(doc.pages) == 0.0 ==> ratio == 0.0
    ensures PageArea(doc.pages) > 0.0 ==> ratio * PageArea(doc.pages) == TextArea(doc.pages)
  {
    var pageArea := PageArea(doc.pages);
    if pageArea != 0.0 then TextArea(doc.pages) / pageArea else 0.0
  }

  /** The ratio has no upper bound of 1: text blocks may overlap, and their
      areas are added without removing the overlap. */
  lemma OverlappingBlocksExceedOne()
    ensures TextPercentage(PdfDoc([PdfPage(Rect(0.0, 0.0, 1.0, 1.0),
                                           [Rect(0.0, 0.0, 1.0, 1.0), Rect(0.0, 0.0, 1.0, 1.0)], [])])) == 2.0
  {
    var blocks := [Rect(0.0, 0.0, 1.0, 1.0), Rect(0.0, 0.0, 1.0, 1.0)];
    assert BlockArea(blocks[..1]) == 1.0;
    assert BlockArea(blocks) == 2.0;
  }

  // ---------------------------------------------------------------------
  // Collaborators
  // ---------------------------------------------------------------------

  /** How `download_to_tempfile(url)` ends: with the path of the complete
      temporary copy, or with the exception it raised. A failure after
      `NamedTemporaryFile(delete=False)` created the file (in the write or
      the close) carries that file's path in `created`; a failure in the
      request or in `raise_for_status` carries none. */
  datatype Download = Downloaded(path: string) | DownloadFailed(error: Error, created: Option<string>)

  datatype Env = Env(
    /** `download_to_tempfile(url)` */
    download: string -> Download,
    /** `open(path, 'rb').read()` */
    readBytes: string -> Result<Bytes>,
    /** `Image.open(io.BytesIO(b)).verify()`: the exception it raises, if any. */
    verify: Bytes -> Option<Error>,
    /** `image_enhancement(b)` */
    enhance: Bytes -> Result<Bytes>,
    /** `fitz.open(path)` */
    openPdf: string -> Result<PdfDoc>,
    /** `doc.load_page(i).get_pixmap().tobytes("jpeg")`; it may read every
        field of the document, the pages' content included. */
    render: (PdfDoc, nat) -> Bytes,
    /** `base64.b64encode(b).decode('utf-8')` */
    b64: Bytes -> string,
    /** `os.unlink(path)` raises `OSError` */
    unlinkFails: string -> bool)

  // ---------------------------------------------------------------------
  // URL test and extension dispatch
  // ---------------------------------------------------------------------

  /** `file_path.lower().startswith(("http://", "https://"))` */
  predicate IsUrl(p: string) {
    var l := Lower(p);
    "http://" <= l || "https://" <= l
  }

  /** An http or https scheme, letters in either case, then "://". */
  ghost predicate HasHttpScheme(p: string) {
    && |p| >= 7
    && LowerChar(p[0]) == 'h' && LowerChar(p[1]) == 't'
    && LowerChar(p[2]) == 't' && LowerChar(p[3]) == 'p'
    && (|| (p[4] == ':' && p[5] == '/' && p[6] == '/')
        || (|p| >= 8 && LowerChar(p[4]) == 's' && p[5] == ':' && p[6] == '/' && p[7] == '/'))
  }

  lemma LowerCharKeepsPunctuation(c: char)
    ensures LowerChar(c) == ':' <==> c == ':'
    ensures LowerChar(c) == '/' <==> c == '/'
    ensures LowerChar(c) == '.' <==> c == '.'
  {
  }

  /** An input is taken for a URL exactly when it starts with "http://" or
      "https://", the scheme letters in any case. */
  lemma {:induction false} IsUrlIffHttpScheme(p: string)
    ensures IsUrl(p) <==> HasHttpScheme(p)
  {
    var l := Lower(p);
    if |p| >= 7 {
      LowerCharKeepsPunctuation(p[4]);
      LowerCharKeepsPunctuation(p[5]);
      LowerCharKeepsPunctuation(p[6]);
      assert "http://" <= l <==> l[..7] == "http://";
      assert l[..7] == "http://" <==> forall k :: 0 <= k < 7 ==> l[k] == "http://"[k];
    }
    if |p| >= 8 {
      LowerCharKeepsPunctuation(p[7]);
      assert "https://" <= l <==> l[..8] == "https://";
      assert l[..8] == "https://" <==> forall k :: 0 <= k < 8 ==> l[k] == "https://"[k];
    }
  }

  /** The kinds of input `extract_images_base64` tells apart. */
  datatype Kind = Image | Pdf | Unsupported

  /** The branch a lower-cased extension selects. */
  function KindOf(ext: string): Kind {
    if ext in {".jpg", ".jpeg", ".png"} then Image
    else if ext == ".pdf" then Pdf
    else Unsupported
  }

  /** `os.path.splitext(local_path)[1].lower()`: the extension dispatched on. */
  function DispatchExt(path: string): string {
    Lower(SplitExt(path).ext)
  }

  /** `IsExtDot` only looks at where '.' and '/' are. */
  lemma {:induction false} ExtDotIgnoresCase(p: string, q: string, d: int)
    requires Lower(p) == Lower(q)
    ensures IsExtDot(p, d) <==> IsExtDot(q, d)
  {
    assert |p| == |q|;
    forall k | 0 <= k < |p| ensures (p[k] == '.' <==> q[k] == '.') && (p[k] == '/' <==> q[k] == '/') {
      LowerCharKeepsPunctuation(p[k]);
      LowerCharKeepsPunctuation(q[k]);
      assert LowerChar(p[k]) == Lower(p)[k] == Lower(q)[k] == LowerChar(q[k]);
    }
    if IsExtDot(p, d) {
      var k :| 0 <= k < d && p[k] != '.' && p[k] != '/' && forall m :: k < m < d ==> p[m] != '/';
      assert q[k] != '.' && q[k] != '/' && forall m :: k < m < d ==> q[m] != '/';
    }
    if IsExtDot(q, d) {
      var k :| 0 <= k < d && q[k] != '.' && q[k] != '/' && forall m :: k < m < d ==> q[m] != '/';
      assert p[k] != '.' && p[k] != '/' && forall m :: k < m < d ==> p[m] != '/';
    }
  }

  /** At most one position starts an extension. */
  lemma ExtDotUnique(p: string, d1: int, d2: int)
    requires IsExtDot(p, d1) && IsExtDot(p, d2)
    ensures d1 == d2
  {
  }

  /** Lower-casing commutes with taking a suffix. */
  lemma LowerSuffix(p: string, d: int)
    requires 0 <= d <= |p|
    ensures Lower(p[d..]) == Lower(p)[d..]
  {
    assert forall k :: 0 <= k < |p| - d ==> Lower(p[d..])[k] == LowerChar(p[d + k]);
  }

  /** Inputs equal up to case have their extension at the same place. */
  lemma {:induction false} SplitExtIgnoresCase(p: string, q: string)
    requires Lower(p) == Lower(q)
    ensures |SplitExt(p).root| == |SplitExt(q).root|
    ensures SplitExt(p).ext == "" <==> SplitExt(q).ext == ""
  {
    var sp, sq := SplitExt(p), SplitExt(q);
    ExtDotIgnoresCase(p, q, |sp.root|);
    ExtDotIgnoresCase(p, q, |sq.root|);
    if sp.ext != "" && sq.ext != "" {
      ExtDotUnique(q, |sp.root|, |sq.root|);
    }
  }

  /** The extension is lower-cased before the dispatch, so the case of the
      path does not matter: `scan.PDF` and `scan.pdf` take the same branch. */
  lemma {:induction false} DispatchIgnoresCase(p: string, q: string)
    requires Lower(p) == Lower(q)
    ensures DispatchExt(p) == DispatchExt(q)
  {
    SplitExtIgnoresCase(p, q);
    var sp, sq := SplitExt(p), SplitExt(q);
    var d := |sp.root|;
    assert sp.ext == p[d..] && sq.ext == q[d..];
    LowerSuffix(p, d);
    LowerSuffix(q, d);
  }

  // ---------------------------------------------------------------------
  // The body of the `try` block
  // ---------------------------------------------------------------------

  /** The loop over `range(from, page_count)`: each page is rendered,
      checked with `verify` and base64-encoded, in page order; the first
      page that fails the check ends the loop with its exception. */
  function RenderPages(env: Env, doc: PdfDoc, from: nat): (r: Result<seq<string>>)
    requires from <= |doc.pages|
    decreases |doc.pages| - from
    ensures r.Ok? <==> forall i :: from <= i < |doc.pages| ==> env.verify(env.render(doc, i)).None?
    ensures r.Ok? ==> |r.value| == |doc.pages| - from
    ensures r.Ok? ==> forall i :: from <= i < |doc.pages| ==> r.value[i - from] == env.b64(env.render(doc, i))
  {
    if from == |doc.pages| then Ok([])
    else
      var img := env.render(doc, from);
      match env.verify(img)
      case Some(e) => Err(e)
      case None =>
        match RenderPages(env, doc, from + 1)
        case Err(e) => Err(e)
        case Ok(rest) =>
          var images := [env.b64(img)] + rest;
          assert forall k :: 1 <= k < |images| ==> images[k] == rest[k - 1];
          Ok(images)
  }

  /** A failed page loop raises the exception of the first page that fails
      `verify`. */
  lemma {:induction false} RenderPagesFirstFailure(env: Env, doc: PdfDoc, from: nat)
    requires from <= |doc.pages|
    requires RenderPages(env, doc, from).Err?
    decreases |doc.pages| - from
    ensures exists i :: && from <= i < |doc.pages|
                        && env.verify(env.render(doc, i)) == Some(RenderPages(env, doc, from).error)
                        && forall k :: from <= k < i ==> env.verify(env.render(doc, k)).None?
  {
    if env.verify(env.render(doc, from)).None? {
      RenderPagesFirstFailure(env, doc, from + 1);
      var i :| && from + 1 <= i < |doc.pages|
                && env.verify(env.render(doc, i)) == Some(RenderPages(env, doc, from + 1).error)
                && forall k :: from + 1 <= k < i ==> env.verify(env.render(doc, k)).None?;
      assert RenderPages(env, doc, from).error == RenderPages(env, doc, from + 1).error;
      assert forall k :: from <= k < i ==> env.verify(env.render(doc, k)).None?;
    } else {
      assert env.verify(env.render(doc, from)) == Some(RenderPages(env, doc, from).error);
    }
  }

  /** The two arms of `if text_perc < 0.5`, scanned and text-based; they run
      the same loop. */
  function PdfBranch(env: Env, doc: PdfDoc, textPerc: real): Result<seq<string>> {
    if textPerc < 0.5 then RenderPages(env, doc, 0) else RenderPages(env, doc, 0)
  }

  /** The '.pdf' arm. `get_text_percentage` and the following `fitz.open`
      open the same file, so one `openPdf` stands for both. The result is
      the page loop's, whatever the text density. */
  function ProcessPdf(env: Env, path: string): (r: Result<seq<string>>)
    ensures env.openPdf(path).Err? ==> r == Err(env.openPdf(path).error)
    ensures env.openPdf(path).Ok? ==> r == RenderPages(env, env.openPdf(path).value, 0)
  {
    match env.openPdf(path)
    case Err(e) => Err(e)
    case Ok(doc) =>
      var textPerc := TextPercentage(doc);
      PdfBranch(env, doc, textPerc)
  }

  /** The text density picks an arm but never changes the output. */
  lemma PdfOutputIgnoresTextDensity(env: Env, doc: PdfDoc, perc1: real, perc2: real)
    ensures PdfBranch(env, doc, perc1) == PdfBranch(env, doc, perc2)
  {
  }

  /** The image arm: read, verify, enhance, encode; one image results. */
  function ProcessImage(env: Env, path: string): (r: Result<seq<string>>)
    ensures r.Ok? <==> && env.readBytes(path).Ok?
                       && env.verify(env.readBytes(path).value).None?
                       && env.enhance(env.readBytes(path).value).Ok?
    ensures r.Ok? ==> r.value == [env.b64(env.enhance(env.readBytes(path).value).value)]
    ensures env.readBytes(path).Err? ==> r == Err(env.readBytes(path).error)
    ensures env.readBytes(path).Ok? && env.verify(env.readBytes(path).value).Some? ==>
              r == Err(env.verify(env.readBytes(path).value).value)
    ensures && env.readBytes(path).Ok? && env.verify(env.readBytes(path).value).None?
            && env.enhance(env.readBytes(path).value).Err? ==>
              r == Err(env.enhance(env.readBytes(path).value).error)
  {
    var bytes :- env.readBytes(path);
    match env.verify(bytes)
    case Some(e) => Err(e)
    case None =>
      var processed :- env.enhance(bytes);
      Ok([env.b64(processed)])
  }

  /** The `try` block on a local file: dispatch on the lower-cased
      extension. */
  function ProcessLocal(env: Env, path: string): (r: Result<seq<string>>)
    ensures KindOf(DispatchExt(path)) == Unsupported ==>
              r == Err(ValueError("Unsupported file type: '" + DispatchExt(path) + "'."))
    ensures KindOf(DispatchExt(path)) == Image ==> r == ProcessImage(env, path)
    ensures KindOf(DispatchExt(path)) == Pdf ==> r == ProcessPdf(env, path)
    ensures KindOf(DispatchExt(path)) == Image ==>
              (r.Ok? <==> && env.readBytes(path).Ok?
                          && env.verify(env.readBytes(path).value).None?
                          && env.enhance(env.readBytes(path).value).Ok?)
    ensures KindOf(DispatchExt(path)) == Pdf ==>
              (r.Ok? <==> && env.openPdf(path).Ok?
                          && forall i :: 0 <= i < |env.openPdf(path).value.pages| ==>
                               env.verify(env.render(env.openPdf(path).value, i)).None?)
    ensures r.Ok? && KindOf(DispatchExt(path)) == Image ==>
              && env.readBytes(path).Ok?
              && env.enhance(env.readBytes(path).value).Ok?
              && |r.value| == 1
              && r.value[0] == env.b64(env.enhance(env.readBytes(path).value).value)
    ensures r.Ok? && KindOf(DispatchExt(path)) == Pdf ==>
              && env.openPdf(path).Ok?
              && |r.value| == |env.openPdf(path).value.pages|
              && forall i :: 0 <= i < |r.value| ==>
                   r.value[i] == env.b64(env.render(env.openPdf(path).value, i))
  {
    var ext := DispatchExt(path);
    match KindOf(ext)
    case Image => ProcessImage(env, path)
    case Pdf => ProcessPdf(env, path)
    case Unsupported => Err(ValueError("Unsupported file type: '" + ext + "'."))
  }

  // ---------------------------------------------------------------------
  // extract_images_base64 and the temporary file
  // ---------------------------------------------------------------------

  /** The life of the temporary copy of a URL input: none for a local path,
      or when the download raised before creating it; live while the `try`
      block runs; then removed, or left behind when `os.unlink` raised
      `OSError`. A file created by a download that then raised is
      abandoned: `is_temp` is never set, so the `finally` block never sees
      it. */
  datatype TempFile = NoTemp | Live(path: string) | Removed(path: string) | Leaked(path: string) | Abandoned(path: string)

  /** The `finally` block: unlink a live temporary file, swallowing
      `OSError`. */
  function Cleanup(env: Env, t: TempFile): (t': TempFile)
    ensures !t'.Live?
    ensures t.Live? ==> t' == (if env.unlinkFails(t.path) then Leaked(t.path) else Removed(t.path))
    ensures !t.Live? ==> t' == t
  {
    match t
    case Live(p) => if env.unlinkFails(p) then Leaked(p) else Removed(p)
    case _ => t
  }

  /** What the call returns or raises, and the final state of the
      temporary file. */
  datatype Extraction = Extraction(images: Result<seq<string>>, temp: TempFile)

  /** `extract_images_base64(file_path)`. A URL is downloaded to a temporary
      file first (a failed download raises before the `try`, abandoning any
      file it had created); the file is then processed as a local path, and
      the downloaded copy is unlinked on every way out of the `try`. */
  function ExtractImagesBase64(env: Env, filePath: string): (x: Extraction)
    ensures !x.temp.Live?
    ensures x.temp.Removed? || x.temp.Leaked? <==> IsUrl(filePath) && env.download(filePath).Downloaded?
    ensures x.temp.Removed? || x.temp.Leaked? ==>
              && x.temp.path == env.download(filePath).path
              && (x.temp.Leaked? <==> env.unlinkFails(x.temp.path))
    ensures x.temp.Abandoned? <==>
              IsUrl(filePath) && env.download(filePath).DownloadFailed? && env.download(filePath).created.Some?
    ensures x.temp.Abandoned? ==> x.temp.path == env.download(filePath).created.value
    ensures !IsUrl(filePath) ==> x.images == ProcessLocal(env, filePath)
    ensures IsUrl(filePath) && env.download(filePath).DownloadFailed? ==>
              x.images == Err(env.download(filePath).error)
    ensures IsUrl(filePath) && env.download(filePath).Downloaded? ==>
              x.images == ProcessLocal(env, env.download(filePath).path)
  {
    if IsUrl(filePath) then
      match env.download(filePath)
      case DownloadFailed(e, created) =>
        Extraction(Err(e), if created.Some? then Abandoned(created.value) else NoTemp)
      case Downloaded(localPath) =>
        var images := ProcessLocal(env, localPath);
        Extraction(images, Cleanup(env, Live(localPath)))
    else
      var images := ProcessLocal(env, filePath);
      Extraction(images, Cleanup(env, NoTemp))
  }

  /** A temporary file stays on disk exactly when `os.unlink` raised on the
      downloaded copy, or the download raised after creating the file. */
  lemma TempFileLeftBehind(env: Env, filePath: string)
    ensures var t := ExtractImagesBase64(env, filePath).temp;
            (t.Leaked? || t.Abandoned?) <==>
              && IsUrl(filePath)
              && match env.download(filePath)
                 case Downloaded(p) => env.unlinkFails(p)
                 case DownloadFailed(_, created) => created.Some?
  {
  }

  /** The page loop reads only the rendering, `verify` and base64. */
  lemma {:induction false} RenderPagesUsesImagingOnly(env1: Env, env2: Env, doc: PdfDoc, from: nat)
    requires from <= |doc.pages|
    requires env1.verify == env2.verify && env1.render == env2.render && env1.b64 == env2.b64
    decreases |doc.pages| - from
    ensures RenderPages(env1, doc, from) == RenderPages(env2, doc, from)
  {
    if from < |doc.pages| {
      RenderPagesUsesImagingOnly(env1, env2, doc, from + 1);
    }
  }

  /** Processing a local file reads neither the download nor `os.unlink`. */
  lemma {:induction false} ProcessLocalUsesFilesOnly(env1: Env, env2: Env, path: string)
    requires env1.readBytes == env2.readBytes && env1.verify == env2.verify && env1.enhance == env2.enhance
    requires env1.openPdf == env2.openPdf && env1.render == env2.render && env1.b64 == env2.b64
    ensures ProcessLocal(env1, path) == ProcessLocal(env2, path)
  {
    assert ProcessImage(env1, path) == ProcessImage(env2, path);
    if env1.openPdf(path).Ok? {
      RenderPagesUsesImagingOnly(env1, env2, env1.openPdf(path).value, 0);
    }
    assert ProcessPdf(env1, path) == ProcessPdf(env2, path);
  }

  /** A failing `os.unlink` changes neither the images returned nor the
      exception raised. */
  lemma {:induction false} UnlinkFailureIsSwallowed(env: Env, filePath: string, unlinkFails: string -> bool)
    ensures ExtractImagesBase64(env.(unlinkFails := unlinkFails), filePath).images
         == ExtractImagesBase64(env, filePath).images
  {
    var env' := env.(unlinkFails := unlinkFails);
    assert env'.download == env.download;
    var local := if IsUrl(filePath) && env.download(filePath).Downloaded? then env.download(filePath).path else filePath;
    ProcessLocalUsesFilesOnly(env', env, local);
  }
}
