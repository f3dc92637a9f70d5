# OCR invoice pipeline — a Dafny model of its decision layer

The repository turns an invoice (an image, a PDF, or an http(s) URL of
either) into base64 page images. It sends those images to a vision model
that is asked for a JSON record. A second text model then judges that
record against a rules file and returns a three-key verdict. Most of the
code is glue around OpenAI, OpenCV, PyMuPDF and PIL. This project models
the pure layer inside that glue, together with its error conditions:

- `file.py` — `extract_images_base64`. It tests whether the input is a URL
  and lower-cases the extension before dispatching on it. An image gives
  one enhanced image; a PDF gives one image per page; any other extension
  raises. A downloaded temporary copy is unlinked in the `finally` block.
  The text-density ratio of `get_text_percentage` only selects between two
  identical branches.
- `llm.py` — `extractor_llm`. It has three guards: exactly one path, the
  path exists, and the image list is non-empty. It derives the MIME type
  from the extension and builds the content list: one text part, then one
  `data:` URL per image. It strips the reply and takes the span of the
  greedy search `(\{[\s\S]*\})` before handing it to `json.loads`.
- `validation.py` — `validator_llm`. It loads and strips the rules file,
  builds the prompt, and runs the same span search on the reply. A decode
  error is wrapped in a `ValueError`. The result is projected onto
  `Product description`, `purchase_date` and `quantity`, in that order;
  each value is stringified and stripped.

The modules follow the program:

| module | file | contents |
|---|---|---|
| `Results` | `results.dfy` | `Option`, `Result`, and the Python exceptions that are raised (`ValueError`, `FileNotFoundError`, `JSONDecodeError`, anything a library raises) |
| `Text` | `text.dfy` | the `str` operations the code uses: `strip()` with Python's `isspace` set, `lower()`, `lstrip('.')`, first/last index, `os.path.splitext` as `posixpath` defines it |
| `JsonSpan` | `json_span.dfy` | the regular-expression search shared by both model replies, with the leftmost-longest match as its reference definition |
| `Json` | `json.dfy` | the values `json.loads` yields (ints and floats apart) and Python's `str()` of them, dict order aside |
| `FileProcess` | `file_process.dfy` | `file.py` |
| `Extractor` | `extractor.dfy` | `llm.py` |
| `Validator` | `validator.dfy` | `validation.py` |

Collaborators are fields of an `Env` or `Services` datatype, holding
uninterpreted functions. They are:

- the download;
- file reads and `os.path.exists`;
- PIL's `verify`;
- the OpenCV enhancement filter;
- PyMuPDF's open and page rendering;
- base64;
- whether `os.unlink` raises;
- the two model calls;
- `json.loads` and `json.dumps`;
- Python's `repr`.

A raised exception is an `Err` value. Each model reply is an arbitrary
string.

Facts about the code that the model makes explicit:

- The text ratio has no upper bound of 1. Text-block areas are summed
  without removing overlaps, so two overlapping blocks on a unit page give
  2 (`FileProcess.OverlappingBlocksExceedOne`).
- The reply span is not necessarily one JSON object. The greedy pattern
  takes everything from the first `{` to the last `}`, which can cover two
  objects and the prose between them (`JsonSpan.SearchJsonSpansTwoObjects`).
- The verdict values are not the reply's values verbatim. Each is passed
  through `str()` and `strip()`, so a JSON `true` becomes `True`
  (`Validator.VerdictValuesAreNotChecked`).
- `llm.py:9` imports `extract_images_as_base64` from `file_process`, while
  the function `file.py` defines is `extract_images_base64`. The model
  takes the `file.py` function as the callee.

## Model

| member | source | states |
|---|---|---|
| Text.Strip | validation.py:23 | the result is the slice of the input between its leading and trailing whitespace (Python's `isspace` set), whose ends are not whitespace; it is empty exactly when the input is all whitespace |
| Text.StripKeepsUnspaced | validation.py:70 | a non-empty text that neither starts nor ends with whitespace is its own `strip()` |
| Text.SplitExt | file.py:68 | root + extension is the path; a non-empty extension starts at the one dot that is the last dot of the last path component and is preceded in that component by a non-dot; an empty extension means no position qualifies |
| Text.ExtDotIsLastDot | file.py:68 | a position starts the extension exactly when it is the last '.', lies in the last component, and is preceded there by something other than dots |
| JsonSpan.FindSpan | llm.py:129 | bounds are returned exactly when some '{' has a '}' after it; they are the leftmost start and the longest match from that start, as `re.search` with a greedy `*` reports |
| JsonSpan.SearchJson | llm.py:129-131 | a span exists exactly when some '{' is followed by a '}'; it is the slice of the input `re.search` reports, starts with '{' and ends with '}' |
| JsonSpan.SearchResultUnique | llm.py:129 | the leftmost-longest match is unique |
| JsonSpan.SearchJsonIgnoresBracelessPadding | llm.py:129 | text without braces around a slice does not move the match |
| JsonSpan.SearchJsonAfterStrip | llm.py:123-129 | searching the stripped reply finds the same span as searching the raw reply |
| JsonSpan.SearchJsonSkipsProse | llm.py:129 | brace-free prose before and after a brace-delimited text leaves exactly that text |
| JsonSpan.SearchJsonSpansTwoObjects | llm.py:129 | two objects in one reply give the span from the first '{' to the last '}', prose included |
| JsonSpan.SearchJsonNeedsCloseAfterOpen | llm.py:129-131 | an illustration on one input: a `}` only before the `{` gives no match |
| FileProcess.Area | file.py:33-36 | the area of a rectangle is non-negative and zero exactly for an empty rectangle |
| FileProcess.TextPercentage | file.py:27-40 | the ratio is non-negative; it is 0 when the total page area is 0 (no pages included); otherwise ratio times page area is the total text-block area |
| FileProcess.OverlappingBlocksExceedOne | file.py:32-38 | two overlapping blocks covering a unit page give ratio 2, so there is no upper bound of 1 |
| FileProcess.IsUrlIffHttpScheme | file.py:62 | the input counts as a URL exactly when it starts with http:// or https://, scheme letters in any case |
| FileProcess.DispatchIgnoresCase | file.py:68-69 | paths equal up to case dispatch on the same extension |
| FileProcess.RenderPages | file.py:89-95 | the page loop succeeds exactly when every page passes `verify`; it then yields one base64 image per page, image i rendered from page i, in page order |
| FileProcess.RenderPagesFirstFailure | file.py:89-95 | a failed page loop raises the exception of the first page that fails `verify`, every earlier page having passed |
| FileProcess.ProcessPdf | file.py:82-108 | an open failure propagates; otherwise the result is the page loop over all pages |
| FileProcess.PdfOutputIgnoresTextDensity | file.py:86-105 | the two arms of `text_perc < 0.5` give the same result for every ratio |
| FileProcess.ProcessImage | file.py:73-80 | success exactly when the read, `verify` and enhancement succeed, the result then being the one base64 of the enhanced bytes; otherwise the exception is that of the first failing step |
| FileProcess.ProcessLocal | file.py:68-111 | an extension other than .jpg/.jpeg/.png/.pdf raises `ValueError` naming it; an image extension succeeds exactly when read, `verify` and enhancement do, giving one element; a .pdf succeeds exactly when it opens and every page passes `verify`, giving page-count elements, element i rendered from page i |
| FileProcess.Cleanup | file.py:113-119 | a live temporary file ends removed, or left behind when unlink raises; no other state changes |
| FileProcess.ExtractImagesBase64 | file.py:60-121 | the downloaded copy of a URL is never left live: it is removed, or left behind exactly when unlink raised; a download that raised after creating its file abandons that file, since the `finally` block never sees it; the images are those of the local path or of the downloaded copy; a failed download raises its own error |
| FileProcess.TempFileLeftBehind | file.py:60-121 | a temporary file stays on disk exactly when unlink raised on the downloaded copy, or the download raised after creating the file |
| FileProcess.ProcessLocalUsesFilesOnly | file.py:68-111 | the body of the `try` block reads the file, PIL, the enhancement, PyMuPDF and base64, and nothing else: two environments agreeing on those give the same result |
| FileProcess.UnlinkFailureIsSwallowed | file.py:113-121 | whether unlink raises changes neither the images returned nor the error raised |
| Extractor.MimeOf | llm.py:113 | the MIME type is `image/` followed by `jpeg` exactly for the extensions jpg and jpeg, and by the bare extension otherwise |
| Extractor.ImageExtDropsDot | llm.py:112 | the extension used for the MIME type is the dispatched extension without its dot |
| Extractor.MimeOfDispatched | llm.py:112-113 | for a dispatched extension and the same text without its dot: .jpg and .jpeg give image/jpeg, .png image/png, .pdf image/pdf |
| Extractor.MimeFollowsDispatchedExtension | llm.py:112-113 | .jpg and .jpeg give image/jpeg, .png gives image/png, and .pdf gives image/pdf |
| Extractor.BuildContent | llm.py:111-116 | the content list has 1 + N parts: the prompt, then the data URL of image i at position i + 1 |
| Extractor.ContentCarriesImagesInOrder | llm.py:111-116 | reading the base64 payloads back from the content list gives the images in their original order |
| Extractor.Request | llm.py:46-116 | not exactly one path, a missing path, a failed extraction and an empty image list each raise their own error; one existing path with at least one image gives the content list built from those images, and only then is there success |
| Extractor.ParseReply | llm.py:123-139 | a reply without a span raises `ValueError` carrying the stripped reply; otherwise the result is `json.loads` of the span, errors passing through |
| Extractor.ExtractorLlm | llm.py:46-139 | not exactly one path raises `ValueError`; a request error or a model error passes through; a reply without a span raises `ValueError` with the stripped reply; otherwise the result is the parse of the span, and success means all of these stages succeeded |
| Validator.LoadGuidelines | validation.py:20-25 | a missing file raises `FileNotFoundError` naming it; a read error propagates; an all-whitespace file raises `ValueError`; otherwise the result is the stripped text, non-empty with non-space ends |
| Validator.ParseVerdictReply | validation.py:52-62 | no span raises `ValueError` with the stripped reply; a decode error becomes a `ValueError` carrying the span; other errors pass through; a span that parses is returned as parsed |
| Validator.ProjectKeys | validation.py:66-72 | the loop completes exactly when every key is present; it then yields (key, converted value) for each key, in the order given |
| Validator.ProjectKeysStopsAtFirstMissing | validation.py:67-69 | an incomplete loop stops at the first key, in the order given, that the reply lacks, every earlier key being present |
| Validator.Normalize | validation.py:65-73 | success exactly when all three keys are present; the verdict is then the three keys in fixed order with their stripped values; the first missing key in that order is the one the `ValueError` names |
| Validator.ExtraKeysAreDropped | validation.py:65-72 | adding a key other than the three leaves the verdict unchanged |
| Validator.VerdictValuesAreNotChecked | validation.py:70-72 | a stripped string value is kept as is, and JSON booleans become `True`/`False`; no pattern is enforced |
| Validator.StrOfPlainValues | validation.py:70 | `str(v).strip()` of a stripped string is the string, and of a JSON boolean is `True` or `False` |
| Validator.ModelReply | validation.py:18-52 | a rules-file error propagates; otherwise the reply is the model's answer to the prompt built from the stripped rules and the serialised record |
| Validator.ValidatorLlm | validation.py:18-73 | a rules-file or model error propagates; a reply without a span raises `ValueError` with the stripped reply; a parse error passes through; otherwise the result is the three-key projection of the parsed reply, with its first-missing-key `ValueError` |

## Left out

- `image_enhancement` (file.py:42-58): OpenCV pixel filtering. It is the opaque `enhance` field.
- `download_to_tempfile` (file.py:15-25): network and file-system I/O. It is the `download` field, which reports either the path of the complete copy or the exception together with the file `NamedTemporaryFile` had already created, if any (file.py:21-23). The temporary file's name and suffix are not modelled.
- PyMuPDF and PIL: opening a PDF, `page.rect`, `get_text("blocks")`, rendering a page to JPEG, and `Image.verify`. A PDF is a list of pages, each with its rectangle, its text-block rectangles and opaque drawing content; rendering is an uninterpreted total function of the document and page index, and `verify` returns an optional error. `get_text_percentage` and the second `fitz.open` are one `openPdf`, because they open the same file. The `close` calls are not modelled.
- FileProcess.TextPercentage: the ratio is computed on reals, not on floating point, so rounding is not modelled.
- FileProcess.Area: infinite rectangles and PyMuPDF's normalisation of inverted rectangles are not modelled; an inverted rectangle is taken as empty.
- Text.SplitExt: POSIX only. Only '/' separates path components; the Windows separator '\\' and drive letters of `ntpath` are not modelled.
- Text.Lower: lower-cases ASCII letters only, not all of Unicode. This is exact for the comparisons against `http://`, `https://`, `.jpg`, `.jpeg`, `.png` and `.pdf`. For other extensions it may differ in the MIME text and the error message.
- The two model calls (llm.py:118-127, validation.py:50-52): external services. They are the `invoke` fields, and each reply is an arbitrary string.
- `json.loads`, `json.dumps`, base64 and Python's `repr`: library code. They are passed in as functions.
- Dict insertion order: a parsed object is a map, so the insertion order of a Python dict is not represented. Two replies that differ only in key order are the same value here, although Python tells them apart wherever the dict is printed or handed on: the dict in the missing-key message (validation.py:69), a verdict value that is itself an object, printed by `str(...)` (validation.py:70), the `json.dumps` of the record in the prompt (validation.py:28), and the dict `extractor_llm` returns (llm.py:134-136).
- Json.JFloat: NaN, ±Infinity and -0.0, which `json.loads` accepts (`NaN`, `Infinity`, `-Infinity`, an overflowing literal such as `1e400`, and `-0.0`), are not representable; `JFloat` holds a finite real.
- The prompt texts and the schema literal (llm.py:18-44, llm.py:58-109, validation.py:29-47): fixed strings. The extraction prompt is a parameter. The validation prompt keeps only its structure (instructions, rules, serialised record).
- Logging, `print`, `load_dotenv` and the module-level clients: side effects and configuration with no bearing on results.
- `main.py`: the FastAPI endpoint and its download are asynchronous glue around the modelled functions. main.py is not part of this model.
