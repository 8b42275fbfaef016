# mcp-image-recognition-py in Dafny

This project models the decision logic of a small MCP server that exposes one tool,
`recognize_image`. The tool takes an image, an optional prompt and an optional model name.
It picks a backend from the model name and hands that backend the image in the form it
expects. Gemini gets a `(mime type, base64 data)` pair. An OpenAI-compatible endpoint
gets an image URL. The model also covers the image pre-processing helper, which opens
the bytes, flattens transparency to RGB, shrinks large images, re-encodes them as JPEG
and reports failures under one prefix.

Modules:

- `Wrappers`: `Option` and `Result`, used for every error path.
- `Text`: the Python `str` operations the server relies on, over `string`.
  - `isspace` covers the full Unicode white-space set.
  - `strip` and `replace(c, "")` delete characters.
  - `lower` covers ASCII only.
  - Also `in`, `split` and `split(',', 1)`. `Find` is the search for the next cut inside `split`, and `Join` is the inverse `split` is checked against.
- `ImageInput` has two parts:
  - `get_image_data`: prefix classification, URL fetch as a parameter, data-URI parsing, and raw base64 passed through as JPEG.
  - The cleaning and final-URL construction of `recognize_with_openai_compat`.
- `Routing`: the configuration read from the environment, and the `model or DEFAULT_MODEL` default. Then the case-insensitive `"gemini"` routing and the API-key checks. `recognize_image` is modelled up to the SDK call; the model returns what would be sent.
- `ImageProcessing`: `process_image_data`.
  - The RGB conversion predicate and the resize rule.
  - Truncation of the scaled edges.
  - JPEG at quality 85 and the error prefix.
  - PIL is a record of functions passed in.

## Model

| member | source | states |
|---|---|---|
| ImageInput.Classify | server.py:27-41 | An input is a URL exactly when it starts with `http://` or `https://`, and a data URI exactly when it starts with `data:`. Anything else, and only that, is raw base64. |
| ImageInput.PrefixesDisjoint | server.py:27-35 | No input starts with both a URL scheme and `data:`, so testing the URL prefix first changes nothing. |
| ImageInput.MimeOfHeader | server.py:37 | `header.split(';')[0].split(':')[1]` cannot fail on a header that starts with `data:`. It yields the text after `data:` up to the first `;`, the first `:` or the end. |
| ImageInput.ParseDataUri | server.py:35-38 | Without a comma, unpacking into two values fails with one value found. With one, the data is everything after the FIRST comma, later commas included. The mime is the one the header before that comma names. |
| ImageInput.DataUriParseUnique | server.py:36-37 | A data URI carries at most one (mime, data) pair, so the parse above is fully determined by the URI. |
| ImageInput.GetImageData | server.py:23-41 | URLs succeed exactly when the fetch does and return its value; a failed fetch is passed on as `FetchFailed` with the fetch's own error. Data URIs fail without a comma and otherwise carry the header's mime and the text after the first comma. Raw input is returned unchanged with mime `image/jpeg`. |
| ImageInput.DataUriRoundTrip | server.py:35-38 | Parsing `data:<mime>;base64,<data>` gives back exactly `mime` and `data`, for any data and any mime without `;`, `:` or `,`. |
| ImageInput.LeadingSpaceIsRaw | server.py:27-41 | Nothing is trimmed before classification, so input with leading white space is passed through whole as JPEG, even a URL. |
| ImageInput.PngDataUriExample | server.py:35-38 | `data:image/png;base64,AAAA` yields `("image/png", "AAAA")`. |
| ImageInput.NoCommaExample | server.py:36 | `data:image/png;base64` without a comma fails to unpack. |
| ImageInput.UrlAndRawExamples | server.py:27-41 | An `https://` input is a URL, and `AAAA` becomes `("image/jpeg", "AAAA")`. |
| ImageInput.Clean | server.py:80 | The cleaned input has no white space at either end and no LF, CR or SPACE anywhere. It is never longer than the input. |
| ImageInput.CleanIsFilter | server.py:80 | The three chained `replace` calls remove the set {LF, CR, SPACE} from the stripped input in one pass, keeping order. |
| ImageInput.CleanTidy | server.py:80 | Input already free of outer white space and of LF, CR and SPACE is left unchanged. |
| ImageInput.CleanIdempotent | server.py:80 | Cleaning twice is cleaning once. |
| ImageInput.CleanAfterStrip | server.py:80-86 | Stripping before cleaning changes nothing. |
| ImageInput.FinalImageUrl | server.py:79-92 | Cleaned again, the final URL is the cleaned input, behind the JPEG data-URI prefix when the cleaned input is neither a URL nor a data URI. |
| ImageInput.FinalImageUrlBranches | server.py:83-92 | The branch is chosen by the cleaned text. A URL is sent as the merely stripped original; a data URI is sent cleaned; anything else is sent as `data:image/jpeg;base64,` plus the cleaned text. |
| ImageInput.FinalImageUrlNeverRaw | server.py:83-92 | After cleaning, what is sent always reads as a URL or a data URI. |
| ImageInput.RawUrlReadsBack | server.py:35-92 | The JPEG data URI built for raw input parses back, through `get_image_data`, to `image/jpeg` and the cleaned input. |
| ImageInput.InnerSpaceSurvives | server.py:80-86 | The URL test runs on the cleaned text but the stripped original is sent. So a SPACE inside a URL survives, and `ht tp://x`, which only the cleaned text reads as a URL, is sent as is. Sent to the Gemini path, such text would be raw base64. |
| ImageInput.CleanOfSpacedUrl | server.py:80 | Cleaning deletes a single inner SPACE from otherwise tidy text. |
| Text.Trim | server.py:80 | `strip(chars)` cuts exactly the longest run of `chars` at each end. Everything cut at either end is in the set, what is left is the infix between the cuts, and it neither starts nor ends with a set member. |
| Text.Strip | server.py:80 | `strip()` leaves neither end in Python's white-space set and never lengthens. |
| Text.TrimIdempotent | server.py:80 | Stripping twice is stripping once. |
| Text.Delete | server.py:80 | `replace(c, "")` leaves no `c`, never lengthens, and keeps the first and last characters when they are not `c`. |
| Text.DeleteCounts | server.py:80 | Deletion keeps every other character as often as it occurs. |
| Text.DeleteAppend | server.py:80 | Deletion distributes over concatenation, so the survivors keep their order. |
| Text.Lower | server.py:130 | `lower()` maps each ASCII capital to its small letter and leaves every other character as it is. |
| Text.ContainsAt | server.py:130 | `p in s` holds exactly when some window of `s` equals `p`. |
| Text.Find | server.py:36-37 | The search inside `split` for its next cut is -1 exactly when `c` is absent. Otherwise it is the position of a `c` with no `c` before it. |
| Text.Split | server.py:37 | `split(sep)` gives at least one separator-free piece. The first piece is the prefix before the first separator, and there is a single piece exactly when there is no separator. |
| Text.SplitOnce | server.py:36 | `split(',', 1)` cuts once, at the first comma. There is one piece, the whole text, exactly when there is no comma; otherwise the pieces joined by a comma give the text back. |
| Text.SplitFirst | server.py:37 | A split makes its first cut at the first separator, and splits the rest the same way. |
| Text.SplitJoin | server.py:37 | Splitting a join of separator-free pieces gives the pieces back. |
| Routing.ConfigOf | server.py:15-18 | A set environment variable is used as is, even when empty. Unset `OPENAI_BASE_URL` and `DEFAULT_MODEL` fall back to `https://api.openai.com/v1` and `gemini-1.5-flash`. |
| Routing.TargetModel | server.py:127 | A model given and non-empty is used; an omitted or empty one is replaced by the default. |
| Routing.Route | server.py:130 | Gemini is chosen exactly when the model name spells `gemini` somewhere, in any mix of case; every other name goes to the OpenAI-compatible backend. |
| Routing.LowerContainsGemini | server.py:130 | `"gemini" in name.lower()` holds exactly when some six-character window of the name is `gemini` up to the case of its letters. |
| Routing.RouteIgnoresCase | server.py:130 | Routing does not depend on case. |
| Routing.NoGRoutesToOpenAi | server.py:130-138 | A name with no `g` in either case goes to the OpenAI-compatible backend. |
| Routing.GeminiPrefixRoutesToGemini | server.py:130 | A name starting with `gemini`, in any case, goes to Gemini. |
| Routing.DefaultConfigRoutesToGemini | server.py:18 | With `DEFAULT_MODEL` unset, a call without a model uses `gemini-1.5-flash` and goes to Gemini. |
| Routing.EmptyDefaultModelRoutesToOpenAi | server.py:127-130 | With `DEFAULT_MODEL` set to the empty string, a call without a model goes to the OpenAI-compatible backend. |
| Routing.GeminiNameExamples | server.py:125-130 | `gemini-1.5-pro` and `Gemini-Pro` go to Gemini. |
| Routing.OtherNameExamples | server.py:130-138 | `qwen-vl-max` and `yi-vision` go to the OpenAI-compatible backend. |
| Routing.MissingKeyMessage | server.py:44-45 | The message of a missing-key `ValueError` is the name of the variable followed by exactly ` is not set`; the same holds for `OPENAI_API_KEY` at server.py line 72. |
| Routing.RecognizeImage | server.py:127-138 | The call that reaches a backend carries the target model and the prompt, defaulting to `Describe this image`. The Gemini path succeeds exactly when the image can be read and `GEMINI_API_KEY` is truthy; an image error is raised before the key is looked at. The OpenAI-compatible path succeeds exactly when `OPENAI_API_KEY` is truthy; it sends the configured base URL and the final image URL. A missing key always fails with `MissingKey` and the message for the backend's own variable: `GEMINI_API_KEY is not set` (once the image has been read) or `OPENAI_API_KEY is not set`. |
| ImageProcessing.ConvertedMode | image_processing.py:16-17 | The mode changes, to `RGB`, exactly for `RGBA`, `LA`, and `P` with a `transparency` entry. |
| ImageProcessing.ConvertedModeCases | image_processing.py:16-17 | The result is `RGB` exactly for those three cases and `RGB` itself. Every mode other than `RGBA`, `LA` and `P` is kept, whatever `info` holds. |
| ImageProcessing.NeedsRgbModes | image_processing.py:16 | Only `RGBA`, `LA` and `P` are ever converted. `RGBA` and `LA` always are, `P` exactly when `info` has a `transparency` entry, and `info` matters for no other mode. |
| ImageProcessing.ConvertedShape | image_processing.py:16-17 | With a well-behaved PIL, the conversion step never fails, yields the mode `ConvertedMode` names and keeps the width and height. |
| ImageProcessing.ConvertedModeIdempotent | image_processing.py:16-17 | Converting twice is converting once, and a converted image never needs converting again. |
| ImageProcessing.TruncTowardZero | image_processing.py:23 | `int()` drops the fraction toward zero: the result is within one of the value, on the side of zero, and has its sign. |
| ImageProcessing.Ratio | image_processing.py:22 | The ratio is one of `max/width` and `max/height`, and no larger than either. |
| ImageProcessing.RatioBelowOne | image_processing.py:21-22 | When the rule shrinks, the ratio is below one. |
| ImageProcessing.DecideSize | image_processing.py:20-24 | An image is kept exactly when neither edge exceeds the limit. A zero edge on an image that needs shrinking fails with division by zero. A shrunk image has both edges within the limit and strictly below the originals, so nothing is ever scaled up. |
| ImageProcessing.Shrink | image_processing.py:22-23 | When an edge exceeds the limit and neither is zero, both truncated scaled edges are within the limit and strictly below the originals. |
| ImageProcessing.ShrinkExact | image_processing.py:20-23 | With a non-negative limit, the longer edge becomes exactly the limit and the shorter one `limit * short / long`, rounded down. |
| ImageProcessing.AspectKept | image_processing.py:22-23 | Both edges use one ratio, so `new_w : new_h` misses `w : h` by less than one unit of the shorter edge. |
| ImageProcessing.DefaultResizeExample | image_processing.py:20-23 | A 3000×2000 image under the default limit 1536 becomes 1536×1024. |
| ImageProcessing.Prepare | image_processing.py:14-24 | The steps run in order and stop at the first failure, which is passed on unchanged: open, convert, size check, resize. After conversion, a zero edge on an image that needs shrinking fails with division by zero. An image within the limit is handed on as converted, and a larger one as PIL resized it to the size the rule decided. |
| ImageProcessing.PrepareKeeps | image_processing.py:14-24 | An image that needs neither conversion nor shrinking reaches the encoder exactly as it was opened. |
| ImageProcessing.PrepareShape | image_processing.py:14-24 | With a well-behaved PIL, an image that opens reaches the encoder in the converted mode. Its size is the one the resize rule decided, whenever that size is positive. A shrunk size with a zero edge is refused by the resize. |
| ImageProcessing.PrepareWithinLimit | image_processing.py:14-24 | With a well-behaved PIL, whatever reaches the encoder is no larger than the image that was opened, and within the limit on both edges when the opened image exceeded it. |
| ImageProcessing.RgbaExample | image_processing.py:14-24 | An RGBA 3000×2000 image reaches the encoder as RGB 1536×1024. |
| ImageProcessing.ProcessImageData | image_processing.py:13-38 | Every failure message starts with `Failed to process image data: `. A failure before encoding is reported as the prefix plus the original message. Once the image is prepared, the call succeeds exactly when the JPEG save at quality 85 does: it then returns the base64 of that JPEG, and otherwise the prefix plus the save's message. |
| ImageProcessing.DefaultEncodesWithinLimit | image_processing.py:5-29 | Under the defaults and a well-behaved PIL, a success means the image was prepared, the JPEG save succeeded, no edge above 1536 pixels reached the encoder, and the value returned is the base64 of that JPEG. |
| ImageProcessing.FileSizeLimitIgnored | image_processing.py:5 | `max_file_size_mb` has no effect on the outcome. |
| ImageProcessing.ZeroEdgeFails | image_processing.py:20-38 | An image that opens with a zero edge, needs no conversion and exceeds the limit fails with the prefix plus `division by zero`. |
| ImageProcessing.ZeroWidthExample | image_processing.py:20-38 | An RGB 0×2000 image under the defaults fails with `Failed to process image data: division by zero`. |

## Left out

- The HTTP fetch of `get_image_data` (server.py:28-33) is a function parameter. The model does not cover the transport, `raise_for_status`, the content-type header lookup or the base64 of the body. Only their result, or their failure, is modelled.
- The SDK calls are not modelled: `genai` at server.py:47-68 and `AsyncOpenAI` at server.py:74-77 and 94-115. Neither are their answers and the `... API Error: ...` strings they are wrapped into. `RecognizeImage` returns the request a backend would receive instead.
- Environment loading, `.env` files, the FastMCP server object and `main` are left out. The configuration is a parameter, built by `ConfigOf` from the variables' values.
- PIL is the `Pil` record of functions. Decoding, mode conversion, LANCZOS resampling and JPEG encoding are not modelled. What PIL does with a zero or negative target size is left to `resize`; the well-behaved PIL that `PrepareShape`, `PrepareWithinLimit`, `DefaultEncodesWithinLimit` and `RgbaExample` assume refuses such sizes and converts without changing the size.
- ImageProcessing.Trunc: floats are idealised as exact reals before `int()` truncates toward zero. With IEEE doubles, `int(w * (max / w))` can come out one below `max` for some widths. So `ShrinkExact` and `DefaultResizeExample` state the exact-arithmetic result, not a bit-exact one.
- Text.Lower: only ASCII letters are lowered. Python's `lower()` also maps non-ASCII capitals, which could only matter for model names with non-ASCII letters.
- `async`/`await` are left out; every operation is a pure function.
- Two parts of `process_image_data` are not modelled:
  - The `with` block's closing of the image.
  - The fact that any exception at all is caught. The model knows only the failures that PIL or the division report.

## Notes on the code

- For the mime of a data URI, the code takes `header.split(';')[0].split(':')[1]`. That is the text after `data:` up to the first `;` or the next `:`, not simply up to the `;`. The model follows the code (`IsMimeOf`).
- `split(':')[1]` can raise `IndexError` on a header without `:`. The model keeps that error (`IndexOutOfRange`). It is unreachable, because the data-URI branch is only taken for input starting with `data:`.
