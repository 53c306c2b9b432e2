# PaddleOCR front ends — a Dafny model of their deterministic core

The repository puts a PaddleOCR engine behind two front ends: a chat-bot
slash command `runocr` (`discord_bot.py`) and a small HTTP service with
`POST /ocr` and `GET /ocr-demo` (`app.py`). Around the calls into PaddleOCR,
PIL, aiohttp, Discord and Flask sits a small amount of logic. This project
models that logic in Dafny and proves its properties:

- **Crop region** (`Crop`). The bot crops every image to the fixed rectangle
  `(576, 100, 1068, height)`, with each coordinate clamped into the image. It
  saves the crop under a path made by three `str.replace` calls and falls back
  to the original path if opening or saving fails.
- **Engine output** (`Engine`). The engine's nested, unchecked return value is
  a tagged `RawLine`: `NoneLine | EmptyLine | Short | Full | Malformed`. It
  sits inside the `result` / `result[0]` truthiness tests. A recognised line
  is an `OcrLine`. The full text is the single-space join of the line texts.
- **Bot OCR step** (`BotOcr`). `perform_ocr_on_file` skips falsy and short
  entries. It stops at the first entry whose `line[1]` cannot be read, joins
  the texts and removes the cropped copy.
- **Bot command** (`BotCommand`). `runocr` covers the extension allow-list,
  the scan of the last 50 messages (attachments before embeds, embed image
  before thumbnail), the "no text" case, 4000-character truncation with its
  marker, and the stats field. That field is present only when there are
  lines, so the mean never divides by zero.
- **HTTP handlers** (`Api`). `perform_ocr` checks `image_path` first, then
  `image_base64`, and otherwise answers 400. A missing file gives 404 and
  every exception gives 500. No entry is filtered. `ocr_demo` reports the
  same texts under `full_text` and without boxes.

`Text` holds the Python string operations the core uses (`" ".join`,
`strip`, `lower`, `endswith`, `replace`), with their own lemmas. `Wrappers`
holds `Option` and `Result`.

Foreign calls are parameters. The engine's answer for the image a request
names is an `EngineCall` (`Raised(message)` or `Returned(output)`). Other
inputs are:

- PIL's decoded size (`Option<ImageSize>`, `None` when `Image.open` fails)
  and whether the crop was saved (`bool`);
- the download outcome (`string -> Download`);
- the base64 materialisation outcome (`string -> Upload`);
- the set of paths `os.path.exists` accepts;
- the channel history (`Option<seq<Message>>`, `None` when reading it
  raises).

Each run also returns the temporary files it created and removed, so that
cleanup can be stated.

Facts about the code that the model keeps:

- Display truncation is at 4000 characters, counted in code points.
- Entries of an unexpected shape are not all skipped. The bot skips only
  falsy entries and entries with fewer than two elements, and fails the whole
  call when `line[1]` cannot be read. The HTTP handlers skip nothing and
  answer 500.
- Temporary files are not removed on every exit path. The bot's cropped
  copy stays behind when OCR fails (see Findings). The HTTP handler's upload
  `/tmp/temp_image.png` stays behind when the engine raises, because the
  `os.remove` at `app.py:64` is skipped; the model records that file as
  created and not removed.
- A path holding none of `.png`, `.jpg` and `.jpeg` (say `/tmp/shot.PNG`)
  derives to itself, so a successful crop is saved over the input file. Each
  bot run records such a file as `overwritten`.
- The comment at `discord_bot.py:88` assumes a width of 1720. The clamp
  works for any width, and the model proves its properties for all sizes.

## Model

| member | source | states |
|---|---|---|
| `Text.SpaceJoin` | discord_bot.py:139 | `" ".join`: empty for no parts; otherwise its length is the parts' total length plus one separator between each pair of neighbours |
| `Text.SpaceJoinEmptyIff` | discord_bot.py:139 | the joined text is `""` exactly when there are no parts or a single empty part |
| `Text.SplitJoinRoundTrip` | app.py:81 | splitting the joined text on spaces gives back the parts when no part contains a space, so the join loses nothing else |
| `Text.StripEmptyIff` | discord_bot.py:221 | `not s.strip()` holds exactly when every character is Python whitespace |
| `Text.SpaceJoinBlankIff` | discord_bot.py:221 | the joined text is blank exactly when every part is blank |
| `Text.Lower` | discord_bot.py:192 | `lower()` keeps the length and lowers each ASCII letter in place |
| `Text.LowerIdempotent` | discord_bot.py:192 | lowering twice is lowering once |
| `Text.EndsWithDotIff` | discord_bot.py:192 | for a dot-free `e`, ending with `"." + e` is the same as `e` being the text after the last dot |
| `Text.ReplaceAllAfterStem` | discord_bot.py:104 | `replace` leaves alone a prefix that holds no occurrence, when no occurrence can straddle its end |
| `Text.ReplaceAllGrows` | discord_bot.py:104 | a `replace` by a longer string never shortens, lengthens as soon as the pattern occurs, and returns the input unchanged when it does not occur |
| `Text.ReplaceAllUnchangedIff` | discord_bot.py:104 | such a `replace` leaves the string equal to the input exactly when the pattern does not occur |
| `Engine.FirstPage` | discord_bot.py:127 | the lines iterated are those of `result[0]` when it is present; there are none when `result` is `None`, empty, or its first element is `None` |
| `Engine.LineFault` | app.py:71-76 | reading `line[1][0]` and `float(line[1][1])` raises exactly on entries that are not `[bbox, (text, confidence)]`, with Python's message for `None` and for too-short lists |
| `Engine.FullTextEmptyIff` | discord_bot.py:139 | the full text is `""` exactly when there are no lines or one line with empty text |
| `Engine.FullTextBlankIff` | discord_bot.py:221 | the full text strips to `""` exactly when every line's text is blank |
| `Crop.Clamp` | discord_bot.py:95-98 | `max(0, min(v, bound))` lies in `[0, bound]`; it is `0` below the range, `bound` above it, and `v` inside it |
| `Crop.TargetRegion` | discord_bot.py:86-98 | `0 <= start_x <= end_x <= width` and `0 <= start_y <= end_y <= height`; `end_y` is the height; the region covers exactly the image pixels inside the nominal rectangle; it is `(576, 100, 1068, h)` when `w >= 1068` and `h >= 100`; both y edges are `h` when `h <= 100`, both x edges are `w` when `w <= 576`, and `end_x` is `w` when `576 < w < 1068` |
| `Crop.TargetRegionEmptyIff` | discord_bot.py:89-98 | the region has zero area exactly when `w <= 576` or `h <= 100` |
| `Crop.CroppedPathUnchangedIff` | discord_bot.py:104 | the derived path equals the input exactly when it contains none of `.png`, `.jpg`, `.jpeg`; otherwise it is strictly longer |
| `Crop.CroppedPathOfPng` | discord_bot.py:104 | for a stem free of the three substrings, `stem.png` derives to `stem_cropped.png` |
| `Crop.CroppedPathOfJpg` | discord_bot.py:104 | for such a stem, `stem.jpg` derives to `stem_cropped.jpg` |
| `Crop.CroppedPathOfJpeg` | discord_bot.py:104 | for such a stem, `stem.jpeg` derives to `stem_cropped.jpg`, the shorter extension |
| `Crop.CropImageToTargetRegion` | discord_bot.py:81-113 | the crop is saved exactly when the image opened and the save succeeded, and then holds `TargetRegion` under the derived path; on any failure the original path comes back; the returned path differs from the input exactly when the crop was saved and the input has a croppable extension; the crop is saved over the input exactly when it was saved and the input has none |
| `BotOcr.BotLinesAppend` | discord_bot.py:126-134 | the bot's filter works entry by entry in engine order: reading `a + b` is reading `a`, then `b`, and the first failure wins |
| `BotOcr.BotLinesKeepsFullRecords` | discord_bot.py:126-134 | a successful filter yields exactly `FullRecords`, the records of the well-shaped entries in engine order and multiplicity, defined from the last entry backwards |
| `BotOcr.BotLinesSpec` | discord_bot.py:126-134 | the filter fails exactly when some entry is malformed, with the first such entry's message; otherwise it yields `FullRecords`: one record per well-shaped entry, in order, and nothing else |
| `BotOcr.NormaliseForBot` | discord_bot.py:126-134 | the `for` loop that appends a record for each truthy entry of length ≥ 2 computes `BotLines` |
| `BotOcr.CroppedCopy` | discord_bot.py:104-105 | the new file the crop wrote: there is one exactly when the crop was saved and the input has a croppable extension, and it is then the derived path, never the input itself |
| `BotOcr.OverwrittenInput` | discord_bot.py:104-105 | the input is replaced by the crop exactly when the crop was saved and the input has no croppable extension; no file is both new and overwritten |
| `BotOcr.Recognise` | discord_bot.py:121-159 | success exactly when the engine returns and no kept entry is malformed; the results are the filtered records and `text` is their join; an engine exception, or the first malformed entry, becomes `{"success": False, "error": message}` with that message |
| `BotOcr.PerformOcrOnFileAsWritten` | discord_bot.py:115-159 | the source as written: OCR runs on the path the crop step returned; the response is `Recognise` of the engine's answer; the cropped copy is the file created, and it is removed only when the response is a success; an overwritten input is recorded |
| `BotOcr.CroppedCopyLeaksOnFailure` | discord_bot.py:142-159 | when the crop wrote a copy and the run fails, the as-written code creates exactly the derived path and removes nothing, so that copy stays on disk |
| `BotOcr.PngCopyLeaks` | discord_bot.py:142-159 | for any `stem.png` whose stem holds none of the rewritten substrings, a failing as-written run leaves exactly `stem_cropped.png` behind and removes nothing |
| `BotOcr.CroppedCopyLeakExample` | discord_bot.py:142-159 | `/tmp/shot.png` (the stem `ShotStem` plus `.png`) at 1720×900 with an engine that raises: the run fails with that message, `/tmp/shot_cropped.png` is created and nothing is removed |
| `BotOcr.PerformOcrOnFile` | discord_bot.py:115-159 | OCR runs on the crop when one was saved and on the original otherwise; the response is `Recognise` of the engine's answer; when OCR read a new copy, that copy is the one file created; the files removed are exactly the files created, never the caller's file; an overwritten input is recorded |
| `BotCommand.EndsWithExtension` | discord_bot.py:167 | `endswith(".ext")` is the same as the text after the last dot being `ext` |
| `BotCommand.IsImageNameIff` | discord_bot.py:192 | a file name is accepted exactly when its lower-cased text after the last dot is one of `png jpg jpeg gif webp` |
| `BotCommand.IsImageNameIgnoresCase` | discord_bot.py:167 | a name and its lower-cased form are accepted alike |
| `BotCommand.FirstSomeSkip` | discord_bot.py:164-177 | the scan passes over elements that carry no image |
| `BotCommand.FirstSomeSpec` | discord_bot.py:164-177 | the scan answers with the first answer in order, and with nothing exactly when no element has one |
| `BotCommand.RecentMessages` | discord_bot.py:164 | the scan reads the 50 newest messages, or the whole history when it is shorter: a prefix of the history whose length is the smaller of 50 and the history's length |
| `BotCommand.FirstRecentImageSpec` | discord_bot.py:164-177 | the image found comes from the first recent message that carries one; there is none exactly when no recent message carries one |
| `BotCommand.AttachmentsBeforeEmbeds` | discord_bot.py:166-175 | in one message the first image attachment is reported, before any embed |
| `BotCommand.FindRecentImage` | discord_bot.py:161-180 | the nested loops with early return compute the first recent image; a failure reading the history gives `None` |
| `BotCommand.TruncateForDisplay` | discord_bot.py:233-235 | text of at most 4000 characters is shown unchanged; longer text shows its first 4000 characters and ends with the marker; the result is never longer than 4000 plus the marker, and it equals the input exactly when the input is short or already ends, at 4000, with the marker |
| `BotCommand.TruncateIdempotent` | discord_bot.py:233-235 | truncating a truncated text changes nothing |
| `BotCommand.StatsBlock` | discord_bot.py:243-250 | the stats field is present exactly when there are lines, and then counts them |
| `BotCommand.SumConfidenceBounds` | discord_bot.py:245 | the sum of `n` confidences in `[lo, hi]` lies in `[n·lo, n·hi]` |
| `BotCommand.AverageWithinBounds` | discord_bot.py:245 | the mean confidence lies between the smallest and the largest line confidence |
| `BotCommand.AverageExample` | discord_bot.py:245 | confidences 0.9 and 0.5 give a mean of 0.7 over 2 lines |
| `BotCommand.Present` | discord_bot.py:216-250 | an OCR failure is reported with its message; "no text detected" exactly when OCR succeeded with blank text; any other success shows the source, the truncated text and the stats of its lines |
| `BotCommand.RunOcr` | discord_bot.py:184-264 | "not an image" exactly for an attachment without an image name; "no recent image" exactly when nothing was attached and the scan found no truthy URL; neither of these creates a file; a failed download is reported with its message and creates nothing; otherwise the reply is `Present` of the OCR step on the downloaded file, and the files created are the download and the step's copy; with the corrected OCR step (see Findings) every file created is removed |
| `BotCommand.AttachmentIgnoresHistory` | discord_bot.py:190-199 | a given attachment decides the image; the channel history does not matter |
| `BotCommand.NoTextIffBlankLines` | discord_bot.py:221-223 | "no text detected" exactly when OCR succeeded and every line is blank; shown results always carry the stats field |
| `Api.ApiLines` | app.py:69-76 | every entry is kept, one record per entry in order; the first entry that is not well-shaped raises, and its message is the result |
| `Api.BotAndApiAgree` | app.py:69-76 | on well-shaped output the bot and the HTTP handlers read the same records; an entry the bot skips makes the handlers fail |
| `Api.Respond` | app.py:68-85 | 200 with the records and their joined text exactly when the engine returns well-shaped lines; otherwise 500 with the engine exception's message or the first bad entry's message |
| `Api.PerformOcr` | app.py:36-85 | status is one of 200, 400, 404, 500, with 200 exactly for a success body; the engine reads the existing `image_path`, or the saved upload at `/tmp/temp_image.png`, and its answer becomes the response through `Respond`; it is not called for 400, 404 or a failed upload, which answers 500 with its message; the `image_path` branch creates and removes no file; a saved upload is created and is removed exactly when the engine returns, so an engine exception leaves it on disk |
| `Api.PathTakesPrecedence` | app.py:43-52 | with both keys present, the request is handled as if `image_base64` were absent |
| `Api.NoImageIs400` | app.py:65-66 | neither key gives 400 `"No image provided"`, no engine call and no file |
| `Api.MissingPathIs404` | app.py:44-46 | a path that does not exist gives 404 `"Image file not found"`, the engine is not called, and its answer cannot change the response |
| `Api.EngineFaultIs500` | app.py:84-85 | once the engine is called, its exception becomes 500 with its message |
| `Api.WellShapedRequestSucceeds` | app.py:69-82 | when every entry is well-shaped the response is 200 with one record per engine line in order, and their joined text |
| `Api.DemoLines` | app.py:97-103 | demo entries keep each record's text and confidence, in order, and drop the box |
| `Api.OcrDemo` | app.py:87-113 | 404 exactly when `test_image.png` is missing; otherwise 200 with the demo body naming that image, or 500 |
| `Api.DemoAgreesWithOcr` | app.py:97-110 | the demo answers like `/ocr` on the same image: same status, same texts and confidences, `full_text` equal to `text`, the same error |

## Left out

- PaddleOCR inference (`discord_bot.py:22-37`, `:123`; `app.py:12-26`, `:49`, `:61`, `:95`) is a foreign model. Each call is represented by its answer, an `EngineCall`. Which path the engine reads is recorded as `ocrInput`.
- PIL `open`/`crop`/`save`, `base64.b64decode`, `tempfile`, `os.unlink`/`os.remove` and `os.path.exists` are foreign I/O. They appear as parameters (decoded size, save success, upload outcome, set of existing paths) and as the `created`/`removed` sets. A partially written file from a failed save is not modelled.
- `ocr_lock`, `periodic_cleanup`, `cleanup_memory` and `gc.collect` (`discord_bot.py:19`, `:41-43`, `:121`, `:151`, `:156`, `:267-275`) are about mutual exclusion, timing and memory. They state nothing sequentially.
- aiohttp, Discord command registration, sync, deferral and embeds, and Flask routing and JSON encoding are network and UI plumbing. `download_image` is a parameter `string -> Download`, so its own temporary-file handling when the write fails is not modelled. The reply texts are variants of `Reply`, not the exact strings with their emoji.
- Confidences are `real`. `float()` conversion and the `:.2f` formatting of the mean are floating point. Only the guard that the mean is taken over a non-empty list, and its bounds, are modelled.
- Non-string texts: `" ".join` raises `TypeError` when some `line[1][0]` is not a string (`discord_bot.py:139`, `app.py:81`). A `Full` entry always carries a string, so that failure is not modelled.
- `Text.Lower`: it lowers ASCII letters only, because Python's full Unicode case mapping is not modelled. The allow-list's extensions are ASCII.
- `BotCommand.FindRecentImage`: a failure while reading the history is modelled as failing before any message is read (`history == None`). A failure after some messages have been read is not modelled.
- `Api.PerformOcr`: the request body is modelled as a JSON object with string values. Other JSON bodies (arrays, strings, numbers, `null`), where `in` tests membership or raises, are not modelled. Neither are non-string values of the two keys.
- `Api.PerformOcr`: the fixed temporary path `/tmp/temp_image.png` is shared by concurrent requests. That race is not modelled.
- The `/` health route (`app.py:29-34`) and the process entry points (`discord_bot.py:277-285`, `app.py:115-117`) are not part of this model.

## Findings

| source | as written | input that shows it | evidently intended | confidence | as-written member | corrected member |
|---|---|---|---|---|---|---|
| discord_bot.py:142-159 | the cropped copy is removed inside the `try` block after the response is built, so an engine exception or a malformed line skips the removal | `/tmp/shot.png`, 1720×900, crop saved, engine raises: `/tmp/shot_cropped.png` stays on disk, and every such failure leaves one more file | remove the cropped copy on every exit path (a `finally`), as the temporary download is at `discord_bot.py:254-259` | high; not executed | `BotOcr.PerformOcrOnFileAsWritten` (shown by `BotOcr.CroppedCopyLeaksOnFailure`, `BotOcr.PngCopyLeaks`, `BotOcr.CroppedCopyLeakExample`) | `BotOcr.PerformOcrOnFile` (used by `BotCommand.RunOcr`) |
