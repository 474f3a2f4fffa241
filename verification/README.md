# RIDI OCR translation overlay — Dafny model

`ridi_translation.py` is a desktop overlay. It watches a rectangle of the screen
while a RIDIBOOKS page is open, OCRs the Korean text in it, and shows a DeepL
translation. This project models the parts of it that are logic and not GUI,
threading or foreign calls:

- `normalize_ocr_text` (module `TextNormalizer`). It applies Python's
  `str.splitlines` exactly, with every separator Python recognises and `"\r\n"`
  as one break. It then applies `str.strip()` with Python's `str.isspace` set,
  drops the empty lines, and rejoins the rest with `"\n"`.
- The rectangle arithmetic of `RegionSelector.on_release` and the thumbnail size
  that `cheap_region_hash` downsamples to (module `Region`).
- One tick of the `while self.running` body of `RidiTranslatorApp.loop`, as a
  pure step on the loop's memory (module `TranslatorLoop`). The memory is
  `last_hash`, `last_ocr` and the translation cache. A tick runs three dedup
  tiers in order: unchanged fingerprint, too little text, unchanged text. Only
  then does it consult the cache and, on a miss, the translation service.
- The loop folded over a sequence of ticks, and the state reset of
  `select_region` (module `TranslatorSession`).

Two behaviours of the code that the model keeps:

- `last_ocr` is a string that starts as `""`. It is not an optional value.
- Reselecting a region does not reset `last_ocr`. Line 180 assigns
  `self.lact_ocr`, so only the fingerprint and the cache are cleared (see
  Findings).

## Model

| member | source | states |
|---|---|---|
| TextNormalizer.IsLineBreak | ridi_translation.py:35 | the characters `str.splitlines` ends a line at: `\n`, `\r`, `\x0b`, `\x0c`, `\x1c`-`\x1e`, `\x85`, `\u2028`, `\u2029` |
| TextNormalizer.IsSpace | ridi_translation.py:35 | the characters `str.isspace` accepts and `strip()` removes; `BreakIsSpace` states that every line separator is among them |
| TextNormalizer.SplitLines | ridi_translation.py:35 | `str.splitlines`: empty input, and only empty input, gives no lines |
| TextNormalizer.SplitLinesNoBreak | ridi_translation.py:35 | no piece `splitlines` returns contains a line separator |
| TextNormalizer.TrimStart | ridi_translation.py:35 | the leading half of `strip()`: the result is a suffix of the line, everything removed before it is whitespace, and it does not start with whitespace |
| TextNormalizer.TrimEnd | ridi_translation.py:35 | the trailing half of `strip()`: the result is a prefix of its input, everything removed after it is whitespace, and it does not end with whitespace |
| TextNormalizer.Strip | ridi_translation.py:35 | `str.strip()`: the result has no whitespace at either end; it is empty exactly when the line was all whitespace; an already stripped line is unchanged; stripping introduces no separator |
| TextNormalizer.StripAll | ridi_translation.py:35 | the comprehension `[ln.strip() for ln in ...]`: one stripped line per input line, in order; `StripAllBlank` states when nothing survives it |
| TextNormalizer.DropEmpty | ridi_translation.py:36 | the `if ln` filter: every kept line is non-empty and comes from the input, every non-empty line is kept exactly as many times as it occurs, and input without empty lines passes unchanged |
| TextNormalizer.DropEmptyIsSubsequence | ridi_translation.py:36 | the filter keeps the lines in their original relative order |
| TextNormalizer.CleanLines | ridi_translation.py:35-36 | every kept line is non-empty, stripped and free of separators |
| TextNormalizer.SplitLinesAllSpace | ridi_translation.py:35 | a text is all whitespace exactly when every line `splitlines` gives is |
| TextNormalizer.StripAllBlank | ridi_translation.py:35-36 | stripping and filtering leaves no line exactly when every line was blank |
| TextNormalizer.CleanLinesEmpty | ridi_translation.py:34-36 | no line survives exactly when the OCR text is blank |
| TextNormalizer.Normalize | ridi_translation.py:34-37 | the output's lines are exactly the kept lines: non-empty, stripped, in their input order, a subsequence of the stripped input lines; blank input, and only blank input, gives `""`; the lines are joined by a single `"\n"`, the only line break in the output, and nothing follows the last line |
| TextNormalizer.Join | ridi_translation.py:37 | `"\n".join(lines)`; `SplitJoin` and `SplitJoinTrailing` state that `splitlines` reads the lines back, and `JoinSeparators` that the separator is `"\n"` |
| TextNormalizer.JoinSeparators | ridi_translation.py:37 | on separator-free lines, every line break `"\n".join` produces is a `"\n"`, and a non-empty last line leaves no break at the end |
| TextNormalizer.SplitJoin | ridi_translation.py:37 | `splitlines` undoes `"\n".join` on separator-free lines whose last line is non-empty, so the joined output can be read back line by line |
| TextNormalizer.SplitJoinTrailing | ridi_translation.py:35-37 | when the last of the joined lines is empty, `splitlines` gives back all lines but that last one: a trailing separator ends no piece |
| TextNormalizer.DropEmptyStripLastBlank | ridi_translation.py:35-36 | a blank last line changes nothing in the lines that are kept |
| TextNormalizer.Idempotent | ridi_translation.py:34-37 | normalizing a normalized text changes nothing |
| TextNormalizer.NormalizeJoin | ridi_translation.py:34-37 | any text made of separator-free lines, including one ending in a separator, normalizes to its non-blank lines, stripped, rejoined with `"\n"` |
| Region.SelectRect | ridi_translation.py:95-110 | a region is returned exactly when both sides span at least 40 pixels; it spans from the smaller to the larger coordinate of the two points on each axis |
| Region.SelectRectSymmetric | ridi_translation.py:96-104 | the region does not depend on the drag direction: swapping the two points, or only their x coordinates, gives the same result |
| Region.SelectRectContainsCorners | ridi_translation.py:98-109 | an accepted region contains both the press point and the release point |
| Region.ThumbSide | ridi_translation.py:31 | `max(40, side // 10)`: never below 40, otherwise the floor of a tenth of the side, and above 40 exactly from side 410 on |
| Region.ThumbnailFitsRegion | ridi_translation.py:31 | the thumbnail of any accepted region is no larger than the region, so the fingerprint never upsamples |
| TranslatorLoop.Observe | ridi_translation.py:228-229 | a tick built from raw OCR output carries normalized text, which is empty exactly when the OCR output was blank |
| TranslatorLoop.Initial | ridi_translation.py:138-140 | the state the app starts with satisfies the loop invariant |
| TranslatorLoop.Status | ridi_translation.py:232-257 | every tick except a skipped frame posts a status line |
| TranslatorLoop.ErrorPayload | ridi_translation.py:256 | the text shown for a failed request starts with `[DeepL error]` and ends with the OCR text |
| TranslatorLoop.Step | ridi_translation.py:221-259 | one tick: the fingerprint is always remembered. An unchanged fingerprint changes nothing, runs no OCR and publishes nothing. A changed frame with under 10 characters ends as too short, and otherwise one with text equal to `last_ocr` ends as same text, exactly; both publish nothing and keep `last_ocr` and the cache. Otherwise the text is remembered, and the tick is a cache hit exactly when the text is cached. The service is called exactly on a miss, and the tick is translated or an error exactly when it was called, translated exactly when the reply is a translation. A hit publishes the cached value. A success caches and publishes the result. A failure publishes the error payload and caches nothing |
| TranslatorLoop.StepPreservesInv | ridi_translation.py:231-253 | every tick keeps all cache keys at least 10 characters long and `last_ocr` either `""` or at least 10 characters long |
| TranslatorLoop.StepKeepsNormalized | ridi_translation.py:229-253 | with OCR text that has been normalized, cache keys and `last_ocr` stay normalized texts |
| TranslatorSession.Loop | ridi_translation.py:217-260 | running the loop over the ticks that happen before it is stopped is one step per tick, in order, and keeps the invariant |
| TranslatorSession.RunPreservesInv | ridi_translation.py:231-253 | the invariant holds after any number of ticks |
| TranslatorSession.RunKeepsNormalized | ridi_translation.py:229-253 | over ticks built from OCR output, the cache stays keyed by normalized text |
| TranslatorSession.RunCacheGrowth | ridi_translation.py:242-253 | a cache entry is never dropped or overwritten while the loop runs, and the cache grows by exactly one entry per successful request |
| TranslatorSession.RepeatedFrameSkipped | ridi_translation.py:221-225 | of two consecutive captures with the same fingerprint, the later one runs no OCR, calls no service and publishes nothing |
| TranslatorSession.SameTextNotRetranslated | ridi_translation.py:236-240 | of two consecutive captures with the same text where the earlier got past the fingerprint check, the later one calls no service and publishes nothing |
| TranslatorSession.ShortTickKeepsLastText | ridi_translation.py:231-240 | a text that got past the three tiers, then a tick with too little text, then the same text on a changed frame: the third tick is same text, nothing is sent or published |
| TranslatorSession.Run | ridi_translation.py:217-260 | the `while self.running` fold: one outcome per tick; `Loop` runs it and `RunPreservesInv`, `RunCacheGrowth` state what it keeps |
| TranslatorSession.ThreeTicksTwoCalls | ridi_translation.py:240-259 | texts A, B, A on three changed frames, uncached and all successful, call the service exactly twice; the third tick is a cache hit showing A's translation unless A was already the remembered text |
| TranslatorSession.FailureNotRetried | ridi_translation.py:236-257 | the next capture with the same text after a failed request is not sent again, because the text was remembered but not cached |
| TranslatorSession.FailureRetriedAfterOther | ridi_translation.py:236-257 | a failed text is sent again once another long text on a changed frame came in between: that text replaced `last_ocr`, and the failure was never cached |
| TranslatorSession.SelectRegion | ridi_translation.py:171-181 | `select_region` as written: a cancelled pick changes nothing; a region replaces the old one, forgets the fingerprint and empties the cache, keeps `last_ocr`, and keeps the invariant |
| TranslatorSession.SelectRegionIntended | ridi_translation.py:178-181 | `select_region` as intended: a new region restarts the loop from the initial state |
| TranslatorSession.ReselectionForgetsFrames | ridi_translation.py:179-181 | after reselecting, as written or as intended, the first capture always runs OCR and is never served from the old cache |
| TranslatorSession.ReselectionKeepsLastText | ridi_translation.py:180 | as written, a first capture in the new region whose text equals the last text seen in the old one is reported as unchanged text, and nothing is translated or published |
| TranslatorSession.ReselectionTranslatesFirstText | ridi_translation.py:179-181 | with the intended reset, the first capture of a new region with enough text is sent to the service and its result published |

## Left out

- The tkinter UI is left out: the windows, the overlay, canvas drawing in `on_press` and `on_drag`, the buttons, the status `StringVar` and `set_translation`. The model records what would be published and which status line a tick posts.
- Threading, `root.after` marshalling, `time.sleep(OCR_INTERVAL_SEC)`, `start`, `stop` and the `running` flag are left out. The loop is modelled over the finite sequence of ticks that happen before it is stopped.
- Screen capture with `mss`, `Image.frombytes` and `preprocess` are left out. They are a foreign library and pixel numerics.
- The SHA-256 digest in `cheap_region_hash` is left out. A fingerprint is an opaque string compared only for equality; only the thumbnail size is modelled.
- The `pytesseract` OCR call and the `deepl` client are left out. They are foreign calls. A tick carries the OCR text and the reply the service would give: a translation, or the message of the exception it raised.
- An exception raised outside the `try` at line 246 ends the worker thread in the middle of a tick, with `running` still true. From `sct.grab`, `Image.frombytes` or `cheap_region_hash` (lines 218-221) it comes before `last_hash` is updated at line 225; from `preprocess` or `image_to_string` (lines 227-228) it comes after. The model's ticks always carry OCR text; a tick that ends in such an exception is not modelled.
- The "Select Region" button is never disabled (line 146; `start` at 192-193 only toggles Start and Stop), so `select_region` can run while the worker is looping. The worker then keeps capturing the `region_dict` it built at lines 209-214 while its fingerprint and cache are reset under it. The model applies `SelectRegion` between runs only and does not model it interleaved with a running loop.
- The `DEEPL_AUTH_KEY` check at start-up and the Tesseract path constant are left out, because they are configuration.
- TextNormalizer.SplitLines: its own contract only states that empty input, and only empty input, gives no lines. What the pieces contain is stated by SplitLinesNoBreak, SplitLinesAllSpace and the round trip SplitJoin, not as a general reassembly law for arbitrary text.
- TextNormalizer.Strip: its contract characterises the result by its ends and by blankness; that it is the infix between the whitespace `TrimStart` and `TrimEnd` remove is stated by those two members' contracts, as `Strip` is their composition.
- TranslatorLoop.Status: its contract states which ticks post a status line, not the wording of each line (the wording, including the source's "tetx" misspelling, is in its body).
- TranslatorLoop.ErrorPayload: its contract states the `[DeepL error]` prefix and the OCR-text suffix, not where the exception message sits between them.
- TranslatorSession.ServiceCalls: only states that the count is at most the number of ticks. Its exact values are used through ThreeTicksTwoCalls.
- TranslatorSession.Translations: only states that the count is at most the number of ticks. Its meaning is stated by RunCacheGrowth.

## Findings

| source | as written | input that shows it | evidently intended | confidence | as-written member | corrected member |
|---|---|---|---|---|---|---|
| ridi_translation.py:180 | `select_region` assigns `self.lact_ocr = ""`, a new attribute, so `last_ocr` keeps the last text of the old region while the cache is emptied | the old region last showed text A of 10 or more characters; the user selects a new region whose first capture reads A | `self.last_ocr = ""`, so the first capture of the new region is translated and shown | not executed | TranslatorSession.ReselectionKeepsLastText | TranslatorSession.ReselectionTranslatesFirstText |
