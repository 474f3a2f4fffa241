/**
 One tick of the polling loop of `RidiTranslatorApp` (ridi_translation.py:217-260)
 as a pure step on the dedup state. Screen capture, the fingerprint digest, OCR
 and the translation service are not modelled: a tick carries what they produced.
 */
module TranslatorLoop {
  import opened Wrappers
  import opened TextNormalizer

  /** `MIN_TEXT_CHARS`: shorter normalized text is treated as noise. */
  const MinTextChars: nat := 10

  /** The hex digest `cheap_region_hash` returns; the loop only compares it. */
  type Fingerprint = string

  /** What the loop remembers between ticks: `last_hash`, `last_ocr`, `cache`. */
  datatype LoopState = LoopState(lastHash: Option<Fingerprint>, lastOcr: string, cache: map<string, string>)

  /** What the translation client returned for one request: the translated
      text, or the message of the exception it raised. */
  datatype ServiceReply = Translation(text: string) | ServiceError(message: string)

  /** One capture: its fingerprint, its normalized OCR text, and what the
      translation service would answer if it were asked. */
  datatype Tick = Tick(hash: Fingerprint, text: string, reply: ServiceReply)

  /** The tick for a capture whose OCR returned `ocrRaw` (line 229 normalizes it). */
  function Observe(hash: Fingerprint, ocrRaw: string, reply: ServiceReply): (t: Tick)
    ensures Normalized(t)
    ensures t.text == [] <==> AllSpace(ocrRaw)
  {
    Idempotent(ocrRaw);
    Tick(hash, Normalize(ocrRaw), reply)
  }

  /** The tick's text is what `normalize_ocr_text` produces. */
  ghost predicate Normalized(t: Tick) {
    Normalize(t.text) == t.text
  }

  /** How a tick ended. */
  datatype Kind = Skip | TooShort | SameText | CacheHit | Translated | Error

  /** The effects of one tick: whether OCR ran, whether the translation
      service was called, and the text handed to `set_translation`, if any. */
  datatype Outcome = Outcome(kind: Kind, ocrRun: bool, serviceCalled: bool, published: Option<string>)

  /** The state `__init__` starts with. */
  function Initial(): (s: LoopState)
    ensures Inv(s)
  {
    LoopState(None, "", map[])
  }

  /** The status line a tick posts; a skipped frame leaves the status as it was. */
  function Status(k: Kind): (r: Option<string>)
    ensures r.None? <==> k == Skip
  {
    match k
    case Skip => None
    case TooShort => Some("OCR: not enough tetx (or noise).")
    case SameText => Some("OCR: changed pixels, same text.")
    case CacheHit => Some("Translated (cached).")
    case Translated => Some("Translated via DeepL.")
    case Error => Some("DeepL error (see output).")
  }

  const ErrorMarker: string := "[DeepL error]"

  /** The text shown when the translation request raised: the error, then the
      OCR text it was about. */
  function ErrorPayload(message: string, text: string): (r: string)
    ensures |r| >= |ErrorMarker| + |text|
    ensures r[..|ErrorMarker|] == ErrorMarker
    ensures r[|r| - |text|..] == text
  {
    var head := ErrorMarker + "\n" + message + "\n\n--- OCR ---\n";
    assert (head + text)[..|ErrorMarker|] == head[..|ErrorMarker|];
    assert (head + text)[|head|..] == text;
    head + text
  }

  /** The invariant the loop keeps: cache keys are texts of at least
      `MinTextChars` characters, and so is the remembered text unless it is
      still the initial "". */
  predicate Inv(s: LoopState) {
    && (forall k :: k in s.cache ==> |k| >= MinTextChars)
    && (s.lastOcr == [] || |s.lastOcr| >= MinTextChars)
  }

  /** Cache keys and the remembered text are normalized texts. */
  ghost predicate NormalizedState(s: LoopState) {
    && (forall k :: k in s.cache ==> Normalize(k) == k)
    && Normalize(s.lastOcr) == s.lastOcr
  }

  /** One pass of the `while self.running` body. The three dedup tiers are
      checked in order: unchanged fingerprint, too little text, unchanged text;
      only then is the cache consulted and, on a miss, the service called. */
  function Step(s: LoopState, t: Tick): (res: (LoopState, Outcome))
    // the fingerprint is always remembered
    ensures res.0.lastHash == Some(t.hash)
    // an unchanged fingerprint skips everything and changes nothing
    ensures res.1.kind == Skip <==> s.lastHash == Some(t.hash)
    ensures res.1.kind == Skip ==> res.0 == s
    ensures res.1.ocrRun <==> res.1.kind != Skip
    // the service is called exactly when every dedup tier and the cache miss
    ensures res.1.serviceCalled <==>
      s.lastHash != Some(t.hash) && |t.text| >= MinTextChars && t.text != s.lastOcr && t.text !in s.cache
    // too little text and unchanged text publish nothing and keep text and cache
    ensures res.1.kind in {Skip, TooShort, SameText} <==> res.1.published.None?
    ensures res.1.kind in {Skip, TooShort, SameText} ==> res.0.lastOcr == s.lastOcr && res.0.cache == s.cache
    ensures res.1.kind == TooShort <==> s.lastHash != Some(t.hash) && |t.text| < MinTextChars
    ensures res.1.kind == SameText <==>
      s.lastHash != Some(t.hash) && |t.text| >= MinTextChars && t.text == s.lastOcr
    // the cache is consulted only past all three tiers, and a hit is never sent
    ensures res.1.kind == CacheHit <==>
      s.lastHash != Some(t.hash) && |t.text| >= MinTextChars && t.text != s.lastOcr && t.text in s.cache
    ensures res.1.kind in {Translated, Error} <==> res.1.serviceCalled
    ensures res.1.kind == Translated <==> res.1.serviceCalled && t.reply.Translation?
    // past the dedup tiers the text is remembered
    ensures res.1.kind in {CacheHit, Translated, Error} ==> res.0.lastOcr == t.text
    // a hit publishes the cached translation without calling the service
    ensures res.1.kind == CacheHit ==>
      t.text in s.cache && res.1.published == Some(s.cache[t.text]) && res.0.cache == s.cache
    // a successful call stores and publishes the translation
    ensures res.1.kind == Translated ==>
      t.reply.Translation? && res.1.published == Some(t.reply.text)
      && t.text !in s.cache && res.0.cache == s.cache[t.text := t.reply.text]
    // a failed call publishes the error with the OCR text and caches nothing
    ensures res.1.kind == Error ==>
      t.reply.ServiceError? && res.1.published == Some(ErrorPayload(t.reply.message, t.text))
      && res.0.cache == s.cache
  {
    if s.lastHash == Some(t.hash) then
      (s, Outcome(Skip, false, false, None))
    else
      var seen := s.(lastHash := Some(t.hash));
      if |t.text| < MinTextChars then
        (seen, Outcome(TooShort, true, false, None))
      else if t.text == s.lastOcr then
        (seen, Outcome(SameText, true, false, None))
      else
        var current := seen.(lastOcr := t.text);
        if t.text in s.cache then
          (current, Outcome(CacheHit, true, false, Some(s.cache[t.text])))
        else
          match t.reply
          case Translation(translated) =>
            (current.(cache := s.cache[t.text := translated]), Outcome(Translated, true, true, Some(translated)))
          case ServiceError(message) =>
            (current, Outcome(Error, true, true, Some(ErrorPayload(message, t.text))))
  }

  /** Every tick keeps the invariant. */
  lemma StepPreservesInv(s: LoopState, t: Tick)
    requires Inv(s)
    ensures Inv(Step(s, t).0)
  {
  }

  /** Ticks built from OCR output keep the cache keyed by normalized text. */
  lemma StepKeepsNormalized(s: LoopState, t: Tick)
    requires NormalizedState(s) && Normalized(t)
    ensures NormalizedState(Step(s, t).0)
  {
  }
}
