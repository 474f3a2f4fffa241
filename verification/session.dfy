/**
 The polling loop run over a whole sequence of ticks, and the region
 (re)selection that resets the loop's memory between runs
 (ridi_translation.py:171-183, 207-260).
 */
module TranslatorSession {
  import opened Wrappers
  import opened Region
  import opened TranslatorLoop

  /** The final state and the per-tick outcomes after running `ticks` in order
      from `s`, one `Step` per tick. */
  function Run(s: LoopState, ticks: seq<Tick>): (r: (LoopState, seq<Outcome>))
    ensures |r.1| == |ticks|
  {
    if ticks == [] then (s, [])
    else
      var before := Run(s, ticks[..|ticks| - 1]);
      var after := Step(before.0, ticks[|ticks| - 1]);
      (after.0, before.1 + [after.1])
  }

  /** The outcome of tick `i` of a run is the step taken from the state the
      ticks before it left. */
  lemma {:induction false} RunAt(s: LoopState, ticks: seq<Tick>, i: nat)
    requires i < |ticks|
    ensures Run(s, ticks).1[i] == Step(Run(s, ticks[..i]).0, ticks[i]).1
    ensures Run(s, ticks[..i + 1]).0 == Step(Run(s, ticks[..i]).0, ticks[i]).0
    decreases |ticks|
  {
    var n := |ticks| - 1;
    assert ticks[..i + 1][..i] == ticks[..i];
    if i < n {
      RunAt(s, ticks[..n], i);
      assert ticks[..n][..i] == ticks[..i];
      assert ticks[..n][..i + 1] == ticks[..i + 1];
    } else {
      assert ticks[..i + 1] == ticks;
    }
  }

  /** The `while self.running` loop of `loop` over the ticks that happen
      before it is stopped: each tick runs from the state the previous one
      left, and the loop keeps the invariant throughout. */
  method Loop(s: LoopState, ticks: seq<Tick>) returns (final: LoopState, outs: seq<Outcome>)
    ensures final == Run(s, ticks).0 && outs == Run(s, ticks).1
    ensures Inv(s) ==> Inv(final)
  {
    final := s;
    outs := [];
    var i := 0;
    while i < |ticks|
      invariant 0 <= i <= |ticks|
      invariant final == Run(s, ticks[..i]).0 && outs == Run(s, ticks[..i]).1
      invariant Inv(s) ==> Inv(final)
    {
      RunSnoc(s, ticks[..i], ticks[i]);
      assert ticks[..i] + [ticks[i]] == ticks[..i + 1];
      var r := Step(final, ticks[i]);
      final := r.0;
      outs := outs + [r.1];
      i := i + 1;
    }
    assert ticks[..|ticks|] == ticks;
  }

  /** The number of ticks that called the translation service. */
  function ServiceCalls(outs: seq<Outcome>): (n: nat)
    ensures n <= |outs|
  {
    if outs == [] then 0
    else ServiceCalls(outs[..|outs| - 1]) + (if outs[|outs| - 1].serviceCalled then 1 else 0)
  }

  /** The number of ticks that stored a fresh translation. */
  function Translations(outs: seq<Outcome>): (n: nat)
    ensures n <= |outs|
  {
    if outs == [] then 0
    else Translations(outs[..|outs| - 1]) + (if outs[|outs| - 1].kind == Translated then 1 else 0)
  }

  /** The polling loop keeps the invariant over any number of ticks. */
  lemma {:induction false} RunPreservesInv(s: LoopState, ticks: seq<Tick>)
    requires Inv(s)
    ensures Inv(Run(s, ticks).0)
  {
    if ticks != [] {
      RunPreservesInv(s, ticks[..|ticks| - 1]);
      StepPreservesInv(Run(s, ticks[..|ticks| - 1]).0, ticks[|ticks| - 1]);
    }
  }

  /** Over ticks built from OCR output, cache keys stay normalized texts. */
  lemma {:induction false} RunKeepsNormalized(s: LoopState, ticks: seq<Tick>)
    requires NormalizedState(s)
    requires forall i :: 0 <= i < |ticks| ==> Normalized(ticks[i])
    ensures NormalizedState(Run(s, ticks).0)
  {
    if ticks != [] {
      RunKeepsNormalized(s, ticks[..|ticks| - 1]);
      StepKeepsNormalized(Run(s, ticks[..|ticks| - 1]).0, ticks[|ticks| - 1]);
    }
  }

  /** A cache entry, once stored, is never overwritten or dropped while the
      loop runs; the cache grows by exactly one entry per successful call. */
  lemma {:induction false} RunCacheGrowth(s: LoopState, ticks: seq<Tick>)
    ensures var final := Run(s, ticks).0;
      && (forall k :: k in s.cache ==> k in final.cache && final.cache[k] == s.cache[k])
      && |final.cache| == |s.cache| + Translations(Run(s, ticks).1)
  {
    if ticks != [] {
      var prefix := ticks[..|ticks| - 1];
      RunCacheGrowth(s, prefix);
      var before := Run(s, prefix);
      var after := Step(before.0, ticks[|ticks| - 1]);
      var outs := Run(s, ticks).1;
      assert outs == before.1 + [after.1];
      assert outs[..|outs| - 1] == before.1;
      if after.1.kind == Translated {
        var text := ticks[|ticks| - 1].text;
        assert text !in before.0.cache;
        assert after.0.cache.Keys == before.0.cache.Keys + {text};
      }
    }
  }

  /** Consecutive captures with the same fingerprint: the later one is
      skipped without OCR, translation or publishing. */
  lemma RepeatedFrameSkipped(s: LoopState, ticks: seq<Tick>, i: nat)
    requires 0 < i < |ticks| && ticks[i].hash == ticks[i - 1].hash
    ensures var o := Run(s, ticks).1[i];
      o.kind == Skip && !o.ocrRun && !o.serviceCalled && o.published.None?
  {
    RunAt(s, ticks, i);
    RunAt(s, ticks, i - 1);
  }

  /** Consecutive captures whose OCR normalizes to the same text: once the
      earlier one got past the fingerprint check, the later one never calls
      the service and publishes nothing, whatever its fingerprint. */
  lemma SameTextNotRetranslated(s: LoopState, ticks: seq<Tick>, i: nat)
    requires 0 < i < |ticks|
    requires ticks[i].text == ticks[i - 1].text
    requires Run(s, ticks).1[i - 1].kind != Skip
    ensures var o := Run(s, ticks).1[i];
      !o.serviceCalled && o.published.None?
  {
    RunAt(s, ticks, i);
    RunAt(s, ticks, i - 1);
  }

  /** The remembered text outlives ticks that stop before the text check: once
      a text got past the three tiers, a following tick with too little text
      leaves it in place, so the same text on the next changed frame is still
      reported as unchanged and nothing is sent or published. */
  lemma ShortTickKeepsLastText(s: LoopState, t1: Tick, t2: Tick, t3: Tick)
    requires Step(s, t1).1.kind in {CacheHit, Translated, Error}
    requires |t2.text| < MinTextChars
    requires t3.text == t1.text && t3.hash != t2.hash
    ensures var o := Step(Step(Step(s, t1).0, t2).0, t3).1;
      o.kind == SameText && !o.serviceCalled && o.published.None?
  {
  }

  /** Texts `A`, `B`, `A` on three consecutive changed frames, none cached
      beforehand and every request successful: the service is called exactly
      twice, and unless `A` was already the remembered text the third tick is
      a cache hit showing the first translation. */
  lemma ThreeTicksTwoCalls(s: LoopState, t1: Tick, t2: Tick, t3: Tick)
    requires t1.text == t3.text != t2.text
    requires |t1.text| >= MinTextChars && |t2.text| >= MinTextChars
    requires t1.text !in s.cache && t2.text !in s.cache
    requires s.lastHash != Some(t1.hash) && t1.hash != t2.hash && t2.hash != t3.hash
    requires t1.reply.Translation? && t2.reply.Translation?
    ensures ServiceCalls(Run(s, [t1, t2, t3]).1) == 2
    ensures s.lastOcr != t1.text ==>
      Run(s, [t1, t2, t3]).1[2] == Outcome(CacheHit, true, false, Some(t1.reply.text))
  {
    var r1 := Step(s, t1);
    var r2 := Step(r1.0, t2);
    var r3 := Step(r2.0, t3);
    assert Run(s, [t1]).0 == r1.0 && Run(s, [t1]).1 == [r1.1] by {
      RunSnoc(s, [], t1);
      assert [] + [t1] == [t1];
    }
    assert Run(s, [t1, t2]).0 == r2.0 && Run(s, [t1, t2]).1 == [r1.1, r2.1] by {
      RunSnoc(s, [t1], t2);
      assert [t1] + [t2] == [t1, t2];
    }
    assert Run(s, [t1, t2, t3]).1 == [r1.1, r2.1, r3.1] by {
      RunSnoc(s, [t1, t2], t3);
      assert [t1, t2] + [t3] == [t1, t2, t3];
    }
    var c1 := if r1.1.serviceCalled then 1 else 0;
    var c2 := if r2.1.serviceCalled then 1 else 0;
    var c3 := if r3.1.serviceCalled then 1 else 0;
    assert c1 + c2 + c3 == 2 by {
      if s.lastOcr == t1.text {
        assert c1 == 0 && c2 == 1 && c3 == 1;
      } else {
        assert c1 == 1 && c2 == 1 && c3 == 0;
      }
    }
    assert ServiceCalls([r1.1, r2.1, r3.1]) == c1 + c2 + c3 by {
      CountThree(r1.1, r2.1, r3.1);
    }
  }

  lemma CountThree(o1: Outcome, o2: Outcome, o3: Outcome)
    ensures ServiceCalls([o1, o2, o3]) ==
      (if o1.serviceCalled then 1 else 0) + (if o2.serviceCalled then 1 else 0) + (if o3.serviceCalled then 1 else 0)
  {
    assert [o1][..0] == [];
    assert ServiceCalls([o1]) == (if o1.serviceCalled then 1 else 0);
    assert [o1, o2][..1] == [o1];
    assert ServiceCalls([o1, o2]) == ServiceCalls([o1]) + (if o2.serviceCalled then 1 else 0);
    assert [o1, o2, o3][..2] == [o1, o2];
  }

  /** Running one more tick is one more step. */
  lemma RunSnoc(s: LoopState, ticks: seq<Tick>, t: Tick)
    ensures var before := Run(s, ticks);
      var after := Step(before.0, t);
      Run(s, ticks + [t]) == (after.0, before.1 + [after.1])
  {
    assert (ticks + [t])[..|ticks|] == ticks;
  }

  /** A failed request is not retried while the text stays the same: the
      failure was not cached, but the text was remembered. */
  lemma FailureNotRetried(s: LoopState, t1: Tick, t2: Tick)
    requires Step(s, t1).1.kind == Error
    requires t2.text == t1.text
    ensures var o := Step(Step(s, t1).0, t2).1;
      (o.kind == Skip || o.kind == SameText) && !o.serviceCalled && o.published.None?
  {
  }

  /** A failed text is sent again once another long text has come in between:
      that text replaced the remembered one, and the failure was never cached. */
  lemma FailureRetriedAfterOther(s: LoopState, t1: Tick, t2: Tick, t3: Tick)
    requires Step(s, t1).1.kind == Error
    requires t2.hash != t1.hash && |t2.text| >= MinTextChars && t2.text != t1.text
    requires t3.hash != t2.hash && t3.text == t1.text
    ensures Step(Step(Step(s, t1).0, t2).0, t3).1.serviceCalled
  {
  }

  /** The application state `select_region` changes: the watched region and
      the loop's memory. */
  datatype App = App(region: Option<CaptureRegion>, loop: LoopState)

  /** `select_region` as written, given what the picker returned. A cancelled
      pick changes nothing; a region replaces the old one, forgets the last
      fingerprint and empties the cache, but the remembered OCR text survives:
      line 180 assigns to a misspelled attribute `lact_ocr`, not `last_ocr`. */
  function SelectRegion(app: App, picked: Option<CaptureRegion>): (r: App)
    ensures picked.None? ==> r == app
    ensures picked.Some? ==>
      r.region == picked && r.loop.lastHash.None? && r.loop.cache == map[]
      && r.loop.lastOcr == app.loop.lastOcr
    ensures Inv(app.loop) ==> Inv(r.loop)
  {
    match picked
    case None => app
    case Some(region) => App(picked, app.loop.(lastHash := None, cache := map[]))
  }

  /** `select_region` as evidently intended: the remembered OCR text is reset too. */
  function SelectRegionIntended(app: App, picked: Option<CaptureRegion>): (r: App)
    ensures picked.None? ==> r == app
    ensures picked.Some? ==> r.region == picked && r.loop == Initial()
  {
    match picked
    case None => app
    case Some(region) => App(picked, Initial())
  }

  /** After either reselection the first tick always runs OCR, and nothing
      from the old region's cache can be served. */
  lemma ReselectionForgetsFrames(app: App, region: CaptureRegion, t: Tick)
    ensures var o := Step(SelectRegion(app, Some(region)).loop, t).1;
      o.ocrRun && o.kind != CacheHit
    ensures var o := Step(SelectRegionIntended(app, Some(region)).loop, t).1;
      o.ocrRun && o.kind != CacheHit
  {
  }

  /** The consequence of the misspelling: after a reselection, a first capture
      whose text equals the last text seen in the old region is reported as
      unchanged text; nothing is translated or published although the cache
      was emptied. */
  lemma ReselectionKeepsLastText(app: App, region: CaptureRegion, t: Tick)
    requires |app.loop.lastOcr| >= MinTextChars
    requires t.text == app.loop.lastOcr
    ensures var o := Step(SelectRegion(app, Some(region)).loop, t).1;
      o.kind == SameText && !o.serviceCalled && o.published.None?
  {
  }

  /** With the intended reset, the first capture of a new region that carries
      enough text is always sent to the service and its result published. */
  lemma ReselectionTranslatesFirstText(app: App, region: CaptureRegion, t: Tick)
    requires |t.text| >= MinTextChars
    ensures var o := Step(SelectRegionIntended(app, Some(region)).loop, t).1;
      o.serviceCalled && o.published.Some?
  {
  }
}
