/**
 Model of `normalize_ocr_text` (ridi_translation.py:34-37): split the OCR output
 into lines with Python's `str.splitlines`, `strip()` every line, drop the lines
 that became empty and rejoin the rest with a single `"\n"`.
 */
module TextNormalizer {

  /** The characters Python's `str.splitlines` ends a line at. `"\r\n"` is one
      break, handled in `BreakWidth`. */
  predicate IsLineBreak(c: char) {
    || c == '\n' || c == '\r'
    || c == '\U{0B}' || c == '\U{0C}'
    || c == '\U{1C}' || c == '\U{1D}' || c == '\U{1E}'
    || c == '\U{85}' || c == '\U{2028}' || c == '\U{2029}'
  }

  /** Python's `str.isspace`, the set `str.strip()` removes. */
  predicate IsSpace(c: char) {
    || ('\t' <= c <= '\r')
    || ('\U{1C}' <= c <= '\U{1F}')
    || c == ' ' || c == '\U{85}' || c == '\U{A0}' || c == '\U{1680}'
    || ('\U{2000}' <= c <= '\U{200A}')
    || c == '\U{2028}' || c == '\U{2029}' || c == '\U{202F}'
    || c == '\U{205F}' || c == '\U{3000}'
  }

  predicate NoBreak(s: string) {
    forall k :: 0 <= k < |s| ==> !IsLineBreak(s[k])
  }

  predicate AllSpace(s: string) {
    forall k :: 0 <= k < |s| ==> IsSpace(s[k])
  }

  /** A line `strip()` leaves unchanged: empty, or no whitespace at either end. */
  predicate IsStripped(s: string) {
    s == [] || (!IsSpace(s[0]) && !IsSpace(s[|s| - 1]))
  }

  /** Every line break is whitespace, so `strip()` removes every separator. */
  lemma BreakIsSpace(c: char)
    ensures IsLineBreak(c) ==> IsSpace(c)
  {
  }

  /** Index of the first line break in `s`, or `|s|` when there is none. */
  function FirstBreak(s: string): (i: nat)
    ensures i <= |s|
    ensures forall k :: 0 <= k < i ==> !IsLineBreak(s[k])
    ensures i < |s| ==> IsLineBreak(s[i])
  {
    if s == [] || IsLineBreak(s[0]) then 0
    else 1 + FirstBreak(s[1..])
  }

  /** Number of characters the break at `i` occupies: `"\r\n"` counts as one break. */
  function BreakWidth(s: string, i: nat): (w: nat)
    requires i < |s| && IsLineBreak(s[i])
    ensures 1 <= w <= 2 && i + w <= |s|
    ensures forall k :: i <= k < i + w ==> IsLineBreak(s[k])
  {
    if s[i] == '\r' && i + 1 < |s| && s[i + 1] == '\n' then 2 else 1
  }

  /** Python's `str.splitlines()`: the pieces between line breaks, without a
      trailing empty piece after a final break. */
  function SplitLines(s: string): (lines: seq<string>)
    ensures s == [] <==> lines == []
    decreases |s|
  {
    if s == [] then []
    else
      var i := FirstBreak(s);
      if i == |s| then [s]
      else [s[..i]] + SplitLines(s[i + BreakWidth(s, i)..])
  }

  /** Removes leading whitespace. */
  function TrimStart(s: string): (r: string)
    ensures |r| <= |s| && r == s[|s| - |r|..]
    ensures AllSpace(s[..|s| - |r|])
    ensures r == [] || !IsSpace(r[0])
  {
    if s == [] || !IsSpace(s[0]) then s
    else
      var r := TrimStart(s[1..]);
      assert s[..|s| - |r|] == [s[0]] + s[1..][..|s| - 1 - |r|];
      r
  }

  /** Removes trailing whitespace. */
  function TrimEnd(s: string): (r: string)
    ensures |r| <= |s| && r == s[..|r|]
    ensures AllSpace(s[|r|..])
    ensures r == [] || !IsSpace(r[|r| - 1])
  {
    if s == [] || !IsSpace(s[|s| - 1]) then s
    else
      var r := TrimEnd(s[..|s| - 1]);
      assert s[|r|..] == s[..|s| - 1][|r|..] + [s[|s| - 1]];
      r
  }

  /** Python's `str.strip()` with no argument. */
  function Strip(s: string): (r: string)
    ensures IsStripped(r)
    ensures r == [] <==> AllSpace(s)
    ensures IsStripped(s) ==> r == s
    ensures NoBreak(s) ==> NoBreak(r)
  {
    var t := TrimStart(s);
    var r := TrimEnd(t);
    StripBlank(s, t, r);
    StripKeepsStripped(s, t, r);
    StripKeepsNoBreak(s, t, r);
    r
  }

  lemma StripBlank(s: string, t: string, r: string)
    requires t == TrimStart(s) && r == TrimEnd(t)
    ensures r == [] <==> AllSpace(s)
  {
    var d := |s| - |t|;
    if r == [] {
      assert AllSpace(t[|r|..]);
      assert t[|r|..] == t;
      assert t == [];
      assert s[..d] == s;
    } else {
      assert r[0] == t[0] == s[d];
    }
  }

  lemma StripKeepsStripped(s: string, t: string, r: string)
    requires t == TrimStart(s) && r == TrimEnd(t)
    ensures IsStripped(s) ==> r == s
  {
    if s != [] && IsStripped(s) {
      assert t == s;
    }
  }

  lemma StripKeepsNoBreak(s: string, t: string, r: string)
    requires t == TrimStart(s) && r == TrimEnd(t)
    ensures NoBreak(s) ==> NoBreak(r)
  {
    if NoBreak(s) {
      NoBreakSuffix(s, |s| - |t|);
      NoBreakPrefix(t, |r|);
    }
  }

  lemma NoBreakSuffix(s: string, i: nat)
    requires i <= |s| && NoBreak(s)
    ensures NoBreak(s[i..])
  {
  }

  lemma NoBreakPrefix(s: string, i: nat)
    requires i <= |s| && NoBreak(s)
    ensures NoBreak(s[..i])
  {
  }

  /** `a` is obtained from `b` by deleting elements: relative order is kept. */
  ghost predicate IsSubsequence<T>(a: seq<T>, b: seq<T>)
    decreases |b|
  {
    if a == [] then true
    else if b == [] then false
    else (a[0] == b[0] && IsSubsequence(a[1..], b[1..])) || IsSubsequence(a, b[1..])
  }

  /** Every line stripped, in order (the list comprehension at line 35). */
  function StripAll(lines: seq<string>): seq<string>
  {
    seq(|lines|, j requires 0 <= j < |lines| => Strip(lines[j]))
  }

  /** The filter at line 36: keeps the non-empty lines. */
  function DropEmpty(lines: seq<string>): (r: seq<string>)
    ensures forall j :: 0 <= j < |r| ==> r[j] != [] && r[j] in lines
    ensures forall j :: 0 <= j < |lines| && lines[j] != [] ==> lines[j] in r
    ensures (forall j :: 0 <= j < |lines| ==> lines[j] != []) ==> r == lines
    ensures forall l :: l != [] ==> multiset(r)[l] == multiset(lines)[l]
  {
    if lines == [] then []
    else
      assert lines == [lines[0]] + lines[1..];
      if lines[0] == [] then DropEmpty(lines[1..])
      else [lines[0]] + DropEmpty(lines[1..])
  }

  /** `"\n".join(lines)` */
  function Join(lines: seq<string>): (r: string)
  {
    if lines == [] then []
    else if |lines| == 1 then lines[0]
    else lines[0] + "\n" + Join(lines[1..])
  }

  /** No piece of `splitlines` contains a separator. */
  lemma {:induction false} SplitLinesNoBreak(s: string)
    ensures forall j :: 0 <= j < |SplitLines(s)| ==> NoBreak(SplitLines(s)[j])
    decreases |s|
  {
    if s != [] {
      var i := FirstBreak(s);
      if i < |s| {
        var rest := s[i + BreakWidth(s, i)..];
        SplitLinesNoBreak(rest);
        var lines := SplitLines(s);
        assert lines == [s[..i]] + SplitLines(rest);
        assert forall j :: 1 <= j < |lines| ==> lines[j] == SplitLines(rest)[j - 1];
      }
    }
  }

  /** The lines `normalize_ocr_text` keeps, before rejoining. */
  function CleanLines(s: string): (lines: seq<string>)
    ensures forall j :: 0 <= j < |lines| ==> lines[j] != [] && IsStripped(lines[j]) && NoBreak(lines[j])
  {
    SplitLinesNoBreak(s);
    DropEmpty(StripAll(SplitLines(s)))
  }

  /** `normalize_ocr_text(text)`. The lines of the result are exactly the kept
      lines: each non-empty, stripped, free of separators, in their original
      order; blank-only input, and only that, normalizes to "". */
  function Normalize(s: string): (r: string)
    ensures SplitLines(r) == CleanLines(s)
    ensures IsSubsequence(SplitLines(r), StripAll(SplitLines(s)))
    ensures r == [] <==> AllSpace(s)
    // the kept lines are rejoined with a single "\n" and no trailing separator
    ensures forall k :: 0 <= k < |r| && IsLineBreak(r[k]) ==> r[k] == '\n'
    ensures r == [] || !IsLineBreak(r[|r| - 1])
  {
    var lines := CleanLines(s);
    SplitJoin(lines);
    JoinSeparators(lines);
    DropEmptyIsSubsequence(StripAll(SplitLines(s)));
    CleanLinesEmpty(s);
    Join(lines)
  }

  /** `splitlines` undoes `"\n".join` on lines without separators, provided
      the last line is not empty (a final empty line leaves only a trailing
      separator, which `splitlines` does not turn into a piece). */
  lemma {:induction false} SplitJoin(lines: seq<string>)
    requires forall j :: 0 <= j < |lines| ==> NoBreak(lines[j])
    requires lines != [] ==> lines[|lines| - 1] != []
    ensures SplitLines(Join(lines)) == lines
  {
    if lines == [] {
    } else if |lines| == 1 {
      assert SplitLines(Join(lines)) == [lines[0]] by {
        assert Join(lines) == lines[0];
        assert FirstBreak(lines[0]) == |lines[0]|;
      }
    } else {
      assert SplitLines(Join(lines[1..])) == lines[1..] by {
        NoBreakTail(lines);
        SplitJoin(lines[1..]);
      }
      SplitJoinCons(lines);
      assert lines == [lines[0]] + lines[1..];
    }
  }

  /** One step of `splitlines` over `"\n".join`: the first line comes off whole. */
  lemma SplitJoinCons(lines: seq<string>)
    requires |lines| > 1 && NoBreak(lines[0])
    ensures SplitLines(Join(lines)) == [lines[0]] + SplitLines(Join(lines[1..]))
  {
    var rest := Join(lines[1..]);
    assert Join(lines) == lines[0] + ("\n" + rest);
    SplitLinesNewline(lines[0], "\n" + rest);
    assert ("\n" + rest)[1..] == rest;
  }

  lemma NoBreakTail(lines: seq<string>)
    requires lines != []
    requires forall j :: 0 <= j < |lines| ==> NoBreak(lines[j])
    ensures forall j :: 0 <= j < |lines| - 1 ==> NoBreak(lines[1..][j])
  {
    forall j | 0 <= j < |lines| - 1 ensures NoBreak(lines[1..][j]) {
      assert lines[1..][j] == lines[j + 1];
    }
  }

  /** A line without separators followed by a `"\n"` is split off whole. */
  lemma SplitLinesNewline(l: string, t: string)
    requires NoBreak(l)
    requires t != [] && t[0] == '\n'
    ensures SplitLines(l + t) == [l] + SplitLines(t[1..])
  {
    var s := l + t;
    FirstBreakAt(l, t);
    assert s[|l|] == '\n';
    assert BreakWidth(s, |l|) == 1;
    assert s[..|l|] == l;
    assert s[|l| + 1..] == t[1..];
  }

  lemma FirstBreakAt(l: string, t: string)
    requires NoBreak(l)
    requires t != [] && IsLineBreak(t[0])
    ensures FirstBreak(l + t) == |l|
  {
    assert (l + t)[|l|] == t[0];
  }

  lemma {:induction false} DropEmptyIsSubsequence(lines: seq<string>)
    ensures IsSubsequence(DropEmpty(lines), lines)
  {
    if lines == [] {
    } else {
      DropEmptyIsSubsequence(lines[1..]);
      if lines[0] != [] {
        var r := DropEmpty(lines);
        assert r[0] == lines[0] && r[1..] == DropEmpty(lines[1..]);
      }
    }
  }

  ghost predicate AllLinesSpace(lines: seq<string>) {
    forall j :: 0 <= j < |lines| ==> AllSpace(lines[j])
  }

  lemma AllLinesSpaceCons(l: string, lines: seq<string>)
    ensures AllLinesSpace([l] + lines) <==> AllSpace(l) && AllLinesSpace(lines)
  {
    var all := [l] + lines;
    assert all[0] == l;
    assert forall j :: 0 <= j < |lines| ==> all[j + 1] == lines[j];
    if AllSpace(l) && AllLinesSpace(lines) {
      forall j | 0 <= j < |all| ensures AllSpace(all[j]) {
        if j > 0 {
          assert all[j] == lines[j - 1];
        }
      }
    }
  }

  /** Cutting `s` around a run of whitespace keeps its blankness. */
  lemma AllSpaceSplit(s: string, i: nat, w: nat)
    requires i + w <= |s|
    requires forall k :: i <= k < i + w ==> IsSpace(s[k])
    ensures AllSpace(s) <==> AllSpace(s[..i]) && AllSpace(s[i + w..])
  {
    if AllSpace(s[..i]) && AllSpace(s[i + w..]) {
      forall k | 0 <= k < |s| ensures IsSpace(s[k]) {
        if k < i {
          assert s[k] == s[..i][k];
        } else if k >= i + w {
          assert s[k] == s[i + w..][k - i - w];
        }
      }
    }
  }

  /** A text is blank exactly when all of its lines are. */
  lemma {:induction false} SplitLinesAllSpace(s: string)
    ensures AllSpace(s) <==> AllLinesSpace(SplitLines(s))
    decreases |s|
  {
    if s != [] {
      var i := FirstBreak(s);
      if i < |s| {
        var w := BreakWidth(s, i);
        var l, rest := s[..i], s[i + w..];
        assert AllLinesSpace(SplitLines(s)) <==> AllSpace(l) && AllLinesSpace(SplitLines(rest)) by {
          assert SplitLines(s) == [l] + SplitLines(rest);
          AllLinesSpaceCons(l, SplitLines(rest));
        }
        assert AllSpace(s) <==> AllSpace(l) && AllSpace(rest) by {
          forall k | i <= k < i + w ensures IsSpace(s[k]) {
            BreakIsSpace(s[k]);
          }
          AllSpaceSplit(s, i, w);
        }
        SplitLinesAllSpace(rest);
      } else {
        assert SplitLines(s) == [s];
        assert AllLinesSpace([s]) <==> AllSpace([s][0]);
      }
    }
  }

  lemma {:induction false} DropEmptyNil(lines: seq<string>)
    ensures DropEmpty(lines) == [] <==> forall j :: 0 <= j < |lines| ==> lines[j] == []
  {
    if lines != [] {
      DropEmptyNil(lines[1..]);
      assert forall j :: 1 <= j < |lines| ==> lines[j] == lines[1..][j - 1];
    }
  }

  /** Stripping and dropping empties leaves nothing exactly when every line is blank. */
  lemma StripAllBlank(lines: seq<string>)
    ensures DropEmpty(StripAll(lines)) == [] <==> AllLinesSpace(lines)
  {
    var stripped := StripAll(lines);
    DropEmptyNil(stripped);
    forall j | 0 <= j < |lines|
      ensures stripped[j] == [] <==> AllSpace(lines[j])
    {
    }
  }

  lemma CleanLinesEmpty(s: string)
    ensures CleanLines(s) == [] <==> AllSpace(s)
  {
    SplitLinesAllSpace(s);
    StripAllBlank(SplitLines(s));
  }

  /** Normalizing twice is the same as normalizing once. */
  lemma Idempotent(s: string)
    ensures Normalize(Normalize(s)) == Normalize(s)
  {
    var r := Normalize(s);
    var lines := CleanLines(s);
    assert SplitLines(r) == lines;
    assert StripAll(lines) == lines;
    assert CleanLines(r) == lines;
  }

  /** Normalizing text made of separator-free lines keeps exactly the lines
      that are not blank, stripped, in their order; a text ending in a
      separator (an empty last line) included. */
  lemma NormalizeJoin(lines: seq<string>)
    requires forall j :: 0 <= j < |lines| ==> NoBreak(lines[j])
    ensures Normalize(Join(lines)) == Join(DropEmpty(StripAll(lines)))
  {
    if lines != [] && lines[|lines| - 1] == [] {
      SplitJoinTrailing(lines);
      DropEmptyStripLastBlank(lines);
    } else {
      SplitJoin(lines);
    }
  }

  /** With an empty last line, the separator `"\n".join` leaves at the end is
      not followed by a piece for `splitlines`: the empty last line is lost. */
  lemma {:induction false} SplitJoinTrailing(lines: seq<string>)
    requires forall j :: 0 <= j < |lines| ==> NoBreak(lines[j])
    requires lines != [] && lines[|lines| - 1] == []
    ensures SplitLines(Join(lines)) == lines[..|lines| - 1]
  {
    if |lines| == 1 {
      assert Join(lines) == [];
    } else {
      assert SplitLines(Join(lines[1..])) == lines[1..][..|lines| - 2] by {
        NoBreakTail(lines);
        SplitJoinTrailing(lines[1..]);
      }
      SplitJoinCons(lines);
      InitCons(lines);
    }
  }

  lemma InitCons(lines: seq<string>)
    requires |lines| > 1
    ensures lines[..|lines| - 1] == [lines[0]] + lines[1..][..|lines| - 2]
  {
  }

  /** A blank last line contributes nothing to the kept lines. */
  lemma DropEmptyStripLastBlank(lines: seq<string>)
    requires lines != [] && lines[|lines| - 1] == []
    ensures DropEmpty(StripAll(lines)) == DropEmpty(StripAll(lines[..|lines| - 1]))
  {
    var init := lines[..|lines| - 1];
    assert Strip([]) == [] by {
      assert IsStripped([]);
    }
    assert StripAll(lines) == StripAll(init) + [[]];
    DropEmptySnocEmpty(StripAll(init));
  }

  lemma {:induction false} DropEmptySnocEmpty(lines: seq<string>)
    ensures DropEmpty(lines + [[]]) == DropEmpty(lines)
  {
    if lines == [] {
      var blank: seq<string> := [[]];
      assert lines + [[]] == blank;
      assert blank[1..] == [];
    } else {
      assert (lines + [[]])[1..] == lines[1..] + [[]];
      DropEmptySnocEmpty(lines[1..]);
    }
  }

  /** `"\n".join` puts a single `"\n"` between lines and nothing after the
      last one: on lines without separators, every break in the result is a
      `"\n"`, and a non-empty last line leaves no break at the end. */
  lemma {:induction false} JoinSeparators(lines: seq<string>)
    requires forall j :: 0 <= j < |lines| ==> NoBreak(lines[j])
    ensures forall k :: 0 <= k < |Join(lines)| && IsLineBreak(Join(lines)[k]) ==> Join(lines)[k] == '\n'
    ensures lines != [] && lines[|lines| - 1] != [] ==>
      Join(lines) != [] && !IsLineBreak(Join(lines)[|Join(lines)| - 1])
  {
    if |lines| > 1 {
      var l, tail := lines[0], lines[1..];
      assert forall j :: 0 <= j < |tail| ==> NoBreak(tail[j]) by {
        forall j | 0 <= j < |tail| ensures NoBreak(tail[j]) {
          assert tail[j] == lines[j + 1];
        }
      }
      JoinSeparators(tail);
      var rest := Join(tail);
      var r := Join(lines);
      assert r == l + "\n" + rest;
      forall k | 0 <= k < |r| && IsLineBreak(r[k]) ensures r[k] == '\n' {
        if k > |l| {
          assert r[k] == rest[k - |l| - 1];
        }
      }
      if lines[|lines| - 1] != [] {
        assert tail[|tail| - 1] == lines[|lines| - 1];
        assert r[|r| - 1] == rest[|rest| - 1];
      }
    } else if |lines| == 1 {
      assert Join(lines) == lines[0];
      assert NoBreak(lines[0]);
    }
  }
}
