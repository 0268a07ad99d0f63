/**
 * The string algorithms of the WHATWG Infra Standard, section 4.7 (Strings), as
 * src/strings.ts implements them on JavaScript strings.
 *
 * `stringMatches`, `collectCodepoints`, `convertStringToScalarValue` and `stripNewlines`
 * walk their input by code point (`for...of`); `normalizeNewlines`, `stripAsciiWsp` and
 * `stripCollapseAsciiWsp` walk it by code unit (`s[i]`, `s.length`). Each loop is a method
 * proved equal to a specification function, and the properties are lemmas about those
 * functions.
 */
module Strings {
  import opened Wrappers
  import opened CodePointClassifier
  import opened Utf16

  const LF: CodeUnit := 0x0A
  const CR: CodeUnit := 0x0D
  const SPACE: CodeUnit := 0x20
  const REPLACEMENT_CHARACTER: CodePoint := 0xFFFD

  // ===========================================================================
  // stringMatches and its three instances
  // ===========================================================================

  /** Every code point of `s` satisfies `p`. */
  predicate Matches(s: JsString, p: int -> bool) {
    forall k :: 0 <= k < |CodePoints(s)| ==> p(CodePoints(s)[k])
  }

  /** Tests the code points of `s` in order and answers false at the first that fails `p`. */
  method StringMatches(s: JsString, p: int -> bool) returns (b: bool)
    ensures b <==> Matches(s, p)
  {
    var i := 0;
    ghost var n, cps := 0, CodePoints(s);
    WalkStart(s);
    while i < |s|
      invariant 0 <= i <= |s| && n <= |cps|
      invariant cps[n..] == CodePointsFrom(s, i)
      invariant forall k :: 0 <= k < n ==> p(cps[k])
    {
      var codepoint := CodePointAt(s, i);
      WalkNext(s, i, n);
      if !p(codepoint) {
        return false;
      }
      n := n + 1;
      i := i + CodePointWidth(s, i);
    }
    WalkEnd(s, n);
    return true;
  }

  /** An ASCII string: every code point is an ASCII code point. */
  predicate IsStringAscii(s: JsString) {
    Matches(s, IsAscii)
  }

  /** An isomorphic string: every code point lies in U+0000..U+00FF. */
  predicate IsStringIsomorphic(s: JsString) {
    Matches(s, cp => IsCodePointBetween(Some(cp), 0x00, 0xFF))
  }

  /** A scalar value string: every code point is a scalar value. */
  predicate IsStringScalarValue(s: JsString) {
    Matches(s, IsScalarValue)
  }

  /** `Matches` read as membership: every code point occurring in `s` satisfies `p`. */
  lemma MatchesByMembership(s: JsString, p: int -> bool)
    ensures Matches(s, p) <==> forall cp :: cp in CodePoints(s) ==> p(cp)
  {
    var cps := CodePoints(s);
    if Matches(s, p) {
      forall cp | cp in cps
        ensures p(cp)
      {
        var k :| 0 <= k < |cps| && cps[k] == cp;
      }
    }
  }

  /** A string is ASCII exactly when each of its code units is at most 0x7F. */
  lemma StringAsciiByUnits(s: JsString)
    ensures IsStringAscii(s) <==> forall u :: u in s ==> u <= 0x7F
  {
    MatchesByMembership(s, IsAscii);
    CodePointsBelow(s, 0x7F);
  }

  /** A string is isomorphic exactly when each of its code units is at most 0xFF, and every
      ASCII string is isomorphic. */
  lemma StringIsomorphicByUnits(s: JsString)
    ensures IsStringIsomorphic(s) <==> forall u :: u in s ==> u <= 0xFF
    ensures IsStringAscii(s) ==> IsStringIsomorphic(s)
  {
    MatchesByMembership(s, cp => IsCodePointBetween(Some(cp), 0x00, 0xFF));
    CodePointsBelow(s, 0xFF);
  }

  /** A string fails to be a scalar value string exactly when one of its code points is a
      surrogate. */
  lemma StringScalarValueIffNoSurrogate(s: JsString)
    ensures !IsStringScalarValue(s) <==> exists k :: 0 <= k < |CodePoints(s)| && IsSurrogate(CodePoints(s)[k])
  {
    var cps := CodePoints(s);
    if !IsStringScalarValue(s) {
      var k :| 0 <= k < |cps| && !IsScalarValue(cps[k]);
      assert 0 <= k < |CodePoints(s)| && IsSurrogate(CodePoints(s)[k]);
    } else {
      forall k | 0 <= k < |cps|
        ensures !IsSurrogate(cps[k])
      {
        assert IsScalarValue(cps[k]);
      }
    }
  }

  /** The test cases of `stringMatches`: 'bbbb' matches "is b" and 'bbba' does not. */
  lemma MatchesCases()
    ensures Matches([0x62, 0x62, 0x62, 0x62], cp => cp == 0x62)
    ensures !Matches([0x62, 0x62, 0x62, 0x61], cp => cp == 0x62)
  {
    CodePointsWithoutSurrogates([0x62, 0x62, 0x62, 0x62]);
    CodePointsWithoutSurrogates([0x62, 0x62, 0x62, 0x61]);
    assert CodePoints([0x62, 0x62, 0x62, 0x61])[3] == 0x61;
  }

  /** The test cases of `isStringAscii`: '', 'foo', 'bar' and U+0000 U+007F are ASCII. */
  lemma StringAsciiCases()
    ensures IsStringAscii([]) && IsStringAscii([0x00, 0x7F])
    ensures IsStringAscii([0x66, 0x6F, 0x6F]) && IsStringAscii([0x62, 0x61, 0x72])
  {
    assert IsStringAscii([0x00, 0x7F]) by {
      StringAsciiByUnits([0x00, 0x7F]);
    }
    assert IsStringAscii([0x66, 0x6F, 0x6F]) by {
      StringAsciiByUnits([0x66, 0x6F, 0x6F]);
    }
    assert IsStringAscii([0x62, 0x61, 0x72]) by {
      StringAsciiByUnits([0x62, 0x61, 0x72]);
    }
  }

  /** The test cases of `isStringIsomorphic`: U+0000 U+00FF is isomorphic, U+0000 U+0100 is not. */
  lemma StringIsomorphicCases()
    ensures IsStringIsomorphic([0x00, 0xFF]) && !IsStringIsomorphic([0x00, 0x100])
  {
    StringIsomorphicByUnits([0x00, 0xFF]);
    StringIsomorphicByUnits([0x00, 0x100]);
    assert 0x100 in [0x00, 0x100];
  }

  /** The test cases of `isStringScalarValue` that pass: '', and U+0000 followed by U+007F,
      U+00FF, U+D7FF or U+E000. */
  lemma StringScalarValueCases()
    ensures IsStringScalarValue([])
    ensures IsStringScalarValue([0x00, 0x7F]) && IsStringScalarValue([0x00, 0xFF])
    ensures IsStringScalarValue([0x00, 0xD7FF]) && IsStringScalarValue([0x00, 0xE000])
  {
    assert IsStringScalarValue([0x00, 0x7F]) by {
      CodePointsWithoutSurrogates([0x00, 0x7F]);
    }
    assert IsStringScalarValue([0x00, 0xFF]) by {
      CodePointsWithoutSurrogates([0x00, 0xFF]);
    }
    assert IsStringScalarValue([0x00, 0xD7FF]) by {
      CodePointsWithoutSurrogates([0x00, 0xD7FF]);
    }
    assert IsStringScalarValue([0x00, 0xE000]) by {
      CodePointsWithoutSurrogates([0x00, 0xE000]);
    }
  }

  /** A lone surrogate of either kind is not a scalar value string. */
  lemma LoneSurrogateCases(u: CodeUnit)
    requires IsSurrogate(u)
    ensures !IsStringScalarValue([u])
  {
    assert CodePoints([u])[0] == u;
  }

  // ===========================================================================
  // collectCodepoints
  // ===========================================================================

  /** `n` is the length of the longest run at the front of `cps` whose code points all satisfy
      `p`: the first `n` do, and the one after them, if any, does not. */
  predicate IsRunLength(cps: seq<CodePoint>, p: int -> bool, n: nat) {
    n <= |cps| && (forall k :: 0 <= k < n ==> p(cps[k])) && (n < |cps| ==> !p(cps[n]))
  }

  /** The longest run of code points at the front of `cps` that all satisfy `p`, taken one code
      point at a time: the reference definition of what is collected. */
  function CollectedRun(cps: seq<CodePoint>, p: int -> bool): seq<CodePoint> {
    if cps == [] || !p(cps[0]) then [] else [cps[0]] + CollectedRun(cps[1..], p)
  }

  /** The reference run is a prefix of `cps` and has the run length. */
  lemma {:induction false} CollectedRunShape(cps: seq<CodePoint>, p: int -> bool)
    ensures var run := CollectedRun(cps, p);
      IsRunLength(cps, p, |run|) && run == cps[..|run|]
  {
    if cps != [] && p(cps[0]) {
      CollectedRunShape(cps[1..], p);
      var tail := CollectedRun(cps[1..], p);
      assert forall k :: 0 < k <= |tail| ==> cps[k] == cps[1..][k - 1];
    }
  }

  /** There is one run length, so the prefix it gives is the reference run. */
  lemma {:induction false} CollectedRunUnique(cps: seq<CodePoint>, p: int -> bool, n: nat)
    requires IsRunLength(cps, p, n)
    ensures CollectedRun(cps, p) == cps[..n]
  {
    if n > 0 {
      assert IsRunLength(cps[1..], p, n - 1) by {
        assert forall k :: 0 <= k < |cps| - 1 ==> cps[1..][k] == cps[k + 1];
      }
      CollectedRunUnique(cps[1..], p, n - 1);
      assert cps[..n] == [cps[0]] + cps[1..][..n - 1];
    }
  }

  /** The index where a walk from index `i` that collects code points satisfying `p` stops:
      the end of `s`, or the first code point that fails `p`. */
  function RunEnd(s: JsString, i: nat, p: int -> bool): (e: nat)
    ensures i <= |s| ==> i <= e <= |s|
    decreases |s| - i
  {
    if i >= |s| || !p(CodePointAt(s, i)) then i else RunEnd(s, i + CodePointWidth(s, i), p)
  }

  /** The number of code points that walk collects. */
  function RunCount(s: JsString, i: nat, p: int -> bool): nat
    decreases |s| - i
  {
    if i >= |s| || !p(CodePointAt(s, i)) then 0 else 1 + RunCount(s, i + CodePointWidth(s, i), p)
  }

  /** One step of the walk: a code point satisfying `p` is collected and the walk goes on past
      its units; one that fails `p` ends the walk where it stands. */
  lemma RunStep(s: JsString, i: nat, p: int -> bool)
    requires i < |s|
    ensures i + CodePointWidth(s, i) <= |s|
    ensures p(CodePointAt(s, i)) ==>
      RunEnd(s, i + CodePointWidth(s, i), p) == RunEnd(s, i, p) &&
      RunCount(s, i, p) == 1 + RunCount(s, i + CodePointWidth(s, i), p)
    ensures !p(CodePointAt(s, i)) ==> RunEnd(s, i, p) == i && RunCount(s, i, p) == 0
  {
  }

  /** From index `i`, the walk collects a maximal run of the code points that follow, and the
      units it passes are their encoding. */
  lemma {:induction false} RunFromSpec(s: JsString, i: nat, p: int -> bool)
    requires i <= |s|
    ensures var cps, m := CodePointsFrom(s, i), RunCount(s, i, p);
      IsRunLength(cps, p, m) && s[i..RunEnd(s, i, p)] == EncodeAll(cps[..m])
    decreases |s| - i
  {
    if i < |s| {
      var c, w := CodePointAt(s, i), CodePointWidth(s, i);
      if p(c) {
        RunFromSpec(s, i + w, p);
        RunSpecStep(s, i, p);
      } else {
        assert CodePointsFrom(s, i)[0] == c;
        assert RunCount(s, i, p) == 0 && RunEnd(s, i, p) == i;
        assert s[i..i] == [];
      }
    } else {
      assert CodePointsFrom(s, i) == [];
    }
  }

  /** The inductive step of `RunFromSpec`, at a code point that satisfies `p`. */
  lemma RunSpecStep(s: JsString, i: nat, p: int -> bool)
    requires i < |s| && p(CodePointAt(s, i))
    requires i + CodePointWidth(s, i) <= |s|
    requires var j := i + CodePointWidth(s, i);
      var cps, m := CodePointsFrom(s, j), RunCount(s, j, p);
      IsRunLength(cps, p, m) && s[j..RunEnd(s, j, p)] == EncodeAll(cps[..m])
    ensures var cps, m := CodePointsFrom(s, i), RunCount(s, i, p);
      IsRunLength(cps, p, m) && s[i..RunEnd(s, i, p)] == EncodeAll(cps[..m])
  {
    var c, w := CodePointAt(s, i), CodePointWidth(s, i);
    var tail := CodePointsFrom(s, i + w);
    var m := RunCount(s, i + w, p);
    var e := RunEnd(s, i + w, p);
    assert CodePointsFrom(s, i) == [c] + tail;
    assert RunCount(s, i, p) == m + 1 && RunEnd(s, i, p) == e;
    RunLengthCons(c, tail, p, m);
    EncodeAllCons(c, tail[..m]);
    EncodeCodePointAt(s, i);
    SliceJoin(s, i, i + w, e);
  }

  /** A run satisfying `p` with one more such code point in front is one longer. */
  lemma RunLengthCons(c: CodePoint, tail: seq<CodePoint>, p: int -> bool, m: nat)
    requires p(c) && IsRunLength(tail, p, m)
    ensures IsRunLength([c] + tail, p, m + 1) && ([c] + tail)[..m + 1] == [c] + tail[..m]
  {
    var cps := [c] + tail;
    assert forall k :: 1 <= k < |cps| ==> cps[k] == tail[k - 1];
  }

  lemma SliceJoin(s: JsString, i: nat, j: nat, e: nat)
    requires i <= j <= e <= |s|
    ensures s[i..e] == s[i..j] + s[j..e]
  {
  }

  /** Appending the units from `i` to `j` to those before `i` gives those before `j`. */
  lemma SliceGrow(s: JsString, i: nat, j: nat)
    requires i <= j <= |s|
    ensures s[..i] + s[i..j] == s[..j]
  {
  }

  /** Collects the code points of `s[position..]` while they satisfy `p`. As in the source,
      `position` indexes code units while `newPosition` advances once per code point. */
  method CollectCodepoints(s: JsString, position: nat, p: int -> bool)
    returns (result: JsString, newPosition: nat)
    ensures position >= |s| ==> result == [] && newPosition == position
    ensures position < |s| ==>
      var cps := CodePoints(s[position..]);
      position <= newPosition && IsRunLength(cps, p, newPosition - position) &&
      result == EncodeAll(cps[..newPosition - position])
  {
    if position >= |s| || s == [] {
      return [], position;
    }
    newPosition := position;
    result := [];
    var rest := s[position..];
    var i := 0;
    ghost var end, count := RunEnd(rest, 0, p), RunCount(rest, 0, p);
    while i < |rest|
      invariant 0 <= i <= |rest| && position <= newPosition
      invariant RunEnd(rest, i, p) == end
      invariant newPosition - position + RunCount(rest, i, p) == count
      invariant result == rest[..i]
    {
      var w := CodePointWidth(rest, i);
      var codePoint := CodePointAt(rest, i);
      if p(codePoint) {
        CollectStep(rest, i, p, result, newPosition - position, end, count);
        result := result + rest[i..i + w];
        newPosition := newPosition + 1;
        i := i + w;
      } else {
        RunStep(rest, i, p);
        break;
      }
    }
    assert i == end && newPosition - position == count;
    CollectedPoints(s, position, p, result, newPosition - position);
  }

  /** The loop invariant of `collectCodepoints` survives collecting one more code point. */
  lemma CollectStep(rest: JsString, i: nat, p: int -> bool, result: JsString, n: int, end: nat, count: nat)
    requires i < |rest| && p(CodePointAt(rest, i))
    requires RunEnd(rest, i, p) == end && n + RunCount(rest, i, p) == count
    requires result == rest[..i]
    ensures var j := i + CodePointWidth(rest, i);
      j <= |rest| && RunEnd(rest, j, p) == end &&
      n + 1 + RunCount(rest, j, p) == count && result + rest[i..j] == rest[..j]
  {
    RunStep(rest, i, p);
    SliceGrow(rest, i, i + CodePointWidth(rest, i));
  }

  /** What the walk over `s[position..]` collects, counted in code points. */
  lemma CollectedPoints(s: JsString, position: nat, p: int -> bool, result: JsString, m: nat)
    requires position < |s|
    requires result == s[position..][..RunEnd(s[position..], 0, p)]
    requires m == RunCount(s[position..], 0, p)
    ensures var cps := CodePoints(s[position..]);
      IsRunLength(cps, p, m) && result == EncodeAll(cps[..m])
  {
    var rest := s[position..];
    RunFromSpec(rest, 0, p);
    WalkStart(rest);
    assert rest[0..RunEnd(rest, 0, p)] == rest[..RunEnd(rest, 0, p)];
  }

  /** The collected string holds exactly the collected code points, and the collected code
      units are the ones at the front of `s[position..]`. */
  lemma CollectedRunEncoding(s: JsString, position: nat, p: int -> bool, n: nat)
    requires position < |s|
    requires IsRunLength(CodePoints(s[position..]), p, n)
    ensures var run := CodePoints(s[position..])[..n];
      CodePoints(EncodeAll(run)) == run &&
      position + |EncodeAll(run)| <= |s| &&
      EncodeAll(run) == s[position..position + |EncodeAll(run)|]
  {
    var rest := s[position..];
    CodePointsPrefix(rest, n);
    var e := EncodeAll(CodePoints(rest)[..n]);
    assert rest[..|e|] == s[position..position + |e|];
  }

  /** When no collected code point is supplementary, counting code points and counting code
      units agree, so `newPosition` is the index just past the collected units. */
  lemma {:induction false} CollectedRunWithoutSupplementary(run: seq<CodePoint>)
    requires forall k :: 0 <= k < |run| ==> run[k] < 0x1_0000
    ensures |EncodeAll(run)| == |run|
  {
    if run != [] {
      CollectedRunWithoutSupplementary(run[1..]);
    }
  }

  /** The source's test case: ('test1234', 0, isAsciiAlpha) collects 'test' and moves to 4. */
  lemma CollectCases(s: JsString)
    requires s == [0x74, 0x65, 0x73, 0x74, 0x31, 0x32, 0x33, 0x34]
    ensures var cps := CodePoints(s[0..]);
      IsRunLength(cps, IsAsciiAlpha, 4) && EncodeAll(cps[..4]) == s[..4]
  {
    assert s[0..] == s;
    CodePointsWithoutSurrogates(s);
    assert !IsAsciiAlpha(s[4]);
    assert EncodeAll(s[..4]) == s[..4] by {
      CodePointsWithoutSurrogates(s[..4]);
      EncodeDecode(s[..4]);
    }
  }

  /** As written, `newPosition` counts code points: for U+1F600 followed by 'a' (three code
      units) collected whole from 0, the run length is 2 while the collected string, which is
      the whole string, is 3 code units long. */
  lemma CollectCodepointsUndercounts(s: JsString)
    requires s == [0xD83D, 0xDE00, 0x61]
    ensures var cps := CodePoints(s[0..]);
      IsRunLength(cps, cp => true, 2) && EncodeAll(cps[..2]) == s && |s| == 3
  {
    assert s[0..] == s;
    assert PairAt(s, 0);
    assert s[2..] == [0x61];
    assert CodePoints([0x61]) == [0x61];
    assert CodePoints(s) == [0x1F600, 0x61];
    EncodeDecode(s);
  }

  /** Collecting as the source intends: the new position advances by the code units of each
      collected code point, so it indexes the same string `position` indexes and
      `s[position..newPosition]` is exactly the collected string. */
  method CollectCodepointsInCodeUnits(s: JsString, position: nat, p: int -> bool)
    returns (result: JsString, newPosition: nat)
    ensures position >= |s| ==> result == [] && newPosition == position
    ensures position < |s| ==>
      var cps := CodePoints(s[position..]);
      position <= newPosition <= |s| && result == s[position..newPosition] &&
      IsRunLength(cps, p, |CodePoints(result)|) && CodePoints(result) == cps[..|CodePoints(result)|]
  {
    if position >= |s| || s == [] {
      return [], position;
    }
    newPosition := position;
    result := [];
    var rest := s[position..];
    var i := 0;
    while i < |rest|
      invariant 0 <= i <= |rest|
      invariant RunEnd(rest, i, p) == RunEnd(rest, 0, p)
      invariant result == rest[..i]
      invariant newPosition == position + i
    {
      var w := CodePointWidth(rest, i);
      var codePoint := CodePointAt(rest, i);
      RunStep(rest, i, p);
      if p(codePoint) {
        SliceGrow(rest, i, i + w);
        result := result + rest[i..i + w];
        newPosition := newPosition + w;
        i := i + w;
      } else {
        break;
      }
    }
    CollectedUnits(s, position, p, result, newPosition);
  }

  /** What the walk over `s[position..]` collects, counted in code units. */
  lemma CollectedUnits(s: JsString, position: nat, p: int -> bool, result: JsString, newPosition: nat)
    requires position < |s|
    requires newPosition == position + RunEnd(s[position..], 0, p)
    requires result == s[position..][..RunEnd(s[position..], 0, p)]
    ensures var cps := CodePoints(s[position..]);
      position <= newPosition <= |s| && result == s[position..newPosition] &&
      IsRunLength(cps, p, |CodePoints(result)|) && CodePoints(result) == cps[..|CodePoints(result)|]
  {
    var rest := s[position..];
    var m := RunCount(rest, 0, p);
    RunFromSpec(rest, 0, p);
    WalkStart(rest);
    CodePointsPrefix(rest, m);
    assert rest[0..RunEnd(rest, 0, p)] == rest[..RunEnd(rest, 0, p)];
  }

  // ===========================================================================
  // convertStringToScalarValue
  // ===========================================================================

  /** A surrogate becomes U+FFFD REPLACEMENT CHARACTER; any other code point stays. */
  function ScalarValueOf(cp: CodePoint): CodePoint {
    if IsSurrogate(cp) then REPLACEMENT_CHARACTER else cp
  }

  function ReplaceSurrogates(cps: seq<CodePoint>): seq<CodePoint> {
    seq(|cps|, k requires 0 <= k < |cps| => ScalarValueOf(cps[k]))
  }

  /** The string that `convertStringToScalarValue` builds. */
  function ScalarValueString(s: JsString): JsString {
    EncodeAll(ReplaceSurrogates(CodePoints(s)))
  }

  /** Appends each code point of `s`, or U+FFFD in place of a surrogate. */
  method ConvertStringToScalarValue(s: JsString) returns (scalarValueString: JsString)
    ensures scalarValueString == ScalarValueString(s)
  {
    scalarValueString := [];
    var i := 0;
    while i < |s|
      invariant 0 <= i <= |s|
      invariant scalarValueString + ConvertedFrom(s, i) == ConvertedFrom(s, 0)
    {
      var w := CodePointWidth(s, i);
      var codePoint := CodePointAt(s, i);
      ConvertedFromStep(s, i, scalarValueString);
      scalarValueString := scalarValueString + (if IsSurrogate(codePoint) then [0xFFFD] else s[i..i + w]);
      i := i + w;
    }
    ConvertedFromSpec(s, 0);
    WalkStart(s);
  }

  /** The units `convertStringToScalarValue` appends once it stands at index `i`. */
  function ConvertedFrom(s: JsString, i: nat): JsString
    decreases |s| - i
  {
    if i >= |s| then []
    else
      (if IsSurrogate(CodePointAt(s, i)) then [0xFFFD] else s[i..i + CodePointWidth(s, i)])
        + ConvertedFrom(s, i + CodePointWidth(s, i))
  }

  /** One step of `convertStringToScalarValue`: the units of the code point at `i`, or the unit
      of U+FFFD for a surrogate, are appended. */
  lemma ConvertedFromStep(s: JsString, i: nat, acc: JsString)
    requires i < |s|
    ensures i + CodePointWidth(s, i) <= |s|
    ensures var w := CodePointWidth(s, i);
      acc + (if IsSurrogate(CodePointAt(s, i)) then [0xFFFD] else s[i..i + w]) + ConvertedFrom(s, i + w)
        == acc + ConvertedFrom(s, i)
  {
  }

  /** From index `i` on, `convertStringToScalarValue` appends the encoding of the code points
      with their surrogates replaced. */
  lemma {:induction false} ConvertedFromSpec(s: JsString, i: nat)
    ensures ConvertedFrom(s, i) == EncodeAll(ReplaceSurrogates(CodePointsFrom(s, i)))
    decreases |s| - i
  {
    if i < |s| {
      var c := CodePointAt(s, i);
      var w := CodePointWidth(s, i);
      var tail := CodePointsFrom(s, i + w);
      ConvertedFromSpec(s, i + w);
      assert ReplaceSurrogates([c] + tail) == [ScalarValueOf(c)] + ReplaceSurrogates(tail);
      EncodeAllAppend([ScalarValueOf(c)], ReplaceSurrogates(tail));
      assert EncodeAll([ScalarValueOf(c)]) == Encode(ScalarValueOf(c)) by {
        EncodeAllAppend([ScalarValueOf(c)], []);
      }
      EncodeCodePointAt(s, i);
    }
  }

  /** From index `i` on, `convertStringToScalarValue` appends as many code units as it reads:
      a lone surrogate is one unit, and so is U+FFFD. */
  lemma {:induction false} ConvertedFromLength(s: JsString, i: nat)
    requires i <= |s|
    ensures |ConvertedFrom(s, i)| == |s| - i
    decreases |s| - i
  {
    if i < |s| {
      ConvertedFromLength(s, i + CodePointWidth(s, i));
    }
  }

  /** Converting keeps the length in code units. */
  lemma ScalarValueStringLength(s: JsString)
    ensures |ScalarValueString(s)| == |s|
  {
    ConvertedFromLength(s, 0);
    ConvertedFromSpec(s, 0);
    WalkStart(s);
  }

  /** The converted string has one code point per code point of `s`: each surrogate replaced by
      U+FFFD, everything else unchanged; so it is a scalar value string. */
  lemma ScalarValueStringCodePoints(s: JsString)
    ensures CodePoints(ScalarValueString(s)) == ReplaceSurrogates(CodePoints(s))
    ensures |CodePoints(ScalarValueString(s))| == |CodePoints(s)|
    ensures forall k :: 0 <= k < |CodePoints(s)| ==>
      CodePoints(ScalarValueString(s))[k] == if IsSurrogate(CodePoints(s)[k]) then 0xFFFD else CodePoints(s)[k]
    ensures IsStringScalarValue(ScalarValueString(s))
  {
    var cps := ReplaceSurrogates(CodePoints(s));
    ScalarValuesWellFormed(cps);
    DecodeEncode(cps);
  }

  /** A scalar value string is left as it is. */
  lemma ScalarValueStringKeepsScalarStrings(s: JsString)
    requires IsStringScalarValue(s)
    ensures ScalarValueString(s) == s
  {
    assert ReplaceSurrogates(CodePoints(s)) == CodePoints(s);
    EncodeDecode(s);
  }

  /** Converting twice is converting once. */
  lemma ScalarValueStringIdempotent(s: JsString)
    ensures ScalarValueString(ScalarValueString(s)) == ScalarValueString(s)
  {
    ScalarValueStringCodePoints(s);
    ScalarValueStringKeepsScalarStrings(ScalarValueString(s));
  }

  /** The source's test cases: '' and 'test' are kept, a lone U+D800 or U+DFFF becomes U+FFFD. */
  lemma ScalarValueStringCases()
    ensures ScalarValueString([]) == []
    ensures ScalarValueString([0xD800]) == [0xFFFD]
    ensures ScalarValueString([0xDFFF]) == [0xFFFD]
    ensures ScalarValueString([0x74, 0x65, 0x73, 0x74]) == [0x74, 0x65, 0x73, 0x74]
  {
    assert CodePoints([0xD800]) == [0xD800];
    assert CodePoints([0xDFFF]) == [0xDFFF];
    assert ReplaceSurrogates([0xD800]) == [0xFFFD];
    assert ReplaceSurrogates([0xDFFF]) == [0xFFFD];
    CodePointsWithoutSurrogates([0x74, 0x65, 0x73, 0x74]);
    ScalarValueStringKeepsScalarStrings([0x74, 0x65, 0x73, 0x74]);
  }

  // ===========================================================================
  // stripNewlines
  // ===========================================================================

  /** `cps` without its U+000A and U+000D code points, the others kept in order. */
  function WithoutNewlines(cps: seq<CodePoint>): seq<CodePoint> {
    if cps == [] then []
    else (if cps[0] == LF || cps[0] == CR then [] else [cps[0]]) + WithoutNewlines(cps[1..])
  }

  /** The string that `stripNewlines` builds from the code points it keeps. */
  function NewlinesStripped(s: JsString): JsString {
    EncodeAll(WithoutNewlines(CodePoints(s)))
  }

  /** `s` without its 0x0A and 0x0D code units. */
  function DropNewlineUnits(s: JsString): (r: JsString)
    ensures LF !in r && CR !in r
  {
    if s == [] then []
    else (if s[0] == LF || s[0] == CR then [] else [s[0]]) + DropNewlineUnits(s[1..])
  }

  /** Appends every code point of `s` other than LF and CR. */
  method StripNewlines(s: JsString) returns (stripped: JsString)
    ensures stripped == NewlinesStripped(s)
  {
    stripped := [];
    var i := 0;
    while i < |s|
      invariant 0 <= i <= |s|
      invariant stripped + StrippedFrom(s, i) == StrippedFrom(s, 0)
    {
      var w := CodePointWidth(s, i);
      var codePoint := CodePointAt(s, i);
      if codePoint != LF && codePoint != CR {
        StrippedFromKeep(s, i, stripped);
        stripped := stripped + s[i..i + w];
      } else {
        StrippedFromSkip(s, i);
      }
      i := i + w;
    }
    StrippedFromSpec(s, 0);
    WalkStart(s);
  }

  /** The units `stripNewlines` appends once it stands at index `i`. */
  function StrippedFrom(s: JsString, i: nat): JsString
    decreases |s| - i
  {
    if i >= |s| then []
    else
      var c := CodePointAt(s, i);
      (if c == LF || c == CR then [] else s[i..i + CodePointWidth(s, i)])
        + StrippedFrom(s, i + CodePointWidth(s, i))
  }

  /** One step of `stripNewlines`: a line break appends nothing. */
  lemma StrippedFromSkip(s: JsString, i: nat)
    requires i < |s| && (CodePointAt(s, i) == LF || CodePointAt(s, i) == CR)
    ensures i + CodePointWidth(s, i) <= |s|
    ensures StrippedFrom(s, i + CodePointWidth(s, i)) == StrippedFrom(s, i)
  {
    assert StrippedFrom(s, i) == [] + StrippedFrom(s, i + CodePointWidth(s, i));
  }

  /** One step of `stripNewlines`: any other code point appends its own units. */
  lemma StrippedFromKeep(s: JsString, i: nat, acc: JsString)
    requires i < |s| && CodePointAt(s, i) != LF && CodePointAt(s, i) != CR
    ensures i + CodePointWidth(s, i) <= |s|
    ensures var w := CodePointWidth(s, i);
      acc + s[i..i + w] + StrippedFrom(s, i + w) == acc + StrippedFrom(s, i)
  {
    var w := CodePointWidth(s, i);
    Associate(acc, s[i..i + w], StrippedFrom(s, i + w));
  }

  /** From index `i` on, `stripNewlines` appends the encoding of the code points kept. */
  lemma {:induction false} StrippedFromSpec(s: JsString, i: nat)
    ensures StrippedFrom(s, i) == EncodeAll(WithoutNewlines(CodePointsFrom(s, i)))
    decreases |s| - i
  {
    if i < |s| {
      var c := CodePointAt(s, i);
      var w := CodePointWidth(s, i);
      var tail := CodePointsFrom(s, i + w);
      StrippedFromSpec(s, i + w);
      WithoutNewlinesAppend([c], tail);
      assert WithoutNewlines([c]) == if c == LF || c == CR then [] else [c] by {
        assert [c][1..] == [];
      }
      EncodeAllAppend(WithoutNewlines([c]), WithoutNewlines(tail));
      EncodeCodePointAt(s, i);
    }
  }

  lemma {:induction false} WithoutNewlinesAppend(a: seq<CodePoint>, b: seq<CodePoint>)
    ensures WithoutNewlines(a + b) == WithoutNewlines(a) + WithoutNewlines(b)
  {
    if a == [] {
      assert a + b == b;
    } else {
      assert (a + b)[1..] == a[1..] + b;
      WithoutNewlinesAppend(a[1..], b);
    }
  }

  lemma {:induction false} DropNewlineUnitsAppend(a: JsString, b: JsString)
    ensures DropNewlineUnits(a + b) == DropNewlineUnits(a) + DropNewlineUnits(b)
  {
    if a == [] {
      assert a + b == b;
    } else {
      assert (a + b)[1..] == a[1..] + b;
      DropNewlineUnitsAppend(a[1..], b);
    }
  }

  /** Removing the LF and CR code points removes exactly the 0x0A and 0x0D code units, since
      neither can be half of a surrogate pair. */
  lemma {:induction false} NewlinesStrippedByUnits(s: JsString)
    ensures NewlinesStripped(s) == DropNewlineUnits(s)
    decreases |s|
  {
    if s != [] {
      var w := CodePointWidth(s, 0);
      var c := CodePointAt(s, 0);
      var kept: seq<CodePoint> := if c == LF || c == CR then [] else [c];
      var tail := WithoutNewlines(CodePoints(s[w..]));
      assert WithoutNewlines(CodePoints(s)) == kept + tail by {
        assert CodePoints(s) == [c] + CodePoints(s[w..]);
        assert ([c] + CodePoints(s[w..]))[1..] == CodePoints(s[w..]);
      }
      assert EncodeAll(kept + tail) == EncodeAll(kept) + DropNewlineUnits(s[w..]) by {
        EncodeAllAppend(kept, tail);
        NewlinesStrippedByUnits(s[w..]);
      }
      assert DropNewlineUnits(s) == DropNewlineUnits(s[..w]) + DropNewlineUnits(s[w..]) by {
        assert s == s[..w] + s[w..];
        DropNewlineUnitsAppend(s[..w], s[w..]);
      }
      FirstCodePointNewlines(s);
    }
  }

  /** On the first code point of `s`, dropping LF and CR code points and dropping 0x0A and
      0x0D code units agree. */
  lemma FirstCodePointNewlines(s: JsString)
    requires s != []
    ensures var w, c := CodePointWidth(s, 0), CodePointAt(s, 0);
      EncodeAll(if c == LF || c == CR then [] else [c]) == DropNewlineUnits(s[..w])
  {
    var w := CodePointWidth(s, 0);
    var c := CodePointAt(s, 0);
    if c == LF || c == CR {
      assert w == 1 && s[..1] == [s[0]] && s[0] == c;
      assert [s[0]][1..] == [];
    } else {
      EncodeCodePointAt(s, 0);
      assert [c][1..] == [];
      assert LF !in s[..w] && CR !in s[..w] by {
        if w == 2 {
          assert s[..2] == [s[0], s[1]];
        } else {
          assert s[..1] == [s[0]];
        }
      }
      DropNewlineUnitsOfClean(s[..w]);
    }
  }

  /** The stripped string holds no LF or CR, keeps every other code unit in order, and a second
      strip changes nothing. */
  lemma NewlinesStrippedProperties(s: JsString)
    ensures LF !in NewlinesStripped(s) && CR !in NewlinesStripped(s)
    ensures LF !in CodePoints(NewlinesStripped(s)) && CR !in CodePoints(NewlinesStripped(s))
    ensures NewlinesStripped(NewlinesStripped(s)) == NewlinesStripped(s)
    ensures (LF !in s && CR !in s) ==> NewlinesStripped(s) == s
  {
    NewlinesStrippedByUnits(s);
    NewlinesStrippedByUnits(NewlinesStripped(s));
    LowCodePointOccurs(NewlinesStripped(s), LF);
    LowCodePointOccurs(NewlinesStripped(s), CR);
    DropNewlineUnitsOfClean(NewlinesStripped(s));
    if LF !in s && CR !in s {
      DropNewlineUnitsOfClean(s);
    }
  }

  lemma {:induction false} DropNewlineUnitsOfClean(s: JsString)
    requires LF !in s && CR !in s
    ensures DropNewlineUnits(s) == s
  {
    if s != [] {
      var tail := s[1..];
      assert s == [s[0]] + tail;
      DropNewlineUnitsOfClean(tail);
    }
  }

  /** On a scalar value string, the stripped string's code points are exactly the input's
      code points other than LF and CR, in order. */
  lemma NewlinesStrippedCodePoints(s: JsString)
    requires IsStringScalarValue(s)
    ensures CodePoints(NewlinesStripped(s)) == WithoutNewlines(CodePoints(s))
  {
    WithoutNewlinesKeepsScalars(CodePoints(s));
    ScalarValuesWellFormed(WithoutNewlines(CodePoints(s)));
    DecodeEncode(WithoutNewlines(CodePoints(s)));
  }

  lemma {:induction false} WithoutNewlinesKeepsScalars(cps: seq<CodePoint>)
    requires forall k :: 0 <= k < |cps| ==> !IsSurrogate(cps[k])
    ensures forall k :: 0 <= k < |WithoutNewlines(cps)| ==> !IsSurrogate(WithoutNewlines(cps)[k])
  {
    if cps != [] {
      WithoutNewlinesKeepsScalars(cps[1..]);
    }
  }

  /** The source's test cases 'a\n\n', 'a\r\n\r\n' and 'a\r\r' are instances of the second
      ensures: 'a' followed by line breaks strips to 'a'. */
  lemma NewlinesStrippedCases(tail: JsString)
    requires forall k :: 0 <= k < |tail| ==> tail[k] == LF || tail[k] == CR
    ensures NewlinesStripped([]) == []
    ensures NewlinesStripped([0x61] + tail) == [0x61]
  {
    NewlinesStrippedByUnits([0x61] + tail);
    DropNewlineUnitsAppend([0x61], tail);
    DropNewlineUnitsOfNewlines(tail);
    assert [0x61][1..] == [];
  }

  lemma DropNewlineUnitsOfNewlines(s: JsString)
    requires forall k :: 0 <= k < |s| ==> s[k] == LF || s[k] == CR
    ensures DropNewlineUnits(s) == []
  {
  }

  /** A line break between two strings without line breaks is dropped and the two are joined,
      as in the source's test case 'apple\nbanana'. */
  lemma NewlinesStrippedJoins(a: JsString, u: CodeUnit, b: JsString)
    requires LF !in a && CR !in a && LF !in b && CR !in b
    requires u == LF || u == CR
    ensures NewlinesStripped(a + [u] + b) == a + b
  {
    var s := a + [u] + b;
    assert DropNewlineUnits(a + [u]) == a by {
      DropNewlineUnitsAppend(a, [u]);
      DropNewlineUnitsOfClean(a);
      DropNewlineUnitsOfNewlines([u]);
    }
    assert DropNewlineUnits(s) == a + b by {
      DropNewlineUnitsAppend(a + [u], b);
      DropNewlineUnitsOfClean(b);
    }
    NewlinesStrippedByUnits(s);
  }

  // ===========================================================================
  // normalizeNewlines
  // ===========================================================================

  /** `s` with every CR LF pair (taken left to right) turned into one LF. */
  function CrLfCollapsed(s: JsString): JsString {
    if s == [] then []
    else if |s| >= 2 && s[0] == CR && s[1] == LF then [LF] + CrLfCollapsed(s[2..])
    else [s[0]] + CrLfCollapsed(s[1..])
  }

  /** `String.prototype.indexOf` for one code unit: the first index holding `u`, or |s| when
      there is none. */
  function IndexOf(s: JsString, u: CodeUnit): (i: nat)
    ensures i <= |s|
    ensures i < |s| ==> s[i] == u
    ensures forall k :: 0 <= k < i ==> s[k] != u
  {
    if s == [] || s[0] == u then 0 else 1 + IndexOf(s[1..], u)
  }

  /** `String.prototype.replace` with a one-unit string pattern: the first occurrence of
      `target`, if any, is replaced. */
  function ReplaceFirst(s: JsString, target: CodeUnit, replacement: CodeUnit): JsString {
    var i := IndexOf(s, target);
    if i == |s| then s else s[..i] + [replacement] + s[i + 1..]
  }

  /** `replace` leaves a string without `target` alone, and otherwise changes exactly the first
      `target`: the same length, `replacement` there, every other unit as it was. */
  lemma ReplaceFirstChanges(s: JsString, target: CodeUnit, replacement: CodeUnit)
    ensures var r := ReplaceFirst(s, target, replacement);
      |r| == |s| && (target !in s ==> r == s)
    ensures var r, i := ReplaceFirst(s, target, replacement), IndexOf(s, target);
      target in s ==>
        i < |s| && s[i] == target && target !in s[..i] && r[i] == replacement &&
        forall k :: 0 <= k < |s| && k != i ==> r[k] == s[k]
  {
    var i := IndexOf(s, target);
    if i == |s| {
      assert target !in s by {
        assert forall k :: 0 <= k < |s| ==> s[k] != target;
      }
    } else {
      assert s[i] == target && target in s;
      SpliceAt(s, i, replacement);
      assert target !in s[..i] by {
        assert forall k :: 0 <= k < i ==> s[..i][k] == s[k];
      }
    }
  }

  /** Putting `u` in place of the unit at `i` changes that unit alone. */
  lemma SpliceAt(s: JsString, i: nat, u: CodeUnit)
    requires i < |s|
    ensures var r := s[..i] + [u] + s[i + 1..];
      |r| == |s| && r[i] == u && forall k :: 0 <= k < |s| && k != i ==> r[k] == s[k]
  {
  }

  /** The string `normalizeNewlines` returns. */
  function NewlinesNormalized(s: JsString): JsString {
    ReplaceFirst(CrLfCollapsed(s), CR, LF)
  }

  /** Turns each CR LF into LF, then replaces the first remaining CR with LF. */
  method NormalizeNewlines(s: JsString) returns (r: JsString)
    ensures r == NewlinesNormalized(s)
  {
    var normalized: JsString := [];
    var i := 0;
    assert s[0..] == s;
    while i < |s|
      invariant 0 <= i <= |s|
      invariant CrLfCollapsed(s) == normalized + CrLfCollapsed(s[i..])
    {
      NormalizeStep(s, i, normalized);
      // `s[i + 1]` past the end reads `undefined`, which is not LF
      if s[i] == CR && i + 1 < |s| && s[i + 1] == LF {
        normalized := normalized + [LF];
        i := i + 1;  // the LF goes with the CR
      } else {
        normalized := normalized + [s[i]];
      }
      i := i + 1;
    }
    assert s[i..] == [];
    assert normalized == CrLfCollapsed(s);
    r := ReplaceFirst(normalized, CR, LF);
  }

  /** The loop invariant of `normalizeNewlines` survives one step. */
  lemma NormalizeStep(s: JsString, i: nat, acc: JsString)
    requires i < |s|
    requires CrLfCollapsed(s) == acc + CrLfCollapsed(s[i..])
    ensures s[i] == CR && i + 1 < |s| && s[i + 1] == LF ==>
      CrLfCollapsed(s) == acc + [LF] + CrLfCollapsed(s[i + 2..])
    ensures !(s[i] == CR && i + 1 < |s| && s[i + 1] == LF) ==>
      CrLfCollapsed(s) == acc + [s[i]] + CrLfCollapsed(s[i + 1..])
  {
    CrLfCollapsedStep(s, i);
    if s[i] == CR && i + 1 < |s| && s[i + 1] == LF {
      Associate(acc, [LF], CrLfCollapsed(s[i + 2..]));
    } else {
      Associate(acc, [s[i]], CrLfCollapsed(s[i + 1..]));
    }
  }

  /** One step of the pairing walk: a CR LF at `i` gives one LF, any other unit itself. */
  lemma CrLfCollapsedStep(s: JsString, i: nat)
    requires i < |s|
    ensures s[i] == CR && i + 1 < |s| && s[i + 1] == LF ==>
      CrLfCollapsed(s[i..]) == [LF] + CrLfCollapsed(s[i + 2..])
    ensures !(s[i] == CR && i + 1 < |s| && s[i + 1] == LF) ==>
      CrLfCollapsed(s[i..]) == [s[i]] + CrLfCollapsed(s[i + 1..])
  {
    assert s[i..][0] == s[i];
    if i + 1 < |s| {
      assert s[i..][1] == s[i + 1];
      assert s[i..][2..] == s[i + 2..];
    }
    assert s[i..][1..] == s[i + 1..];
  }

  /** The number of indices where CR is directly followed by LF. */
  function CrLfPairs(s: JsString): nat {
    if |s| < 2 then 0 else (if s[0] == CR && s[1] == LF then 1 else 0) + CrLfPairs(s[1..])
  }

  /** The number of CRs not directly followed by LF. */
  function LoneCrs(s: JsString): nat {
    if s == [] then 0
    else (if s[0] == CR && !(|s| >= 2 && s[1] == LF) then 1 else 0) + LoneCrs(s[1..])
  }

  /** The number of occurrences of `u` in `s`. */
  function Occurrences(s: JsString, u: CodeUnit): (n: nat)
    ensures n == 0 <==> u !in s
  {
    if s == [] then 0 else (if s[0] == u then 1 else 0) + Occurrences(s[1..], u)
  }

  lemma {:induction false} CrLfCollapsedCounts(s: JsString)
    ensures |CrLfCollapsed(s)| == |s| - CrLfPairs(s)
    ensures Occurrences(CrLfCollapsed(s), CR) == LoneCrs(s)
    ensures DropNewlineUnits(CrLfCollapsed(s)) == DropNewlineUnits(s)
    decreases |s|
  {
    if s != [] {
      if |s| >= 2 && s[0] == CR && s[1] == LF {
        CrLfCollapsedCounts(s[2..]);
        assert s[1..][1..] == s[2..];
        assert CrLfPairs(s[1..]) == CrLfPairs(s[2..]);
        assert LoneCrs(s[1..]) == LoneCrs(s[2..]);
        assert DropNewlineUnits(s[1..]) == DropNewlineUnits(s[2..]);
      } else {
        CrLfCollapsedCounts(s[1..]);
      }
    }
  }

  lemma {:induction false} OccurrencesAppend(a: JsString, b: JsString, u: CodeUnit)
    ensures Occurrences(a + b, u) == Occurrences(a, u) + Occurrences(b, u)
  {
    if a == [] {
      assert a + b == b;
    } else {
      assert (a + b)[1..] == a[1..] + b;
      OccurrencesAppend(a[1..], b, u);
    }
  }

  /** Replacing the first CR with LF removes one CR, if there is one, and no other unit. */
  lemma ReplaceFirstCrCounts(s: JsString)
    ensures Occurrences(ReplaceFirst(s, CR, LF), CR) == if Occurrences(s, CR) > 0 then Occurrences(s, CR) - 1 else 0
    ensures DropNewlineUnits(ReplaceFirst(s, CR, LF)) == DropNewlineUnits(s)
  {
    var i := IndexOf(s, CR);
    if i < |s| {
      var a, b := s[..i], s[i + 1..];
      assert s == a + [CR] + b;
      assert CR !in a;
      OccurrencesAppend(a + [CR], b, CR);
      OccurrencesAppend(a, [CR], CR);
      OccurrencesAppend(a + [LF], b, CR);
      OccurrencesAppend(a, [LF], CR);
      DropNewlineUnitsAppend(a + [CR], b);
      DropNewlineUnitsAppend(a, [CR]);
      DropNewlineUnitsAppend(a + [LF], b);
      DropNewlineUnitsAppend(a, [LF]);
    } else {
      assert CR !in s;
    }
  }

  /** `normalizeNewlines` shortens `s` by one per CR LF pair; its result is free of CR exactly
      when `s` has at most one CR not followed by LF; and apart from line breaks it is `s`. */
  lemma NewlinesNormalizedProperties(s: JsString)
    ensures |NewlinesNormalized(s)| == |s| - CrLfPairs(s)
    ensures CR !in NewlinesNormalized(s) <==> LoneCrs(s) <= 1
    ensures NewlinesStripped(NewlinesNormalized(s)) == NewlinesStripped(s)
  {
    CrLfCollapsedCounts(s);
    ReplaceFirstCrCounts(CrLfCollapsed(s));
    NewlinesStrippedByUnits(s);
    NewlinesStrippedByUnits(NewlinesNormalized(s));
  }

  /** The source's test cases '' and '\r\n\r\n'. */
  lemma NewlinesNormalizedPairs(pairs: JsString)
    requires pairs == [CR, LF, CR, LF]
    ensures NewlinesNormalized([]) == []
    ensures NewlinesNormalized(pairs) == [LF, LF]
  {
    assert CrLfCollapsed(pairs) == [LF, LF] by {
      assert pairs[0..] == pairs && pairs[4..] == [];
      CrLfCollapsedStep(pairs, 0);
      CrLfCollapsedStep(pairs, 2);
    }
  }

  /** The source's test case 'a\r\ntttt\r': the pair becomes LF and so does the final CR. */
  lemma NewlinesNormalizedMixed(mixed: JsString)
    requires mixed == [0x61, CR, LF, 0x74, 0x74, 0x74, 0x74, CR]
    ensures NewlinesNormalized(mixed) == [0x61, LF, 0x74, 0x74, 0x74, 0x74, LF]
  {
    var collapsed := CrLfCollapsed(mixed);
    MixedCollapsed(mixed);
    assert IndexOf(collapsed, CR) == 6 by {
      IndexOfLast(collapsed[..6], CR);
      assert collapsed == collapsed[..6] + [CR];
    }
    assert collapsed[..6] + [LF] + collapsed[7..] == [0x61, LF, 0x74, 0x74, 0x74, 0x74, LF];
  }

  /** The pairing walk over 'a\r\ntttt\r'. */
  lemma MixedCollapsed(mixed: JsString)
    requires mixed == [0x61, CR, LF, 0x74, 0x74, 0x74, 0x74, CR]
    ensures CrLfCollapsed(mixed) == [0x61, LF, 0x74, 0x74, 0x74, 0x74, CR]
  {
    var t1: JsString := [CR];
    var t2: JsString := [0x74] + t1;
    var t3: JsString := [0x74] + t2;
    var t4: JsString := [0x74] + t3;
    var t5: JsString := [0x74] + t4;
    var t6: JsString := [CR, LF] + t5;
    assert CrLfCollapsed(t1) == [CR] by { assert t1[1..] == []; }
    assert CrLfCollapsed(t2) == [0x74] + CrLfCollapsed(t1) by { assert t2[1..] == t1; }
    assert CrLfCollapsed(t3) == [0x74] + CrLfCollapsed(t2) by { assert t3[1..] == t2; }
    assert CrLfCollapsed(t4) == [0x74] + CrLfCollapsed(t3) by { assert t4[1..] == t3; }
    assert CrLfCollapsed(t5) == [0x74] + CrLfCollapsed(t4) by { assert t5[1..] == t4; }
    assert CrLfCollapsed(t6) == [LF] + CrLfCollapsed(t5) by { assert t6[2..] == t5; }
    assert CrLfCollapsed(mixed) == [0x61] + CrLfCollapsed(t6) by { assert mixed[1..] == t6; }
  }

  /** In a string whose only `u` is its last unit, that unit is the first `u`. */
  lemma IndexOfLast(a: JsString, u: CodeUnit)
    requires u !in a
    ensures IndexOf(a + [u], u) == |a|
  {
    assert (a + [u])[|a|] == u;
    assert forall k :: 0 <= k < |a| ==> (a + [u])[k] == a[k] && a[k] in a;
  }

  /** The source's test case '\r', and the first lone CR in general: a single CR becomes LF. */
  lemma NewlinesNormalizedSingleCr(s: JsString)
    requires s == [CR]
    ensures NewlinesNormalized(s) == [LF]
  {
    assert s[0..] == s && s[1..] == [];
    CrLfCollapsedStep(s, 0);
  }

  /** As written, only the first CR left after pairing becomes LF: two lone CRs give LF CR. */
  lemma NormalizeNewlinesLeavesSecondCr(s: JsString)
    requires s == [CR, CR]
    ensures NewlinesNormalized(s) == [LF, CR]
    ensures CR in NewlinesNormalized(s)
  {
    assert CrLfCollapsed(s) == [CR, CR] by {
      assert s[0..] == s && s[2..] == [];
      CrLfCollapsedStep(s, 0);
      CrLfCollapsedStep(s, 1);
    }
    assert [CR, CR][1..] == [CR];
  }

  /** Normalizing newlines as the doc comment and Infra describe them: after the CR LF pairs,
      every remaining CR becomes LF. The result never holds a CR. */
  function NewlinesFullyNormalized(s: JsString): (r: JsString)
    ensures CR !in r
    ensures |r| == |s| - CrLfPairs(s)
    ensures NewlinesStripped(r) == NewlinesStripped(s)
  {
    var collapsed := CrLfCollapsed(s);
    var r: JsString := seq(|collapsed|, k requires 0 <= k < |collapsed| => if collapsed[k] == CR then LF else collapsed[k]);
    CrLfCollapsedCounts(s);
    CrToLfKeepsDrop(collapsed, r);
    NewlinesStrippedByUnits(s);
    NewlinesStrippedByUnits(r);
    r
  }

  lemma {:induction false} CrToLfKeepsDrop(a: JsString, b: JsString)
    requires |a| == |b|
    requires forall k :: 0 <= k < |a| ==> b[k] == if a[k] == CR then LF else a[k]
    ensures DropNewlineUnits(b) == DropNewlineUnits(a)
  {
    if a != [] {
      CrToLfKeepsDrop(a[1..], b[1..]);
    }
  }

  /** Where the input has at most one CR not followed by LF, as in every test case, the code as
      written and the corrected normalization agree. */
  lemma NormalizedVersionsAgree(s: JsString)
    requires LoneCrs(s) <= 1
    ensures NewlinesNormalized(s) == NewlinesFullyNormalized(s)
  {
    var collapsed := CrLfCollapsed(s);
    var written := NewlinesNormalized(s);
    var fixed := NewlinesFullyNormalized(s);
    assert CR !in written by {
      CrLfCollapsedCounts(s);
      ReplaceFirstCrCounts(collapsed);
    }
    ReplaceFirstChanges(collapsed, CR, LF);
    var i := IndexOf(collapsed, CR);
    forall k | 0 <= k < |collapsed|
      ensures written[k] == fixed[k]
    {
      if k != i {
        assert written[k] == collapsed[k] && written[k] in written;
      }
    }
  }

  // ===========================================================================
  // stripAsciiWsp
  // ===========================================================================

  /** `isAsciiWhitespace(s[i])`: an index past either end reads `undefined`, which is not
      whitespace. */
  predicate WhitespaceAt(s: JsString, i: int) {
    0 <= i < |s| && IsAsciiWhitespace(s[i])
  }

  predicate AllWhitespace(s: JsString) {
    forall k :: 0 <= k < |s| ==> IsAsciiWhitespace(s[k])
  }

  /** Where the forward scan of `stripAsciiWsp` stops: the first non-whitespace index, or |s|. */
  function LeadingIndex(s: JsString): (n: nat)
    ensures n <= |s|
    ensures forall k :: 0 <= k < n ==> IsAsciiWhitespace(s[k])
    ensures n < |s| ==> !IsAsciiWhitespace(s[n])
  {
    if s != [] && IsAsciiWhitespace(s[0]) then 1 + LeadingIndex(s[1..]) else 0
  }

  /** Where the backward scan stops: just past the last non-whitespace index, or 0. */
  function TrailingIndex(s: JsString): (n: nat)
    ensures n <= |s|
    ensures forall k :: n <= k < |s| ==> IsAsciiWhitespace(s[k])
    ensures n > 0 ==> !IsAsciiWhitespace(s[n - 1])
  {
    if s != [] && IsAsciiWhitespace(s[|s| - 1]) then TrailingIndex(s[..|s| - 1]) else |s|
  }

  /** `String.prototype.substring`: both indices are clamped into [0, |s|], and swapped when the
      start is past the end. */
  function Substring(s: JsString, start: int, end: int): JsString {
    var a := if start < 0 then 0 else if start > |s| then |s| else start;
    var b := if end < 0 then 0 else if end > |s| then |s| else end;
    if a <= b then s[a..b] else s[b..a]
  }

  /** The string `stripAsciiWsp` returns. */
  function Stripped(s: JsString): JsString {
    Substring(s, LeadingIndex(s), TrailingIndex(s))
  }

  /** Scans past leading whitespace, then back past trailing whitespace, and takes the
      substring between. */
  method StripAsciiWsp(s: JsString) returns (r: JsString)
    ensures r == Stripped(s)
  {
    var leadingIndex := 0;
    while WhitespaceAt(s, leadingIndex)
      invariant 0 <= leadingIndex <= |s|
      invariant forall k :: 0 <= k < leadingIndex ==> IsAsciiWhitespace(s[k])
      decreases |s| - leadingIndex
    {
      leadingIndex := leadingIndex + 1;
    }

    var trailingIndex := |s|;
    while WhitespaceAt(s, trailingIndex - 1)
      invariant 0 <= trailingIndex <= |s|
      invariant forall k :: trailingIndex <= k < |s| ==> IsAsciiWhitespace(s[k])
      decreases trailingIndex
    {
      trailingIndex := trailingIndex - 1;
    }

    ScanEnds(s, leadingIndex, trailingIndex);
    r := Substring(s, leadingIndex, trailingIndex);
  }

  /** The indices where the two scans stop are the only ones with their defining properties. */
  lemma ScanEnds(s: JsString, lo: nat, hi: nat)
    requires lo <= |s| && hi <= |s|
    requires forall k :: 0 <= k < lo ==> IsAsciiWhitespace(s[k])
    requires !WhitespaceAt(s, lo)
    requires forall k :: hi <= k < |s| ==> IsAsciiWhitespace(s[k])
    requires !WhitespaceAt(s, hi - 1)
    ensures lo == LeadingIndex(s) && hi == TrailingIndex(s)
  {
  }

  /** If `s` holds a non-whitespace code unit, the result is the slice of `s` from its first to
      its last non-whitespace unit, untouched inside; otherwise, because `substring` swaps the
      crossed indices |s| and 0, the result is `s` itself. */
  lemma StrippedShape(s: JsString)
    ensures !AllWhitespace(s) ==>
      var lo, r := LeadingIndex(s), Stripped(s);
      0 < |r| && lo + |r| <= |s| && r == s[lo..lo + |r|]
      && !IsAsciiWhitespace(r[0]) && !IsAsciiWhitespace(r[|r| - 1])
      && (forall k :: 0 <= k < lo ==> IsAsciiWhitespace(s[k]))
      && (forall k :: lo + |r| <= k < |s| ==> IsAsciiWhitespace(s[k]))
    ensures AllWhitespace(s) ==> Stripped(s) == s
  {
    var lo, hi := LeadingIndex(s), TrailingIndex(s);
    if !AllWhitespace(s) {
      ScanCross(s);
      var r := Stripped(s);
      assert r == s[lo..hi];
      SliceEnds(s, lo, hi, r);
    } else {
      ScanAll(s);
    }
  }

  /** Some unit is not whitespace: the forward scan stops before the backward one. */
  lemma ScanCross(s: JsString)
    requires !AllWhitespace(s)
    ensures LeadingIndex(s) < TrailingIndex(s)
  {
    var j :| 0 <= j < |s| && !IsAsciiWhitespace(s[j]);
    assert LeadingIndex(s) <= j < TrailingIndex(s);
  }

  /** Every unit is whitespace: the forward scan runs to the end, the backward one to 0. */
  lemma ScanAll(s: JsString)
    requires AllWhitespace(s)
    ensures LeadingIndex(s) == |s| && TrailingIndex(s) == 0
  {
  }

  /** The slice between the two scans starts and ends with non-whitespace units and is
      followed by whitespace only. */
  lemma SliceEnds(s: JsString, lo: nat, hi: nat, r: JsString)
    requires lo < hi <= |s| && r == s[lo..hi]
    requires !IsAsciiWhitespace(s[lo]) && !IsAsciiWhitespace(s[hi - 1])
    requires forall k :: hi <= k < |s| ==> IsAsciiWhitespace(s[k])
    ensures 0 < |r| && lo + |r| <= |s| && r == s[lo..lo + |r|]
      && !IsAsciiWhitespace(r[0]) && !IsAsciiWhitespace(r[|r| - 1])
      && (forall k :: lo + |r| <= k < |s| ==> IsAsciiWhitespace(s[k]))
  {
    assert r[0] == s[lo] && r[|r| - 1] == s[hi - 1];
  }

  /** Stripping twice is stripping once. */
  lemma StrippedIdempotent(s: JsString)
    ensures Stripped(Stripped(s)) == Stripped(s)
  {
    StrippedShape(s);
    var r := Stripped(s);
    if !AllWhitespace(s) {
      assert LeadingIndex(r) == 0;
      assert TrailingIndex(r) == |r|;
      assert r[0..|r|] == r;
    }
  }

  /** The source's test case, and the all-whitespace case that the strip-and-collapse test
      relies on: a lone space is returned as it is. */
  lemma StrippedCases()
    ensures Stripped([]) == []
    ensures Stripped([SPACE]) == [SPACE]
    ensures Stripped([SPACE, 0x61, SPACE, 0x62, LF]) == [0x61, SPACE, 0x62]
  {
    StrippedShape([SPACE]);
    var t: JsString := [SPACE, 0x61, SPACE, 0x62, LF];
    assert LeadingIndex(t) == 1 by {
      assert t[1..][0] == 0x61;
    }
    assert TrailingIndex(t) == 4 by {
      assert t[..4][3] == 0x62;
    }
  }

  // ===========================================================================
  // stripCollapseAsciiWsp
  // ===========================================================================

  /** Only U+0020 SPACE remains as whitespace. */
  predicate OnlySpaces(s: JsString) {
    forall k :: 0 <= k < |s| && IsAsciiWhitespace(s[k]) ==> s[k] == SPACE
  }

  /** The code units at k and k + 1 are both whitespace. */
  predicate WhitespacePairAt(s: JsString, k: int)
    requires 0 <= k < |s| - 1
  {
    IsAsciiWhitespace(s[k]) && IsAsciiWhitespace(s[k + 1])
  }

  /** No two whitespace code units stand next to each other. */
  predicate NoAdjacentWhitespace(s: JsString) {
    forall k :: 0 <= k < |s| - 1 ==> !WhitespacePairAt(s, k)
  }

  /** The collapsing pass of `stripCollapseAsciiWsp`: each maximal run of ASCII whitespace
      becomes one SPACE and every other code unit stays. */
  function Collapsed(s: JsString): (r: JsString)
    ensures |r| == 0 <==> |s| == 0
    ensures |s| > 0 ==> (IsAsciiWhitespace(r[|r| - 1]) <==> IsAsciiWhitespace(s[|s| - 1]))
  {
    if s == [] then []
    else
      var init, c := s[..|s| - 1], s[|s| - 1];
      if !IsAsciiWhitespace(c) then Collapsed(init) + [c]
      else if init != [] && IsAsciiWhitespace(init[|init| - 1]) then Collapsed(init)
      else Collapsed(init) + [SPACE]
  }

  /** After collapsing, the only whitespace is single spaces. */
  lemma {:induction false} CollapsedShape(s: JsString)
    ensures OnlySpaces(Collapsed(s)) && NoAdjacentWhitespace(Collapsed(s))
    decreases |s|
  {
    if s != [] {
      var init, c := s[..|s| - 1], s[|s| - 1];
      var ci, r := Collapsed(init), Collapsed(s);
      CollapsedShape(init);
      if r != ci {
        assert r == ci + [r[|r| - 1]];
        assert forall k :: 0 <= k < |r| - 1 ==>
          (WhitespacePairAt(r, k) <==> k < |ci| - 1 && WhitespacePairAt(ci, k));
      }
    }
  }

  /** The non-whitespace code units of `s`, in order. */
  function NonWhitespace(s: JsString): JsString {
    if s == [] then []
    else NonWhitespace(s[..|s| - 1]) + (if IsAsciiWhitespace(s[|s| - 1]) then [] else [s[|s| - 1]])
  }

  /** Collapses each whitespace run to one space, then strips both ends. */
  method StripCollapseAsciiWsp(s: JsString) returns (r: JsString)
    ensures r == Stripped(Collapsed(s))
  {
    var result: JsString := [];
    var lastSeenWhitespace := false;
    for i := 0 to |s|
      invariant result == Collapsed(s[..i])
      invariant lastSeenWhitespace <==> i > 0 && IsAsciiWhitespace(s[i - 1])
    {
      var codepoint := s[i];
      assert s[..i + 1][..i] == s[..i];
      if IsAsciiWhitespace(codepoint) {
        if !lastSeenWhitespace {
          lastSeenWhitespace := true;
          result := result + [SPACE];
          continue;
        }
      } else {
        lastSeenWhitespace := false;
        result := result + [codepoint];
      }
    }
    assert s[..|s|] == s;
    r := StripAsciiWsp(result);
  }

  lemma {:induction false} NonWhitespaceAppend(a: JsString, b: JsString)
    ensures NonWhitespace(a + b) == NonWhitespace(a) + NonWhitespace(b)
    decreases |b|
  {
    if b == [] {
      assert a + b == a;
    } else {
      var init := b[..|b| - 1];
      assert (a + b)[..|a + b| - 1] == a + init;
      NonWhitespaceAppend(a, init);
    }
  }

  lemma {:induction false} NonWhitespaceEmpty(s: JsString)
    ensures NonWhitespace(s) == [] <==> AllWhitespace(s)
    decreases |s|
  {
    if s != [] {
      NonWhitespaceEmpty(s[..|s| - 1]);
    }
  }

  /** Collapsing keeps every non-whitespace code unit, in order. */
  lemma {:induction false} CollapsedKeepsNonWhitespace(s: JsString)
    ensures NonWhitespace(Collapsed(s)) == NonWhitespace(s)
    decreases |s|
  {
    if s != [] {
      var init, c := s[..|s| - 1], s[|s| - 1];
      CollapsedKeepsNonWhitespace(init);
      NonWhitespaceAppend(Collapsed(init), [c]);
      NonWhitespaceAppend(Collapsed(init), [SPACE]);
      assert NonWhitespace([c]) == (if IsAsciiWhitespace(c) then [] else [c]) by {
        assert [c][..0] == [];
      }
      assert NonWhitespace([SPACE]) == [] by {
        assert [SPACE][..0] == [];
      }
    }
  }

  /** A string that has only single spaces for whitespace is left as it is by collapsing. */
  lemma {:induction false} CollapsedKeepsCollapsed(s: JsString)
    requires OnlySpaces(s) && NoAdjacentWhitespace(s)
    ensures Collapsed(s) == s
    decreases |s|
  {
    if s != [] {
      var init := s[..|s| - 1];
      assert forall k :: 0 <= k < |init| - 1 ==> (WhitespacePairAt(init, k) <==> WhitespacePairAt(s, k));
      CollapsedKeepsCollapsed(init);
      assert s == init + [s[|s| - 1]];
      if |s| >= 2 {
        assert !WhitespacePairAt(s, |s| - 2);
      }
    }
  }

  /** Taking a slice keeps "only spaces" and "no adjacent whitespace". */
  lemma SliceKeepsCollapsed(s: JsString, lo: nat, hi: nat)
    requires lo <= hi <= |s|
    requires OnlySpaces(s) && NoAdjacentWhitespace(s)
    ensures OnlySpaces(s[lo..hi]) && NoAdjacentWhitespace(s[lo..hi])
  {
    assert forall k :: 0 <= k < hi - lo ==> s[lo..hi][k] == s[lo + k];
    assert forall k :: 0 <= k < hi - lo - 1 ==> (WhitespacePairAt(s[lo..hi], k) <==> WhitespacePairAt(s, lo + k));
  }

  /** Whitespace around `r` adds nothing to its non-whitespace units. */
  lemma NonWhitespaceOfPadded(pre: JsString, r: JsString, post: JsString)
    requires AllWhitespace(pre) && AllWhitespace(post)
    ensures NonWhitespace(pre + r + post) == NonWhitespace(r)
  {
    NonWhitespaceAppend(pre + r, post);
    NonWhitespaceAppend(pre, r);
    NonWhitespaceEmpty(pre);
    NonWhitespaceEmpty(post);
  }

  /** Stripping a string without whitespace runs keeps it free of them, and keeps its
      non-whitespace code units, because everything it removes is whitespace. */
  lemma StrippedKeepsCollapsed(c: JsString)
    requires OnlySpaces(c) && NoAdjacentWhitespace(c)
    ensures OnlySpaces(Stripped(c)) && NoAdjacentWhitespace(Stripped(c))
    ensures NonWhitespace(Stripped(c)) == NonWhitespace(c)
  {
    var r := Stripped(c);
    StrippedShape(c);
    if !AllWhitespace(c) {
      var lo := LeadingIndex(c);
      var hi := lo + |r|;
      SliceKeepsCollapsed(c, lo, hi);
      PaddingSplit(c, lo, hi);
      NonWhitespaceOfPadded(c[..lo], r, c[hi..]);
    }
  }

  /** Cutting `s` at `lo` and `hi`, where everything before `lo` and from `hi` on is
      whitespace, leaves whitespace on either side of the middle. */
  lemma PaddingSplit(s: JsString, lo: nat, hi: nat)
    requires lo <= hi <= |s|
    requires forall k :: 0 <= k < lo ==> IsAsciiWhitespace(s[k])
    requires forall k :: hi <= k < |s| ==> IsAsciiWhitespace(s[k])
    ensures AllWhitespace(s[..lo]) && AllWhitespace(s[hi..])
    ensures s == s[..lo] + s[lo..hi] + s[hi..]
  {
    assert forall k :: 0 <= k < |s| - hi ==> s[hi..][k] == s[hi + k];
  }

  /** A non-empty run of whitespace collapses to one space. */
  lemma CollapsedWhitespace(s: JsString)
    requires s != [] && AllWhitespace(s)
    ensures Collapsed(s) == [SPACE]
  {
    var c := Collapsed(s);
    CollapsedKeepsNonWhitespace(s);
    NonWhitespaceEmpty(s);
    NonWhitespaceEmpty(c);
    assert |c| == 1;
  }

  /** What `stripCollapseAsciiWsp` returns: its only whitespace is single spaces; it keeps every
      non-whitespace code unit in order; a string with a non-whitespace unit gives a result
      with no whitespace at either end; and a non-empty all-whitespace string gives one space. */
  lemma StripCollapseShape(s: JsString)
    ensures var r := Stripped(Collapsed(s));
      OnlySpaces(r) && NoAdjacentWhitespace(r) && NonWhitespace(r) == NonWhitespace(s)
    ensures !AllWhitespace(s) ==> var r := Stripped(Collapsed(s));
      |r| > 0 && !IsAsciiWhitespace(r[0]) && !IsAsciiWhitespace(r[|r| - 1])
    ensures s != [] && AllWhitespace(s) ==> Stripped(Collapsed(s)) == [SPACE]
    ensures s == [] ==> Stripped(Collapsed(s)) == []
  {
    var c := Collapsed(s);
    CollapsedShape(s);
    CollapsedKeepsNonWhitespace(s);
    StrippedKeepsCollapsed(c);
    if !AllWhitespace(s) {
      NonWhitespaceEmpty(s);
      NonWhitespaceEmpty(c);
      StrippedShape(c);
    } else if s != [] {
      CollapsedWhitespace(s);
      StrippedShape([SPACE]);
    }
  }

  /** Stripping and collapsing twice is doing it once. */
  lemma StripCollapseIdempotent(s: JsString)
    ensures Stripped(Collapsed(Stripped(Collapsed(s)))) == Stripped(Collapsed(s))
  {
    StripCollapseShape(s);
    var r := Stripped(Collapsed(s));
    CollapsedKeepsCollapsed(r);
    StrippedIdempotent(Collapsed(s));
  }

  /** The source's test cases '' and '    ' (four spaces give one space). */
  lemma StripCollapseCases()
    ensures Stripped(Collapsed([SPACE, SPACE, SPACE, SPACE])) == [SPACE]
    ensures Stripped(Collapsed([])) == []
  {
    StripCollapseShape([SPACE, SPACE, SPACE, SPACE]);
    StripCollapseShape([]);
  }

  /** Collapsing works piecewise across a boundary that follows a non-whitespace unit. */
  lemma {:induction false} CollapsedAppend(x: JsString, y: JsString)
    requires x != [] && !IsAsciiWhitespace(x[|x| - 1])
    ensures Collapsed(x + y) == Collapsed(x) + Collapsed(y)
    decreases |y|
  {
    if y == [] {
      assert x + y == x;
    } else {
      var init := y[..|y| - 1];
      assert (x + y)[..|x + y| - 1] == x + init;
      assert (x + y)[|x + y| - 1] == y[|y| - 1];
      CollapsedAppend(x, init);
      if init != [] {
        assert (x + init)[|x + init| - 1] == init[|init| - 1];
      }
    }
  }

  /** Appending a non-whitespace unit appends it to the collapsed string. */
  lemma CollapsedSnoc(x: JsString, c: CodeUnit)
    requires !IsAsciiWhitespace(c)
    ensures Collapsed(x + [c]) == Collapsed(x) + [c]
  {
    assert (x + [c])[..|x|] == x;
  }

  /** A non-whitespace unit in front stays in front after collapsing. */
  lemma CollapsedUncons(y: JsString)
    requires y != [] && !IsAsciiWhitespace(y[0])
    ensures Collapsed(y) == [y[0]] + Collapsed(y[1..])
  {
    assert y == [y[0]] + y[1..];
    CollapsedSnoc([], y[0]);
    CollapsedAppend([y[0]], y[1..]);
  }

  /** A whitespace run followed by a non-whitespace unit collapses to a space and that unit. */
  lemma CollapsedGapThenUnit(g: JsString, c: CodeUnit)
    requires g != [] && AllWhitespace(g) && !IsAsciiWhitespace(c)
    ensures Collapsed(g + [c]) == [SPACE, c]
  {
    CollapsedSnoc(g, c);
    CollapsedWhitespace(g);
  }

  /** Collapsing splits after the first unit of a word that follows whitespace. */
  lemma CollapsedGapSplit(g: JsString, y: JsString)
    requires y != [] && !IsAsciiWhitespace(y[0])
    ensures Collapsed(g + y) == Collapsed(g + [y[0]]) + Collapsed(y[1..])
  {
    SplitAfterFirst(g, y);
    CollapsedAppend(g + [y[0]], y[1..]);
  }

  /** A step of sequence arithmetic, kept apart from the facts about `Collapsed`. */
  lemma SplitAfterFirst(g: JsString, y: JsString)
    requires y != []
    ensures var head := g + [y[0]]; g + y == head + y[1..] && head != [] && head[|head| - 1] == y[0]
  {
    assert y == [y[0]] + y[1..];
  }

  /** A whitespace run in front of a word becomes one space. */
  lemma CollapsedGapBeforeWord(g: JsString, y: JsString)
    requires g != [] && AllWhitespace(g)
    requires y != [] && !IsAsciiWhitespace(y[0])
    ensures Collapsed(g + y) == [SPACE] + Collapsed(y)
  {
    CollapsedGapThenUnit(g, y[0]);
    CollapsedUncons(y);
    CollapsedGapSplit(g, y);
    Regroup(Collapsed(g + y), Collapsed(y), Collapsed(y[1..]), SPACE, y[0]);
  }

  /** A step of sequence arithmetic, kept apart from the facts about `Collapsed`. */
  lemma Regroup(a: JsString, b: JsString, x: JsString, s: CodeUnit, c: CodeUnit)
    requires a == [s, c] + x && b == [c] + x
    ensures a == [s] + b
  {
    assert [s, c] + x == [s] + ([c] + x);
  }

  /** Stripping removes exactly the whitespace around a core that starts and ends with
      non-whitespace. */
  lemma StrippedOfPadded(pre: JsString, r: JsString, post: JsString)
    requires AllWhitespace(pre) && AllWhitespace(post)
    requires r != [] && !IsAsciiWhitespace(r[0]) && !IsAsciiWhitespace(r[|r| - 1])
    ensures Stripped(pre + r + post) == r
  {
    var x := pre + r + post;
    var lo, hi := LeadingIndex(x), TrailingIndex(x);
    assert x[|pre|] == r[0] && x[|pre| + |r| - 1] == r[|r| - 1];
    assert lo == |pre|;
    assert hi == |pre| + |r|;
    assert x[lo..hi] == r;
  }

  /** A whitespace run between a non-whitespace unit and a word becomes one space. */
  lemma CollapsedAcrossGap(x: JsString, g: JsString, y: JsString)
    requires x != [] && !IsAsciiWhitespace(x[|x| - 1])
    requires g != [] && AllWhitespace(g)
    requires y != [] && !IsAsciiWhitespace(y[0])
    ensures Collapsed(x + g + y) == Collapsed(x) + [SPACE] + Collapsed(y)
  {
    CollapsedGapBeforeWord(g, y);
    Associate(x, g, y);
    CollapsedAppend(x, g + y);
    Reassociate(Collapsed(x + (g + y)), Collapsed(g + y), Collapsed(x), [SPACE], Collapsed(y));
  }

  lemma Associate(a: JsString, b: JsString, c: JsString)
    ensures a + b + c == a + (b + c)
  {
  }

  /** Collapsing keeps a leading non-whitespace unit in front. */
  lemma CollapsedHead(m: JsString)
    requires m != [] && !IsAsciiWhitespace(m[0])
    ensures Collapsed(m)[0] == m[0]
  {
    CollapsedUncons(m);
  }

  /** The space that a whitespace run collapses to, or nothing for an empty run. */
  function GapSpace(run: JsString): (r: JsString)
    ensures AllWhitespace(r) && |r| <= 1
  {
    if run == [] then [] else [SPACE]
  }

  /** Trailing whitespace after a non-whitespace unit becomes at most one space. */
  lemma CollapsedTrail(m: JsString, trail: JsString)
    requires m != [] && !IsAsciiWhitespace(m[|m| - 1]) && AllWhitespace(trail)
    ensures Collapsed(m + trail) == Collapsed(m) + GapSpace(trail)
  {
    if trail == [] {
      assert m + trail == m;
    } else {
      CollapsedAppend(m, trail);
      CollapsedWhitespace(trail);
    }
  }

  /** Leading whitespace in front of a non-whitespace unit becomes at most one space. */
  lemma CollapsedLead(lead: JsString, y: JsString)
    requires AllWhitespace(lead) && y != [] && !IsAsciiWhitespace(y[0])
    ensures Collapsed(lead + y) == GapSpace(lead) + Collapsed(y)
  {
    if lead == [] {
      assert lead + y == y;
    } else {
      CollapsedGapBeforeWord(lead, y);
    }
  }

  /** A collapsed string keeps a non-whitespace unit at each end where the input has one. */
  lemma CollapsedEnds(m: JsString)
    requires m != [] && !IsAsciiWhitespace(m[0]) && !IsAsciiWhitespace(m[|m| - 1])
    ensures var r := Collapsed(m); r != [] && !IsAsciiWhitespace(r[0]) && !IsAsciiWhitespace(r[|r| - 1])
  {
    CollapsedHead(m);
  }

  /** Whitespace on both sides of `m` collapses to at most one space on each side. */
  lemma CollapsedPadded(lead: JsString, m: JsString, trail: JsString)
    requires AllWhitespace(lead) && AllWhitespace(trail)
    requires m != [] && !IsAsciiWhitespace(m[0]) && !IsAsciiWhitespace(m[|m| - 1])
    ensures Collapsed(lead + (m + trail)) == GapSpace(lead) + Collapsed(m) + GapSpace(trail)
  {
    CollapsedTrail(m, trail);
    assert (m + trail)[0] == m[0];
    CollapsedLead(lead, m + trail);
    Reassociate(Collapsed(lead + (m + trail)), Collapsed(m + trail), GapSpace(lead), Collapsed(m), GapSpace(trail));
  }

  /** A step of sequence arithmetic, kept apart from the facts about `Collapsed`. */
  lemma Reassociate(a: JsString, x: JsString, b: JsString, c: JsString, d: JsString)
    requires a == b + x && x == c + d
    ensures a == b + c + d
  {
  }

  /** Whitespace around a string that starts and ends with non-whitespace disappears:
      stripping and collapsing gives the collapsed string itself. */
  lemma StripCollapsePadded(lead: JsString, m: JsString, trail: JsString)
    requires AllWhitespace(lead) && AllWhitespace(trail)
    requires m != [] && !IsAsciiWhitespace(m[0]) && !IsAsciiWhitespace(m[|m| - 1])
    ensures Stripped(Collapsed(lead + (m + trail))) == Collapsed(m)
  {
    CollapsedPadded(lead, m, trail);
    CollapsedEnds(m);
    StrippedOfPadded(GapSpace(lead), Collapsed(m), GapSpace(trail));
  }

  /** A string with no ASCII whitespace in it. */
  predicate IsWord(w: JsString) {
    w != [] && forall k :: 0 <= k < |w| ==> !IsAsciiWhitespace(w[k])
  }

  /** A word is left as it is by collapsing. */
  lemma CollapsedWord(w: JsString)
    requires IsWord(w)
    ensures Collapsed(w) == w
  {
    CollapsedKeepsCollapsed(w);
  }

  /** Three words separated by whitespace runs, with any whitespace around them, come out
      separated by single spaces; the source's tests 'cat dog  hamster \n\r',
      '\r  \n  cat dog  hamster' and '\r  \n  cat dog  hamster \n\r' are instances. */
  lemma StripCollapseThreeWords(lead: JsString, x: JsString, g1: JsString, y: JsString, g2: JsString, z: JsString, trail: JsString)
    requires AllWhitespace(lead) && AllWhitespace(trail)
    requires g1 != [] && AllWhitespace(g1) && g2 != [] && AllWhitespace(g2)
    requires IsWord(x) && IsWord(y) && IsWord(z)
    ensures Stripped(Collapsed(lead + (x + g1 + y + g2 + z + trail))) == x + [SPACE] + y + [SPACE] + z
  {
    var tail := y + g2 + z;
    var m := x + g1 + tail;
    var joined := y + [SPACE] + z;
    assert Collapsed(tail) == joined by {
      CollapsedWord(y);
      CollapsedWord(z);
      CollapsedAcrossGap(y, g2, z);
    }
    assert Collapsed(m) == x + [SPACE] + joined by {
      CollapsedWord(x);
      assert tail[0] == y[0];
      CollapsedAcrossGap(x, g1, tail);
    }
    Regroup5(x, [SPACE], y, [SPACE], z);
    Regroup5(x, g1, y, g2, z);
    StripCollapsePadded(lead, m, trail);
  }

  /** A step of sequence arithmetic, kept apart from the facts about `Collapsed`. */
  lemma Regroup5(a: JsString, b: JsString, c: JsString, d: JsString, e: JsString)
    requires a != [] && e != []
    ensures var m := a + b + (c + d + e);
      m == a + b + c + d + e && m[0] == a[0] && m[|m| - 1] == e[|e| - 1]
  {
  }
}
