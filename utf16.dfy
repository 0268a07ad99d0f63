/**
 * JavaScript strings as the source sees them: sequences of UTF-16 code units.
 *
 * `for...of` walks a string by code point: a leading surrogate immediately followed by a
 * trailing surrogate is one supplementary code point, and any other surrogate stands alone.
 * `CodePoints` is that walk; `EncodeAll` is its inverse, turning code points back into
 * code units (a code point written into a string with `+=`).
 */
module Utf16 {
  import opened CodePointClassifier

  /** One UTF-16 code unit. */
  type CodeUnit = u: int | 0 <= u <= 0xFFFF

  /** A JavaScript string. */
  type JsString = seq<CodeUnit>

  predicate IsLeadSurrogate(u: int) {
    0xD800 <= u <= 0xDBFF
  }

  predicate IsTrailSurrogate(u: int) {
    0xDC00 <= u <= 0xDFFF
  }

  /** Whether the code units at `i` and `i + 1` form a surrogate pair. */
  predicate PairAt(s: JsString, i: nat) {
    i + 1 < |s| && IsLeadSurrogate(s[i]) && IsTrailSurrogate(s[i + 1])
  }

  /** The number of code units of the code point that starts at index `i`. */
  function CodePointWidth(s: JsString, i: nat): nat
    requires i < |s|
  {
    if PairAt(s, i) then 2 else 1
  }

  /** The code point that starts at index `i`, as `String.prototype.codePointAt` reads it. */
  function CodePointAt(s: JsString, i: nat): CodePoint
    requires i < |s|
  {
    if PairAt(s, i) then (s[i] as int - 0xD800) * 0x400 + (s[i + 1] as int - 0xDC00) + 0x1_0000 else s[i]
  }

  /** Code point sequences that some string decodes to: no surrogate code point is a leading
      one directly followed by a trailing one (such a pair would have been read as one). */
  predicate WellFormed(cps: seq<CodePoint>) {
    forall k :: 0 <= k < |cps| - 1 ==> !SurrogatesPairAt(cps, k)
  }

  /** A leading surrogate code point at `k` directly followed by a trailing one. */
  predicate SurrogatesPairAt(cps: seq<CodePoint>, k: nat)
    requires k + 1 < |cps|
  {
    IsLeadSurrogate(cps[k]) && IsTrailSurrogate(cps[k + 1])
  }

  /** The code points of `s`, in the order `for...of` yields them. */
  function CodePoints(s: JsString): (cps: seq<CodePoint>)
    ensures |cps| <= |s|
    ensures WellFormed(cps)
    ensures s != [] ==> cps != [] && cps[0] == CodePointAt(s, 0)
    decreases |s|
  {
    if s == [] then []
    else
      var rest := CodePoints(s[CodePointWidth(s, 0)..]);
      var cps := [CodePointAt(s, 0)] + rest;
      assert forall k :: 0 < k < |cps| - 1 ==> (SurrogatesPairAt(cps, k) <==> SurrogatesPairAt(rest, k - 1));
      cps
  }

  /** The code units of one code point. */
  function Encode(cp: CodePoint): (units: JsString)
    ensures 1 <= |units| <= 2
    ensures |units| == 1 <==> cp < 0x1_0000
  {
    if cp < 0x1_0000 then [cp]
    else [0xD800 + (cp - 0x1_0000) / 0x400, 0xDC00 + (cp - 0x1_0000) % 0x400]
  }

  /** The code units of a sequence of code points. */
  function EncodeAll(cps: seq<CodePoint>): (s: JsString)
    ensures |cps| <= |s|
  {
    if cps == [] then [] else Encode(cps[0]) + EncodeAll(cps[1..])
  }

  // ---------------------------------------------------------------------------
  // Decoding and encoding are inverse to each other
  // ---------------------------------------------------------------------------

  /** Walking `s` from index `i` yields the code point at `i`, then the walk from the next one. */
  lemma CodePointsStep(s: JsString, i: nat)
    requires i < |s|
    ensures i + CodePointWidth(s, i) <= |s|
    ensures CodePoints(s[i..]) == [CodePointAt(s, i)] + CodePoints(s[i + CodePointWidth(s, i)..])
  {
    var t := s[i..];
    assert t[0] == s[i];
    assert |t| > 1 ==> t[1] == s[i + 1];
    assert PairAt(t, 0) == PairAt(s, i);
    assert CodePointWidth(t, 0) == CodePointWidth(s, i) && CodePointAt(t, 0) == CodePointAt(s, i);
    assert t[CodePointWidth(s, i)..] == s[i + CodePointWidth(s, i)..];
  }

  /** The code points of `s` from code unit index `i` on: the walk a loop over `s` has still to
      make when it stands at `i`. */
  function CodePointsFrom(s: JsString, i: nat): seq<CodePoint>
    decreases |s| - i
  {
    if i >= |s| then [] else [CodePointAt(s, i)] + CodePointsFrom(s, i + CodePointWidth(s, i))
  }

  /** The walk from `i` decodes the rest of the string from `i`. */
  lemma {:induction false} CodePointsFromSlice(s: JsString, i: nat)
    requires i <= |s|
    ensures CodePointsFrom(s, i) == CodePoints(s[i..])
    decreases |s| - i
  {
    if i < |s| {
      CodePointsFromSlice(s, i + CodePointWidth(s, i));
      CodePointsStep(s, i);
    }
  }

  /** A loop over `s` starts with all of its code points ahead of it. */
  lemma WalkStart(s: JsString)
    ensures CodePoints(s)[0..] == CodePointsFrom(s, 0)
  {
    CodePointsFromSlice(s, 0);
    assert s[0..] == s;
  }

  /** One step of a loop that has read the first `n` code points of `s`, up to index `i`: the
      code point at `i` is code point `n`, and the loop goes on from the index past it. */
  lemma WalkNext(s: JsString, i: nat, n: nat)
    requires i < |s| && n <= |CodePoints(s)|
    requires CodePoints(s)[n..] == CodePointsFrom(s, i)
    ensures i + CodePointWidth(s, i) <= |s|
    ensures n < |CodePoints(s)| && CodePoints(s)[n] == CodePointAt(s, i)
    ensures CodePoints(s)[n + 1..] == CodePointsFrom(s, i + CodePointWidth(s, i))
    ensures CodePoints(s)[..n + 1] == CodePoints(s)[..n] + [CodePointAt(s, i)]
  {
    var cps := CodePoints(s);
    assert cps[n..][0] == cps[n];
    assert cps[n + 1..] == cps[n..][1..];
  }

  /** A loop that has reached the end of `s` has read all of its code points. */
  lemma WalkEnd(s: JsString, n: nat)
    requires n <= |CodePoints(s)|
    requires CodePoints(s)[n..] == CodePointsFrom(s, |s|)
    ensures n == |CodePoints(s)| && CodePoints(s)[..n] == CodePoints(s)
  {
  }

  /** Re-encoding the code point at `i` gives back exactly the code units it was read from. */
  lemma EncodeCodePointAt(s: JsString, i: nat)
    requires i < |s|
    ensures i + CodePointWidth(s, i) <= |s|
    ensures Encode(CodePointAt(s, i)) == s[i..i + CodePointWidth(s, i)]
  {
    if PairAt(s, i) {
      var hi, lo := s[i] as int - 0xD800, s[i + 1] as int - 0xDC00;
      var cp := CodePointAt(s, i);
      assert cp - 0x1_0000 == hi * 0x400 + lo;
      assert (cp - 0x1_0000) / 0x400 == hi && (cp - 0x1_0000) % 0x400 == lo;
    }
  }

  lemma {:induction false} EncodeAllAppend(a: seq<CodePoint>, b: seq<CodePoint>)
    ensures EncodeAll(a + b) == EncodeAll(a) + EncodeAll(b)
  {
    if a == [] {
      assert a + b == b;
    } else {
      assert (a + b)[1..] == a[1..] + b;
      EncodeAllAppend(a[1..], b);
    }
  }

  /** Encoding a code point in front prepends its code units. */
  lemma EncodeAllCons(c: CodePoint, cps: seq<CodePoint>)
    ensures EncodeAll([c] + cps) == Encode(c) + EncodeAll(cps)
  {
    assert ([c] + cps)[1..] == cps;
  }

  /** Every string is the encoding of its own code points. */
  lemma {:induction false} EncodeDecode(s: JsString)
    ensures EncodeAll(CodePoints(s)) == s
    decreases |s|
  {
    if s != [] {
      var w := CodePointWidth(s, 0);
      EncodeCodePointAt(s, 0);
      EncodeDecode(s[w..]);
      assert s == s[..w] + s[w..];
    }
  }

  /** Encoding one code point in front of a string adds exactly that code point in front of its
      code points, unless it is a leading surrogate that the string's first code unit pairs with. */
  lemma DecodeEncodeOne(cp: CodePoint, t: JsString)
    requires !(IsLeadSurrogate(cp) && t != [] && IsTrailSurrogate(t[0]))
    ensures CodePoints(Encode(cp) + t) == [cp] + CodePoints(t)
  {
    var u := Encode(cp) + t;
    ReadEncoded(cp, t);
    CodePointsStep(u, 0);
    assert u[|Encode(cp)|..] == t;
    assert u[0..] == u;
  }

  /** Reading the front of a string that starts with an encoded code point gives that code
      point back, with its width. */
  lemma ReadEncoded(cp: CodePoint, t: JsString)
    requires !(IsLeadSurrogate(cp) && t != [] && IsTrailSurrogate(t[0]))
    ensures var u := Encode(cp) + t;
      CodePointWidth(u, 0) == |Encode(cp)| && CodePointAt(u, 0) == cp
  {
    var u := Encode(cp) + t;
    if cp >= 0x1_0000 {
      var hi, lo := (cp - 0x1_0000) / 0x400, (cp - 0x1_0000) % 0x400;
      assert 0 <= hi <= 0x3FF && 0 <= lo <= 0x3FF;
      assert u[0] == 0xD800 + hi && u[1] == 0xDC00 + lo;
      assert PairAt(u, 0);
      assert cp == hi * 0x400 + lo + 0x1_0000;
    } else {
      assert u[0] == cp;
      assert !PairAt(u, 0);
    }
  }

  /** Every well-formed code point sequence is the decoding of its own encoding. */
  lemma {:induction false} DecodeEncode(cps: seq<CodePoint>)
    requires WellFormed(cps)
    ensures CodePoints(EncodeAll(cps)) == cps
  {
    if cps != [] {
      var rest := cps[1..];
      assert WellFormed(rest) by {
        forall k | 0 <= k < |rest| - 1
          ensures !SurrogatesPairAt(rest, k)
        {
          assert rest[k] == cps[k + 1] && rest[k + 1] == cps[k + 2];
          assert !SurrogatesPairAt(cps, k + 1);
        }
      }
      DecodeEncode(rest);
      var t := EncodeAll(rest);
      if rest != [] {
        assert t[0] == Encode(rest[0])[0];
        assert IsTrailSurrogate(t[0]) ==> IsTrailSurrogate(rest[0]);
        assert !SurrogatesPairAt(cps, 0);
      }
      DecodeEncodeOne(cps[0], t);
      assert cps == [cps[0]] + rest;
    }
  }

  /** A prefix of a well-formed sequence is well-formed. */
  lemma WellFormedPrefix(cps: seq<CodePoint>, n: nat)
    requires WellFormed(cps) && n <= |cps|
    ensures WellFormed(cps[..n])
  {
    assert forall k :: 0 <= k < n - 1 ==> (SurrogatesPairAt(cps[..n], k) <==> SurrogatesPairAt(cps, k));
  }

  /** The first `n` code points of `t` encode to a prefix of `t`, and decode back to themselves. */
  lemma CodePointsPrefix(t: JsString, n: nat)
    requires n <= |CodePoints(t)|
    ensures var e := EncodeAll(CodePoints(t)[..n]);
      CodePoints(e) == CodePoints(t)[..n] && |e| <= |t| && e == t[..|e|]
  {
    var cps := CodePoints(t);
    var run := cps[..n];
    assert CodePoints(EncodeAll(run)) == run by {
      WellFormedPrefix(cps, n);
      DecodeEncode(run);
    }
    EncodingSplits(t, n);
    var e, f := EncodeAll(run), EncodeAll(cps[n..]);
    assert t[..|e|] == (e + f)[..|e|];
  }

  /** The code units of `t` are those of its first `n` code points followed by those of the
      rest. */
  lemma EncodingSplits(t: JsString, n: nat)
    requires n <= |CodePoints(t)|
    ensures t == EncodeAll(CodePoints(t)[..n]) + EncodeAll(CodePoints(t)[n..])
  {
    var cps := CodePoints(t);
    EncodeDecode(t);
    assert cps == cps[..n] + cps[n..];
    EncodeAllAppend(cps[..n], cps[n..]);
  }

  /** A sequence of scalar values is well-formed. */
  lemma ScalarValuesWellFormed(cps: seq<CodePoint>)
    requires forall k :: 0 <= k < |cps| ==> !IsSurrogate(cps[k])
    ensures WellFormed(cps)
  {
  }

  /** A string with no surrogate code unit is its own code point sequence. */
  lemma {:induction false} CodePointsWithoutSurrogates(s: JsString)
    requires forall k :: 0 <= k < |s| ==> !IsSurrogate(s[k])
    ensures CodePoints(s) == s
    decreases |s|
  {
    if s != [] {
      assert CodePointWidth(s, 0) == 1;
      CodePointsWithoutSurrogates(s[1..]);
      assert s == [s[0]] + s[1..];
    }
  }

  /** A code point below the surrogate block occurs among the code points of `s` exactly when
      it occurs among its code units. */
  lemma {:induction false} LowCodePointOccurs(s: JsString, c: int)
    requires 0 <= c < 0xD800
    ensures c in CodePoints(s) <==> c in s
    decreases |s|
  {
    if s != [] {
      var w := CodePointWidth(s, 0);
      LowCodePointOccurs(s[w..], c);
      assert CodePoints(s) == [CodePointAt(s, 0)] + CodePoints(s[w..]);
      assert s == s[..w] + s[w..];
      assert c in s[..w] <==> c == CodePointAt(s, 0);
    }
  }

  /** Code points at most `limit`, for a limit below the surrogate block, are exactly the code
      points of strings whose code units are all at most `limit`. */
  lemma {:induction false} CodePointsBelow(s: JsString, limit: int)
    requires 0 <= limit < 0xD800
    ensures (forall cp :: cp in CodePoints(s) ==> cp <= limit) <==> (forall u :: u in s ==> u <= limit)
    decreases |s|
  {
    if s != [] {
      var w := CodePointWidth(s, 0);
      var cps, rest := CodePoints(s), CodePoints(s[w..]);
      assert cps == [CodePointAt(s, 0)] + rest;
      assert s[0] in s && cps[0] in cps;
      if w == 1 {
        CodePointsBelow(s[1..], limit);
        assert cps == [s[0]] + CodePoints(s[1..]);
        assert s == [s[0]] + s[1..];
        assert forall u :: u in s <==> u == s[0] || u in s[1..];
        assert forall cp :: cp in cps <==> cp == s[0] || cp in CodePoints(s[1..]);
      }
    }
  }
}
