/**
 * The code point classifiers of the WHATWG Infra Standard, section 4.6 (Code points).
 *
 * Each classifier decides membership of one code point, given as an integer, in a
 * closed inclusive range or a small union of them. `IsCodePointBetween` takes an
 * optional code point so that the empty string (no code point at all) can be asked too.
 */
module CodePointClassifier {
  import opened Wrappers

  /** A Unicode code point: an integer in [0, 0x10FFFF]. */
  type CodePoint = c: int | 0 <= c <= 0x10FFFF

  /** Whether `cp` lies in [min, max], both ends included; the empty string lies nowhere. */
  predicate IsCodePointBetween(cp: Option<int>, min: int, max: int) {
    cp.Some? && min <= cp.value <= max
  }

  /** An ASCII code point: U+0000 NULL to U+007F DELETE. */
  predicate IsAscii(cp: int) {
    0x00 <= cp <= 0x7F
  }

  /** An ASCII byte: 0x00 to 0x7F. */
  predicate IsAsciiByte(b: int) {
    0x00 <= b <= 0x7F
  }

  /** A leading or trailing surrogate: U+D800 to U+DFFF. */
  predicate IsSurrogate(cp: int) {
    0xD800 <= cp <= 0xDFFF
  }

  /** A scalar value: a code point that is not a surrogate. */
  predicate IsScalarValue(cp: int) {
    0 <= cp <= 0x10FFFF && !IsSurrogate(cp)
  }

  /** A noncharacter: U+FDD0 to U+FDEF, or the last two code points of one of the 17 planes. */
  predicate IsNonCharacter(cp: int) {
    (0xFDD0 <= cp <= 0xFDEF) || (0 <= cp <= 0x10FFFF && cp % 0x1_0000 >= 0xFFFE)
  }

  /** ASCII tab or newline: U+0009 TAB, U+000A LF, U+000D CR. */
  predicate IsAsciiTabOrNewline(cp: int) {
    cp == 0x09 || cp == 0x0A || cp == 0x0D
  }

  /** ASCII whitespace: TAB, LF, FF, CR and SPACE; vertical tab U+000B is not one of them. */
  predicate IsAsciiWhitespace(cp: int) {
    cp == 0x09 || cp == 0x0A || cp == 0x0C || cp == 0x0D || cp == 0x20
  }

  /** A C0 control: U+0000 NULL to U+001F INFORMATION SEPARATOR ONE. */
  predicate IsC0Control(cp: int) {
    0x00 <= cp <= 0x1F
  }

  /** A C0 control or U+0020 SPACE. */
  predicate IsC0ControlOrSpace(cp: int) {
    IsC0Control(cp) || cp == 0x20
  }

  /** An ASCII digit: U+0030 (0) to U+0039 (9). */
  predicate IsAsciiDigit(cp: int) {
    0x30 <= cp <= 0x39
  }

  /** An ASCII upper hex digit: an ASCII digit or U+0041 (A) to U+0046 (F). */
  predicate IsAsciiUpperHexDigit(cp: int) {
    IsAsciiDigit(cp) || 0x41 <= cp <= 0x46
  }

  /** An ASCII lower hex digit: an ASCII digit or U+0061 (a) to U+0066 (f). */
  predicate IsAsciiLowerHexDigit(cp: int) {
    IsAsciiDigit(cp) || 0x61 <= cp <= 0x66
  }

  /** An ASCII hex digit: an upper or a lower hex digit. */
  predicate IsAsciiHexDigit(cp: int) {
    IsAsciiUpperHexDigit(cp) || IsAsciiLowerHexDigit(cp)
  }

  /** An ASCII upper alpha: U+0041 (A) to U+005A (Z). */
  predicate IsAsciiUpperAlpha(cp: int) {
    0x41 <= cp <= 0x5A
  }

  /** An ASCII lower alpha: U+0061 (a) to U+007A (z). */
  predicate IsAsciiLowerAlpha(cp: int) {
    0x61 <= cp <= 0x7A
  }

  /** An ASCII alpha: an upper or a lower alpha. */
  predicate IsAsciiAlpha(cp: int) {
    IsAsciiUpperAlpha(cp) || IsAsciiLowerAlpha(cp)
  }

  /** An ASCII alphanumeric: an ASCII digit or an ASCII alpha. */
  predicate IsAsciiAlphanumeric(cp: int) {
    IsAsciiDigit(cp) || IsAsciiAlpha(cp)
  }

  // ---------------------------------------------------------------------------
  // Properties of the classifiers
  // ---------------------------------------------------------------------------

  /** The range test is inclusive at both ends, and false for the empty string. */
  lemma CodePointBetweenCases()
    ensures IsCodePointBetween(Some(0x00), 0x00, 0x20)
    ensures IsCodePointBetween(Some(0x20), 0x00, 0x20)
    ensures !IsCodePointBetween(Some(0x7F), 0x00, 0x20)
    ensures forall min: int, max: int :: !IsCodePointBetween(None, min, max)
  {
  }

  /** Every ASCII byte value is below 0x80, and 0x80 is not one. */
  lemma AsciiByteCases()
    ensures IsAsciiByte(0x00) && IsAsciiByte(0x3F) && IsAsciiByte(0x7F)
    ensures !IsAsciiByte(0x80)
  {
  }

  /** The surrogate block ends at U+DFFF; a code point is a scalar value exactly when it is
      not a surrogate. */
  lemma SurrogateCases()
    ensures IsSurrogate(0xD800) && IsSurrogate(0xDFFF) && !IsSurrogate(0xE000)
    ensures IsScalarValue(0xD7FF) && IsScalarValue(0xE000)
    ensures forall cp: CodePoint :: IsScalarValue(cp) <==> !IsSurrogate(cp)
  {
  }

  /** `cp % 0x10000` picks out the position of `cp` within its plane. */
  lemma {:induction false} PlaneOffset(plane: nat, offset: int)
    requires 0 <= offset < 0x1_0000
    ensures (plane * 0x1_0000 + offset) % 0x1_0000 == offset
  {
    if plane > 0 {
      PlaneOffset(plane - 1, offset);
      assert plane * 0x1_0000 + offset == (plane - 1) * 0x1_0000 + offset + 0x1_0000;
    }
  }

  /** The noncharacters: the block U+FDD0..U+FDEF and the two last code points of every
      plane; nothing below U+FDD0 is one, and every noncharacter is a scalar value. */
  lemma NonCharacterCases()
    ensures forall cp :: 0xFDD0 <= cp <= 0xFDEF ==> IsNonCharacter(cp)
    ensures forall plane :: 0 <= plane <= 16 ==>
      IsNonCharacter(plane * 0x1_0000 + 0xFFFE) && IsNonCharacter(plane * 0x1_0000 + 0xFFFF)
    ensures forall cp :: 0 <= cp <= 0xFDCF ==> !IsNonCharacter(cp)
    ensures forall cp :: IsNonCharacter(cp) ==> IsScalarValue(cp)
  {
    forall plane | 0 <= plane <= 16
      ensures IsNonCharacter(plane * 0x1_0000 + 0xFFFE) && IsNonCharacter(plane * 0x1_0000 + 0xFFFF)
    {
      PlaneOffset(plane, 0xFFFE);
      PlaneOffset(plane, 0xFFFF);
    }
  }

  /** ASCII whitespace is TAB, LF, FF, CR and SPACE, and not NULL or vertical tab; tab or
      newline is TAB, LF and CR. */
  lemma WhitespaceCases()
    ensures IsAsciiWhitespace(0x09) && IsAsciiWhitespace(0x0A) && IsAsciiWhitespace(0x0C)
    ensures IsAsciiWhitespace(0x0D) && IsAsciiWhitespace(0x20)
    ensures !IsAsciiWhitespace(0x00) && !IsAsciiWhitespace(0x0B)
    ensures IsAsciiTabOrNewline(0x09) && IsAsciiTabOrNewline(0x0A) && IsAsciiTabOrNewline(0x0D)
    ensures !IsAsciiTabOrNewline(0x00)
  {
  }

  /** Tab-or-newline is a subset of ASCII whitespace, which is a subset of C0-control-or-space. */
  lemma WhitespaceFamily(cp: int)
    ensures IsAsciiTabOrNewline(cp) ==> IsAsciiWhitespace(cp)
    ensures IsAsciiWhitespace(cp) ==> IsC0ControlOrSpace(cp)
    ensures IsC0ControlOrSpace(cp) <==> 0x00 <= cp <= 0x20
  {
  }

  /** The C0 controls are U+0000..U+001F; adding U+0020 gives C0-control-or-space. */
  lemma C0Cases()
    ensures forall cp :: 0x00 <= cp <= 0x1F ==> IsC0Control(cp) && IsC0ControlOrSpace(cp)
    ensures !IsC0Control(0x20) && IsC0ControlOrSpace(0x20)
  {
  }

  /** The digit, hex digit and alpha families with their ranges; the upper and lower letter
      ranges never overlap, so upper and lower hex digits share only the digits. */
  lemma DigitAndAlphaFamily(cp: int)
    ensures IsAsciiDigit(cp) <==> 0x30 <= cp <= 0x39
    ensures IsAsciiUpperHexDigit(cp) <==> IsAsciiDigit(cp) || 0x41 <= cp <= 0x46
    ensures IsAsciiLowerHexDigit(cp) <==> IsAsciiDigit(cp) || 0x61 <= cp <= 0x66
    ensures IsAsciiHexDigit(cp) <==> IsAsciiDigit(cp) || 0x41 <= cp <= 0x46 || 0x61 <= cp <= 0x66
    ensures IsAsciiUpperHexDigit(cp) && IsAsciiLowerHexDigit(cp) <==> IsAsciiDigit(cp)
    ensures IsAsciiUpperAlpha(cp) <==> 0x41 <= cp <= 0x5A
    ensures IsAsciiLowerAlpha(cp) <==> 0x61 <= cp <= 0x7A
    ensures !(IsAsciiUpperAlpha(cp) && IsAsciiLowerAlpha(cp))
    ensures IsAsciiAlpha(cp) <==> 0x41 <= cp <= 0x5A || 0x61 <= cp <= 0x7A
    ensures IsAsciiAlphanumeric(cp) <==> IsAsciiAlpha(cp) || IsAsciiDigit(cp)
    ensures IsAsciiAlphanumeric(cp) || IsAsciiHexDigit(cp) || IsC0ControlOrSpace(cp) ==> IsAscii(cp)
  {
  }
}
