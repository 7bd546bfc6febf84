/** JavaScript strings as the userscript sees them: sequences of UTF-16 code units. */
module JsText {

  /** One UTF-16 code unit; lone surrogates are allowed, as in any JavaScript string. */
  type CodeUnit = c: int | 0 <= c < 0x1_0000

  /** A JavaScript string value. */
  type JsString = seq<CodeUnit>

  /** One octet. */
  type Byte = b: int | 0 <= b < 0x100

  /** A Unicode code point. */
  type CodePoint = c: int | 0 <= c <= 0x10_FFFF

  /** The exceptions the modelled code can raise. */
  datatype JsError =
    | URIError     // malformed percent-escape, or a lone surrogate to encode
    | TypeError    // `fetch` rejected, or a property read on `undefined`
    | SyntaxError  // the response body is not JSON

  /** The ASCII text `s` as code units (used for the script's string literals). */
  function Units(s: string): (r: JsString)
    requires forall i :: 0 <= i < |s| ==> s[i] as int < 0x80
    ensures |r| == |s| && forall i | 0 <= i < |r| :: r[i] < 0x80
  {
    seq(|s|, i requires 0 <= i < |s| => s[i] as int)
  }

  const Percent: CodeUnit := 0x25  // '%'
  const Slash: CodeUnit := 0x2F    // '/'
  const UpperP: CodeUnit := 0x50   // 'P'
  const UpperA: CodeUnit := 0x41   // 'A'

  /** The regular-expression class `\d` (without the `u` flag): ASCII '0'..'9'. */
  predicate IsDigit(c: CodeUnit) {
    0x30 <= c <= 0x39
  }

  predicate IsHexDigit(c: CodeUnit) {
    IsDigit(c) || 0x41 <= c <= 0x46 || 0x61 <= c <= 0x66
  }

  /** The value of a hexadecimal digit, either case. */
  function HexValue(c: CodeUnit): (v: nat)
    requires IsHexDigit(c)
    ensures v < 16
  {
    if IsDigit(c) then c - 0x30 else if c <= 0x46 then c - 0x41 + 10 else c - 0x61 + 10
  }

  /** The upper-case hexadecimal digit for `v`, as `encodeURIComponent` writes it. */
  function HexDigit(v: nat): (c: CodeUnit)
    requires v < 16
    ensures IsHexDigit(c) && HexValue(c) == v
  {
    if v < 10 then 0x30 + v else 0x41 + v - 10
  }

  predicate IsHighSurrogate(c: CodeUnit) {
    0xD800 <= c <= 0xDBFF
  }

  predicate IsLowSurrogate(c: CodeUnit) {
    0xDC00 <= c <= 0xDFFF
  }
}
