/**
 * Percent-decoding as `decodeURIComponent` performs it (the Decode operation of
 * ECMA-262, section 19.2.6, with an empty set of preserved escapes), over UTF-8
 * as in section 2.1 of RFC 3986, and its partner `encodeURIComponent`.
 */
module UriCoding {
  import opened Wrappers
  import opened JsText

  // ---------------------------------------------------------------------------
  // UTF-8
  // ---------------------------------------------------------------------------

  /** The number of leading one bits of an octet. */
  function LeadingOnes(b: Byte): nat {
    if b < 0x80 then 0
    else if b < 0xC0 then 1
    else if b < 0xE0 then 2
    else if b < 0xF0 then 3
    else if b < 0xF8 then 4
    else if b < 0xFC then 5
    else if b < 0xFE then 6
    else if b < 0xFF then 7
    else 8
  }

  predicate IsContinuation(b: Byte) {
    0x80 <= b < 0xC0
  }

  predicate IsScalarValue(cp: CodePoint) {
    !(0xD800 <= cp <= 0xDFFF)
  }

  /** The smallest code point that needs `n` octets; anything below is an overlong form. */
  function MinForLength(n: nat): nat {
    if n == 2 then 0x80 else if n == 3 then 0x800 else 0x1_0000
  }

  /** The code point carried by a lead octet of `|octets|` leading ones and its continuation octets. */
  function MultiOctetValue(octets: seq<Byte>): int
    requires 2 <= |octets| <= 4
  {
    var b0: int, b1: int := octets[0], octets[1];
    if |octets| == 2 then
      (b0 - 0xC0) * 0x40 + (b1 - 0x80)
    else
      var b2: int := octets[2];
      if |octets| == 3 then
        (b0 - 0xE0) * 0x1000 + (b1 - 0x80) * 0x40 + (b2 - 0x80)
      else
        var b3: int := octets[3];
        (b0 - 0xF0) * 0x4_0000 + (b1 - 0x80) * 0x1000 + (b2 - 0x80) * 0x40 + (b3 - 0x80)
  }

  /** The code point that `octets` is the valid UTF-8 encoding of, if it is one (multi-octet forms only). */
  function Utf8Decode(octets: seq<Byte>): (r: Option<CodePoint>)
    ensures r.Some? ==> IsScalarValue(r.value) && r.value >= 0x80
  {
    if 2 <= |octets| <= 4 && LeadingOnes(octets[0]) == |octets|
       && (forall j | 1 <= j < |octets| :: IsContinuation(octets[j]))
    then
      var cp := MultiOctetValue(octets);
      if MinForLength(|octets|) <= cp <= 0x10_FFFF && !(0xD800 <= cp <= 0xDFFF) then Some(cp) else None
    else None
  }

  /** The UTF-8 encoding of a code point. */
  function Utf8Encode(cp: CodePoint): (octets: seq<Byte>)
    ensures 1 <= |octets| <= 4
  {
    if cp < 0x80 then [cp]
    else if cp < 0x800 then [0xC0 + cp / 0x40, 0x80 + cp % 0x40]
    else if cp < 0x1_0000 then [0xE0 + cp / 0x1000, 0x80 + (cp / 0x40) % 0x40, 0x80 + cp % 0x40]
    else [0xF0 + cp / 0x4_0000, 0x80 + (cp / 0x1000) % 0x40, 0x80 + (cp / 0x40) % 0x40, 0x80 + cp % 0x40]
  }

  /** The code units of a code point: itself, or a surrogate pair above the Basic Multilingual Plane. */
  function CodePointToUnits(cp: CodePoint): (units: JsString)
    ensures 1 <= |units| <= 2
  {
    if cp < 0x1_0000 then [cp]
    else [0xD800 + (cp - 0x1_0000) / 0x400, 0xDC00 + (cp - 0x1_0000) % 0x400]
  }

  // ---------------------------------------------------------------------------
  // decodeURIComponent
  // ---------------------------------------------------------------------------

  /** The octets of `n` consecutive escapes `%XY` at the front of `s`, if they are all there. */
  function ParseEscapes(s: JsString, n: nat): (r: Option<seq<Byte>>)
    ensures r.Some? ==> |r.value| == n && 3 * n <= |s|
    decreases n
  {
    if n == 0 then Some([])
    else if 3 <= |s| && s[0] == Percent && IsHexDigit(s[1]) && IsHexDigit(s[2]) then
      match ParseEscapes(s[3..], n - 1)
      case None => None
      case Some(rest) => Some([HexValue(s[1]) * 16 + HexValue(s[2])] + rest)
    else None
  }

  /** What one escape group at the front of `s` decodes to, and how many code units it spans. */
  datatype Decoded = Decoded(units: JsString, width: nat)

  /**
   * Decodes the escape group that starts with the `%` at the front of `s`: one
   * escape for an ASCII octet, or as many escapes as the lead octet announces,
   * which must together be valid UTF-8.
   */
  function DecodeEscape(s: JsString): (r: Result<Decoded, JsError>)
    requires |s| > 0 && s[0] == Percent
    ensures r.Ok? ==> 3 <= r.value.width <= |s| && 1 <= |r.value.units| <= r.value.width / 3
    ensures r.Err? ==> r.error == URIError
  {
    match ParseEscapes(s, 1)
    case None => Err(URIError)
    case Some(lead) =>
      var n := LeadingOnes(lead[0]);
      if n == 0 then Ok(Decoded([lead[0]], 3))
      else if n == 1 || n > 4 then Err(URIError)
      else
        match ParseEscapes(s, n)
        case None => Err(URIError)
        case Some(octets) =>
          match Utf8Decode(octets)
          case None => Err(URIError)
          case Some(cp) => Ok(Decoded(CodePointToUnits(cp), 3 * n))
  }

  /** `decodeURIComponent(s)`: the decoded string, or the URIError it throws. */
  function Decode(s: JsString): (r: Result<JsString, JsError>)
    ensures r.Err? ==> r.error == URIError
    ensures r.Ok? ==> |r.value| <= |s|
    decreases |s|
  {
    if s == [] then Ok([])
    else if s[0] != Percent then
      match Decode(s[1..])
      case Err(e) => Err(e)
      case Ok(t) => Ok([s[0]] + t)
    else
      match DecodeEscape(s)
      case Err(e) => Err(e)
      case Ok(d) =>
        match Decode(s[d.width..])
        case Err(e) => Err(e)
        case Ok(t) => Ok(d.units + t)
  }

  /** A `%` at `p` that is not followed by two hexadecimal digits. */
  predicate BadPercentAt(s: JsString, p: nat) {
    p < |s| && s[p] == Percent && !(p + 2 < |s| && IsHexDigit(s[p + 1]) && IsHexDigit(s[p + 2]))
  }

  /** A string without `%` decodes to itself. */
  lemma {:induction false} DecodeWithoutEscapes(s: JsString)
    requires forall i | 0 <= i < |s| :: s[i] != Percent
    ensures Decode(s) == Ok(s)
    decreases |s|
  {
    if s != [] {
      DecodeWithoutEscapes(s[1..]);
      assert [s[0]] + s[1..] == s;
    }
  }

  /** Every `%` inside a parsed run of escapes starts an escape `%XY`. */
  lemma {:induction false} ParsedEscapesAreWellFormed(s: JsString, n: nat, p: nat)
    requires ParseEscapes(s, n).Some? && p < 3 * n && s[p] == Percent
    ensures !BadPercentAt(s, p)
    decreases n
  {
    if p >= 3 {
      ParsedEscapesAreWellFormed(s[3..], n - 1, p - 3);
    }
  }

  /** A `%` not followed by two hexadecimal digits, anywhere in the input, makes decoding throw. */
  lemma {:induction false} DecodeRejectsBadPercent(s: JsString, p: nat)
    requires BadPercentAt(s, p)
    ensures Decode(s) == Err(URIError)
    decreases |s|
  {
    if s[0] != Percent {
      DecodeRejectsBadPercent(s[1..], p - 1);
    } else if p == 0 {
      assert ParseEscapes(s, 1).None?;
    } else {
      match DecodeEscape(s)
      case Err(_) =>
      case Ok(d) =>
        var lead := ParseEscapes(s, 1).value;
        if p < d.width {
          if LeadingOnes(lead[0]) == 0 {
            ParsedEscapesAreWellFormed(s, 1, p);
          } else {
            ParsedEscapesAreWellFormed(s, LeadingOnes(lead[0]), p);
          }
          assert false;
        }
        DecodeRejectsBadPercent(s[d.width..], p - d.width);
    }
  }

  // ---------------------------------------------------------------------------
  // encodeURIComponent
  // ---------------------------------------------------------------------------

  /** The code units `encodeURIComponent` leaves as they are: ASCII letters, digits and `-_.!~*'()`. */
  predicate IsUnescaped(c: CodeUnit) {
    0x30 <= c <= 0x39 || 0x41 <= c <= 0x5A || 0x61 <= c <= 0x7A
    || c == 0x2D || c == 0x5F || c == 0x2E || c == 0x21 || c == 0x7E
    || c == 0x2A || c == 0x27 || c == 0x28 || c == 0x29
  }

  /** `%XY` for each octet, with upper-case hexadecimal digits. */
  function PercentEncode(octets: seq<Byte>): (r: JsString)
    ensures |r| == 3 * |octets|
  {
    if octets == [] then []
    else [Percent, HexDigit(octets[0] / 16), HexDigit(octets[0] % 16)] + PercentEncode(octets[1..])
  }

  /** The code point of a high surrogate followed by a low surrogate. */
  function PairValue(hi: CodeUnit, lo: CodeUnit): (cp: CodePoint)
    requires IsHighSurrogate(hi) && IsLowSurrogate(lo)
    ensures 0x1_0000 <= cp && CodePointToUnits(cp) == [hi, lo]
  {
    (hi - 0xD800) * 0x400 + (lo - 0xDC00) + 0x1_0000
  }

  /** `encodeURIComponent(s)`: the encoded string, or the URIError it throws on a lone surrogate. */
  function Encode(s: JsString): (r: Result<JsString, JsError>)
    ensures r.Err? ==> r.error == URIError
    decreases |s|
  {
    if s == [] then Ok([])
    else
      var c := s[0];
      if IsUnescaped(c) then
        match Encode(s[1..])
        case Err(e) => Err(e)
        case Ok(t) => Ok([c] + t)
      else if IsLowSurrogate(c) then Err(URIError)
      else if IsHighSurrogate(c) then
        if 2 <= |s| && IsLowSurrogate(s[1]) then
          match Encode(s[2..])
          case Err(e) => Err(e)
          case Ok(t) => Ok(PercentEncode(Utf8Encode(PairValue(c, s[1]))) + t)
        else Err(URIError)
      else
        match Encode(s[1..])
        case Err(e) => Err(e)
        case Ok(t) => Ok(PercentEncode(Utf8Encode(c)) + t)
  }

  /** A surrogate at `i` that is not half of a high-then-low pair. */
  predicate LoneSurrogateAt(s: JsString, i: nat) {
    i < |s| &&
    ((IsHighSurrogate(s[i]) && !(i + 1 < |s| && IsLowSurrogate(s[i + 1])))
     || (IsLowSurrogate(s[i]) && !(0 < i && IsHighSurrogate(s[i - 1]))))
  }

  /** A string that is well-formed UTF-16: no lone surrogates. */
  predicate IsWellFormedUtf16(s: JsString) {
    forall i: nat | i < |s| :: !LoneSurrogateAt(s, i)
  }

  /** An ASCII string holds no surrogate at all. */
  lemma AsciiIsWellFormed(s: JsString)
    requires forall i | 0 <= i < |s| :: s[i] < 0x80
    ensures IsWellFormedUtf16(s)
  {
  }

  /** Joining two well-formed strings gives a well-formed string. */
  lemma WellFormedConcat(a: JsString, b: JsString)
    requires IsWellFormedUtf16(a) && IsWellFormedUtf16(b)
    ensures IsWellFormedUtf16(a + b)
  {
    if a != [] {
      assert !LoneSurrogateAt(a, |a| - 1);
    }
    if b != [] {
      assert !LoneSurrogateAt(b, 0);
    }
    var s := a + b;
    forall i: nat | i < |s| ensures !LoneSurrogateAt(s, i) {
      if i < |a| {
        assert !LoneSurrogateAt(a, i);
      } else {
        assert !LoneSurrogateAt(b, i - |a|);
      }
    }
  }

  /** Dropping a prefix that does not end in a high surrogate shifts lone surrogates with it. */
  lemma LoneSurrogateShift(s: JsString, k: nat)
    requires 0 < k <= |s| && !IsHighSurrogate(s[k - 1])
    ensures forall i: nat :: LoneSurrogateAt(s, i + k) <==> LoneSurrogateAt(s[k..], i)
  {
  }

  /** `encodeURIComponent` throws exactly when the string holds a lone surrogate. */
  lemma {:induction false} EncodeSucceedsIffWellFormed(s: JsString)
    ensures Encode(s).Ok? <==> IsWellFormedUtf16(s)
    decreases |s|
  {
    if s != [] {
      var c := s[0];
      if IsLowSurrogate(c) {
        assert LoneSurrogateAt(s, 0);
      } else if IsHighSurrogate(c) {
        if 2 <= |s| && IsLowSurrogate(s[1]) {
          EncodeSucceedsIffWellFormed(s[2..]);
          LoneSurrogateShift(s, 2);
          assert !LoneSurrogateAt(s, 0) && !LoneSurrogateAt(s, 1);
          if IsWellFormedUtf16(s[2..]) {
            forall i: nat | i < |s| ensures !LoneSurrogateAt(s, i) {
              if i >= 2 { assert !LoneSurrogateAt(s[2..], i - 2); }
            }
          } else {
            var j: nat :| j < |s[2..]| && LoneSurrogateAt(s[2..], j);
            assert LoneSurrogateAt(s, j + 2);
          }
        } else {
          assert LoneSurrogateAt(s, 0);
        }
      } else {
        EncodeSucceedsIffWellFormed(s[1..]);
        LoneSurrogateShift(s, 1);
        assert !LoneSurrogateAt(s, 0);
        if IsWellFormedUtf16(s[1..]) {
          forall i: nat | i < |s| ensures !LoneSurrogateAt(s, i) {
            if i >= 1 { assert !LoneSurrogateAt(s[1..], i - 1); }
          }
        } else {
          var j: nat :| j < |s[1..]| && LoneSurrogateAt(s[1..], j);
          assert LoneSurrogateAt(s, j + 1);
        }
      }
    }
  }

  /** The output of `encodeURIComponent` never contains a `/`. */
  lemma {:induction false} EncodeHasNoSlash(s: JsString)
    requires Encode(s).Ok?
    ensures forall i | 0 <= i < |Encode(s).value| :: Encode(s).value[i] != Slash
    decreases |s|
  {
    if s != [] {
      var c := s[0];
      if IsUnescaped(c) {
        EncodeHasNoSlash(s[1..]);
      } else if IsHighSurrogate(c) {
        EncodeHasNoSlash(s[2..]);
        PercentEncodeHasNoSlash(Utf8Encode(PairValue(c, s[1])));
      } else {
        EncodeHasNoSlash(s[1..]);
        PercentEncodeHasNoSlash(Utf8Encode(c));
      }
    }
  }

  lemma {:induction false} PercentEncodeHasNoSlash(octets: seq<Byte>)
    ensures forall i | 0 <= i < |PercentEncode(octets)| :: PercentEncode(octets)[i] != Slash
  {
    if octets != [] {
      PercentEncodeHasNoSlash(octets[1..]);
    }
  }

  // ---------------------------------------------------------------------------
  // Round trip: decodeURIComponent(encodeURIComponent(s)) == s
  // ---------------------------------------------------------------------------

  /** The two hexadecimal digits written for an octet read back as that octet. */
  lemma HexPairValue(b: Byte)
    ensures HexValue(HexDigit(b / 16)) * 16 + HexValue(HexDigit(b % 16)) == b
  {
  }

  /** The escapes written for some octets parse back to those octets. */
  lemma {:induction false} ParsePercentEncode(octets: seq<Byte>, rest: JsString)
    ensures ParseEscapes(PercentEncode(octets) + rest, |octets|) == Some(octets)
    decreases |octets|
  {
    if octets != [] {
      var b := octets[0];
      var hi, lo := HexDigit(b / 16), HexDigit(b % 16);
      var tail := PercentEncode(octets[1..]) + rest;
      var s := PercentEncode(octets) + rest;
      assert s == [Percent, hi, lo] + tail;
      assert s[0] == Percent && s[1] == hi && s[2] == lo && s[3..] == tail;
      ParsePercentEncode(octets[1..], rest);
      HexPairValue(b);
      assert [b] + octets[1..] == octets;
    }
  }

  /** UTF-8 encoding is undone by UTF-8 decoding, and the lead octet announces the length. */
  lemma Utf8RoundTrip(cp: CodePoint)
    requires IsScalarValue(cp)
    ensures var o := Utf8Encode(cp);
      if cp < 0x80 then o == [cp] && LeadingOnes(o[0]) == 0
      else LeadingOnes(o[0]) == |o| && Utf8Decode(o) == Some(cp)
  {
    if 0x80 <= cp < 0x800 {
      Utf8RoundTrip2(cp);
    } else if 0x800 <= cp < 0x1_0000 {
      Utf8RoundTrip3(cp);
    } else if 0x1_0000 <= cp {
      Utf8RoundTrip4(cp);
    }
  }

  lemma Utf8RoundTrip2(cp: CodePoint)
    requires 0x80 <= cp < 0x800
    ensures LeadingOnes(Utf8Encode(cp)[0]) == 2 && Utf8Decode(Utf8Encode(cp)) == Some(cp)
  {
    var q, r := cp / 0x40, cp % 0x40;
    assert cp == q * 0x40 + r;
    assert MultiOctetValue(Utf8Encode(cp)) == cp;
  }

  lemma Utf8RoundTrip3(cp: CodePoint)
    requires 0x800 <= cp < 0x1_0000 && IsScalarValue(cp)
    ensures LeadingOnes(Utf8Encode(cp)[0]) == 3 && Utf8Decode(Utf8Encode(cp)) == Some(cp)
  {
    var q := cp / 0x40;
    var r := cp % 0x40;
    assert cp == q * 0x40 + r;
    var q2, r2 := q / 0x40, q % 0x40;
    assert q == q2 * 0x40 + r2;
    assert q2 == cp / 0x1000;
    assert MultiOctetValue(Utf8Encode(cp)) == q2 * 0x1000 + r2 * 0x40 + r;
  }

  lemma Utf8RoundTrip4(cp: CodePoint)
    requires 0x1_0000 <= cp
    ensures LeadingOnes(Utf8Encode(cp)[0]) == 4 && Utf8Decode(Utf8Encode(cp)) == Some(cp)
  {
    var q := cp / 0x40;
    var r := cp % 0x40;
    assert cp == q * 0x40 + r;
    var q2, r2 := q / 0x40, q % 0x40;
    assert q == q2 * 0x40 + r2;
    assert q2 == cp / 0x1000;
    var q3, r3 := q2 / 0x40, q2 % 0x40;
    assert q2 == q3 * 0x40 + r3;
    assert q3 == cp / 0x4_0000;
    assert MultiOctetValue(Utf8Encode(cp)) == q3 * 0x4_0000 + r3 * 0x1000 + r2 * 0x40 + r;
  }

  /** Splitting `q * 0x40 + r` back into its quotient and remainder. */
  lemma DivMod40(q: int, r: int)
    requires 0 <= q && 0 <= r < 0x40
    ensures (q * 0x40 + r) / 0x40 == q && (q * 0x40 + r) % 0x40 == r
  {
  }

  lemma DivMod1000(q: int, r: int)
    requires 0 <= q && 0 <= r < 0x1000
    ensures (q * 0x1000 + r) / 0x1000 == q
  {
  }

  lemma DivMod40000(q: int, r: int)
    requires 0 <= q && 0 <= r < 0x4_0000
    ensures (q * 0x4_0000 + r) / 0x4_0000 == q
  {
  }

  /** Only the encoding of a code point decodes to it: UTF-8 decoding accepts no overlong or other alternative form. */
  lemma Utf8DecodeIsInverse(octets: seq<Byte>)
    requires Utf8Decode(octets).Some?
    ensures Utf8Encode(Utf8Decode(octets).value) == octets
  {
    var cp := Utf8Decode(octets).value;
    assert cp == MultiOctetValue(octets);
    if |octets| == 2 {
      Utf8DecodeIsInverse2(octets[0], octets[1]);
    } else if |octets| == 3 {
      Utf8DecodeIsInverse3(octets[0], octets[1], octets[2]);
    } else {
      Utf8DecodeIsInverse4(octets[0], octets[1], octets[2], octets[3]);
    }
  }

  lemma Utf8DecodeIsInverse2(b0: Byte, b1: Byte)
    requires 0xC0 <= b0 < 0xE0 && IsContinuation(b1)
    requires 0x80 <= MultiOctetValue([b0, b1])
    ensures Utf8Encode(MultiOctetValue([b0, b1])) == [b0, b1]
  {
    var cp := MultiOctetValue([b0, b1]);
    assert cp == (b0 - 0xC0) * 0x40 + (b1 - 0x80);
    DivMod40(b0 - 0xC0, b1 - 0x80);
  }

  lemma Utf8DecodeIsInverse3(b0: Byte, b1: Byte, b2: Byte)
    requires 0xE0 <= b0 < 0xF0 && IsContinuation(b1) && IsContinuation(b2)
    requires 0x800 <= MultiOctetValue([b0, b1, b2])
    ensures Utf8Encode(MultiOctetValue([b0, b1, b2])) == [b0, b1, b2]
  {
    var cp := MultiOctetValue([b0, b1, b2]);
    var hi := (b0 - 0xE0) * 0x40 + (b1 - 0x80);
    assert cp == hi * 0x40 + (b2 - 0x80);
    DivMod40(hi, b2 - 0x80);
    DivMod40(b0 - 0xE0, b1 - 0x80);
    DivMod1000(b0 - 0xE0, (b1 - 0x80) * 0x40 + (b2 - 0x80));
  }

  lemma Utf8DecodeIsInverse4(b0: Byte, b1: Byte, b2: Byte, b3: Byte)
    requires 0xF0 <= b0 < 0xF8 && IsContinuation(b1) && IsContinuation(b2) && IsContinuation(b3)
    requires 0x1_0000 <= MultiOctetValue([b0, b1, b2, b3]) <= 0x10_FFFF
    ensures Utf8Encode(MultiOctetValue([b0, b1, b2, b3])) == [b0, b1, b2, b3]
  {
    var cp := MultiOctetValue([b0, b1, b2, b3]);
    var top := (b0 - 0xF0) * 0x40 + (b1 - 0x80);
    var mid := top * 0x40 + (b2 - 0x80);
    assert cp == mid * 0x40 + (b3 - 0x80);
    DivMod40(mid, b3 - 0x80);
    DivMod40(top, b2 - 0x80);
    DivMod40(b0 - 0xF0, b1 - 0x80);
    DivMod1000(top, (b2 - 0x80) * 0x40 + (b3 - 0x80));
    DivMod40000(b0 - 0xF0, (b1 - 0x80) * 0x1000 + (b2 - 0x80) * 0x40 + (b3 - 0x80));
  }

  /**
   * An escape group decodes only when its octets are the UTF-8 encoding of a
   * scalar value, and then to that value's code units: a stray continuation
   * octet, a truncated sequence, an overlong form or an encoded surrogate
   * makes `decodeURIComponent` throw.
   */
  lemma DecodeEscapeAcceptsOnlyUtf8(s: JsString)
    requires |s| > 0 && s[0] == Percent && DecodeEscape(s).Ok?
    ensures exists cp: CodePoint :: DecodesAsEncodingOf(s, cp)
  {
    var lead := ParseEscapes(s, 1).value;
    var n := LeadingOnes(lead[0]);
    if n == 0 {
      var cp: CodePoint := lead[0];
      assert lead == [lead[0]] == Utf8Encode(cp) == CodePointToUnits(cp);
      assert DecodeEscape(s) == Ok(Decoded([lead[0]], 3));
      assert DecodesAsEncodingOf(s, cp);
    } else {
      var octets := ParseEscapes(s, n).value;
      var cp := Utf8Decode(octets).value;
      Utf8DecodeIsInverse(octets);
      assert DecodesAsEncodingOf(s, cp);
    }
  }

  /** `s` starts with the escapes of the UTF-8 encoding of `cp`, and its first group decodes to `cp`'s code units. */
  predicate DecodesAsEncodingOf(s: JsString, cp: CodePoint)
    requires |s| > 0 && s[0] == Percent
  {
    IsScalarValue(cp) && ParseEscapes(s, |Utf8Encode(cp)|) == Some(Utf8Encode(cp)) &&
    DecodeEscape(s) == Ok(Decoded(CodePointToUnits(cp), 3 * |Utf8Encode(cp)|))
  }

  /** A parsed run of escapes starts with the escape of its first octet. */
  lemma ParseEscapesPrefix(s: JsString, n: nat)
    requires n >= 1 && ParseEscapes(s, n).Some?
    ensures ParseEscapes(s, 1) == Some([ParseEscapes(s, n).value[0]])
  {
    var b := HexValue(s[1]) * 16 + HexValue(s[2]);
    assert ParseEscapes(s[3..], 0) == Some([]);
    assert [b] + [] == [b];
  }

  /**
   * The converse of `DecodeEscapeAcceptsOnlyUtf8`, in any spelling (either
   * case of hexadecimal digit, characters escaped that need not be): escapes
   * spelling the UTF-8 encoding of a scalar value decode, as one group, to its
   * code units.
   */
  lemma DecodeEscapeAcceptsUtf8(s: JsString, cp: CodePoint)
    requires |s| > 0 && s[0] == Percent && IsScalarValue(cp)
    requires ParseEscapes(s, |Utf8Encode(cp)|) == Some(Utf8Encode(cp))
    ensures DecodeEscape(s) == Ok(Decoded(CodePointToUnits(cp), 3 * |Utf8Encode(cp)|))
  {
    Utf8RoundTrip(cp);
    ParseEscapesPrefix(s, |Utf8Encode(cp)|);
  }

  /** The escapes `encodeURIComponent` writes for one code point decode back to its code units. */
  lemma DecodeEncodedCodePoint(cp: CodePoint, rest: JsString)
    requires IsScalarValue(cp)
    ensures var s := PercentEncode(Utf8Encode(cp)) + rest;
      DecodeEscape(s) == Ok(Decoded(CodePointToUnits(cp), |PercentEncode(Utf8Encode(cp))|))
  {
    var o := Utf8Encode(cp);
    var s := PercentEncode(o) + rest;
    Utf8RoundTrip(cp);
    ParsePercentEncode(o, rest);
    ParsePercentEncode([o[0]], PercentEncode(o[1..]) + rest);
    assert PercentEncode(o) == PercentEncode([o[0]]) + PercentEncode(o[1..]);
  }

  /** A code unit other than `%` is copied, and decoding goes on after it. */
  lemma DecodeUnitThen(c: CodeUnit, t: JsString, u: JsString)
    requires c != Percent && Decode(t) == Ok(u)
    ensures Decode([c] + t) == Ok([c] + u)
  {
    assert ([c] + t)[1..] == t;
  }

  /** An escape group that decodes on its own is replaced by its code units, and decoding goes on after it. */
  lemma DecodeGroupThen(e: JsString, t: JsString, units: JsString, u: JsString)
    requires |e| > 0 && e[0] == Percent
    requires DecodeEscape(e + t) == Ok(Decoded(units, |e|)) && Decode(t) == Ok(u)
    ensures Decode(e + t) == Ok(units + u)
  {
    assert (e + t)[|e|..] == t;
  }

  /** The escapes written for a code point, followed by text that decodes, decode to its code units and that text. */
  lemma DecodeEncodedThen(cp: CodePoint, t: JsString, u: JsString)
    requires IsScalarValue(cp) && Decode(t) == Ok(u)
    ensures Decode(PercentEncode(Utf8Encode(cp)) + t) == Ok(CodePointToUnits(cp) + u)
  {
    DecodeEncodedCodePoint(cp, t);
    DecodeGroupThen(PercentEncode(Utf8Encode(cp)), t, CodePointToUnits(cp), u);
  }

  lemma SplitFirst(s: JsString, n: nat)
    requires 1 <= n <= 2 && n <= |s|
    ensures s == s[..n] + s[n..] && (n == 1 ==> s[..n] == [s[0]]) && (n == 2 ==> s[..n] == [s[0], s[1]])
  {
  }

  /** `decodeURIComponent` inverts `encodeURIComponent` wherever the latter does not throw. */
  lemma {:induction false} DecodeEncode(s: JsString)
    requires Encode(s).Ok?
    ensures Decode(Encode(s).value) == Ok(s)
    decreases |s|
  {
    if s != [] {
      var c := s[0];
      if IsUnescaped(c) {
        DecodeEncode(s[1..]);
        DecodeUnitThen(c, Encode(s[1..]).value, s[1..]);
        SplitFirst(s, 1);
      } else if IsHighSurrogate(c) {
        DecodeEncode(s[2..]);
        DecodeEncodedThen(PairValue(c, s[1]), Encode(s[2..]).value, s[2..]);
        SplitFirst(s, 2);
      } else {
        DecodeEncode(s[1..]);
        DecodeEncodedThen(c, Encode(s[1..]).value, s[1..]);
        SplitFirst(s, 1);
      }
    }
  }
}
