/**
 * `commonsFilePageFromImageUrl`: the Wikimedia Commons file page of an image
 * URL, built from the percent-decoded text after the URL's last `/`.
 */
module CommonsLink {
  import opened Wrappers
  import opened JsText
  import opened UriCoding

  /** `parts.join(sep)`. */
  function Join(parts: seq<JsString>, sep: CodeUnit): JsString
    requires |parts| >= 1
    decreases |parts|
  {
    if |parts| == 1 then parts[0] else Join(parts[..|parts| - 1], sep) + [sep] + parts[|parts| - 1]
  }

  lemma JoinAppendEmpty(parts: seq<JsString>, sep: CodeUnit)
    requires |parts| >= 1
    ensures Join(parts + [[]], sep) == Join(parts, sep) + [sep]
  {
    assert (parts + [[]])[..|parts|] == parts;
  }

  lemma JoinExtendLast(parts: seq<JsString>, c: CodeUnit, sep: CodeUnit)
    requires |parts| >= 1
    ensures Join(parts[..|parts| - 1] + [parts[|parts| - 1] + [c]], sep) == Join(parts, sep) + [c]
  {
    var n := |parts|;
    var longer := parts[..n - 1] + [parts[n - 1] + [c]];
    if n > 1 {
      assert longer[..n - 1] == parts[..n - 1];
    }
  }

  /** `s.split(sep)` for a one-unit separator: the pieces between separators, never none. */
  function Split(s: JsString, sep: CodeUnit): (parts: seq<JsString>)
    ensures |parts| >= 1
    ensures forall k | 0 <= k < |parts| :: sep !in parts[k]
    ensures Join(parts, sep) == s
    decreases |s|
  {
    if s == [] then [[]]
    else
      var init := Split(s[..|s| - 1], sep);
      var c := s[|s| - 1];
      assert s == s[..|s| - 1] + [c];
      if c == sep then
        JoinAppendEmpty(init, sep);
        init + [[]]
      else
        JoinExtendLast(init, c, sep);
        init[..|init| - 1] + [init[|init| - 1] + [c]]
  }

  /**
   * `s.split("/").pop()`: the longest suffix without a `/`, which is all of
   * `s` when `s` has no `/`, and otherwise what follows the last `/`.
   */
  function LastSegment(s: JsString): (seg: JsString)
    ensures |seg| <= |s| && seg == s[|s| - |seg|..] && Slash !in seg
    ensures |seg| == |s| || s[|s| - |seg| - 1] == Slash
  {
    var parts := Split(s, Slash);
    assert |parts| > 1 ==> s == Join(parts[..|parts| - 1], Slash) + [Slash] + parts[|parts| - 1];
    parts[|parts| - 1]
  }

  /** The last segment of `base + "/" + tail` is `tail` when `tail` holds no `/`. */
  lemma LastSegmentAfterSlash(base: JsString, tail: JsString)
    requires Slash !in tail
    ensures LastSegment(base + [Slash] + tail) == tail
  {
    var s := base + [Slash] + tail;
    var seg := LastSegment(s);
    assert forall k | |s| - |seg| <= k < |s| :: s[k] == seg[k - (|s| - |seg|)] != Slash;
    assert forall k | |base| < k < |s| :: s[k] == tail[k - |base| - 1] != Slash;
    assert s[|base|] == Slash;
    assert s[|s| - |tail|..] == tail;
  }

  /** The fixed prefix of every Commons file page the script links to. */
  const CommonsFilePrefix: JsString := Units("https://commons.wikimedia.org/wiki/File:")

  /** `commonsFilePageFromImageUrl(imageUrl)`: the page URL, or the URIError that decoding throws. */
  function CommonsFilePageFromImageUrl(imageUrl: JsString): (r: Result<JsString, JsError>)
    ensures r.Err? ==> r.error == URIError
    ensures r.Ok? ==> |CommonsFilePrefix| <= |r.value| && r.value[..|CommonsFilePrefix|] == CommonsFilePrefix
  {
    match Decode(LastSegment(imageUrl))
    case Err(e) => Err(e)
    case Ok(fileName) => Ok(CommonsFilePrefix + fileName)
  }

  /** An image URL whose last segment is the encoded file name leads to that file's page. */
  lemma CommonsPageOfEncodedName(base: JsString, fileName: JsString)
    requires IsWellFormedUtf16(fileName)
    ensures Encode(fileName).Ok?
    ensures CommonsFilePageFromImageUrl(base + [Slash] + Encode(fileName).value) == Ok(CommonsFilePrefix + fileName)
  {
    EncodeSucceedsIffWellFormed(fileName);
    var encoded := Encode(fileName).value;
    EncodeHasNoSlash(fileName);
    LastSegmentAfterSlash(base, encoded);
    DecodeEncode(fileName);
  }

  /** A last segment without `%` is used as it is. */
  lemma CommonsPageOfPlainName(imageUrl: JsString)
    requires Percent !in LastSegment(imageUrl)
    ensures CommonsFilePageFromImageUrl(imageUrl) == Ok(CommonsFilePrefix + LastSegment(imageUrl))
  {
    DecodeWithoutEscapes(LastSegment(imageUrl));
  }

  /** A `%` in the last segment that is not followed by two hexadecimal digits makes the call throw. */
  lemma CommonsPageRejectsBadEscape(imageUrl: JsString, p: nat)
    requires BadPercentAt(LastSegment(imageUrl), p)
    ensures CommonsFilePageFromImageUrl(imageUrl) == Err(URIError)
  {
    DecodeRejectsBadPercent(LastSegment(imageUrl), p);
  }

  /** Only the last segment matters: everything up to the last `/` is ignored. */
  lemma CommonsPageIgnoresDirectory(base1: JsString, base2: JsString, tail: JsString)
    requires Slash !in tail
    ensures CommonsFilePageFromImageUrl(base1 + [Slash] + tail) == CommonsFilePageFromImageUrl(base2 + [Slash] + tail)
  {
    LastSegmentAfterSlash(base1, tail);
    LastSegmentAfterSlash(base2, tail);
  }
}
