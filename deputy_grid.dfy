/**
 * `processDeputy` and `main`: the enrichment of the deputies' photo grid.
 * The grid is the list of `<li>` children of `#grid`; an entry keeps only what
 * the script reads or writes.
 */
module DeputyGrid {
  import opened Wrappers
  import opened JsText
  import opened AnIdentifier
  import opened CommonsLink
  import opened Wikidata
  import opened UriCoding

  /** An `<a>` element: its `href` attribute, if it has one. */
  datatype Anchor = Anchor(href: Option<JsString>)

  /**
   * One `<li>` of the grid: its `<a>` elements, the `src` of its `<img>`
   * elements and the text of its `<h3>` elements, each in document order.
   */
  datatype Entry = Entry(anchors: seq<Anchor>, images: seq<JsString>, headings: seq<JsString>)

  /** `li.querySelector("a[href]")`, read through `getAttribute("href")`: the first anchor that has an `href`. */
  function LinkHref(anchors: seq<Anchor>): (r: Option<JsString>)
    ensures r.None? <==> forall k | 0 <= k < |anchors| :: anchors[k].href.None?
    ensures r.Some? ==> exists k | 0 <= k < |anchors| ::
      anchors[k].href == r && forall j | 0 <= j < k :: anchors[j].href.None?
    decreases |anchors|
  {
    if anchors == [] then None
    else if anchors[0].href.Some? then anchors[0].href
    else LinkHref(anchors[1..])
  }

  /** The text appended to the heading of an inserted entry. */
  const WikimediaSuffix: JsString := Units(" (Wikimedia)")

  /**
   * The identifier `processDeputy` asks Wikidata about, or `None` when it
   * returns before fetching: no linked anchor, no image, no heading, or no
   * identifier in the link.
   */
  function RequestedId(e: Entry): (r: Option<JsString>)
    ensures r.None? <==>
      LinkHref(e.anchors).None? || e.images == [] || e.headings == []
      || forall i | 0 <= i :: !MatchesAt(LinkHref(e.anchors).value, i)
    ensures r.Some? ==> |r.value| > 0 && AllDigits(r.value)
  {
    match LinkHref(e.anchors)
    case None => None
    case Some(href) => if e.images == [] || e.headings == [] then None else ExtractANIdentifier(href)
  }

  /**
   * The identifier asked about is a run of digits, so building the request
   * URL never throws, and its query parameter decodes to the query for it.
   */
  lemma RequestUrlIsBuilt(e: Entry)
    requires RequestedId(e).Some?
    ensures AllDigits(RequestedId(e).value)
    ensures QueryUrl(RequestedId(e).value).Ok?
    ensures var url := QueryUrl(RequestedId(e).value).value;
      |QueryUrlBase| <= |url| && Decode(url[|QueryUrlBase|..]) == Ok(SparqlQuery(RequestedId(e).value))
  {
    var anId := RequestedId(e).value;
    AsciiIsWellFormed(anId);
    QueryUrlCarriesQuery(anId);
  }

  /** How one call of `processDeputy` ends. */
  datatype Step =
    | Unchanged            // returned early, or the fetch threw and was caught
    | Inserted(clone: Entry)
    | Threw(error: JsError) // an exception escaped before the clone was inserted

  /** What `processDeputy` does to an entry, given how its request settles. */
  function Enrichment(e: Entry, response: Response): (r: Step)
    ensures !r.Unchanged? ==> RequestedId(e).Some? && response.Http? && response.ok
    ensures r.Threw? ==> r.error == URIError
  {
    if RequestedId(e).None? then Unchanged
    else
      match FetchWikidataImage(response)
      case Err(_) => Unchanged
      case Ok(None) => Unchanged
      case Ok(Some(imageUrl)) =>
        if imageUrl == [] then Unchanged
        else
          match CommonsFilePageFromImageUrl(imageUrl)
          case Err(err) => Threw(err)
          case Ok(page) =>
            Inserted(Entry(e.anchors[0 := Anchor(Some(page))],
                           e.images[0 := imageUrl],
                           e.headings[0 := e.headings[0] + WikimediaSuffix]))
  }

  /** The entries a step adds after the original: its clone, if any. */
  function Added(step: Step): seq<Entry> {
    if step.Inserted? then [step.clone] else []
  }

  /**
   * The grid is left alone exactly when the entry lacks a link, an image or a
   * heading, the link holds no identifier, the request throws, or no non-empty
   * image comes back.
   */
  lemma UnchangedExactlyWhenSkipped(e: Entry, response: Response)
    ensures Enrichment(e, response) == Unchanged <==>
      LinkHref(e.anchors).None? || e.images == [] || e.headings == []
      || ExtractANIdentifier(LinkHref(e.anchors).value).None?
      || FetchWikidataImage(response).Err?
      || FetchWikidataImage(response).value.None?
      || FetchWikidataImage(response).value.value == []
  {
  }

  /**
   * An inserted entry shows the Wikidata image, links to its Commons page and
   * carries the original heading plus " (Wikimedia)"; everything else is the
   * original's.
   */
  lemma InsertedEntryContent(e: Entry, response: Response)
    requires Enrichment(e, response).Inserted?
    ensures RequestedId(e).Some?
    ensures var imageUrl := FetchWikidataImage(response).value.value;
      var clone := Enrichment(e, response).clone;
      imageUrl != [] && CommonsFilePageFromImageUrl(imageUrl).Ok? &&
      |clone.images| == |e.images| && clone.images[0] == imageUrl &&
      |clone.anchors| == |e.anchors| && clone.anchors[0].href == Some(CommonsFilePageFromImageUrl(imageUrl).value) &&
      |clone.headings| == |e.headings| && clone.headings[0] == e.headings[0] + WikimediaSuffix &&
      clone.images[1..] == e.images[1..] && clone.anchors[1..] == e.anchors[1..] &&
      clone.headings[1..] == e.headings[1..]
  {
  }

  /** The only exception that escapes is the URIError of a malformed escape in the image's file name. */
  lemma ThrowsExactlyOnUndecodableFileName(e: Entry, response: Response)
    ensures Enrichment(e, response).Threw? <==>
      RequestedId(e).Some? && FetchWikidataImage(response).Ok? && FetchWikidataImage(response).value.Some?
      && FetchWikidataImage(response).value.value != []
      && CommonsFilePageFromImageUrl(FetchWikidataImage(response).value.value).Err?
    ensures Enrichment(e, response).Threw? ==> Enrichment(e, response).error == URIError
  {
  }

  /** A `%` without two hexadecimal digits after it in the image's file name makes `processDeputy` throw. */
  lemma BadEscapeThrows(e: Entry, imageUrl: JsString, rows: seq<Binding>, p: nat)
    requires RequestedId(e).Some?
    requires |rows| > 0 && ImageVariable in rows[0] && rows[0][ImageVariable].value == imageUrl
    requires BadPercentAt(LastSegment(imageUrl), p)
    ensures Enrichment(e, Http(true, Bindings(rows))) == Threw(URIError)
  {
    CommonsPageRejectsBadEscape(imageUrl, p);
  }

  /** The grid, `#grid`, whose children the script rewrites. */
  class Grid {
    var children: seq<Entry>

    constructor (children: seq<Entry>)
      ensures this.children == children
    {
      this.children := children;
    }

    /**
     * `processDeputy(li)` for the child at index `i`, whose request settles as
     * `response`. Returns the exception the call throws, if any.
     */
    method ProcessDeputy(i: nat, response: Response) returns (thrown: Option<JsError>)
      requires i < |children|
      modifies this
      ensures var step := Enrichment(old(children[i]), response);
        children == old(children[..i + 1]) + Added(step) + old(children[i + 1..]) &&
        thrown == (if step.Threw? then Some(step.error) else None)
      ensures !Enrichment(old(children[i]), response).Inserted? ==> children == old(children)
    {
      var li := children[i];
      var href := LinkHref(li.anchors);
      if href.None? || li.images == [] || li.headings == [] {
        assert children == children[..i + 1] + children[i + 1..];
        return None;
      }
      var anId := ExtractANIdentifier(href.value);
      if anId.None? {
        assert children == children[..i + 1] + children[i + 1..];
        return None;
      }
      var fetched := FetchWikidataImage(response);
      if fetched.Err? || fetched.value.None? || fetched.value.value == [] {
        // a thrown fetch is caught and logged; a missing image returns
        assert children == children[..i + 1] + children[i + 1..];
        return None;
      }
      var imageUrl := fetched.value.value;
      var clone := li;
      clone := clone.(images := clone.images[0 := imageUrl]);
      var page := CommonsFilePageFromImageUrl(imageUrl);
      if page.Err? {
        assert children == children[..i + 1] + children[i + 1..];
        return Some(page.error);
      }
      assert LinkHref(li.anchors).Some?;
      clone := clone.(anchors := clone.anchors[0 := Anchor(Some(page.value))]);
      clone := clone.(headings := clone.headings[0 := clone.headings[0] + WikimediaSuffix]);
      assert clone == Enrichment(li, response).clone;
      children := children[..i + 1] + [clone] + children[i + 1..];
      thrown := None;
    }

    /**
     * The loop of `main`: snapshots the children, then awaits `processDeputy`
     * on each original in turn, at its current index; clones inserted on the
     * way are never visited.
     */
    method ProcessAll(responses: seq<Response>) returns (completed: bool, calls: nat)
      requires |responses| == |children|
      modifies this
      ensures var steps := Steps(old(children), responses);
        var outcome := MainSpec(old(children), steps);
        children == outcome.children && completed == outcome.completed &&
        calls == (if completed then |responses| else FirstThrow(steps) + 1)
    {
      var deputies := children;
      ghost var steps := Steps(deputies, responses);
      var k, pos := 0, 0;
      while k < |deputies|
        invariant k <= |deputies| && |responses| == |deputies| == |steps|
        invariant k <= FirstThrow(steps)
        invariant children == GridAt(deputies, steps, k)
        invariant pos == |Expanded(deputies[..k], steps[..k])|
      {
        NextOriginalAt(deputies, steps, k);
        NextGrid(deputies, steps, k);
        StepAt(deputies, responses, k);
        var before := |children|;
        var thrown := ProcessDeputy(pos, responses[k]);
        assert thrown.Some? <==> steps[k].Threw?;
        assert children == GridAt(deputies, steps, k + 1) || thrown.Some?;
        assert |children| == before + |Added(steps[k])|;
        if thrown.Some? {
          assert children == GridAt(deputies, steps, k);
          MainSpecAtThrow(deputies, steps, k);
          return false, k + 1;
        }
        FirstThrowLater(steps, k);
        pos := pos + 1 + (|children| - before);
        k := k + 1;
      }
      MainSpecComplete(deputies, steps);
      assert deputies[..k] == deputies && steps[..k] == steps;
      completed, calls := true, k;
    }
  }

  /** What `processDeputy` does to each original, in order. */
  function Steps(originals: seq<Entry>, responses: seq<Response>): (steps: seq<Step>)
    requires |originals| == |responses|
    ensures |steps| == |originals|
    decreases |originals|
  {
    if originals == [] then []
    else [Enrichment(originals[0], responses[0])] + Steps(originals[1..], responses[1..])
  }

  /** The `k`-th step is the enrichment of the `k`-th original with the `k`-th response. */
  lemma {:induction false} StepAt(originals: seq<Entry>, responses: seq<Response>, k: nat)
    requires |originals| == |responses| && k < |originals|
    ensures Steps(originals, responses)[k] == Enrichment(originals[k], responses[k])
    decreases k
  {
    if k > 0 {
      StepAt(originals[1..], responses[1..], k - 1);
    }
  }

  /** The originals followed each by the clone its step inserted, if any. */
  function Expanded(originals: seq<Entry>, steps: seq<Step>): (grid: seq<Entry>)
    requires |originals| == |steps|
    ensures |originals| <= |grid|
    decreases |originals|
  {
    if originals == [] then []
    else [originals[0]] + Added(steps[0]) + Expanded(originals[1..], steps[1..])
  }

  /** The index of the first step that throws, or the number of steps. */
  function FirstThrow(steps: seq<Step>): (j: nat)
    ensures j <= |steps|
    ensures forall k | 0 <= k < j :: !steps[k].Threw?
    ensures j < |steps| ==> steps[j].Threw?
    decreases |steps|
  {
    if steps == [] || steps[0].Threw? then 0
    else 1 + FirstThrow(steps[1..])
  }

  /** The grid after `main`, and whether its loop ran to the end. */
  datatype MainOutcome = MainOutcome(children: seq<Entry>, completed: bool)

  /**
   * The specification of `main` over a grid whose children are `originals`:
   * processed in order until one throws; that one and those after it stay as
   * they were.
   */
  function MainSpec(originals: seq<Entry>, steps: seq<Step>): (r: MainOutcome)
    requires |originals| == |steps|
    ensures r.completed <==> forall k | 0 <= k < |steps| :: !steps[k].Threw?
    ensures |originals| <= |r.children|
  {
    var j := FirstThrow(steps);
    MainOutcome(Expanded(originals[..j], steps[..j]) + originals[j..], j == |originals|)
  }

  /** Processing one more original appends its block to the processed part. */
  lemma {:induction false} ExpandedSnoc(originals: seq<Entry>, steps: seq<Step>, e: Entry, step: Step)
    requires |originals| == |steps|
    ensures Expanded(originals + [e], steps + [step]) == Expanded(originals, steps) + [e] + Added(step)
    decreases |originals|
  {
    if originals == [] {
      assert Expanded([e], [step]) == [e] + Added(step) + Expanded([], []);
    } else {
      ExpandedSnoc(originals[1..], steps[1..], e, step);
      assert (originals + [e])[1..] == originals[1..] + [e];
      assert (steps + [step])[1..] == steps[1..] + [step];
    }
  }

  /** How many of the first `n` steps insert a clone. */
  function ClonesBefore(steps: seq<Step>, n: nat): nat
    requires n <= |steps|
  {
    if n == 0 then 0 else ClonesBefore(steps, n - 1) + |Added(steps[n - 1])|
  }

  /**
   * Original `k` sits in `grid` at index `k` plus the number of clones before
   * it, directly followed by its clone if its step inserted one.
   */
  predicate PlacedAt(grid: seq<Entry>, originals: seq<Entry>, steps: seq<Step>, k: nat)
    requires |originals| == |steps| && k < |steps|
  {
    var at := k + ClonesBefore(steps, k);
    at < |grid| && grid[at] == originals[k] &&
    (steps[k].Inserted? ==> at + 1 < |grid| && grid[at + 1] == steps[k].clone)
  }

  lemma PlacedAtExtend(grid: seq<Entry>, more: seq<Entry>, originals: seq<Entry>, steps: seq<Step>, k: nat)
    requires |originals| == |steps| && k < |steps|
    requires PlacedAt(grid, originals, steps, k)
    ensures PlacedAt(grid + more, originals, steps, k)
  {
  }

  /**
   * The layout of the processed part: every original at its place, followed by
   * its clone if it has one, and nothing else (the length is that of the
   * originals plus the clones).
   */
  lemma {:induction false} ExpandedLayout(originals: seq<Entry>, steps: seq<Step>, n: nat)
    requires |originals| == |steps| && n <= |originals|
    ensures var grid := Expanded(originals[..n], steps[..n]);
      |grid| == n + ClonesBefore(steps, n) && forall k | 0 <= k < n :: PlacedAt(grid, originals, steps, k)
    decreases n
  {
    if n > 0 {
      ExpandedLayout(originals, steps, n - 1);
      ExpandedSnoc(originals[..n - 1], steps[..n - 1], originals[n - 1], steps[n - 1]);
      assert originals[..n] == originals[..n - 1] + [originals[n - 1]];
      assert steps[..n] == steps[..n - 1] + [steps[n - 1]];
      var prev := Expanded(originals[..n - 1], steps[..n - 1]);
      var more := [originals[n - 1]] + Added(steps[n - 1]);
      assert Expanded(originals[..n], steps[..n]) == prev + more;
      forall k | 0 <= k < n ensures PlacedAt(prev + more, originals, steps, k) {
        if k < n - 1 {
          PlacedAtExtend(prev, more, originals, steps, k);
        }
      }
    }
  }

  /** Without an exception every original is kept, in order, and the grid grows by exactly the clones. */
  lemma MainKeepsOriginalsInOrder(originals: seq<Entry>, steps: seq<Step>)
    requires |originals| == |steps|
    requires MainSpec(originals, steps).completed
    ensures var grid := MainSpec(originals, steps).children;
      |grid| == |originals| + ClonesBefore(steps, |originals|) &&
      forall k | 0 <= k < |originals| :: PlacedAt(grid, originals, steps, k)
  {
    MainSpecComplete(originals, steps);
    ExpandedLayout(originals, steps, |originals|);
    assert originals[..|originals|] == originals && steps[..|steps|] == steps;
  }

  /** When a step throws, its original and every later one are left where they were. */
  lemma MainStopsAtFirstThrow(originals: seq<Entry>, steps: seq<Step>)
    requires |originals| == |steps|
    requires !MainSpec(originals, steps).completed
    ensures var j := FirstThrow(steps);
      var grid := MainSpec(originals, steps).children;
      j < |originals| && steps[j].Threw? &&
      |originals| - j <= |grid| && grid[|grid| - (|originals| - j)..] == originals[j..]
  {
  }

  /** When the `k`-th step is the first to throw, `main` ends with the first `k` originals processed. */
  lemma MainSpecAtThrow(originals: seq<Entry>, steps: seq<Step>, k: nat)
    requires |originals| == |steps| && k < |steps| && k <= FirstThrow(steps) && steps[k].Threw?
    ensures FirstThrow(steps) == k
    ensures MainSpec(originals, steps) == MainOutcome(Expanded(originals[..k], steps[..k]) + originals[k..], false)
  {
  }

  /** When no step throws, `main` ends with every original processed. */
  lemma MainSpecComplete(originals: seq<Entry>, steps: seq<Step>)
    requires |originals| == |steps| && |steps| <= FirstThrow(steps)
    ensures MainSpec(originals, steps) == MainOutcome(Expanded(originals, steps), true)
  {
    assert originals[..|originals|] == originals && steps[..|steps|] == steps;
  }

  /** A step that does not throw moves the first throwing step, if any, further on. */
  lemma FirstThrowLater(steps: seq<Step>, k: nat)
    requires k <= FirstThrow(steps) && k < |steps| && !steps[k].Threw?
    ensures k + 1 <= FirstThrow(steps)
  {
  }

  /** The grid while `main` is at original `k`: the first `k` processed, the rest untouched. */
  function GridAt(originals: seq<Entry>, steps: seq<Step>, k: nat): seq<Entry>
    requires |originals| == |steps| && k <= |originals|
  {
    Expanded(originals[..k], steps[..k]) + originals[k..]
  }

  /** In that grid, original `k` sits just after the processed part. */
  lemma NextOriginalAt(originals: seq<Entry>, steps: seq<Step>, k: nat)
    requires |originals| == |steps| && k < |originals|
    ensures var at := |Expanded(originals[..k], steps[..k])|;
      at < |GridAt(originals, steps, k)| && GridAt(originals, steps, k)[at] == originals[k]
  {
  }

  /** Splicing the `k`-th step's clone in after original `k` gives the grid at original `k + 1`. */
  lemma NextGrid(originals: seq<Entry>, steps: seq<Step>, k: nat)
    requires |originals| == |steps| && k < |originals|
    ensures var grid := GridAt(originals, steps, k);
      var at := |Expanded(originals[..k], steps[..k])|;
      at < |grid| &&
      grid[..at + 1] + Added(steps[k]) + grid[at + 1..] == GridAt(originals, steps, k + 1) &&
      |Expanded(originals[..k + 1], steps[..k + 1])| == at + 1 + |Added(steps[k])|
  {
    var done := Expanded(originals[..k], steps[..k]);
    var grid := GridAt(originals, steps, k);
    ExpandedSnoc(originals[..k], steps[..k], originals[k], steps[k]);
    assert originals[..k + 1] == originals[..k] + [originals[k]];
    assert steps[..k + 1] == steps[..k] + [steps[k]];
    assert grid[..|done| + 1] == done + [originals[k]];
    assert grid[|done| + 1..] == originals[k + 1..];
  }

  /**
   * `main()`: when the page has a `#grid` (`grid` is not null), processes its
   * children; `responses[k]` is how the request for the `k`-th original
   * settles. `completed` is false when an exception ended the loop (the
   * promise of `main` rejects); `calls` counts the calls of `processDeputy`.
   */
  method EnrichGrid(grid: Grid?, responses: seq<Response>) returns (completed: bool, calls: nat)
    requires grid != null ==> |responses| == |grid.children|
    modifies grid
    ensures grid == null ==> completed && calls == 0
    ensures grid != null ==>
      var steps := Steps(old(grid.children), responses);
      var outcome := MainSpec(old(grid.children), steps);
      grid.children == outcome.children && completed == outcome.completed &&
      calls == (if completed then |responses| else FirstThrow(steps) + 1)
  {
    if grid == null {
      return true, 0;
    }
    completed, calls := grid.ProcessAll(responses);
  }
}
