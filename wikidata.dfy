/**
 * `fetchWikidataImageByANId`: the SPARQL query for one National Assembly
 * identifier, the request URL, and the choice of an image from the answer.
 * The HTTP exchange itself is not modelled: its outcome is a `Response` value.
 */
module Wikidata {
  import opened Wrappers
  import opened JsText
  import opened UriCoding

  /** The kinds of RDF term in the SPARQL 1.1 Query Results JSON Format, section 3.2.2. */
  datatype TermKind = Uri | Literal | BlankNode

  /** One RDF term of a solution: its kind and its `value` member. */
  datatype RdfTerm = RdfTerm(kind: TermKind, value: JsString)

  /** One member of `results.bindings`: the variables bound in one solution. */
  type Binding = map<JsString, RdfTerm>

  /** What `response.json()` and the read of `data.results.bindings` make of the body. */
  datatype Body =
    | NotJson                       // `response.json()` rejects
    | NoBindings                    // valid JSON without `results.bindings`: reading it throws
    | Bindings(rows: seq<Binding>)  // `results.bindings`

  /** How the `fetch` call settles. */
  datatype Response =
    | NetworkError                  // the `fetch` promise rejects
    | Http(ok: bool, body: Body)    // a response arrived; `ok` is a 2xx status

  const WikidataEndpoint: JsString := Units("https://query.wikidata.org/sparql")

  /** The endpoint followed by the fixed parameters, up to where the encoded query starts. */
  const QueryUrlBase: JsString := WikidataEndpoint + Units("?format=json&query=")

  /** The name of the only projected variable, `?image`. */
  const ImageVariable: JsString := Units("image")

  const Quote: CodeUnit := 0x22    // '"'
  const Newline: CodeUnit := 0x0A  // line feed

  /** The query text before the identifier, up to and including the opening quote. */
  const QueryHead: JsString :=
    [Newline] + Units("      SELECT ?image WHERE {") + [Newline] + Units("        ?person wdt:P4123 ") + [Quote]

  /** The query text after the identifier, from the closing quote on. */
  const QueryTail: JsString :=
    [Quote] + Units(";") + [Newline] + Units("                wdt:P18 ?image.") + [Newline]
    + Units("      }") + [Newline] + Units("      LIMIT 1") + [Newline] + Units("    ")

  /**
   * The query: people whose National Assembly identifier (P4123) is `anId`,
   * with their image (P18). The identifier appears verbatim between the two
   * quotes of the P4123 literal.
   */
  function SparqlQuery(anId: JsString): (q: JsString)
    ensures var at := |QueryHead|;
      at + |anId| < |q| && q[at..at + |anId|] == anId && q[at - 1] == Quote == q[at + |anId|]
  {
    var q := QueryHead + anId + QueryTail;
    assert q[|QueryHead| - 1] == QueryHead[|QueryHead| - 1];
    assert q[|QueryHead| + |anId|] == QueryTail[0];
    q
  }

  /** The query text is well-formed UTF-16 whenever the identifier is. */
  lemma QueryIsWellFormed(anId: JsString)
    requires IsWellFormedUtf16(anId)
    ensures IsWellFormedUtf16(SparqlQuery(anId))
  {
    AsciiIsWellFormed(QueryHead);
    AsciiIsWellFormed(QueryTail);
    WellFormedConcat(QueryHead, anId);
    WellFormedConcat(QueryHead + anId, QueryTail);
  }

  /**
   * The URL fetched: the endpoint with `format=json` and the encoded query.
   * Building it throws exactly when the query holds a lone surrogate.
   */
  function QueryUrl(anId: JsString): (r: Result<JsString, JsError>)
    ensures r.Ok? <==> IsWellFormedUtf16(SparqlQuery(anId))
    ensures r.Err? ==> r.error == URIError
    ensures r.Ok? ==> |QueryUrlBase| <= |r.value| && r.value[..|QueryUrlBase|] == QueryUrlBase
  {
    EncodeSucceedsIffWellFormed(SparqlQuery(anId));
    match Encode(SparqlQuery(anId))
    case Err(e) => Err(e)
    case Ok(encoded) => Ok(QueryUrlBase + encoded)
  }

  /** For a well-formed identifier the URL is built, and its query parameter decodes to the query text. */
  lemma QueryUrlCarriesQuery(anId: JsString)
    requires IsWellFormedUtf16(anId)
    ensures QueryUrl(anId).Ok?
    ensures var url := QueryUrl(anId).value;
      |QueryUrlBase| <= |url| && url[..|QueryUrlBase|] == QueryUrlBase
      && Decode(url[|QueryUrlBase|..]) == Ok(SparqlQuery(anId))
  {
    var q := SparqlQuery(anId);
    QueryIsWellFormed(anId);
    EncodeSucceedsIffWellFormed(q);
    DecodeEncode(q);
    var url := QueryUrlBase + Encode(q).value;
    assert url[..|QueryUrlBase|] == QueryUrlBase;
    assert url[|QueryUrlBase|..] == Encode(q).value;
  }

  /**
   * What `fetchWikidataImageByANId` resolves to once the request has settled:
   * `null` for a non-ok status, otherwise `bindings[0]?.image?.value ?? null`;
   * `Err` for what it throws.
   */
  function FetchWikidataImage(response: Response): (r: Result<Option<JsString>, JsError>)
    ensures r.Err? <==> response.NetworkError? || (response.ok && !response.body.Bindings?)
    ensures response.Http? && !response.ok ==> r == Ok(None)
    ensures r.Ok? && r.value.Some? <==>
      response.Http? && response.ok && response.body.Bindings? && |response.body.rows| > 0
      && ImageVariable in response.body.rows[0]
    ensures r.Ok? && r.value.Some? ==> r.value.value == response.body.rows[0][ImageVariable].value
  {
    match response
    case NetworkError => Err(TypeError)
    case Http(ok, body) =>
      if !ok then Ok(None)
      else
        match body
        case NotJson => Err(SyntaxError)
        case NoBindings => Err(TypeError)
        case Bindings(rows) =>
          if |rows| == 0 then Ok(None)
          else if ImageVariable !in rows[0] then Ok(None)
          else Ok(Some(rows[0][ImageVariable].value))
  }

  /** Only the first solution is read: answers that agree on it select the same image. */
  lemma FetchReadsOnlyFirstBinding(rows: seq<Binding>, others: seq<Binding>)
    requires |rows| > 0 && |others| > 0 && rows[0] == others[0]
    ensures FetchWikidataImage(Http(true, Bindings(rows))) == FetchWikidataImage(Http(true, Bindings(others)))
  {
  }

  /** A non-ok response is never read: its body does not matter. */
  lemma FetchIgnoresBodyOfFailedRequest(b1: Body, b2: Body)
    ensures FetchWikidataImage(Http(false, b1)) == FetchWikidataImage(Http(false, b2)) == Ok(None)
  {
  }
}
