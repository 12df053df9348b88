/**
 * Request helpers of the Mailvelope key server client
 * (src/modules/mveloKeyServer.js): the request URL with its single query
 * parameter, the 2xx status check, and the decisions `lookup` takes on a
 * fetched key. `encodeURIComponent`, the network and the OpenPGP key parser
 * are parameters.
 */
module KeyServer {
  import opened Types

  const DEFAULT_URL: string := "https://keys.mailvelope.com"
  const KEY_ENDPOINT: string := DEFAULT_URL + "/api/v1/key"

  /** The `options` object: each field may be missing. */
  datatype Options = Options(email: Option<string>, fingerprint: Option<string>, keyId: Option<string>)

  /** The query parameters in their order of precedence. */
  datatype QueryParam = Email | Fingerprint | KeyId
  {
    function Name(): string
    {
      match this
      case Email => "email"
      case Fingerprint => "fingerprint"
      case KeyId => "keyId"
    }

    function Rank(): nat
    {
      match this
      case Email => 0
      case Fingerprint => 1
      case KeyId => 2
    }
  }

  function Field(o: Options, p: QueryParam): Option<string>
  {
    match p
    case Email => o.email
    case Fingerprint => o.fingerprint
    case KeyId => o.keyId
  }

  /** The option that becomes the query parameter: the first truthy one in order of precedence. */
  function Selection(options: Option<Options>): (r: Option<QueryParam>)
    ensures r.Some? ==> options.Some? && Truthy(Field(options.value, r.value))
    ensures r.Some? ==> forall p: QueryParam :: p.Rank() < r.value.Rank() ==> !Truthy(Field(options.value, p))
    ensures r.None? <==> options.None? || forall p: QueryParam :: !Truthy(Field(options.value, p))
  {
    if options.None? then None
    else if Truthy(options.value.email) then Some(Email)
    else if Truthy(options.value.fingerprint) then Some(Fingerprint)
    else if Truthy(options.value.keyId) then Some(KeyId)
    else None
  }

  /** One query parameter: its name and its already encoded value. */
  datatype Query = Query(param: QueryParam, encoded: string)

  /** The query the URL should carry, with the selected value passed through `encode`. */
  function QueryOf(options: Option<Options>, encode: string -> string): Option<Query>
  {
    match Selection(options)
    case None => None
    case Some(p) => Some(Query(p, encode(Field(options.value, p).value)))
  }

  function QueryPrefix(p: QueryParam): string
  {
    KEY_ENDPOINT + "?" + p.Name() + "="
  }

  /** Reads a request URL back: the bare endpoint, or the endpoint with one known query parameter. */
  function ParseUrl(url: string): Option<Option<Query>>
  {
    if url == KEY_ENDPOINT then Some(None)
    else if QueryPrefix(Email) <= url then Some(Some(Query(Email, url[|QueryPrefix(Email)|..])))
    else if QueryPrefix(Fingerprint) <= url then Some(Some(Query(Fingerprint, url[|QueryPrefix(Fingerprint)|..])))
    else if QueryPrefix(KeyId) <= url then Some(Some(Query(KeyId, url[|QueryPrefix(KeyId)|..])))
    else None
  }

  /** A URL built from a query parameter reads back as that parameter and value. */
  lemma ParseQueryUrl(p: QueryParam, encoded: string)
    ensures ParseUrl(QueryPrefix(p) + encoded) == Some(Some(Query(p, encoded)))
  {
    var url := QueryPrefix(p) + encoded;
    var k := |KEY_ENDPOINT| + 1;
    assert url[..|QueryPrefix(p)|] == QueryPrefix(p);
    assert url[k] == p.Name()[0];
    assert |url| > |KEY_ENDPOINT|;
    assert QueryPrefix(Email)[k] == 'e';
    assert QueryPrefix(Fingerprint)[k] == 'f';
  }

  function Count(s: string, c: char): nat
  {
    if s == [] then 0 else (if s[0] == c then 1 else 0) + Count(s[1..], c)
  }

  lemma {:induction false} CountAppend(a: string, b: string, c: char)
    ensures Count(a + b, c) == Count(a, c) + Count(b, c)
  {
    if a != [] {
      assert (a + b)[0] == a[0];
      assert (a + b)[1..] == a[1..] + b;
      CountAppend(a[1..], b, c);
    } else {
      assert a + b == b;
    }
  }

  lemma {:induction false} CountAbsent(s: string, c: char)
    requires c !in s
    ensures Count(s, c) == 0
  {
    if s != [] {
      CountAbsent(s[1..], c);
    }
  }

  /** `encodeURIComponent` escapes the characters that delimit query parameters. */
  ghost predicate EscapesDelimiters(encode: string -> string)
  {
    forall s :: '?' !in encode(s) && '=' !in encode(s) && '&' !in encode(s)
  }

  lemma EndpointHasNoDelimiters(c: char)
    requires c == '?' || c == '=' || c == '&'
    ensures Count(KEY_ENDPOINT, c) == 0
  {
    assert c !in KEY_ENDPOINT;
    CountAbsent(KEY_ENDPOINT, c);
  }

  /** How often a delimiter occurs in the URL of one parameter: once for `?` and `=`, never for `&`. */
  lemma ParameterDelimiter(p: QueryParam, encoded: string, c: char)
    requires c == '?' || c == '=' || c == '&'
    requires c !in encoded
    ensures Count(QueryPrefix(p) + encoded, c) == if c == '&' then 0 else 1
  {
    var name := p.Name();
    var tail := "=" + encoded;
    assert QueryPrefix(p) + encoded == KEY_ENDPOINT + ("?" + (name + tail));
    CountAppend(KEY_ENDPOINT, "?" + (name + tail), c);
    CountAppend("?", name + tail, c);
    CountAppend(name, tail, c);
    CountAppend("=", encoded, c);
    EndpointHasNoDelimiters(c);
    assert c !in name;
    CountAbsent(name, c);
    CountAbsent(encoded, c);
  }

  /** `url(options)`: the endpoint, then at most one query parameter chosen by precedence. */
  method Url(options: Option<Options>, encode: string -> string) returns (url: string)
    ensures ParseUrl(url) == Some(QueryOf(options, encode))
    ensures url == KEY_ENDPOINT <==> Selection(options).None?
    ensures EscapesDelimiters(encode) ==> Count(url, '?') <= 1 && Count(url, '=') <= 1 && Count(url, '&') == 0
  {
    url := KEY_ENDPOINT;
    if options.Some? && Truthy(options.value.email) {
      url := url + "?email=" + encode(options.value.email.value);
    } else if options.Some? && Truthy(options.value.fingerprint) {
      url := url + "?fingerprint=" + encode(options.value.fingerprint.value);
    } else if options.Some? && Truthy(options.value.keyId) {
      url := url + "?keyId=" + encode(options.value.keyId.value);
    }
    if Selection(options).Some? {
      ghost var p := Selection(options).value;
      ghost var encoded := encode(Field(options.value, p).value);
      assert url == QueryPrefix(p) + encoded;
      ParseQueryUrl(p, encoded);
      if EscapesDelimiters(encode) {
        ParameterDelimiter(p, encoded, '?');
        ParameterDelimiter(p, encoded, '=');
        ParameterDelimiter(p, encoded, '&');
      }
    } else {
      EndpointHasNoDelimiters('?');
      EndpointHasNoDelimiters('=');
      EndpointHasNoDelimiters('&');
    }
  }

  /** A fetch response: only its status and status text are consulted. */
  datatype Response = Response(status: int, statusText: string)

  /** The error `checkStatus` throws: its message and the response it carries. */
  datatype HttpError = HttpError(message: string, response: Response)

  /** `checkStatus(response)`: the response itself for a 2xx status, otherwise an error carrying it. */
  function CheckStatus(response: Response): (r: Result<Response, HttpError>)
    ensures r.Success? <==> 200 <= response.status < 300
    ensures r.Success? ==> r.value == response
    ensures r.Failure? ==> r.error.message == response.statusText && r.error.response == response
  {
    if 200 <= response.status < 300 then Success(response)
    else Failure(HttpError(response.statusText, response))
  }

  // ---------------------------------------------------------------------------
  // lookup
  // ---------------------------------------------------------------------------

  datatype PublicKey = PublicKey(users: seq<string>, fingerprint: string)

  /** What `openpgp.key.readArmored` returns: an error, if any, and the keys it read. */
  datatype ParseResult = ParseResult(err: Option<string>, keys: seq<PublicKey>)

  /** The key operations `lookup` calls, treated as given functions. */
  datatype KeyLibrary = KeyLibrary(
    readArmored: string -> ParseResult,
    filterUserIdsByEmail: (PublicKey, string) -> PublicKey,
    armor: PublicKey -> string
  )

  /** The JSON object of a successful response. */
  class JsonKey {
    var publicKeyArmored: string

    constructor (publicKeyArmored: string)
      ensures this.publicKeyArmored == publicKeyArmored
    {
      this.publicKeyArmored := publicKeyArmored;
    }
  }

  datatype LookupError =
    | OptionsUndefined            // `options.email` read on an undefined `options`
    | ParseFailed(reason: string)
    | KeyCount(count: nat)
    | NoMatchingUserIds

  /** User ids are filtered only when the lookup is by email alone; such a lookup queries the server by email. */
  function EmailOnly(o: Options): (ok: bool)
    ensures ok ==> Selection(Some(o)) == Some(Email)
  {
    Truthy(o.email) && !Truthy(o.keyId) && !Truthy(o.fingerprint)
  }

  /**
   * What `lookup` returns, given the response status and the armored key of the
   * JSON body (`None` for a `null` body): `Success(None)` is a falsy result,
   * `Success(Some(a))` the JSON object with `publicKeyArmored == a`.
   */
  function LookupResult(options: Option<Options>, status: int, received: Option<string>, lib: KeyLibrary): (r: Result<Option<string>, LookupError>)
    ensures r.Success? && r.value.Some? ==> status == 200 && received.Some?
    ensures status != 200 || received.None? ==> r == Success(None)
    ensures status == 200 && received.Some? && options.Some? && !EmailOnly(options.value) ==> r == Success(received)
    ensures r.Failure? ==> status == 200 && received.Some? && (options.None? || EmailOnly(options.value))
    ensures status == 200 && received.Some? && options.Some? && EmailOnly(options.value) ==>
      var parsed := lib.readArmored(received.value);
      && (r.Success? <==> parsed.err.None? && |parsed.keys| == 1
                          && |lib.filterUserIdsByEmail(parsed.keys[0], options.value.email.value).users| > 0)
      && (r.Success? ==> r.value == Some(lib.armor(lib.filterUserIdsByEmail(parsed.keys[0], options.value.email.value))))
  {
    if status != 200 || received.None? then Success(None)
    else if options.None? then Failure(OptionsUndefined)
    else if !EmailOnly(options.value) then Success(received)
    else
      var parsed := lib.readArmored(received.value);
      if parsed.err.Some? then Failure(ParseFailed(parsed.err.value))
      else if |parsed.keys| != 1 then Failure(KeyCount(|parsed.keys|))
      else
        var filtered := lib.filterUserIdsByEmail(parsed.keys[0], options.value.email.value);
        if |filtered.users| == 0 then Failure(NoMatchingUserIds)
        else Success(Some(lib.armor(filtered)))
  }

  /** A lookup by email that also names a key id or fingerprint is queried by email but not filtered. */
  lemma EmailQueryWithoutFiltering(o: Options)
    requires Selection(Some(o)) == Some(Email) && !EmailOnly(o)
    ensures Truthy(o.keyId) || Truthy(o.fingerprint)
  {
  }

  /** Every status `lookup` accepts passes `checkStatus`, but `checkStatus` also accepts statuses `lookup` ignores. */
  lemma LookupStricterThanCheckStatus(options: Option<Options>, status: int, received: Option<string>, lib: KeyLibrary, text: string)
    requires LookupResult(options, status, received, lib).Success?
    requires LookupResult(options, status, received, lib).value.Some?
    ensures CheckStatus(Response(status, text)).Success?
    ensures CheckStatus(Response(204, text)).Success? && LookupResult(options, 204, received, lib) == Success(None)
  {
  }

  /**
   * `lookup(options)` after the fetch: `response` is what the server returned and
   * `json` what `response.json()` yields (only read on status 200).
   */
  method Lookup(options: Option<Options>, response: Response, json: JsonKey?, lib: KeyLibrary) returns (r: Result<JsonKey?, LookupError>)
    modifies json
    ensures
      var expected := LookupResult(options, response.status, if json == null then None else Some(old(json.publicKeyArmored)), lib);
      && (r.Failure? <==> expected.Failure?)
      && (r.Failure? ==> r.error == expected.error)
      && (r.Success? ==> (r.value == null <==> expected.value.None?))
      && (r.Success? && r.value != null ==> r.value == json && json.publicKeyArmored == expected.value.value)
    ensures json != null && (r.Failure? || r.value == null) ==> json.publicKeyArmored == old(json.publicKeyArmored)
  {
    var jsonKey: JsonKey? := null;
    if response.status == 200 {
      jsonKey := json;
    }
    if jsonKey != null {
      if options.None? {
        return Failure(OptionsUndefined);
      }
      if Truthy(options.value.email) && !Truthy(options.value.keyId) && !Truthy(options.value.fingerprint) {
        var parseResult := lib.readArmored(jsonKey.publicKeyArmored);
        if parseResult.err.Some? {
          return Failure(ParseFailed(parseResult.err.value));
        }
        var keys := parseResult.keys;
        if |keys| != 1 {
          return Failure(KeyCount(|keys|));
        }
        var filtered := lib.filterUserIdsByEmail(keys[0], options.value.email.value);
        if |filtered.users| == 0 {
          return Failure(NoMatchingUserIds);
        }
        jsonKey.publicKeyArmored := lib.armor(filtered);
      }
    }
    return Success(jsonKey);
  }
}
