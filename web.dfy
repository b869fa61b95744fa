/** The request path: the cache-aside lookup behind `GET /lookup/:ip`
    (`handle_lookup`) and the mapping of its errors to HTTP responses
    (`AppError::into_response`). Textual address parsing, JSON encoding and
    decoding, and the database reader are collaborators given as functions. */
module Web {
  import opened Wrappers
  import opened Lru
  import opened Cache

  /** A location record; every part may be absent. Latitude and longitude
      are `f64` in the service and stand here as reals. */
  datatype GeoData = GeoData(
    country: Option<string>,
    city: Option<string>,
    latitude: Option<real>,
    longitude: Option<real>,
    timezone: Option<string>)

  datatype AppError = Internal(msg: string) | BadRequest(msg: string) | NotFound(msg: string)

  /** An error response: HTTP status and the text put in the JSON body's `error` field. */
  datatype Response = Response(status: nat, error: string)

  const BAD_REQUEST: nat := 400
  const NOT_FOUND: nat := 404
  const INTERNAL_SERVER_ERROR: nat := 500

  const INVALID_IP := "Invalid Ip address format"
  const LOOKUP_FAILED := "Failed to lookup IP address"
  const CACHE_DECODE_ERROR := "Cache deserialization error: "
  const INTERNAL_MESSAGE := "Internal Server Error"

  /** `AppError::into_response`: internal errors become 500 with a fixed text
      that hides their detail; bad requests become 400 and missing records
      404, each carrying its own message. */
  function IntoResponse(e: AppError): (r: Response)
    ensures r.status == INTERNAL_SERVER_ERROR <==> e.Internal?
    ensures r.status == BAD_REQUEST <==> e.BadRequest?
    ensures r.status == NOT_FOUND <==> e.NotFound?
    ensures r.error == if e.Internal? then INTERNAL_MESSAGE else e.msg
  {
    match e
    case Internal(_) => Response(INTERNAL_SERVER_ERROR, INTERNAL_MESSAGE)
    case BadRequest(msg) => Response(BAD_REQUEST, msg)
    case NotFound(msg) => Response(NOT_FOUND, msg)
  }

  /** Two internal errors give the same response whatever their messages:
      nothing of the internal detail reaches the client. */
  lemma InternalDetailHidden(m1: string, m2: string)
    ensures IntoResponse(Internal(m1)) == IntoResponse(Internal(m2))
  {
  }

  /** A client-side error keeps its message, so the response determines it. */
  lemma ClientErrorRecoverable(e: AppError)
    requires !e.Internal?
    ensures var r := IntoResponse(e);
      (if r.status == BAD_REQUEST then BadRequest(r.error) else NotFound(r.error)) == e
  {
  }

  /** The collaborators the handler calls: `IpAddr::from_str`, and the JSON
      encoder and decoder of `GeoData` (each with its error text). */
  datatype Serde = Serde(
    parseIp: string -> Option<IpAddr>,
    toJson: GeoData -> Result<string, string>,
    fromJson: string -> Result<GeoData, string>)

  /** `GeoLocator`: the opened database. `resolve` is its lookup of an
      address string; `queries` records every lookup made, in order. */
  class GeoLocator {
    const resolve: string -> Result<GeoData, string>
    ghost var queries: seq<string>

    constructor (resolve: string -> Result<GeoData, string>)
      ensures this.resolve == resolve && queries == []
    {
      this.resolve := resolve;
      queries := [];
    }

    /** `GeoLocator::lookup`. */
    method Lookup(ip: string) returns (r: Result<GeoData, string>)
      modifies this`queries
      ensures r == resolve(ip) && queries == old(queries) + [ip]
    {
      r := resolve(ip);
      queries := queries + [ip];
    }
  }

  /** `AppState`: the locator and the cache shared by all handlers. */
  datatype AppState = AppState(locator: GeoLocator, cache: GeoCache)

  /** What one lookup does: its answer, the cache afterwards, and the
      address strings it passed to the locator. */
  datatype LookupRun = LookupRun(
    result: Result<GeoData, AppError>,
    cache: LruCache<IpAddr, string>,
    queries: seq<string>)

  /** The cache-aside flow of `handle_lookup` on a cache state `c`. */
  function LookupOutcome(
    ipStr: string, c: LruCache<IpAddr, string>, serde: Serde,
    resolve: string -> Result<GeoData, string>): (run: LookupRun)
    ensures run.queries == [] || run.queries == [ipStr]
    ensures !(run.result.Err? && run.result.error.NotFound?)
  {
    match serde.parseIp(ipStr)
    case None => LookupRun(Err(BadRequest(INVALID_IP)), c, [])
    case Some(ip) =>
      var (afterGet, hit) := Lru.Get(c, ip);
      match hit
      case Some(cached) =>
        (match serde.fromJson(cached)
         case Ok(data) => LookupRun(Ok(data), afterGet, [])
         case Err(e) => LookupRun(Err(Internal(CACHE_DECODE_ERROR + e)), afterGet, []))
      case None =>
        match resolve(ipStr)
        case Err(_) => LookupRun(Err(Internal(LOOKUP_FAILED)), afterGet, [ipStr])
        case Ok(data) =>
          var stored := match serde.toJson(data)
            case Ok(json) => Lru.Put(afterGet, ip, json)
            case Err(_) => afterGet;
          LookupRun(Ok(data), stored, [ipStr])
  }

  /** `handle_lookup`: parse the address, answer from the cache on a hit,
      otherwise ask the locator and cache its answer when it encodes. */
  method HandleLookup(ipStr: string, state: AppState, serde: Serde)
    returns (r: Result<GeoData, AppError>)
    requires state.cache.Valid()
    modifies state.cache, state.locator
    ensures state.cache.Valid()
    ensures var run := LookupOutcome(ipStr, old(state.cache.Model()), serde, state.locator.resolve);
      r == run.result && state.cache.Model() == run.cache &&
      state.locator.queries == old(state.locator.queries) + run.queries
  {
    var parsed := serde.parseIp(ipStr);
    if parsed.None? {
      return Err(BadRequest(INVALID_IP));
    }
    var ip := parsed.value;
    var cached := state.cache.Get(ip);
    if cached.Some? {
      var decoded := serde.fromJson(cached.value);
      if decoded.Err? {
        return Err(Internal(CACHE_DECODE_ERROR + decoded.error));
      }
      return Ok(decoded.value);
    }
    var found := state.locator.Lookup(ipStr);
    if found.Err? {
      return Err(Internal(LOOKUP_FAILED));
    }
    var encoded := serde.toJson(found.value);
    if encoded.Ok? {
      state.cache.Insert(ip, encoded.value);
    }
    return Ok(found.value);
  }

  /** A malformed address is a bad request; neither the cache nor the
      locator is consulted. */
  lemma MalformedAddressRejected(
    ipStr: string, c: LruCache<IpAddr, string>, serde: Serde,
    resolve: string -> Result<GeoData, string>)
    requires serde.parseIp(ipStr).None?
    ensures var run := LookupOutcome(ipStr, c, serde, resolve);
      run == LookupRun(Err(BadRequest(INVALID_IP)), c, []) &&
      IntoResponse(run.result.error).status == BAD_REQUEST
  {
  }

  /** On a cache hit the cached record is answered, the locator is not
      called, no stored value changes and the address becomes the most
      recently used; a cached string that does not decode is an internal error. */
  lemma HitSkipsLocator(
    ipStr: string, c: LruCache<IpAddr, string>, serde: Serde,
    resolve: string -> Result<GeoData, string>)
    requires c.Valid() && serde.parseIp(ipStr).Some? && serde.parseIp(ipStr).value in c.values
    ensures var ip := serde.parseIp(ipStr).value;
      var run := LookupOutcome(ipStr, c, serde, resolve);
      run.queries == [] && run.cache.values == c.values &&
      run.cache.order[|run.cache.order| - 1] == ip &&
      match serde.fromJson(c.values[ip])
      case Ok(data) => run.result == Ok(data)
      case Err(e) => run.result == Err(Internal(CACHE_DECODE_ERROR + e))
  {
    GetHit(c, serde.parseIp(ipStr).value);
  }

  /** On a miss with a successful lookup whose record encodes, the encoding
      is stored under the parsed address and the record is answered. */
  lemma MissCachesAnswer(
    ipStr: string, c: LruCache<IpAddr, string>, serde: Serde,
    resolve: string -> Result<GeoData, string>)
    requires c.Valid() && serde.parseIp(ipStr).Some? && serde.parseIp(ipStr).value !in c.values
    requires resolve(ipStr).Ok? && serde.toJson(resolve(ipStr).value).Ok?
    ensures var ip := serde.parseIp(ipStr).value;
      var json := serde.toJson(resolve(ipStr).value).value;
      var run := LookupOutcome(ipStr, c, serde, resolve);
      run.result == Ok(resolve(ipStr).value) && run.queries == [ipStr] &&
      run.cache == Lru.Put(c, ip, json) && run.cache.values[ip] == json
  {
  }

  /** A failed lookup is an internal error and leaves the cache as it was. */
  lemma LocatorErrorNotCached(
    ipStr: string, c: LruCache<IpAddr, string>, serde: Serde,
    resolve: string -> Result<GeoData, string>)
    requires serde.parseIp(ipStr).Some? && serde.parseIp(ipStr).value !in c.values
    requires resolve(ipStr).Err?
    ensures var run := LookupOutcome(ipStr, c, serde, resolve);
      run == LookupRun(Err(Internal(LOOKUP_FAILED)), c, [ipStr]) &&
      IntoResponse(run.result.error).status == INTERNAL_SERVER_ERROR
  {
  }

  /** A record that does not encode is still answered, and nothing is cached. */
  lemma UnencodableNotCached(
    ipStr: string, c: LruCache<IpAddr, string>, serde: Serde,
    resolve: string -> Result<GeoData, string>)
    requires serde.parseIp(ipStr).Some? && serde.parseIp(ipStr).value !in c.values
    requires resolve(ipStr).Ok? && serde.toJson(resolve(ipStr).value).Err?
    ensures LookupOutcome(ipStr, c, serde, resolve) == LookupRun(Ok(resolve(ipStr).value), c, [ipStr])
  {
  }

  /** Decoding gives back what encoding was given. */
  ghost predicate RoundTrips(serde: Serde) {
    forall data: GeoData :: serde.toJson(data).Ok? ==> serde.fromJson(serde.toJson(data).value) == Ok(data)
  }

  /** Asking for the same address twice in a row, the second answer equals
      the first and comes from the cache, without calling the locator,
      provided the first answer was cached. */
  lemma SecondLookupHits(
    ipStr: string, c: LruCache<IpAddr, string>, serde: Serde,
    resolve: string -> Result<GeoData, string>)
    requires c.Valid() && RoundTrips(serde)
    requires LookupOutcome(ipStr, c, serde, resolve).result.Ok?
    requires resolve(ipStr).Ok? ==> serde.toJson(resolve(ipStr).value).Ok?
    ensures var first := LookupOutcome(ipStr, c, serde, resolve);
      var second := LookupOutcome(ipStr, first.cache, serde, resolve);
      second.result == first.result && second.queries == []
  {
    var ip := serde.parseIp(ipStr).value;
    var first := LookupOutcome(ipStr, c, serde, resolve);
    if ip in c.values {
      GetHit(c, ip);
      GetKeepsValid(c, ip);
      HitSkipsLocator(ipStr, first.cache, serde, resolve);
    } else {
      var json := serde.toJson(resolve(ipStr).value).value;
      MissCachesAnswer(ipStr, c, serde, resolve);
      PutKeepsValid(c, ip, json);
      HitSkipsLocator(ipStr, first.cache, serde, resolve);
    }
  }
}
