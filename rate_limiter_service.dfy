/**
 * The repository's own logic in `RateLimiterService`: checking the
 * configuration before anything is initialised, and deriving the
 * rate-limit key of a request. Counting requests, expiring windows and
 * answering 429 belong to the rate-limiting and Redis-store libraries the
 * service hands its configuration to; they are not part of this module.
 */
module RateLimiterService {
  import opened Wrappers
  import opened JsArray
  import opened JsString

  // ---------------------------------------------------------------------
  // Configuration validation
  // ---------------------------------------------------------------------

  /** The service's configuration: window length, limit per window, and the Redis connection. */
  datatype RateLimiterConfig = RateLimiterConfig(
    windowMs: int,
    limit: int,
    redisUrl: string,
    redisPassword: string)

  /** Which guard of the validation rejected the configuration. */
  datatype ConfigError =
    | WindowMsNotPositive
    | LimitNotPositive
    | RedisUrlRequired
    | RedisPasswordRequired

  /** The text of the error thrown for each failed guard. */
  function ConfigErrorMessage(e: ConfigError): string
  {
    match e
    case WindowMsNotPositive => "windowMs must be a positive number"
    case LimitNotPositive => "limit must be a positive number"
    case RedisUrlRequired => "redisUrl is required"
    case RedisPasswordRequired => "redisPassword is required"
  }

  /** The guards in the order the validation runs them. */
  const CheckOrder: seq<ConfigError> :=
    [WindowMsNotPositive, LimitNotPositive, RedisUrlRequired, RedisPasswordRequired]

  /** The position of a guard in `CheckOrder`. */
  function Rank(e: ConfigError): (i: nat)
    ensures i < |CheckOrder| && CheckOrder[i] == e
  {
    match e
    case WindowMsNotPositive => 0
    case LimitNotPositive => 1
    case RedisUrlRequired => 2
    case RedisPasswordRequired => 3
  }

  /** `c` fails the guard that reports `e`. */
  predicate Violates(c: RateLimiterConfig, e: ConfigError)
  {
    match e
    case WindowMsNotPositive => c.windowMs <= 0
    case LimitNotPositive => c.limit <= 0
    case RedisUrlRequired => c.redisUrl == ""
    case RedisPasswordRequired => c.redisPassword == ""
  }

  /** A configuration the service accepts: positive window and limit, non-empty URL and password. */
  predicate IsValid(c: RateLimiterConfig)
  {
    c.windowMs > 0 && c.limit > 0 && c.redisUrl != "" && c.redisPassword != ""
  }

  /**
   * The validation chain: the first guard, in `CheckOrder`, that `c` fails
   * decides the error; a configuration that fails none is accepted.
   */
  function ValidateConfig(c: RateLimiterConfig): (r: Result<(), ConfigError>)
    ensures r.Ok? <==> IsValid(c)
    ensures r.Err? ==> Violates(c, r.error)
    ensures r.Err? ==> forall i :: 0 <= i < Rank(r.error) ==> !Violates(c, CheckOrder[i])
  {
    if c.windowMs <= 0 then Err(WindowMsNotPositive)
    else if c.limit <= 0 then Err(LimitNotPositive)
    else if c.redisUrl == "" then Err(RedisUrlRequired)
    else if c.redisPassword == "" then Err(RedisPasswordRequired)
    else Ok(())
  }

  /** Validity is exactly the absence of any violated guard. */
  lemma ValidIffNoViolation(c: RateLimiterConfig)
    ensures IsValid(c) <==> forall e: ConfigError :: !Violates(c, e)
  {
    if !IsValid(c) {
      var e := ValidateConfig(c).error;
      assert Violates(c, e);
    }
  }

  /** Whatever else is wrong, the reported error is the earliest violated guard. */
  lemma ReportsEarliestViolation(c: RateLimiterConfig, e: ConfigError)
    requires Violates(c, e)
    ensures ValidateConfig(c).Err?
    ensures Rank(ValidateConfig(c).error) <= Rank(e)
  {
  }

  /** A non-positive window is reported as such, whatever the other fields hold. */
  lemma WindowMsCheckedFirst(c: RateLimiterConfig)
    requires c.windowMs <= 0
    ensures ValidateConfig(c) == Err(WindowMsNotPositive)
  {
  }

  /** The error reported depends only on which guards fail, not on the field values beyond that. */
  lemma ValidationDependsOnlyOnViolations(c1: RateLimiterConfig, c2: RateLimiterConfig)
    requires forall e: ConfigError :: Violates(c1, e) <==> Violates(c2, e)
    ensures ValidateConfig(c1) == ValidateConfig(c2)
  {
  }

  /** Each failed guard throws its own message, so the message identifies the guard. */
  lemma ConfigErrorMessageInjective(e1: ConfigError, e2: ConfigError)
    requires ConfigErrorMessage(e1) == ConfigErrorMessage(e2)
    ensures e1 == e2
  {
  }

  // ---------------------------------------------------------------------
  // Construction: validate, then start initialisation
  // ---------------------------------------------------------------------

  /** An observable effect of the constructor: starting `initialize`, which opens the Redis connection. */
  datatype Effect = InitializeStarted(config: RateLimiterConfig)

  /** A constructed service, holding the configuration it was built from. */
  datatype Service = Service(config: RateLimiterConfig)

  /** What the constructor did, in order, and whether it returned a service or threw. */
  datatype Construction = Construction(effects: seq<Effect>, outcome: Result<Service, ConfigError>)

  /**
   * The constructor: it validates first and throws on a bad configuration;
   * only a configuration that passes reaches `initialize`, which is started
   * once, with that configuration.
   */
  function Construct(c: RateLimiterConfig): (r: Construction)
    ensures r.outcome.Ok? <==> IsValid(c)
    ensures r.outcome.Err? ==> r.effects == [] && ValidateConfig(c) == Err(r.outcome.error)
    ensures r.outcome.Ok? ==> r.outcome.value.config == c && r.effects == [InitializeStarted(c)]
  {
    match ValidateConfig(c)
    case Err(e) => Construction([], Err(e))
    case Ok(_) => Construction([InitializeStarted(c)], Ok(Service(c)))
  }

  /** Initialisation is only ever started with a configuration that passed validation. */
  lemma InitializeOnlyAfterValidation(c: RateLimiterConfig, eff: Effect)
    requires eff in Construct(c).effects
    ensures IsValid(eff.config) && ValidateConfig(eff.config) == Ok(())
  {
  }

  /** A configuration with a non-positive window never reaches the connection attempt. */
  lemma NoConnectionOnBadWindow(c: RateLimiterConfig)
    requires c.windowMs <= 0
    ensures Construct(c).effects == []
    ensures Construct(c).outcome == Err(WindowMsNotPositive)
  {
  }

  // ---------------------------------------------------------------------
  // Rate-limit key derivation
  // ---------------------------------------------------------------------

  /**
   * The parts of an HTTP request the key generator reads: the `endpointId`
   * route parameter (empty when absent) and the request path.
   */
  datatype Request = Request(endpointIdParam: string, path: string)

  /** The error thrown when no endpoint id can be found. */
  datatype KeyError = MissingEndpointId

  /** The text of the error thrown when no endpoint id can be found. */
  function KeyErrorMessage(e: KeyError): string
  {
    match e
    case MissingEndpointId => "Missing endpointId parameter for rate limiting"
  }

  /** The missing-id error cannot be mistaken for any configuration error by its message. */
  lemma KeyErrorMessageDistinct(k: KeyError, c: ConfigError)
    ensures KeyErrorMessage(k) != ConfigErrorMessage(c)
  {
  }

  /** The namespace every rate-limit key of this service starts with. */
  const KeyPrefix: string := "endpoint:"

  /**
   * The id the key is built from: the route parameter when it is non-empty,
   * otherwise `path.split('/').pop()`, where an `undefined` from `pop` counts
   * as empty just as it is falsy in JavaScript.
   */
  function EndpointId(req: Request): (id: string)
    ensures req.endpointIdParam != "" ==> id == req.endpointIdParam
    ensures req.endpointIdParam == "" ==> id == LastSegment(req.path) && Separator !in id
  {
    PopSplitIsLastSegment(req.path);
    LastSegmentHasNoSeparator(req.path);
    if req.endpointIdParam != "" then req.endpointIdParam
    else match Pop(Split(req.path))
      case Some(segment) => segment
      case None => ""
  }

  /** The key for a given id. */
  function KeyFor(id: string): (key: string)
    ensures |key| == |KeyPrefix| + |id|
    ensures key[..|KeyPrefix|] == KeyPrefix && key[|KeyPrefix|..] == id
  {
    KeyPrefix + id
  }

  /** The id a key was built from, or nothing when the text is not a key of this service. */
  function IdOfKey(key: string): Option<string>
  {
    if |key| > |KeyPrefix| && key[..|KeyPrefix|] == KeyPrefix then Some(key[|KeyPrefix|..])
    else None
  }

  /**
   * The key generator: a namespaced key for the request's id, or an error
   * when the id is empty, so that requests without an id never share a key.
   */
  function ExtractEndpointId(req: Request): (r: Result<string, KeyError>)
    ensures r.Ok? ==> |r.value| > |KeyPrefix| && r.value[..|KeyPrefix|] == KeyPrefix
    ensures r.Ok? ==> IdOfKey(r.value) == Some(EndpointId(req))
    ensures r.Err? <==> EndpointId(req) == ""
  {
    var id := EndpointId(req);
    if id == "" then Err(MissingEndpointId) else Ok(KeyFor(id))
  }

  /** A non-empty route parameter decides the key on its own; the path is not read. */
  lemma ParamTakesPrecedence(req: Request, otherPath: string)
    requires req.endpointIdParam != ""
    ensures ExtractEndpointId(req) == Ok(KeyPrefix + req.endpointIdParam)
    ensures ExtractEndpointId(Request(req.endpointIdParam, otherPath)) == ExtractEndpointId(req)
  {
  }

  /**
   * Without a route parameter, the key is built from the text after the
   * final '/' of the path, which holds no '/' and ends the path.
   */
  lemma PathFallback(req: Request)
    requires req.endpointIdParam == ""
    ensures EndpointId(req) == LastSegment(req.path)
    ensures Separator !in EndpointId(req)
    ensures ExtractEndpointId(req).Ok? ==>
      ExtractEndpointId(req).value == KeyPrefix + LastSegment(req.path)
  {
  }

  /**
   * Derivation fails exactly when there is no route parameter and the path
   * is empty or ends with '/'.
   */
  lemma MissingIdIff(req: Request)
    ensures ExtractEndpointId(req) == Err(MissingEndpointId) <==>
      req.endpointIdParam == "" && (req.path == "" || req.path[|req.path| - 1] == Separator)
  {
  }

  /** Two requests share a key only when they carry the same id. */
  lemma KeyInjective(req1: Request, req2: Request)
    requires ExtractEndpointId(req1).Ok? && ExtractEndpointId(req1) == ExtractEndpointId(req2)
    ensures EndpointId(req1) == EndpointId(req2)
  {
  }

  /** Reading the id back out of a key gives the id the key was built from. */
  lemma IdOfKeyRoundTrip(id: string)
    requires id != ""
    ensures IdOfKey(KeyFor(id)) == Some(id)
  {
  }

  /** Every key the generator returns is a key of this service with a non-empty id. */
  lemma KeyHasNonEmptyId(req: Request)
    requires ExtractEndpointId(req).Ok?
    ensures IdOfKey(ExtractEndpointId(req).value).Some?
    ensures IdOfKey(ExtractEndpointId(req).value).value != ""
    ensures ExtractEndpointId(req).value != KeyPrefix
  {
  }
}
