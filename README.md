# RateLimiterService: configuration checks and rate-limit keys

This project models, in Dafny, the logic that `RateLimiterService`
(`src/rate-limiter-service.ts`) implements itself, and proves properties of it:

- **Configuration validation.** The constructor runs a chain of guards over `windowMs`,
  `limit`, `redisUrl` and `redisPassword` before anything is initialised. The first guard
  that fails throws its own error. Only a configuration that passes every guard reaches
  `initialize`, which opens the Redis connection.
- **Rate-limit key derivation.** The key generator takes the `endpointId` route parameter.
  When that parameter is absent or empty, it takes the last `/`-separated segment of the
  request path (`path.split('/').pop()`). An empty id is an error. Otherwise the key is
  `"endpoint:" + id`.

The model is pure: datatypes, functions and lemmas, as the source logic is.

- `Wrappers` (`wrappers.dfy`) holds `Option` and `Result`. They stand in for JavaScript's
  `undefined` and for thrown errors.
- `JsArray` (`js_array.dfy`) models the value `Array.prototype.pop` returns.
- `JsString` (`js_string.dfy`) models `String.prototype.split` with the one-character
  separator `/` and `Array.prototype.join`. Beside
  these, `LastSegment` defines directly "the text after the final `/`". Two results are
  proved here. `Split` is the only separator-free decomposition that joins back to its
  input. `split('/').pop()` always yields a string, and it equals `LastSegment`.
- `RateLimiterService` (`rate_limiter_service.dfy`) holds the configuration record, the
  validation chain with its errors, the constructor (as a trace of effects plus an
  outcome), the request, and the key generator.

The counting of requests and the allow/deny decision are not in this file. The service
passes its configuration to the `express-rate-limit` and `rate-limit-redis` libraries
(`src/rate-limiter-service.ts:48-62`), and they do that work, so none of it is modelled
here as the service's own behaviour. The model keeps the code's names, `redisUrl` and
`redisPassword`, and its fixed key namespace `endpoint`.

Integers in the configuration are unbounded mathematical integers. The JavaScript guard
`!windowMs || windowMs <= 0` on an integer is the same as `windowMs <= 0`, because `0` is
the only falsy integer. For strings, the empty string is the only falsy value. So an
absent route parameter is modelled as `""`.

## Model

| member | source | states |
|---|---|---|
| `RateLimiterService.ValidateConfig` | src/rate-limiter-service.ts:17-31 | Accepts exactly the configurations with positive `windowMs` and `limit` and non-empty `redisUrl` and `redisPassword`. A rejection names a guard the configuration fails, and every guard earlier in the check order passes. |
| `RateLimiterService.ValidIffNoViolation` | src/rate-limiter-service.ts:17-31 | A configuration is valid exactly when it fails none of the four guards. |
| `RateLimiterService.ReportsEarliestViolation` | src/rate-limiter-service.ts:19-30 | When a configuration fails some guard, validation fails, and the reported guard comes no later in the order windowMs, limit, redisUrl, redisPassword. |
| `RateLimiterService.WindowMsCheckedFirst` | src/rate-limiter-service.ts:19-21 | A non-positive `windowMs` is always reported as the windowMs error, whatever the other fields hold. |
| `RateLimiterService.ValidationDependsOnlyOnViolations` | src/rate-limiter-service.ts:17-31 | Two configurations that fail the same guards get the same verdict. |
| `RateLimiterService.ConfigErrorMessageInjective` | src/rate-limiter-service.ts:20-29 | The four thrown messages are pairwise distinct, so the message identifies the failed guard. |
| `RateLimiterService.Rank` | src/rate-limiter-service.ts:19-30 | Each guard has one position in the fixed check order. |
| `RateLimiterService.Construct` | src/rate-limiter-service.ts:12-15 | The constructor throws the validation error, with no effect, when the configuration is invalid. Otherwise it starts `initialize` exactly once, with the given configuration, and returns a service holding that configuration. |
| `RateLimiterService.InitializeOnlyAfterValidation` | src/rate-limiter-service.ts:13-14 | Every initialisation the constructor starts uses a configuration that passed validation. |
| `RateLimiterService.NoConnectionOnBadWindow` | src/rate-limiter-service.ts:13-14 | A non-positive window makes construction throw the windowMs error before any connection attempt. |
| `RateLimiterService.KeyErrorMessageDistinct` | src/rate-limiter-service.ts:73 | The message of the missing-endpointId error differs from every configuration error message. |
| `RateLimiterService.EndpointId` | src/rate-limiter-service.ts:70 | The id is the `endpointId` parameter when it is non-empty. Otherwise it is the text after the final `/` of the path, which holds no `/`. |
| `RateLimiterService.ExtractEndpointId` | src/rate-limiter-service.ts:68-77 | A returned key starts with `endpoint:`, has a non-empty suffix, and reads back to the request's id. Derivation fails exactly when the id is empty. |
| `RateLimiterService.ParamTakesPrecedence` | src/rate-limiter-service.ts:70-76 | A non-empty `endpointId` parameter gives the key `endpoint:` + parameter. Any other path gives the same result. |
| `RateLimiterService.PathFallback` | src/rate-limiter-service.ts:70-76 | Without a parameter, the id is the text after the final `/` of the path. That id holds no `/`, and the key is `endpoint:` followed by it. |
| `RateLimiterService.MissingIdIff` | src/rate-limiter-service.ts:70-74 | Derivation fails with the missing-endpointId error exactly when the parameter is empty and the path is empty or ends with `/`. |
| `RateLimiterService.KeyInjective` | src/rate-limiter-service.ts:72-76 | Two requests get the same key only when they carry the same id. |
| `RateLimiterService.KeyFor` | src/rate-limiter-service.ts:76 | A key is the prefix `endpoint:` followed by the id, unchanged. |
| `RateLimiterService.IdOfKeyRoundTrip` | src/rate-limiter-service.ts:76 | Stripping the prefix from the key of a non-empty id gives that id back. |
| `RateLimiterService.KeyHasNonEmptyId` | src/rate-limiter-service.ts:72-76 | No returned key is the bare prefix `endpoint:`. A missing id never becomes a shared wildcard key. |
| `JsString.Split` | src/rate-limiter-service.ts:70 | `split('/')` always returns at least one piece. No piece holds a `/`, and joining the pieces with `/` rebuilds the input. |
| `JsString.SplitUnique` | src/rate-limiter-service.ts:70 | Any decomposition into `/`-free pieces that joins back to the input is the one `Split` returns. |
| `JsArray.Pop` | src/rate-limiter-service.ts:70 | `pop()` yields `undefined` exactly on an empty array, and otherwise an element of it. |
| `JsArray.PopAfterPush` | src/rate-limiter-service.ts:70 | `pop()` returns the last element: popping `ys + [x]` yields `x`. |
| `JsString.LastSegment` | src/rate-limiter-service.ts:70 | The result is the longest `/`-free suffix of the input. It is either the whole input or directly follows a `/`. |
| `JsString.LastSegmentHasNoSeparator` | src/rate-limiter-service.ts:70 | The last segment contains no `/`. |
| `JsString.LastSegmentUnique` | src/rate-limiter-service.ts:70 | A `/`-free suffix that is the whole input or follows a `/` is the last segment. |
| `JsString.JoinLast` | src/rate-limiter-service.ts:70 | Joining two or more pieces puts the last piece right after the final separator. |
| `JsString.LastPieceIsLastSegment` | src/rate-limiter-service.ts:70 | When pieces join with `/` to a text and the last piece holds no `/`, that piece is the text after the final `/`. |
| `JsString.PopSplitIsLastSegment` | src/rate-limiter-service.ts:70 | `path.split('/').pop()` never yields `undefined`, and it yields the text after the final `/`. |
| `JsString.LastSegmentEmpty` | src/rate-limiter-service.ts:70-72 | The last segment is empty exactly when the input is empty or ends with `/`. |

## Left out

- Redis client creation, the `"error"` event handler that logs, `connect` and `quit` (`src/rate-limiter-service.ts:36-45,84-86`). These are network I/O through a library that is not part of this model. The model records only that `initialize` was started, and with which configuration. Whether the connection succeeds, and the wrapping of its failure in "Failed to initialize rate limiter", are not modelled.
- Construction of `RedisStore` and `rateLimit(...)` (`src/rate-limiter-service.ts:48-62`). The fixed-window counting, key expiry, the 429 response, the `rate_limit:` store prefix and the rate-limit headers live in `express-rate-limit` and `rate-limit-redis`. Those libraries are not part of this model, and no counter is invented for them.
- The `initialized` promise and the `await` in the `endpointId` middleware (`src/rate-limiter-service.ts:10,14,79-82`). This is asynchronous sequencing, with concurrent requests waiting on one in-flight connection.
- The `RateLimiterConfig` type comes from `./types`, which is not part of this model. Its fields are modelled as two integers and two strings. JavaScript values such as `NaN`, `undefined` or non-integer numbers for `windowMs`/`limit` are not modelled.
- Express request parsing itself (how `req.params` and `req.path` are filled in) is outside the model. A request is its `endpointId` parameter and its path.
