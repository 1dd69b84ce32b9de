# ErrorTracker in Dafny

A model of the `ErrorTracker` class of the Laravel error-tracker package
(`src/ErrorTracker.php`). The class decides whether an exception is reported
and builds a JSON record of the exception and its request, whose headers,
body and stack-frame arguments are sanitised.
It then POSTs the record to the dashboard's `/api/errors` endpoint with a
bounded number of attempts.

The model covers four parts:

- **Reporting policy** (`Tracker.Gate`, `Tracker.ErrorTracker.ReportException`).
  Three gates are checked in order: the enable flag, the environment
  allow-list (only `production` when unset), and the excluded exception
  classes, matched by `instanceof`. Then the record is built and sent inside
  a `try` that turns any `\Exception` into `false`. A PHP `\Error` is not
  caught and goes through.
- **Sanitisers** (module `Sanitizer`, module `StackTrace`).
  - Headers are redacted by exact key when their value is not null.
  - The body is redacted recursively. A non-array value is redacted when its
    key contains a configured name, ignoring case (`stripos`). An array value
    is always recursed into and never replaced.
  - Stack-frame arguments become placeholders.
  - Frames get defaults for missing parts.
- **Record building** (`Payload.FormatException`). Top-level input keys exactly
  equal to a configured field are dropped, then the rest is sanitised.
- **Delivery** (`Tracker.ErrorTracker.SendToApi`). The dashboard URL is trimmed
  of trailing `/`. Unless it then starts with `https://`, every `http://` in it
  becomes `https://`. Then `/api/errors` is appended. The loop stops at the
  first 2xx answer. A transport error counts as a failed attempt. There is a
  pause between attempts but never after the last.

The framework's ambient reads are explicit inputs. These are `request()`, the
user, the environment name, version strings, `$_SERVER`, the clock and
`config(...)`. `Config.Config` holds every configuration key as an option, and
None means the key is unset. The accessors in module `Config` carry each call
site's own default. The HTTP exchange is an oracle `respond: nat -> Response`,
where `respond(n)` is the outcome of attempt `n`. The requests sent and the
pauses taken are ghost results of `SendToApi`.

PHP arrays are ordered sequences of `Entry(key, val)` whose keys are distinct.
A value is `Null`, `Scalar` (any non-array value) or `Arr` (a nested array).

Points where the code's behaviour is narrower or different from what its
comments and configuration suggest, all modelled as the code does them:

- Header names match by exact key (`isset($headers[$header])`), with no case
  folding. A header whose value is null is left alone.
- `sanitizeBody` recurses into every array, lists included. A sensitive key
  whose value is an array is recursed into, not redacted.
- `http_client.retry` counts attempts, not retries. A value of 0 or less
  makes no attempt, and delivery returns `false`.
- A dashboard URL with no scheme gets no `https://` added. `str_replace`
  upgrades every `http://` in the URL, not only the scheme.
- When `privacy.sanitize_request_fields` is unset, `formatException` drops no
  top-level keys, because its default is `[]`. `sanitizeBody` still redacts
  with its own default list of five names.
- The query string is not sanitised. `query` is copied from
  `$request->query()` and `url` from `$request->fullUrl()`, so a sensitive
  query parameter such as `?token=abc` reaches the record unredacted twice,
  even though the same key is dropped from `body` (`Payload.QueryTokenSurvives`).
- An array argument of a stack frame becomes `[array]`. A closed resource is
  not a resource to `is_resource`, so it passes through unchanged.

## Model

| member | source | states |
|---|---|---|
| `Text.StrIPos` | src/ErrorTracker.php:231 | `stripos`: the result is the first position where the needle occurs ignoring ASCII case, and None (PHP `false`) exactly when it occurs nowhere |
| `Text.RTrim` | src/ErrorTracker.php:282 | `rtrim($url, '/')`: the result is a prefix of the input that does not end in `/`, and only `/` characters were removed |
| `Text.LowerChar` | src/ErrorTracker.php:231 | the case folding of `stripos`: an upper-case ASCII letter becomes the lower-case letter at the same place in the alphabet, no upper-case letter is left, and every other character is unchanged |
| `Text.LowerAgrees` | src/ErrorTracker.php:231 | two strings that agree character by character up to case are equal once lower-cased, which is how `stripos` compares |
| `Text.StartsWith` | src/ErrorTracker.php:283 | `str_starts_with`: true exactly when the string is the prefix followed by something |
| `Text.ReplaceAll` | src/ErrorTracker.php:284 | `str_replace` with one search string; its meaning is stated by `ReplaceAllWithoutOccurrence` and `ReplaceAllFirstOccurrence`; its own contract: the result is as long as the input when search and replacement are as long, and never shorter when the replacement is not shorter |
| `Text.ReplaceAllWithoutOccurrence` | src/ErrorTracker.php:284 | `str_replace`: a string in which the search text does not occur is returned unchanged |
| `Text.ReplaceAllFirstOccurrence` | src/ErrorTracker.php:284 | `str_replace`: when the search text first occurs at `k`, the text before `k` is kept, the occurrence becomes the replacement, and replacing goes on after the occurrence |
| `PhpArrays.Isset` | src/ErrorTracker.php:202 | `isset($headers[$header])`: true only when an entry has the key and a non-null value, and, for an array with distinct keys, exactly then |
| `PhpArrays.Find` | src/ErrorTracker.php:202 | array lookup for `isset`: the position of the first entry with the key, or -1 exactly when the key is absent |
| `Sanitizer.HeaderSanitized` | src/ErrorTracker.php:202-204 | one header keeps its key; its value becomes `[REDACTED]` when its key is a configured name and its value is not null, and it is unchanged otherwise |
| `Sanitizer.HeadersSanitized` | src/ErrorTracker.php:192-208 | the headers keep their keys and order; an entry whose key is a configured name and whose value is not null holds `[REDACTED]`; every other entry is unchanged |
| `Sanitizer.SanitizeHeaders` | src/ErrorTracker.php:201-207 | the loop over the configured names, each redacting its entry when `isset`, gives exactly `HeadersSanitized` |
| `Sanitizer.HeadersSanitizedIdempotent` | src/ErrorTracker.php:192-208 | sanitising sanitised headers changes nothing |
| `Sanitizer.SensitiveKey` | src/ErrorTracker.php:230-234 | a key is sensitive exactly when some configured field occurs in it at some position, ignoring case (`stripos(...) !== false`) |
| `Sanitizer.BodySanitized` | src/ErrorTracker.php:216-240 | the result is a redaction of the body: same keys and order at every depth; arrays recursed into, never replaced; a non-array value is `[REDACTED]` if and only if its key contains a configured name ignoring case, else unchanged |
| `Sanitizer.EntrySanitized` | src/ErrorTracker.php:226-236 | one entry's redaction: an array value recursed into, any other value redacted exactly when its key is sensitive |
| `Sanitizer.SanitizeBody` | src/ErrorTracker.php:226-239 | the recursive loop, with the inner search over the fields that stops at the first match, gives exactly `BodySanitized` |
| `Sanitizer.RedactionIsUnique` | src/ErrorTracker.php:216-240 | the redaction relation determines the result: two redactions of one body are equal |
| `Sanitizer.RedactionIsClean` | src/ErrorTracker.php:226-237 | in a redaction, no non-array value under a sensitive key is left unredacted, at any depth |
| `Sanitizer.BodySanitizedIsClean` | src/ErrorTracker.php:226-237 | `sanitizeBody` leaves no non-array value under a sensitive key unredacted, at any depth |
| `Sanitizer.RedactionIsFixed` | src/ErrorTracker.php:226-237 | a redacted body is its own redaction |
| `Sanitizer.BodySanitizedIdempotent` | src/ErrorTracker.php:216-240 | `sanitizeBody` is idempotent |
| `StackTrace.ArgSanitized` | src/ErrorTracker.php:251-257 | an object becomes its class name, an array `[array]`, an open resource `[resource]`; an argument that was inert already (a scalar or closed resource) is unchanged; the result is always inert |
| `StackTrace.ArgsSanitized` | src/ErrorTracker.php:248-261 | same positions; an object becomes its class name, an array `[array]`, an open resource `[resource]`; any other argument is unchanged; no argument is live afterwards |
| `StackTrace.SanitizeArgs` | src/ErrorTracker.php:250-260 | the in-place loop gives exactly `ArgsSanitized` |
| `StackTrace.ArgsSanitizedIdempotent` | src/ErrorTracker.php:248-261 | sanitising sanitised arguments changes nothing |
| `StackTrace.FrameFormatted` | src/ErrorTracker.php:173-180 | one frame's entry: the file, or `[internal function]` when absent; line, function, class and call type copied; arguments present exactly when the frame has them, and then sanitised |
| `StackTrace.TraceFormatted` | src/ErrorTracker.php:169-184 | one entry per frame in order; a missing file is `[internal function]`; line, function, class and call type are copied and are null when absent; the arguments are null when absent and sanitised otherwise |
| `StackTrace.TraceFormattedIsInert` | src/ErrorTracker.php:179 | no argument in a formatted trace is a live object, an array or an open resource |
| `StackTrace.FormatStackTrace` | src/ErrorTracker.php:171-183 | the appending loop gives exactly `TraceFormatted` |
| `Payload.Except` | src/ErrorTracker.php:150 | `$request->except($fields)`: no longer than the input, and no kept entry has a key that is one of the fields |
| `Payload.ExceptMembers` | src/ErrorTracker.php:150 | an entry is in the result if and only if it is in the input and its key is not one of the fields |
| `Payload.ExceptKeepsOrder` | src/ErrorTracker.php:150 | `except` works entry by entry and keeps the order: the result for `a + b` is the result for `a` followed by the result for `b` |
| `Payload.ExceptCons` | src/ErrorTracker.php:150 | a single entry is dropped exactly when its key is one of the fields, and the first entry's result is followed by the rest's |
| `Payload.ExceptKeepsDistinctKeys` | src/ErrorTracker.php:150 | dropping entries from an array with distinct keys leaves the keys distinct |
| `Payload.InstanceOf` | src/ErrorTracker.php:83 | `instanceof`: a throwable is an instance of its own class and of each of its supertypes; and it is an instance of `name` only when its class or a supertype equals `name` ignoring case |
| `Payload.InstanceOfIgnoresCase` | src/ErrorTracker.php:83 | a class name written in another case still matches the throwable's own class or any of its supertypes |
| `Payload.IsException` | src/ErrorTracker.php:102 | `catch (\Exception $e)` catches every throwable whose class or a supertype is `Exception` |
| `Payload.NotExceptionNotCaught` | src/ErrorTracker.php:102 | a throwable none of whose classes is `Exception` in any case is not caught there, so every `\Error` subclass goes through |
| `Payload.ErrorIsNotException` | src/ErrorTracker.php:102 | a plain PHP `\Error`, whose only supertype is `Throwable`, is not caught there |
| `Payload.FormatException` | src/ErrorTracker.php:119-160 | the record is private: configured headers are redacted, excluded fields are absent at the top of the body, no sensitive body value is left at any depth, and no frame argument is live. The headers are the sanitised request headers, the body is the sanitised input without the excluded fields, and the trace is the formatted frames, so header keys and remaining body keys are kept. The user data is present exactly when a user is, and holds only id, email and name. The exception's class, message, file and line, the URL, method, IP, user agent and query, the system data, the environment and the timestamp are copied |
| `Payload.QueryTokenSurvives` | src/ErrorTracker.php:144-149 | the query and the full URL are copied unsanitised: a `token` query parameter, though `token` is a configured sensitive field, appears as it came in `query` and in `url` |
| `Payload.DefaultFieldsIgnoreCase` | src/ErrorTracker.php:218-234 | under the default field list, `User_PASSWORD` and `API_KEY` are sensitive keys |
| `Payload.PublishedConfigBodyExample` | src/ErrorTracker.php:150 | with the published configuration, a top-level `token` is dropped, and a nested `password` is redacted while its sibling `name` is kept |
| `Tracker.TargetUrl` | src/ErrorTracker.php:281-286 | the endpoint always ends in `/api/errors` |
| `Tracker.UpgradeLeavesNoHttp` | src/ErrorTracker.php:284 | after replacing every `http://` by `https://`, no `http://` is left anywhere |
| `Tracker.TargetUrlHasNoHttp` | src/ErrorTracker.php:282-286 | a URL that does not start with `https://` once trimmed gives an endpoint with no `http://` anywhere |
| `Tracker.TargetUrlKeepsHttps` | src/ErrorTracker.php:282-286 | a URL that starts with `https://` once trimmed is used unchanged, with the path appended |
| `Tracker.TargetUrlUpgradesHttp` | src/ErrorTracker.php:282-286 | a URL that starts with `http://` once trimmed gives `https://`, then the rest of the URL with every further `http://` upgraded, then `/api/errors`. A rest with no `http://` in it, the usual host and path, is kept exactly |
| `Tracker.TargetUrlWithoutScheme` | src/ErrorTracker.php:283-284 | a URL with no `http://` that does not start with `https://` gets no scheme added |
| `Tracker.IsSuccess` | src/ErrorTracker.php:311-312 | an answer counts as delivered exactly when it is a status from 200 to 299; a transport error never does |
| `Tracker.Attempts` | src/ErrorTracker.php:288-336 | the number of requests is at most `max(retries, 0)`, zero exactly when `retries` is not positive, and every answer before the last request was not 2xx, so the loop stops at the first success |
| `Tracker.FirstSuccess` | src/ErrorTracker.php:288-322 | the first attempt index below the limit whose answer is 2xx, with every earlier answer not 2xx; None exactly when no answer below the limit is 2xx |
| `Tracker.DeliveredIff` | src/ErrorTracker.php:311-321 | delivery succeeds if and only if one of the first `retries` answers is 2xx |
| `Tracker.AttemptsBound` | src/ErrorTracker.php:288-338 | at most `max(retries, 0)` attempts; none and failure when `retries` is not positive; all of them exactly when none succeeds; the last attempt of a success is the 2xx one, and every earlier one failed |
| `Tracker.AlwaysFailingServer` | src/ErrorTracker.php:288-338 | three attempts against a server that always answers 500 fail after exactly three requests |
| `Tracker.SecondAttemptSucceeds` | src/ErrorTracker.php:288-338 | a transport error and then a 201 give success after exactly two requests |
| `Config.Enabled` | src/ErrorTracker.php:68 | tracking is on unless `enabled` is set to false |
| `Config.Environments` | src/ErrorTracker.php:75 | the configured environment list, or only `production` when unset |
| `Config.ExcludedExceptions` | src/ErrorTracker.php:81 | the configured excluded classes, or none when unset |
| `Config.SensitiveHeaders` | src/ErrorTracker.php:194-199 | the configured header names, or `authorization`, `cookie`, `x-csrf-token` and `x-xsrf-token` when unset |
| `Config.SensitiveFields` | src/ErrorTracker.php:218-224 | the configured field names, or `password`, `password_confirmation`, `token`, `secret` and `api_key` when unset |
| `Config.ExceptFields` | src/ErrorTracker.php:150 | the same configured field names, but none when unset |
| `Config.Timeout` | src/ErrorTracker.php:273 | the configured timeout, or 5 seconds when unset |
| `Config.Retries` | src/ErrorTracker.php:277 | the configured number of attempts, or 3 when unset |
| `Tracker.Gate` | src/ErrorTracker.php:67-87 | the report passes if and only if tracking is enabled, the environment is listed, and the exception is an instance of no excluded class; it is rejected as disabled exactly when disabled, and for the environment exactly when enabled and the environment is not listed |
| `Tracker.UnsetEnvironmentsMeanProduction` | src/ErrorTracker.php:75 | with no environment list configured, only `production` reports |
| `Tracker.PublishedConfigIgnoresQa` | config/error-tracker.php:54-59 | with the published configuration, the environment `qa` never reports |
| `Tracker.PublishedConfigExcludesValidation` | config/error-tracker.php:69-74 | with the published configuration, a validation exception or any subclass of one is never reported |
| `Tracker.Post` | src/ErrorTracker.php:297-309 | the request is a POST of the record to the given URL, with the bearer key in `Authorization`, a JSON `Content-Type` and a JSON `Accept` |
| `Tracker.ErrorTracker.constructor` | src/ErrorTracker.php:48-57 | stores the key, application id and URL, and a client with the configured timeout and no certificate verification |
| `Tracker.ErrorTracker.SendToApi` | src/ErrorTracker.php:269-339 | replaces the client; the result is true exactly when one of the first `retries` answers is 2xx; the number of requests is the number of attempts; every request is a POST to `TargetUrl` with the bearer key and the record; the pauses number one fewer than the attempts, and zero when there are none |
| `Tracker.ErrorTracker.ReportException` | src/ErrorTracker.php:65-111 | a rejected report returns false and sends nothing; a throwable raised inside the `try` returns false if it is an `\Exception`, and is propagated otherwise, with nothing sent; otherwise the result is delivery's result, the client is the freshly configured one, and every request carries `FormatException`'s record |

## Left out

- HTTP transport: Guzzle, the real request, JSON encoding and the timeout and
  `verify` options are not modelled. Only the options are recorded in
  `HttpClient`. The answers come from the `respond` oracle, and a
  serialisation failure inside the request is one of its `TransportError`s.
- The JSON round trip of the record is not modelled. The record is a Dafny
  datatype with the wire fields.
- Logging (`Log::info`, `Log::error`) is side-channel output and is left out.
  `usleep` is counted as a ghost pause and does not wait.
- A throwable raised inside `reportException`'s `try` is the `raised` input.
  This covers a framework accessor failing while the record is built, or the
  client's construction failing. The model places it before any request
  goes out: `ReportException` sends nothing whenever `raised` is present. A
  non-`\Exception` throwable escaping the HTTP client in the middle of the
  retry loop, after some requests were sent, is not modelled.
- `Payload.Except`: Laravel's `except` also removes nested keys named with dot
  notation (`user.password`). That path is not modelled, because Laravel's
  `Arr::forget` is outside this model.
- `Tracker.Gate`: `in_array` compares loosely, so numeric strings compare as
  numbers. The model compares environment names exactly.
- A configuration key set to null is not modelled, only set or unset. A null
  value reaches the code as null rather than the default.
- Keys are strings. PHP's coercion of numeric-string keys to integers is not
  modelled.
- Case folding in `stripos` is ASCII-only, as PHP 8.2 does it.
  Locale-dependent folding is not modelled.
- `src/ErrorTrackerExceptionHandler.php` is not part of this model. It is a
  framework handler subclass that repeats the exclusion loop and defers to
  its parent.
- `src/ErrorTrackerServiceProvider.php` and `src/Facades/ErrorTracker.php`
  are not part of this model. They are dependency-injection and facade
  wiring only.
