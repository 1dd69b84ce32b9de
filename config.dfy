/**
 * The `error-tracker.*` configuration keys ErrorTracker reads. Each key is
 * None when it is not set, in which case the call site's own default
 * applies; the accessors below carry those defaults. `Published` holds the
 * values of the package's published configuration file.
 */
module Config {
  import opened Wrappers

  datatype Config = Config(
    enabled: Option<bool>,                   // error-tracker.enabled
    environments: Option<seq<string>>,       // error-tracker.environments
    excludeExceptions: Option<seq<string>>,  // error-tracker.exclude_exceptions
    sanitizeHeaders: Option<seq<string>>,    // error-tracker.privacy.sanitize_request_headers
    sanitizeFields: Option<seq<string>>,     // error-tracker.privacy.sanitize_request_fields
    timeout: Option<int>,                    // error-tracker.http_client.timeout
    retry: Option<int>)                      // error-tracker.http_client.retry

  const DEFAULT_SENSITIVE_HEADERS: seq<string> :=
    ["authorization", "cookie", "x-csrf-token", "x-xsrf-token"]

  const DEFAULT_SENSITIVE_FIELDS: seq<string> :=
    ["password", "password_confirmation", "token", "secret", "api_key"]

  /** Tracking is on unless switched off. */
  function Enabled(c: Config): (b: bool)
    ensures b <==> c.enabled != Some(false)
  {
    c.enabled.GetOr(true)
  }

  /** The environments that report; only production when unset. */
  function Environments(c: Config): (r: seq<string>)
    ensures c.environments.None? ==> r == ["production"]
    ensures c.environments.Some? ==> r == c.environments.value
  {
    c.environments.GetOr(["production"])
  }

  /** The excluded exception classes; none when unset. */
  function ExcludedExceptions(c: Config): (r: seq<string>)
    ensures c.excludeExceptions.None? ==> r == []
    ensures c.excludeExceptions.Some? ==> r == c.excludeExceptions.value
  {
    c.excludeExceptions.GetOr([])
  }

  /** The header names `sanitizeHeaders` redacts. */
  function SensitiveHeaders(c: Config): (r: seq<string>)
    ensures c.sanitizeHeaders.None? ==> r == DEFAULT_SENSITIVE_HEADERS
    ensures c.sanitizeHeaders.Some? ==> r == c.sanitizeHeaders.value
  {
    c.sanitizeHeaders.GetOr(DEFAULT_SENSITIVE_HEADERS)
  }

  /** The field names `sanitizeBody` looks for in keys. */
  function SensitiveFields(c: Config): (r: seq<string>)
    ensures c.sanitizeFields.None? ==> r == DEFAULT_SENSITIVE_FIELDS
    ensures c.sanitizeFields.Some? ==> r == c.sanitizeFields.value
  {
    c.sanitizeFields.GetOr(DEFAULT_SENSITIVE_FIELDS)
  }

  /**
   * The top-level body keys `formatException` drops before sanitising: the
   * same configuration key, but with an empty default.
   */
  function ExceptFields(c: Config): (r: seq<string>)
    ensures c.sanitizeFields.None? ==> r == []
    ensures c.sanitizeFields.Some? ==> r == SensitiveFields(c)
  {
    c.sanitizeFields.GetOr([])
  }

  /** The HTTP client timeout, in seconds. */
  function Timeout(c: Config): (r: int)
    ensures c.timeout.None? ==> r == 5
    ensures c.timeout.Some? ==> r == c.timeout.value
  {
    c.timeout.GetOr(5)
  }

  /** The number of delivery attempts. */
  function Retries(c: Config): (r: int)
    ensures c.retry.None? ==> r == 3
    ensures c.retry.Some? ==> r == c.retry.value
  {
    c.retry.GetOr(3)
  }

  /** The package's published configuration. */
  const Published: Config := Config(
    Some(true),
    Some(["production", "staging", "testing", "development"]),
    Some(["Symfony\\Component\\HttpKernel\\Exception\\NotFoundHttpException",
          "Symfony\\Component\\HttpKernel\\Exception\\MethodNotAllowedHttpException",
          "Illuminate\\Validation\\ValidationException"]),
    Some(DEFAULT_SENSITIVE_HEADERS),
    Some(DEFAULT_SENSITIVE_FIELDS),
    Some(5),
    Some(3))
}
