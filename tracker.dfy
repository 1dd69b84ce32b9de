/**
 * The `ErrorTracker` class: the reporting policy and its containment of
 * failures (`reportException`), and delivery with bounded retry
 * (`sendToApi`), including the normalisation of the dashboard URL.
 *
 * The HTTP exchange is an oracle: `respond(n)` is the outcome of the n-th
 * attempt (counting from 0), either a status code or a transport error.
 * Requests sent and pauses taken are reported as ghost results.
 */
module Tracker {
  import opened Wrappers
  import opened Text
  import opened Config
  import opened Payload

  // ---------------------------------------------------------------------------
  // Endpoint URL
  // ---------------------------------------------------------------------------

  const API_PATH: string := "/api/errors"
  const HTTP: string := "http://"
  const HTTPS: string := "https://"

  /**
   * The collection endpoint for a dashboard URL: trailing slashes trimmed;
   * unless the result starts with `https://`, every `http://` in it replaced
   * by `https://`; then `/api/errors` appended.
   */
  function TargetUrl(dashboardUrl: string): (url: string)
    ensures |API_PATH| <= |url| && url[|url| - |API_PATH|..] == API_PATH
  {
    var trimmed := RTrim(dashboardUrl, '/');
    var secured := if !StartsWith(trimmed, HTTPS) then ReplaceAll(trimmed, HTTP, HTTPS) else trimmed;
    secured + API_PATH
  }

  /** Replacing `http://` with `https://` keeps a leading `h`. */
  lemma UpgradeKeepsLeadingH(s: string)
    requires s != [] && s[0] == 'h'
    ensures ReplaceAll(s, HTTP, HTTPS) != [] && ReplaceAll(s, HTTP, HTTPS)[0] == 'h'
  {
  }

  /**
   * If the upgraded string starts with `p`, a text without `h`, the original
   * started with `p` too: no replacement can produce it.
   */
  lemma {:induction false} UpgradedPrefixWithoutH(s: string, p: string)
    requires forall j :: 0 <= j < |p| ==> p[j] != 'h'
    requires |p| <= |ReplaceAll(s, HTTP, HTTPS)| && ReplaceAll(s, HTTP, HTTPS)[..|p|] == p
    ensures |p| <= |s| && s[..|p|] == p
    decreases |s|
  {
    if p != [] && |s| >= |HTTP| {
      if s[0] == 'h' {
        UpgradeKeepsLeadingH(s);
        assert false;
      }
      assert s[..|HTTP|] != HTTP;
      var rest := ReplaceAll(s[1..], HTTP, HTTPS);
      assert ReplaceAll(s, HTTP, HTTPS) == [s[0]] + rest;
      assert rest[..|p| - 1] == p[1..];
      UpgradedPrefixWithoutH(s[1..], p[1..]);
      assert s[..|p|] == [s[0]] + s[1..][..|p| - 1];
    }
  }

  /** An occurrence past the first `n` characters is one in the rest. */
  lemma OccursAtShift(a: string, b: string, needle: string, i: nat)
    requires OccursAt(a + b, needle, i) && i >= |a|
    ensures OccursAt(b, needle, i - |a|)
  {
    assert (a + b)[i..i + |needle|] == b[i - |a|..i - |a| + |needle|];
  }

  /** After the upgrade no `http://` is left anywhere in the string. */
  lemma {:induction false} UpgradeLeavesNoHttp(s: string)
    ensures !Contains(ReplaceAll(s, HTTP, HTTPS), HTTP)
    decreases |s|
  {
    var u := ReplaceAll(s, HTTP, HTTPS);
    if |s| < |HTTP| {
      assert u == s;
    } else if s[..|HTTP|] == HTTP {
      var rest := ReplaceAll(s[|HTTP|..], HTTP, HTTPS);
      UpgradeLeavesNoHttp(s[|HTTP|..]);
      assert u == HTTPS + rest;
      forall i: nat | i <= |u|
        ensures !OccursAt(u, HTTP, i)
      {
        if i >= |HTTPS| {
          if OccursAt(u, HTTP, i) {
            OccursAtShift(HTTPS, rest, HTTP, i);
          }
        } else if i == 0 {
          assert u[4] == 's';
        } else {
          assert u[i] != 'h';
        }
      }
    } else {
      var rest := ReplaceAll(s[1..], HTTP, HTTPS);
      UpgradeLeavesNoHttp(s[1..]);
      assert u == [s[0]] + rest;
      forall i: nat | i <= |u|
        ensures !OccursAt(u, HTTP, i)
      {
        if i >= 1 {
          if OccursAt(u, HTTP, i) {
            OccursAtShift([s[0]], rest, HTTP, i);
          }
        } else {
          SkipLeavesNoHttpAtStart(s);
        }
      }
    }
  }

  /**
   * A string that does not start with `http://` does not start with it
   * after the upgrade either.
   */
  lemma SkipLeavesNoHttpAtStart(s: string)
    requires |HTTP| <= |s| && s[..|HTTP|] != HTTP
    ensures !OccursAt(ReplaceAll(s, HTTP, HTTPS), HTTP, 0)
  {
    UpgradeSkipsHead(s);
    var rest := ReplaceAll(s[1..], HTTP, HTTPS);
    if s[0] == 'h' {
      UpgradedTailNotTtp(s);
    }
    NoHttpAtStartOfCons(s[0], rest);
  }

  /** A string starting with `h` but not with `http://` has a tail that does not start with `ttp://` after the upgrade. */
  lemma UpgradedTailNotTtp(s: string)
    requires |HTTP| <= |s| && s[..|HTTP|] != HTTP && s[0] == 'h'
    ensures var rest := ReplaceAll(s[1..], HTTP, HTTPS); !(6 <= |rest| && rest[..6] == "ttp://")
  {
    TailNotTtp(s);
    var p: string := "ttp://";
    assert forall j :: 0 <= j < |p| ==> p[j] != 'h';
    UpgradedPrefixStaysWithoutH(s[1..], p);
  }

  /** A string that does not start with `http://` keeps its first character through the upgrade. */
  lemma UpgradeSkipsHead(s: string)
    requires |HTTP| <= |s| && s[..|HTTP|] != HTTP
    ensures ReplaceAll(s, HTTP, HTTPS) == [s[0]] + ReplaceAll(s[1..], HTTP, HTTPS)
  {
    assert !OccursAt(s, HTTP, 0) by {
      assert s[0..|HTTP|] == s[..|HTTP|];
    }
    ReplaceAllSkip(s, HTTP, HTTPS);
  }

  /** A string starting with `h` but not with `http://` has a tail not starting with `ttp://`. */
  lemma TailNotTtp(s: string)
    requires |HTTP| <= |s| && s[..|HTTP|] != HTTP && s[0] == 'h'
    ensures !(6 <= |s[1..]| && s[1..][..6] == "ttp://")
  {
    assert s[..|HTTP|] == [s[0]] + s[1..][..6];
  }

  /** `c + rest` starts with `http://` only when `c` is `h` and `rest` starts with `ttp://`. */
  lemma NoHttpAtStartOfCons(c: char, rest: string)
    requires c != 'h' || !(6 <= |rest| && rest[..6] == "ttp://")
    ensures !OccursAt([c] + rest, HTTP, 0)
  {
    var u := [c] + rest;
    if c != 'h' {
      assert u[0] != HTTP[0];
    } else if 6 <= |rest| {
      assert u[0..|HTTP|] == [c] + rest[..6];
      assert ([c] + rest[..6])[1..] == rest[..6];
      assert HTTP[1..] == "ttp://";
    }
  }

  /** The contrapositive of `UpgradedPrefixWithoutH`. */
  lemma UpgradedPrefixStaysWithoutH(s: string, p: string)
    requires forall j :: 0 <= j < |p| ==> p[j] != 'h'
    requires !(|p| <= |s| && s[..|p|] == p)
    ensures !(|p| <= |ReplaceAll(s, HTTP, HTTPS)| && ReplaceAll(s, HTTP, HTTPS)[..|p|] == p)
  {
    if |p| <= |ReplaceAll(s, HTTP, HTTPS)| && ReplaceAll(s, HTTP, HTTPS)[..|p|] == p {
      UpgradedPrefixWithoutH(s, p);
    }
  }

  /** The upgrade keeps the last character when that is not a slash. */
  lemma {:induction false} UpgradeKeepsLastChar(s: string)
    requires s != [] && s[|s| - 1] != '/'
    ensures var u := ReplaceAll(s, HTTP, HTTPS); u != [] && u[|u| - 1] == s[|s| - 1]
    decreases |s|
  {
    if |s| >= |HTTP| {
      if s[..|HTTP|] == HTTP {
        assert |s| > |HTTP|;
        UpgradeKeepsLastChar(s[|HTTP|..]);
      } else {
        UpgradeKeepsLastChar(s[1..]);
      }
    }
  }

  /**
   * A dashboard URL that does not start with `https://` once trimmed gives
   * an endpoint with no `http://` anywhere: the insecure scheme is never used.
   */
  lemma TargetUrlHasNoHttp(dashboardUrl: string)
    requires !StartsWith(RTrim(dashboardUrl, '/'), HTTPS)
    ensures !Contains(TargetUrl(dashboardUrl), HTTP)
  {
    var trimmed := RTrim(dashboardUrl, '/');
    var u := ReplaceAll(trimmed, HTTP, HTTPS);
    UpgradeLeavesNoHttp(trimmed);
    if trimmed != [] {
      UpgradeKeepsLastChar(trimmed);
    }
    PathAddsNoHttp(u);
  }

  /** Appending the API path to a string without `http://` that does not end in `/` adds none. */
  lemma PathAddsNoHttp(u: string)
    requires !Contains(u, HTTP)
    requires u == [] || u[|u| - 1] != '/'
    ensures !Contains(u + API_PATH, HTTP)
  {
    var url := u + API_PATH;
    forall i: nat | i <= |url|
      ensures !OccursAt(url, HTTP, i)
    {
      if i + |HTTP| > |url| {
      } else if i + |HTTP| <= |u| {
        assert !OccursAt(u, HTTP, i);
        assert url[i..i + |HTTP|] == u[i..i + |HTTP|] by {
          assert url[..|u|] == u;
        }
      } else if i >= |u| {
        MismatchAt(url, HTTP, i, 0);
      } else if i == |u| - 6 {
        MismatchAt(url, HTTP, i, 5);
      } else if i == |u| - 5 {
        MismatchAt(url, HTTP, i, 6);
      } else {
        MismatchAt(url, HTTP, i, |u| - i);
      }
    }
  }

  /** One differing character rules out an occurrence. */
  lemma MismatchAt(s: string, needle: string, i: nat, k: nat)
    requires i + |needle| <= |s| && k < |needle| && s[i + k] != needle[k]
    ensures !OccursAt(s, needle, i)
  {
    assert s[i..i + |needle|][k] == s[i + k];
  }

  /** A dashboard URL starting with `https://` is used as it is, trimmed. */
  lemma TargetUrlKeepsHttps(dashboardUrl: string)
    requires StartsWith(RTrim(dashboardUrl, '/'), HTTPS)
    ensures TargetUrl(dashboardUrl) == RTrim(dashboardUrl, '/') + API_PATH
  {
  }

  /**
   * A dashboard URL starting with `http://` is sent over `https://`: the
   * scheme becomes `https://`, the rest goes through the same replacement,
   * and a rest without `http://` (the usual host and path) is kept as it is.
   */
  lemma TargetUrlUpgradesHttp(dashboardUrl: string)
    requires StartsWith(RTrim(dashboardUrl, '/'), HTTP)
    ensures var rest := RTrim(dashboardUrl, '/')[|HTTP|..];
      TargetUrl(dashboardUrl) == HTTPS + ReplaceAll(rest, HTTP, HTTPS) + API_PATH
    ensures var rest := RTrim(dashboardUrl, '/')[|HTTP|..];
      !Contains(rest, HTTP) ==> TargetUrl(dashboardUrl) == HTTPS + rest + API_PATH
    ensures StartsWith(TargetUrl(dashboardUrl), HTTPS)
  {
    var trimmed := RTrim(dashboardUrl, '/');
    var rest := trimmed[|HTTP|..];
    assert trimmed[..|HTTP|] == HTTP;
    assert trimmed[4] == ':';
    assert OccursAt(trimmed, HTTP, 0);
    ReplaceAllFirstOccurrence(trimmed, HTTP, HTTPS, 0);
    assert trimmed[..0] == [];
    if !Contains(rest, HTTP) {
      ReplaceAllWithoutOccurrence(rest, HTTP, HTTPS);
    }
  }

  /**
   * A URL without `http://` and not starting with `https://` (one with no
   * scheme, say) gets no scheme added: only the trim and the path apply.
   */
  lemma TargetUrlWithoutScheme(dashboardUrl: string)
    requires !Contains(RTrim(dashboardUrl, '/'), HTTP) && !StartsWith(RTrim(dashboardUrl, '/'), HTTPS)
    ensures TargetUrl(dashboardUrl) == RTrim(dashboardUrl, '/') + API_PATH
  {
    ReplaceAllWithoutOccurrence(RTrim(dashboardUrl, '/'), HTTP, HTTPS);
  }

  // ---------------------------------------------------------------------------
  // Delivery attempts
  // ---------------------------------------------------------------------------

  /** The outcome of one request: a status code, or an exception from the transport. */
  datatype Response = Status(code: int) | TransportError

  /** A 2xx status; a transport error is never a success. */
  predicate IsSuccess(r: Response): (b: bool)
    ensures b ==> r.Status?
    ensures r.Status? ==> (b <==> 200 <= r.code <= 299)
  {
    r.Status? && 200 <= r.code < 300
  }

  /** The first attempt in `from .. retries - 1` that succeeds. */
  function FirstSuccess(respond: nat -> Response, retries: int, from: nat): (r: Option<nat>)
    ensures r.Some? ==> from <= r.value < retries && IsSuccess(respond(r.value))
    ensures r.Some? ==> forall j: nat :: from <= j < r.value ==> !IsSuccess(respond(j))
    ensures r.None? ==> forall j: nat :: from <= j < retries ==> !IsSuccess(respond(j))
    decreases retries - from
  {
    if retries <= from then None
    else if IsSuccess(respond(from)) then Some(from)
    else FirstSuccess(respond, retries, from + 1)
  }

  /** Delivery succeeds when one of the first `retries` responses is 2xx. */
  predicate Delivered(respond: nat -> Response, retries: int) {
    FirstSuccess(respond, retries, 0).Some?
  }

  /** The number of attempts made: up to the first success, else `retries` (none if that is not positive). */
  function Attempts(respond: nat -> Response, retries: int): (n: nat)
    ensures n <= (if retries > 0 then retries else 0)
    ensures n == 0 <==> retries <= 0
    ensures forall j: nat :: j + 1 < n ==> !IsSuccess(respond(j))
  {
    match FirstSuccess(respond, retries, 0)
    case Some(i) => i + 1
    case None => if retries > 0 then retries else 0
  }

  lemma DeliveredIff(respond: nat -> Response, retries: int)
    ensures Delivered(respond, retries) <==> exists i: nat :: i < retries && IsSuccess(respond(i))
  {
  }

  /**
   * At most `max(retries, 0)` attempts; none at all when `retries` is not
   * positive; all of them exactly when none succeeds.
   */
  lemma AttemptsBound(respond: nat -> Response, retries: int)
    ensures Attempts(respond, retries) <= (if retries > 0 then retries else 0)
    ensures retries <= 0 ==> Attempts(respond, retries) == 0 && !Delivered(respond, retries)
    ensures !Delivered(respond, retries) ==> Attempts(respond, retries) == (if retries > 0 then retries else 0)
    ensures Delivered(respond, retries) ==> IsSuccess(respond(Attempts(respond, retries) - 1))
    ensures forall j: nat :: j + 1 < Attempts(respond, retries) ==> !IsSuccess(respond(j))
  {
  }

  /** Three attempts against a server that always answers 500: three requests, then failure. */
  lemma AlwaysFailingServer(respond: nat -> Response)
    requires forall n: nat :: respond(n) == Status(500)
    ensures !Delivered(respond, 3) && Attempts(respond, 3) == 3
  {
  }

  /** A server that fails once and then accepts: two requests, then success. */
  lemma SecondAttemptSucceeds(respond: nat -> Response)
    requires respond(0) == TransportError && respond(1) == Status(201)
    ensures Delivered(respond, 3) && Attempts(respond, 3) == 2
  {
  }

  // ---------------------------------------------------------------------------
  // Reporting policy
  // ---------------------------------------------------------------------------

  /** Why a report is or is not sent. */
  datatype Verdict = Disabled | EnvironmentNotTracked | Excluded | Accepted

  /** The three gates of `reportException`, checked in order. */
  function Gate(c: Config, environment: string, t: Throwable): (v: Verdict)
    ensures v == Accepted <==>
      && Enabled(c)
      && environment in Environments(c)
      && forall j :: 0 <= j < |ExcludedExceptions(c)| ==> !InstanceOf(t, ExcludedExceptions(c)[j])
    ensures v == Disabled <==> !Enabled(c)
    ensures v == EnvironmentNotTracked <==> Enabled(c) && environment !in Environments(c)
  {
    var excluded := ExcludedExceptions(c);
    if !Enabled(c) then Disabled
    else if environment !in Environments(c) then EnvironmentNotTracked
    else if exists j :: 0 <= j < |excluded| && InstanceOf(t, excluded[j]) then Excluded
    else Accepted
  }

  /** With no environment list configured, only production reports. */
  lemma UnsetEnvironmentsMeanProduction(c: Config, environment: string, t: Throwable)
    requires c.environments.None? && Gate(c, environment, t) == Accepted
    ensures environment == "production"
  {
  }

  /** With the published configuration, an environment named "qa" never reports. */
  lemma PublishedConfigIgnoresQa(t: Throwable)
    ensures Gate(Published, "qa", t) == EnvironmentNotTracked
  {
  }

  /**
   * With the published configuration, a validation exception, or any
   * subclass of one, is never reported.
   */
  lemma PublishedConfigExcludesValidation(t: Throwable, environment: string)
    requires "Illuminate\\Validation\\ValidationException" in t.supertypes + {t.cls}
    requires environment in Environments(Published)
    ensures Gate(Published, environment, t) == Excluded
  {
    var excluded := ExcludedExceptions(Published);
    assert InstanceOf(t, excluded[2]);
  }

  // ---------------------------------------------------------------------------
  // The tracker
  // ---------------------------------------------------------------------------

  /** The options of the Guzzle client: the timeout and certificate verification. */
  datatype HttpClient = HttpClient(timeout: int, verify: bool)

  /** A request handed to the HTTP client. */
  datatype HttpRequest = HttpRequest(httpMethod: string, url: string, headers: seq<(string, string)>, json: Record)

  /** The POST of the record to `url`, with the bearer key and the JSON content and accept types. */
  function Post(url: string, apiKey: string, data: Record): (r: HttpRequest)
    ensures r.httpMethod == "POST" && r.url == url && r.json == data
    ensures ("Authorization", "Bearer " + apiKey) in r.headers
    ensures ("Content-Type", "application/json") in r.headers
    ensures ("Accept", "application/json") in r.headers
  {
    HttpRequest("POST", url,
                [("Authorization", "Bearer " + apiKey),
                 ("Content-Type", "application/json"),
                 ("Accept", "application/json")],
                data)
  }

  /** What a call to `reportException` does: return a boolean, or let a throwable through. */
  datatype Outcome = Returned(value: bool) | Propagated(error: Throwable)

  class ErrorTracker {
    const apiKey: string
    const appId: string
    const dashboardUrl: string
    var httpClient: HttpClient

    constructor (apiKey: string, appId: string, dashboardUrl: string, c: Config)
      ensures this.apiKey == apiKey && this.appId == appId && this.dashboardUrl == dashboardUrl
      ensures httpClient == HttpClient(Timeout(c), false)
    {
      this.apiKey := apiKey;
      this.appId := appId;
      this.dashboardUrl := dashboardUrl;
      this.httpClient := HttpClient(Timeout(c), false);
    }

    /**
     * `sendToApi`: POST `data` to the endpoint until a 2xx answer or the
     * attempts run out, pausing between attempts but never after the last.
     */
    method SendToApi(data: Record, c: Config, respond: nat -> Response)
      returns (success: bool, ghost sent: seq<HttpRequest>, ghost pauses: nat)
      modifies this`httpClient
      ensures httpClient == HttpClient(Timeout(c), false)
      ensures success == Delivered(respond, Retries(c))
      ensures |sent| == Attempts(respond, Retries(c))
      ensures forall k :: 0 <= k < |sent| ==> sent[k] == Post(TargetUrl(dashboardUrl), apiKey, data)
      ensures pauses == if |sent| == 0 then 0 else |sent| - 1
    {
      httpClient := HttpClient(Timeout(c), false);

      var retries := Retries(c);
      var attempt := 0;
      success := false;

      var url := RTrim(dashboardUrl, '/');
      if !StartsWith(url, HTTPS) {
        url := ReplaceAll(url, HTTP, HTTPS);
      }
      url := url + API_PATH;

      sent, pauses := [], 0;
      while attempt < retries && !success
        invariant 0 <= attempt && (attempt <= retries || attempt == 0)
        invariant !success
        invariant forall j: nat :: j < attempt ==> !IsSuccess(respond(j))
        invariant |sent| == attempt
        invariant forall k :: 0 <= k < |sent| ==> sent[k] == Post(url, apiKey, data)
        invariant pauses == if attempt == 0 then 0 else if attempt < retries then attempt else attempt - 1
        decreases retries - attempt
      {
        var response := respond(attempt);
        sent := sent + [Post(url, apiKey, data)];
        if response.Status? {
          var statusCode := response.code;
          success := statusCode >= 200 && statusCode < 300;
          if success {
            assert FirstSuccess(respond, retries, 0) == Some(attempt);
            return;
          }
        }
        attempt := attempt + 1;
        if attempt < retries {
          pauses := pauses + 1;
        }
      }
      assert FirstSuccess(respond, retries, 0).None?;
    }

    /**
     * `reportException`. `raised` is a throwable raised inside the `try`
     * block before any request goes out (by a framework accessor while the
     * record is built, or by the HTTP client's construction); only an
     * `\Exception` is caught.
     */
    method ReportException(t: Throwable, c: Config, req: Request, host: Host,
                           raised: Option<Throwable>, respond: nat -> Response)
      returns (r: Outcome, ghost sent: seq<HttpRequest>)
      modifies this`httpClient
      ensures Gate(c, host.environment, t) != Accepted ==>
        r == Returned(false) && sent == [] && httpClient == old(httpClient)
      ensures Gate(c, host.environment, t) == Accepted && raised.Some? ==>
        && sent == [] && httpClient == old(httpClient)
        && r == (if IsException(raised.value) then Returned(false) else Propagated(raised.value))
      ensures Gate(c, host.environment, t) == Accepted && raised.None? ==>
        && r == Returned(Delivered(respond, Retries(c)))
        && httpClient == HttpClient(Timeout(c), false)
        && |sent| == Attempts(respond, Retries(c))
        && forall k :: 0 <= k < |sent| ==>
             sent[k] == Post(TargetUrl(dashboardUrl), apiKey, FormatException(appId, t, req, host, c))
    {
      sent := [];
      if !Enabled(c) {
        return Returned(false), sent;
      }

      var environment := host.environment;
      if environment !in Environments(c) {
        return Returned(false), sent;
      }

      var excluded := ExcludedExceptions(c);
      for i := 0 to |excluded|
        invariant forall j :: 0 <= j < i ==> !InstanceOf(t, excluded[j])
      {
        if InstanceOf(t, excluded[i]) {
          return Returned(false), sent;
        }
      }

      if raised.Some? {
        if IsException(raised.value) {
          return Returned(false), sent;
        }
        return Propagated(raised.value), sent;
      }

      var data := FormatException(appId, t, req, host, c);
      var success;
      ghost var pauses;
      success, sent, pauses := SendToApi(data, c, respond);
      r := Returned(success);
    }
  }
}
