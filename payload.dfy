/**
 * `formatException`: the report record built from the exception, the current
 * request and the host's metadata. The framework's ambient accessors
 * (`request()`, `$request->user()`, `app()->environment()`, `app()->version()`,
 * `PHP_VERSION`, `$_SERVER['SERVER_SOFTWARE']`, `now()`) are the `Request` and
 * `Host` values passed in.
 */
module Payload {
  import opened Wrappers
  import opened Text
  import opened PhpArrays
  import opened Config
  import opened Sanitizer
  import opened StackTrace

  /**
   * A PHP throwable. `supertypes` is every class and interface it is an
   * instance of besides its own class: the host's type hierarchy, made
   * explicit.
   */
  datatype Throwable = Throwable(
    cls: string,
    supertypes: set<string>,
    message: string,
    file: string,
    line: int,
    trace: seq<Frame>)

  /**
   * `$t instanceof $name`: `t`'s own class or one of its supertypes is
   * `name`; PHP class names compare without regard to case.
   */
  predicate InstanceOf(t: Throwable, name: string): (b: bool)
    ensures name in t.supertypes + {t.cls} ==> b
    ensures b ==> exists a | a in t.supertypes + {t.cls} :: Lower(a) == Lower(name)
  {
    assert name in t.supertypes + {t.cls} ==> Lower(name) == Lower(name);
    exists a | a in t.supertypes + {t.cls} :: Lower(a) == Lower(name)
  }

  /**
   * What `catch (\Exception $e)` catches. A PHP `\Error`, whose only
   * supertype is `Throwable`, is not one.
   */
  predicate IsException(t: Throwable): (b: bool)
    ensures "Exception" in t.supertypes + {t.cls} ==> b
  {
    InstanceOf(t, "Exception")
  }

  /** A plain PHP `\Error` is not caught by `catch (\Exception $e)`. */
  lemma ErrorIsNotException(t: Throwable)
    requires t.cls == "Error" && t.supertypes == {"Throwable"}
    ensures !IsException(t)
  {
    forall a | a in t.supertypes + {t.cls}
      ensures Lower(a) != Lower("Exception")
    {
      if a == "Throwable" {
        LowerPointwise(a);
        LowerPointwise("Exception");
        assert Lower(a)[0] == LowerChar('T') == 't';
        assert Lower("Exception")[0] == LowerChar('E') == 'e';
      } else {
        assert |Lower(a)| == 5 && |Lower("Exception")| == 9;
      }
    }
    NotExceptionNotCaught(t);
  }

  /**
   * `instanceof` ignores case: a throwable's own class or any supertype,
   * named in other case, is still a match.
   */
  lemma InstanceOfIgnoresCase(t: Throwable, name: string, a: string)
    requires a in t.supertypes + {t.cls} && Lower(a) == Lower(name)
    ensures InstanceOf(t, name)
  {
  }

  /**
   * A throwable none of whose classes is `Exception`, in any case, is not
   * caught by `catch (\Exception $e)`: every `\Error` subclass goes through.
   */
  lemma NotExceptionNotCaught(t: Throwable)
    requires forall a | a in t.supertypes + {t.cls} :: Lower(a) != Lower("Exception")
    ensures !IsException(t)
  {
  }

  /** Under the default field list, a key is sensitive whatever its case. */
  lemma DefaultFieldsIgnoreCase()
    ensures SensitiveKey("User_PASSWORD", DEFAULT_SENSITIVE_FIELDS)
    ensures SensitiveKey("API_KEY", DEFAULT_SENSITIVE_FIELDS)
  {
    UserPasswordMatches();
    ApiKeyMatches();
  }

  lemma UserPasswordMatches()
    ensures MatchesAt("User_PASSWORD", DEFAULT_SENSITIVE_FIELDS[0], 5)
  {
    var user: string := "User_PASSWORD";
    assert user[5..13] == "PASSWORD";
    LowerAgrees("PASSWORD", "password");
  }

  lemma ApiKeyMatches()
    ensures MatchesAt("API_KEY", DEFAULT_SENSITIVE_FIELDS[4], 0)
  {
    var api: string := "API_KEY";
    assert api[0..7] == "API_KEY";
    LowerAgrees("API_KEY", "api_key");
  }

  /** The authenticated user; `attributes` are the model's other properties. */
  datatype User = User(id: string, email: Option<string>, name: Option<string>, attributes: seq<Entry>)

  /** The request: `input` is `$request->all()`, the source of the body. */
  datatype Request = Request(
    fullUrl: string,
    httpMethod: string,
    ip: Option<string>,
    userAgent: Option<string>,
    headers: seq<Entry>,
    query: seq<Entry>,
    input: seq<Entry>,
    user: Option<User>)

  /** The host's metadata and clock reading at the time of the report. */
  datatype Host = Host(
    environment: string,
    phpVersion: string,
    laravelVersion: string,
    serverSoftware: Option<string>,
    now: string)

  datatype UserData = UserData(id: string, email: Option<string>, name: Option<string>)

  datatype RequestData = RequestData(
    url: string,
    httpMethod: string,
    ip: Option<string>,
    userAgent: Option<string>,
    headers: seq<Entry>,
    query: seq<Entry>,
    body: seq<Entry>)

  datatype SystemData = SystemData(phpVersion: string, laravelVersion: string, server: Option<string>)

  /** The JSON record sent to the dashboard. */
  datatype Record = Record(
    applicationId: string,
    exceptionType: string,
    message: string,
    file: string,
    line: int,
    stackTrace: seq<TraceEntry>,
    requestData: RequestData,
    userData: Option<UserData>,
    systemData: SystemData,
    environment: string,
    occurredAt: string)

  /**
   * `$request->except($fields)` for field names without dots: the input
   * without the top-level entries whose key is exactly one of the fields,
   * the others kept in order.
   */
  function Except(input: seq<Entry>, fields: seq<string>): (r: seq<Entry>)
    ensures |r| <= |input|
    ensures forall i :: 0 <= i < |r| ==> r[i].key !in fields
  {
    if input == [] then []
    else
      var rest := Except(input[1..], fields);
      if input[0].key in fields then rest else [input[0]] + rest
  }

  /** An entry is kept exactly when it is in the input and its key is not a field. */
  lemma {:induction false} ExceptMembers(input: seq<Entry>, fields: seq<string>)
    ensures forall e :: e in Except(input, fields) ==> e in input && e.key !in fields
    ensures forall e :: e in input && e.key !in fields ==> e in Except(input, fields)
    decreases |input|
  {
    if input != [] {
      ExceptMembers(input[1..], fields);
      assert input == [input[0]] + input[1..];
    }
  }

  /** Dropping entries keeps the keys distinct. */
  lemma {:induction false} ExceptKeepsDistinctKeys(input: seq<Entry>, fields: seq<string>)
    requires DistinctKeys(input)
    ensures DistinctKeys(Except(input, fields))
    decreases |input|
  {
    if input != [] {
      HeadKeyNotInTail(input);
      ExceptKeepsDistinctKeys(input[1..], fields);
      ExceptMembers(input[1..], fields);
    }
  }

  /** In an array with distinct keys, no later entry has the first entry's key. */
  lemma HeadKeyNotInTail(es: seq<Entry>)
    requires es != [] && DistinctKeys(es)
    ensures DistinctKeys(es[1..])
    ensures forall e :: e in es[1..] ==> e.key != es[0].key
  {
    forall e | e in es[1..]
      ensures e.key != es[0].key
    {
      var k :| 0 <= k < |es[1..]| && es[1..][k] == e;
      assert es[k + 1] == e;
    }
  }

  /**
   * `except` keeps the order of the input: it works entry by entry, and an
   * entry is dropped exactly when its key is one of the fields.
   */
  lemma {:induction false} ExceptKeepsOrder(a: seq<Entry>, b: seq<Entry>, fields: seq<string>)
    ensures Except(a + b, fields) == Except(a, fields) + Except(b, fields)
    decreases |a|
  {
    if a == [] {
      assert a + b == b;
    } else {
      var head, tail, right := Except([a[0]], fields), Except(a[1..], fields), Except(b, fields);
      assert Except(a + b, fields) == head + (tail + right) by {
        assert a + b == [a[0]] + (a[1..] + b);
        ExceptCons(a[0], a[1..] + b, fields);
        ExceptKeepsOrder(a[1..], b, fields);
      }
      assert Except(a, fields) == head + tail by {
        assert a == [a[0]] + a[1..];
        ExceptCons(a[0], a[1..], fields);
      }
      assert head + (tail + right) == (head + tail) + right;
    }
  }

  /** The first entry is kept or dropped on its own, and the rest follows. */
  lemma ExceptCons(e: Entry, rest: seq<Entry>, fields: seq<string>)
    ensures Except([e] + rest, fields) == Except([e], fields) + Except(rest, fields)
    ensures Except([e], fields) == if e.key in fields then [] else [e]
  {
    assert ([e] + rest)[1..] == rest;
    assert [e][1..] == [];
  }

  /**
   * The privacy promise of a record: no configured header with a value is
   * left unredacted, no excluded field is present at the top of the body, no
   * sensitive body value is left unredacted at any depth, and no stack-frame
   * argument is a live object, an array or an open resource.
   */
  ghost predicate Private(r: Record, c: Config) {
    && (forall i :: 0 <= i < |r.requestData.headers| && r.requestData.headers[i].key in SensitiveHeaders(c) ==>
          r.requestData.headers[i].val in {Null, Scalar(REDACTED)})
    && (forall i :: 0 <= i < |r.requestData.body| ==> r.requestData.body[i].key !in ExceptFields(c))
    && Clean(r.requestData.body, SensitiveFields(c))
    && TraceInert(r.stackTrace)
  }

  /**
   * `formatException`: the record for `t`. It is private; the headers are
   * the sanitised request headers, the body the sanitised input without the
   * excluded top-level fields, the trace the formatted frames; the user data
   * holds only the user's id, email and name; everything else is copied.
   */
  function FormatException(appId: string, t: Throwable, req: Request, host: Host, c: Config): (r: Record)
    ensures Private(r, c)
    ensures Keys(r.requestData.headers) == Keys(req.headers)
    ensures Keys(r.requestData.body) == Keys(Except(req.input, ExceptFields(c)))
    ensures |r.stackTrace| == |t.trace|
    ensures r.userData.Some? <==> req.user.Some?
    ensures req.user.Some? ==>
      r.userData.value == UserData(req.user.value.id, req.user.value.email, req.user.value.name)
    ensures r.applicationId == appId && r.exceptionType == t.cls && r.message == t.message
    ensures r.file == t.file && r.line == t.line
    ensures r.environment == host.environment && r.occurredAt == host.now
    ensures r.requestData.headers == HeadersSanitized(req.headers, SensitiveHeaders(c))
    ensures r.requestData.body == BodySanitized(Except(req.input, ExceptFields(c)), SensitiveFields(c))
    ensures r.stackTrace == TraceFormatted(t.trace)
    ensures && r.requestData.url == req.fullUrl && r.requestData.httpMethod == req.httpMethod
            && r.requestData.ip == req.ip && r.requestData.userAgent == req.userAgent
            && r.requestData.query == req.query
    ensures r.systemData == SystemData(host.phpVersion, host.laravelVersion, host.serverSoftware)
  {
    var userData := if req.user.Some? then
                      Some(UserData(req.user.value.id, req.user.value.email, req.user.value.name))
                    else None;
    var kept := Except(req.input, ExceptFields(c));
    var body := BodySanitized(kept, SensitiveFields(c));
    BodySanitizedIsClean(kept, SensitiveFields(c));
    BodyKeysKept(body, kept, SensitiveFields(c));
    TraceFormattedIsInert(t.trace);
    Record(
      appId, t.cls, t.message, t.file, t.line,
      TraceFormatted(t.trace),
      RequestData(req.fullUrl, req.httpMethod, req.ip, req.userAgent,
                  HeadersSanitized(req.headers, SensitiveHeaders(c)),
                  req.query,
                  body),
      userData,
      SystemData(host.phpVersion, host.laravelVersion, host.serverSoftware),
      host.environment,
      host.now)
  }

  /** A redaction keeps the keys of the body it redacts. */
  lemma BodyKeysKept(r: seq<Entry>, body: seq<Entry>, fields: seq<string>)
    requires IsRedactionOf(r, body, fields)
    ensures Keys(r) == Keys(body)
  {
    assert forall i :: 0 <= i < |body| ==> EntryRedactionOf(r[i], body[i], fields);
  }

  /**
   * With the published configuration, a top-level `token` field is dropped
   * and a nested `password` is redacted while its sibling `name` is kept.
   */
  lemma PublishedConfigBodyExample()
    ensures
      var input := [Entry("token", Scalar("abc")),
                    Entry("user", Arr([Entry("password", Scalar("x")), Entry("name", Scalar("bob"))]))];
      BodySanitized(Except(input, ExceptFields(Published)), SensitiveFields(Published))
        == [Entry("user", Arr([Entry("password", Scalar(REDACTED)), Entry("name", Scalar("bob"))]))]
  {
    var fields := DEFAULT_SENSITIVE_FIELDS;
    var user := [Entry("password", Scalar("x")), Entry("name", Scalar("bob"))];
    var kept := [Entry("user", Arr(user))];
    ExampleTopLevelTokenDropped(user);
    ExampleKeys();
    var redactedUser := [Entry("password", Scalar(REDACTED)), Entry("name", Scalar("bob"))];
    var expected := [Entry("user", Arr(redactedUser))];
    assert IsRedactionOf(redactedUser, user, fields) by {
      assert EntryRedactionOf(redactedUser[0], user[0], fields);
      assert EntryRedactionOf(redactedUser[1], user[1], fields);
    }
    assert IsRedactionOf(expected, kept, fields) by {
      assert EntryRedactionOf(expected[0], kept[0], fields);
    }
    RedactionIsUnique(BodySanitized(kept, fields), expected, kept, fields);
  }

  /**
   * The query string is copied into the record as it came: a `token`
   * parameter, although `token` is a configured sensitive field, reaches
   * the record unredacted in `query` and inside `url`.
   */
  lemma QueryTokenSurvives(appId: string, t: Throwable, req: Request, host: Host)
    requires req.query == [Entry("token", Scalar("abc"))]
    requires req.fullUrl == "https://shop.test/cart?token=abc"
    ensures "token" in SensitiveFields(Published)
    ensures var r := FormatException(appId, t, req, host, Published);
      && r.requestData.query == [Entry("token", Scalar("abc"))]
      && r.requestData.url == "https://shop.test/cart?token=abc"
  {
  }

  lemma ExampleKeys()
    ensures SensitiveKey("password", DEFAULT_SENSITIVE_FIELDS)
    ensures !SensitiveKey("name", DEFAULT_SENSITIVE_FIELDS)
  {
    var fields := DEFAULT_SENSITIVE_FIELDS;
    assert fields[0] == "password" && "password"[0..8] == "password";
    assert StrIPosFrom("password", fields[0], 0) == Some(0);
    forall j | 0 <= j < |fields|
      ensures StrIPos("name", fields[j]).None?
    {
      assert |fields[j]| > |"name"|;
    }
  }

  lemma ExampleTopLevelTokenDropped(user: seq<Entry>)
    ensures Except([Entry("token", Scalar("abc")), Entry("user", Arr(user))], DEFAULT_SENSITIVE_FIELDS)
      == [Entry("user", Arr(user))]
  {
    var input := [Entry("token", Scalar("abc")), Entry("user", Arr(user))];
    assert "token" == DEFAULT_SENSITIVE_FIELDS[2];
    assert "user" !in DEFAULT_SENSITIVE_FIELDS;
    assert input[1..] == [Entry("user", Arr(user))];
    assert input[1..][1..] == [];
    assert Except(input[1..][1..], DEFAULT_SENSITIVE_FIELDS) == [];
    assert Except(input[1..], DEFAULT_SENSITIVE_FIELDS) == [Entry("user", Arr(user))];
  }
}
