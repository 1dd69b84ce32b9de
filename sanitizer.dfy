/**
 * The request sanitisers of ErrorTracker: `sanitizeHeaders`, which redacts
 * the configured header names, and `sanitizeBody`, which recursively redacts
 * every non-array value whose key contains a sensitive name.
 *
 * Each source loop is a method proved equal to a specification function; the
 * functions carry the properties and are what the record builder uses.
 */
module Sanitizer {
  import opened Wrappers
  import opened Text
  import opened PhpArrays

  // ---------------------------------------------------------------------------
  // Headers
  // ---------------------------------------------------------------------------

  /** One header entry after redaction by the names in `names`. */
  function HeaderSanitized(e: Entry, names: seq<string>): (r: Entry)
    ensures r.key == e.key
    ensures e.key in names && e.val != Null ==> r.val == Scalar(REDACTED)
    ensures e.key !in names || e.val == Null ==> r == e
  {
    if e.key in names && e.val != Null then Entry(e.key, Scalar(REDACTED)) else e
  }

  /**
   * The headers after `sanitizeHeaders`: same keys in the same order; an
   * entry whose key is exactly a configured name and whose value is not null
   * holds the redaction marker; every other entry is unchanged. Lookup is by
   * exact key, so a name in different case does not match.
   */
  function HeadersSanitized(headers: seq<Entry>, names: seq<string>): (r: seq<Entry>)
    ensures Keys(r) == Keys(headers)
    ensures forall i :: 0 <= i < |headers| && headers[i].key in names && headers[i].val != Null ==>
      r[i].val == Scalar(REDACTED)
    ensures forall i :: 0 <= i < |headers| && (headers[i].key !in names || headers[i].val == Null) ==>
      r[i] == headers[i]
  {
    seq(|headers|, i requires 0 <= i < |headers| => HeaderSanitized(headers[i], names))
  }

  /**
   * `sanitizeHeaders`: for each configured name in turn, when the header array
   * has that key with a non-null value (`isset`), overwrite the value with
   * the redaction marker.
   */
  method SanitizeHeaders(headers: seq<Entry>, names: seq<string>) returns (r: seq<Entry>)
    requires DistinctKeys(headers)
    ensures r == HeadersSanitized(headers, names)
  {
    r := headers;
    for n := 0 to |names|
      invariant |r| == |headers|
      invariant forall j :: 0 <= j < |headers| ==> r[j] == HeaderSanitized(headers[j], names[..n])
    {
      var header := names[n];
      if Isset(r, header) {
        var i := Find(r, header);
        r := r[i := Entry(header, Scalar(REDACTED))];
      }
      assert names[..n + 1] == names[..n] + [header];
    }
    assert names[..|names|] == names;
  }

  /** Sanitising already-sanitised headers changes nothing. */
  lemma HeadersSanitizedIdempotent(headers: seq<Entry>, names: seq<string>)
    ensures HeadersSanitized(HeadersSanitized(headers, names), names) == HeadersSanitized(headers, names)
  {
    var once := HeadersSanitized(headers, names);
    var twice := HeadersSanitized(once, names);
    forall i | 0 <= i < |headers|
      ensures twice[i] == once[i]
    {
      assert Keys(once)[i] == Keys(headers)[i];
    }
  }

  // ---------------------------------------------------------------------------
  // Body
  // ---------------------------------------------------------------------------

  /**
   * A key is sensitive when `stripos($key, $field) !== false` for some
   * configured field: it contains that field, ignoring case.
   */
  predicate SensitiveKey(key: string, fields: seq<string>): (b: bool)
    ensures b <==> exists j: nat, i: nat :: j < |fields| && MatchesAt(key, fields[j], i)
  {
    exists j :: 0 <= j < |fields| && StrIPos(key, fields[j]).Some?
  }

  /**
   * `r` is what redacting `body` must give: the same keys in the same order;
   * an array value is redacted recursively, never replaced; any other value
   * is the redaction marker when its key is sensitive and unchanged otherwise.
   */
  ghost predicate IsRedactionOf(r: seq<Entry>, body: seq<Entry>, fields: seq<string>)
    decreases body
  {
    |r| == |body| && forall i :: 0 <= i < |body| ==> EntryRedactionOf(r[i], body[i], fields)
  }

  ghost predicate EntryRedactionOf(r: Entry, e: Entry, fields: seq<string>)
    decreases e
  {
    && r.key == e.key
    && match e.val
       case Arr(es) => r.val.Arr? && IsRedactionOf(r.val.entries, es, fields)
       case _ => r.val == if SensitiveKey(e.key, fields) then Scalar(REDACTED) else e.val
  }

  /** No non-array value under a sensitive key, at any depth, is left unredacted. */
  ghost predicate Clean(body: seq<Entry>, fields: seq<string>)
    decreases body
  {
    forall i :: 0 <= i < |body| ==> EntryClean(body[i], fields)
  }

  ghost predicate EntryClean(e: Entry, fields: seq<string>)
    decreases e
  {
    match e.val
    case Arr(es) => Clean(es, fields)
    case _ => SensitiveKey(e.key, fields) ==> e.val == Scalar(REDACTED)
  }

  /** The body after `sanitizeBody`. */
  function BodySanitized(body: seq<Entry>, fields: seq<string>): (r: seq<Entry>)
    ensures IsRedactionOf(r, body, fields)
    decreases body
  {
    if body == [] then []
    else
      var r := [EntrySanitized(body[0], fields)] + BodySanitized(body[1..], fields);
      assert forall i :: 1 <= i < |body| ==> body[i] == body[1..][i - 1];
      r
  }

  /** One entry after `sanitizeBody`. */
  function EntrySanitized(e: Entry, fields: seq<string>): (r: Entry)
    ensures EntryRedactionOf(r, e, fields)
    decreases e
  {
    if e.val.Arr? then Entry(e.key, Arr(BodySanitized(e.val.entries, fields)))
    else if SensitiveKey(e.key, fields) then Entry(e.key, Scalar(REDACTED))
    else e
  }

  /**
   * `sanitizeBody`: a loop over the entries; an array value is replaced by
   * its recursively sanitised copy, any other value by the marker as soon as
   * one configured field occurs in its key.
   */
  method SanitizeBody(body: seq<Entry>, fields: seq<string>) returns (r: seq<Entry>)
    ensures r == BodySanitized(body, fields)
    decreases body
  {
    r := body;
    for i := 0 to |body|
      invariant |r| == |body|
      invariant forall j :: 0 <= j < i ==> r[j] == EntrySanitized(body[j], fields)
      invariant forall j :: i <= j < |body| ==> r[j] == body[j]
    {
      var e := body[i];
      if e.val.Arr? {
        var inner := SanitizeBody(e.val.entries, fields);
        r := r[i := Entry(e.key, Arr(inner))];
      } else {
        for k := 0 to |fields|
          invariant forall j :: 0 <= j < k ==> StrIPos(e.key, fields[j]).None?
        {
          if StrIPos(e.key, fields[k]).Some? {
            r := r[i := Entry(e.key, Scalar(REDACTED))];
            break;
          }
        }
      }
    }
    RedactionIsUnique(r, BodySanitized(body, fields), body, fields);
  }

  /** A redaction is determined by the body and the fields. */
  lemma {:induction false} RedactionIsUnique(r1: seq<Entry>, r2: seq<Entry>, body: seq<Entry>, fields: seq<string>)
    requires IsRedactionOf(r1, body, fields) && IsRedactionOf(r2, body, fields)
    ensures r1 == r2
    decreases body
  {
    forall i | 0 <= i < |body|
      ensures r1[i] == r2[i]
    {
      EntryRedactionIsUnique(r1[i], r2[i], body[i], fields);
    }
  }

  lemma {:induction false} EntryRedactionIsUnique(r1: Entry, r2: Entry, e: Entry, fields: seq<string>)
    requires EntryRedactionOf(r1, e, fields) && EntryRedactionOf(r2, e, fields)
    ensures r1 == r2
    decreases e
  {
    if e.val.Arr? {
      RedactionIsUnique(r1.val.entries, r2.val.entries, e.val.entries, fields);
    }
  }

  /** A redacted body is clean: no sensitive value survives at any depth. */
  lemma {:induction false} RedactionIsClean(r: seq<Entry>, body: seq<Entry>, fields: seq<string>)
    requires IsRedactionOf(r, body, fields)
    ensures Clean(r, fields)
    decreases body
  {
    forall i | 0 <= i < |body|
      ensures EntryClean(r[i], fields)
    {
      EntryRedactionIsClean(r[i], body[i], fields);
    }
  }

  lemma {:induction false} EntryRedactionIsClean(r: Entry, e: Entry, fields: seq<string>)
    requires EntryRedactionOf(r, e, fields)
    ensures EntryClean(r, fields)
    decreases e
  {
    if e.val.Arr? {
      RedactionIsClean(r.val.entries, e.val.entries, fields);
    }
  }

  /** Redacting a redacted body gives the same body back. */
  lemma {:induction false} RedactionIsFixed(r: seq<Entry>, body: seq<Entry>, fields: seq<string>)
    requires IsRedactionOf(r, body, fields)
    ensures IsRedactionOf(r, r, fields)
    decreases body
  {
    forall i | 0 <= i < |body|
      ensures EntryRedactionOf(r[i], r[i], fields)
    {
      EntryRedactionIsFixed(r[i], body[i], fields);
    }
  }

  lemma {:induction false} EntryRedactionIsFixed(r: Entry, e: Entry, fields: seq<string>)
    requires EntryRedactionOf(r, e, fields)
    ensures EntryRedactionOf(r, r, fields)
    decreases e
  {
    if e.val.Arr? {
      RedactionIsFixed(r.val.entries, e.val.entries, fields);
    }
  }

  /** `sanitizeBody` leaves no sensitive value unredacted, at any depth. */
  lemma BodySanitizedIsClean(body: seq<Entry>, fields: seq<string>)
    ensures Clean(BodySanitized(body, fields), fields)
  {
    RedactionIsClean(BodySanitized(body, fields), body, fields);
  }

  /** `sanitizeBody` is idempotent. */
  lemma BodySanitizedIdempotent(body: seq<Entry>, fields: seq<string>)
    ensures BodySanitized(BodySanitized(body, fields), fields) == BodySanitized(body, fields)
  {
    var once := BodySanitized(body, fields);
    RedactionIsFixed(once, body, fields);
    RedactionIsUnique(BodySanitized(once, fields), once, once, fields);
  }
}
