/**
 * PHP arrays as the tracker sees them: ordered dictionaries whose values are
 * null, a scalar, or another array. Keys are strings (an integer key is
 * represented by its decimal form, which is what `stripos` sees). A PHP
 * array never holds the same key twice; `DistinctKeys` states that.
 */
module PhpArrays {

  /** The marker that replaces a redacted value. */
  const REDACTED: string := "[REDACTED]"

  /**
   * A value held in a request array. `Scalar` stands for every non-array,
   * non-null value (string, number, boolean, uploaded-file object); its text
   * is opaque to the sanitisers.
   */
  datatype Value = Null | Scalar(text: string) | Arr(entries: seq<Entry>)

  datatype Entry = Entry(key: string, val: Value)

  /** The keys of an array, in order. */
  function Keys(es: seq<Entry>): (ks: seq<string>)
    ensures |ks| == |es|
    ensures forall i :: 0 <= i < |es| ==> ks[i] == es[i].key
  {
    seq(|es|, i requires 0 <= i < |es| => es[i].key)
  }

  predicate DistinctKeys(es: seq<Entry>) {
    forall i, j :: 0 <= i < j < |es| ==> es[i].key != es[j].key
  }

  /**
   * The position of `key` in `es`, or -1 when the key is absent: PHP's
   * `$array[$key]` lookup.
   */
  function Find(es: seq<Entry>, key: string): (r: int)
    ensures -1 <= r < |es|
    ensures r >= 0 ==> es[r].key == key
    ensures r >= 0 ==> forall j :: 0 <= j < r ==> es[j].key != key
    ensures r == -1 <==> key !in Keys(es)
  {
    if es == [] then -1
    else if es[0].key == key then 0
    else
      var t := Find(es[1..], key);
      assert Keys(es) == [es[0].key] + Keys(es[1..]);
      if t == -1 then -1 else t + 1
  }

  /** PHP's `isset($array[$key])`: the key is present and its value is not null. */
  predicate Isset(es: seq<Entry>, key: string): (b: bool)
    ensures b ==> exists i :: 0 <= i < |es| && es[i].key == key && es[i].val != Null
    ensures DistinctKeys(es) ==> (b <==> exists i :: 0 <= i < |es| && es[i].key == key && es[i].val != Null)
  {
    var i := Find(es, key);
    i >= 0 && es[i].val != Null
  }
}
