/**
 * The PHP string built-ins the tracker relies on: `stripos`, `str_starts_with`,
 * `rtrim` with a character list of one character, and `str_replace`.
 * Strings are sequences of characters; case folding is ASCII-only, as in
 * `stripos` since PHP 8.2.
 */
module Text {
  import opened Wrappers

  /**
   * ASCII lower-casing of one character: an upper-case letter becomes the
   * lower-case letter at the same place in the alphabet, and nothing else
   * changes.
   */
  function LowerChar(c: char): (r: char)
    ensures !('A' <= r <= 'Z')
    ensures 'A' <= c <= 'Z' ==> 'a' <= r <= 'z' && r as int - 'a' as int == c as int - 'A' as int
    ensures !('A' <= c <= 'Z') ==> r == c
  {
    if 'A' <= c <= 'Z' then (c as int + 32) as char else c
  }

  /** ASCII lower-casing of a string, character by character. */
  function Lower(s: string): (r: string)
    ensures |r| == |s|
  {
    if s == [] then [] else [LowerChar(s[0])] + Lower(s[1..])
  }

  /** Lower-casing a string lower-cases each of its characters in place. */
  lemma {:induction false} LowerPointwise(s: string)
    ensures forall k :: 0 <= k < |s| ==> Lower(s)[k] == LowerChar(s[k])
  {
    if s != [] {
      LowerPointwise(s[1..]);
      assert Lower(s) == [LowerChar(s[0])] + Lower(s[1..]);
    }
  }

  /** Two strings of one length whose characters lower-case alike lower-case alike. */
  lemma LowerAgrees(a: string, b: string)
    requires |a| == |b|
    requires forall k :: 0 <= k < |a| ==> LowerChar(a[k]) == LowerChar(b[k])
    ensures Lower(a) == Lower(b)
  {
    LowerPointwise(a);
    LowerPointwise(b);
  }

  /** `needle` occurs in `hay` at position `i`, ignoring ASCII case. */
  predicate MatchesAt(hay: string, needle: string, i: nat) {
    i + |needle| <= |hay| && Lower(hay[i..i + |needle|]) == Lower(needle)
  }

  /** `needle` occurs in `hay` at position `i`, exactly. */
  predicate OccursAt(hay: string, needle: string, i: nat) {
    i + |needle| <= |hay| && hay[i..i + |needle|] == needle
  }

  /** `needle` occurs somewhere in `hay`, exactly. */
  predicate Contains(hay: string, needle: string) {
    exists i: nat | i <= |hay| :: OccursAt(hay, needle, i)
  }

  /**
   * `stripos(hay, needle)`: the first position at which `needle` occurs in
   * `hay` ignoring case, or None for PHP's `false`. An empty needle is found
   * at position 0, as in PHP 8.
   */
  function StrIPos(hay: string, needle: string): (r: Option<nat>)
    ensures r.Some? ==> MatchesAt(hay, needle, r.value)
    ensures r.Some? ==> forall j: nat :: j < r.value ==> !MatchesAt(hay, needle, j)
    ensures r.None? ==> forall j: nat :: !MatchesAt(hay, needle, j)
  {
    StrIPosFrom(hay, needle, 0)
  }

  function StrIPosFrom(hay: string, needle: string, from: nat): (r: Option<nat>)
    requires from <= |hay|
    ensures r.Some? ==> from <= r.value && MatchesAt(hay, needle, r.value)
    ensures r.Some? ==> forall j: nat :: from <= j < r.value ==> !MatchesAt(hay, needle, j)
    ensures r.None? ==> forall j: nat :: from <= j ==> !MatchesAt(hay, needle, j)
    decreases |hay| - from
  {
    if from + |needle| > |hay| then None
    else if Lower(hay[from..from + |needle|]) == Lower(needle) then Some(from)
    else StrIPosFrom(hay, needle, from + 1)
  }

  /** `str_starts_with(s, prefix)`: `s` is `prefix` followed by something. */
  predicate StartsWith(s: string, prefix: string): (b: bool)
    ensures b ==> |prefix| <= |s| && s == prefix + s[|prefix|..]
    ensures !b ==> forall t :: s != prefix + t
  {
    |prefix| <= |s| && s[..|prefix|] == prefix
  }

  /**
   * `rtrim(s, c)` for a single character `c`: every trailing `c` is removed,
   * and nothing else.
   */
  function RTrim(s: string, c: char): (r: string)
    ensures |r| <= |s| && r == s[..|r|]
    ensures r == [] || r[|r| - 1] != c
    ensures forall i :: |r| <= i < |s| ==> s[i] == c
  {
    if s != [] && s[|s| - 1] == c then RTrim(s[..|s| - 1], c) else s
  }

  /**
   * `str_replace(search, replace, s)` for one search string: a single
   * left-to-right scan that replaces every non-overlapping occurrence. An
   * empty search string leaves `s` unchanged.
   */
  function ReplaceAll(s: string, search: string, replace: string): (r: string)
    ensures |search| == |replace| ==> |r| == |s|
    ensures |search| <= |replace| ==> |s| <= |r|
    decreases |s|
  {
    if search == [] || |s| < |search| then s
    else if s[..|search|] == search then replace + ReplaceAll(s[|search|..], search, replace)
    else [s[0]] + ReplaceAll(s[1..], search, replace)
  }

  /** A string in which `search` does not occur comes back unchanged. */
  lemma {:induction false} ReplaceAllWithoutOccurrence(s: string, search: string, replace: string)
    requires !Contains(s, search)
    ensures ReplaceAll(s, search, replace) == s
    decreases |s|
  {
    if search != [] && |s| >= |search| {
      assert !OccursAt(s, search, 0);
      TailOccurrence(s, search);
      ReplaceAllWithoutOccurrence(s[1..], search, replace);
    }
  }

  /**
   * The scan replaces the first occurrence: when `search` first occurs in `s`
   * at `k`, the text before it is kept, the occurrence becomes `replace`,
   * and the scan resumes after it.
   */
  lemma ReplaceAllFirstOccurrence(s: string, search: string, replace: string, k: nat)
    requires search != [] && OccursAt(s, search, k)
    requires forall i: nat :: i < k ==> !OccursAt(s, search, i)
    ensures ReplaceAll(s, search, replace) == s[..k] + replace + ReplaceAll(s[k + |search|..], search, replace)
  {
    var before, after := s[..k], ReplaceAll(s[k + |search|..], search, replace);
    var middle := ReplaceAll(s[k..], search, replace);
    assert middle == replace + after by {
      ReplaceAllHitAt(s, search, replace, k);
    }
    assert ReplaceAll(s, search, replace) == before + middle by {
      ReplaceAllKeepsPrefix(s, search, replace, k);
    }
    assert before + (replace + after) == before + replace + after;
  }

  /** An occurrence at `k` becomes `replace`, and the scan goes on after it. */
  lemma ReplaceAllHitAt(s: string, search: string, replace: string, k: nat)
    requires search != [] && OccursAt(s, search, k)
    ensures ReplaceAll(s[k..], search, replace) == replace + ReplaceAll(s[k + |search|..], search, replace)
  {
    var u := s[k..];
    assert u[..|search|] == s[k..k + |search|];
    assert u[|search|..] == s[k + |search|..];
  }

  /** Text before the first occurrence is kept as it is. */
  lemma {:induction false} ReplaceAllKeepsPrefix(s: string, search: string, replace: string, k: nat)
    requires search != [] && k <= |s|
    requires forall i: nat :: i < k ==> !OccursAt(s, search, i)
    ensures ReplaceAll(s, search, replace) == s[..k] + ReplaceAll(s[k..], search, replace)
    decreases k
  {
    if k > 0 {
      if |s| < |search| {
        assert s == s[..k] + s[k..];
      } else {
        var t := s[1..];
        var rest := ReplaceAll(s[k..], search, replace);
        assert ReplaceAll(s, search, replace) == [s[0]] + ReplaceAll(t, search, replace) by {
          assert !OccursAt(s, search, 0);
          ReplaceAllSkip(s, search, replace);
        }
        assert ReplaceAll(t, search, replace) == t[..k - 1] + rest by {
          NoneBeforeInTail(s, search, k);
          ReplaceAllKeepsPrefix(t, search, replace, k - 1);
          assert t[k - 1..] == s[k..];
        }
        ConsSlice(s, k, rest);
      }
    }
  }

  /** Putting the first character back in front of a prefix of the tail. */
  lemma ConsSlice(s: string, k: nat, rest: string)
    requires 0 < k <= |s|
    ensures [s[0]] + (s[1..][..k - 1] + rest) == s[..k] + rest
  {
    assert [s[0]] + s[1..][..k - 1] == s[..k];
  }

  /** A first character that starts no occurrence is kept, and the scan goes on after it. */
  lemma ReplaceAllSkip(s: string, search: string, replace: string)
    requires search != [] && |search| <= |s| && !OccursAt(s, search, 0)
    ensures ReplaceAll(s, search, replace) == [s[0]] + ReplaceAll(s[1..], search, replace)
  {
  }

  /** No occurrence before `k` in `s` means none before `k - 1` in its tail. */
  lemma NoneBeforeInTail(s: string, search: string, k: nat)
    requires s != [] && 0 < k
    requires forall i: nat :: i < k ==> !OccursAt(s, search, i)
    ensures forall i: nat :: i < k - 1 ==> !OccursAt(s[1..], search, i)
  {
    forall i: nat | i < k - 1
      ensures !OccursAt(s[1..], search, i)
    {
      NoneInTail(s, search, i);
    }
  }

  /** No occurrence at `i + 1` in `s` means none at `i` in its tail. */
  lemma NoneInTail(s: string, search: string, i: nat)
    requires s != [] && !OccursAt(s, search, i + 1)
    ensures !OccursAt(s[1..], search, i)
  {
    if OccursAt(s[1..], search, i) {
      TailOccurrenceAt(s, search, i);
    }
  }

  /** An occurrence at `i` in the tail of `s` is one at `i + 1` in `s`. */
  lemma TailOccurrenceAt(s: string, search: string, i: nat)
    requires s != [] && OccursAt(s[1..], search, i)
    ensures OccursAt(s, search, i + 1)
  {
    assert s[i + 1..i + 1 + |search|] == s[1..][i..i + |search|];
  }

  /** An occurrence in the tail of `s` is an occurrence in `s`. */
  lemma TailOccurrence(s: string, search: string)
    requires s != []
    ensures Contains(s[1..], search) ==> Contains(s, search)
  {
    if Contains(s[1..], search) {
      var i: nat :| i <= |s[1..]| && OccursAt(s[1..], search, i);
      assert i + 1 + |search| <= |s|;
      assert s[i + 1..i + 1 + |search|] == s[1..][i..i + |search|];
      assert OccursAt(s, search, i + 1);
    }
  }
}
