/**
 * The part of Go's `strings` package the gateway and the state observer use:
 * `strings.Index` and `strings.Split` with a non-empty separator.
 */
module Strings {
  import opened Wrappers

  /** `sep` occurs in `s` starting at position `i`. */
  predicate OccursAt(s: string, sep: string, i: nat) {
    i + |sep| <= |s| && s[i..i + |sep|] == sep
  }

  /** `s` holds no occurrence of `sep` anywhere. */
  predicate Free(s: string, sep: string) {
    forall i: nat :: i <= |s| ==> !OccursAt(s, sep, i)
  }

  /** The first position at or after `from` where `sep` occurs in `s`. */
  function IndexFrom(s: string, sep: string, from: nat): (r: Option<nat>)
    ensures r.Some? ==> from <= r.value && OccursAt(s, sep, r.value)
    ensures r.Some? ==> forall k: nat :: from <= k < r.value ==> !OccursAt(s, sep, k)
    ensures r.None? ==> forall k: nat :: from <= k ==> !OccursAt(s, sep, k)
    decreases |s| - from
  {
    if from + |sep| > |s| then None
    else if OccursAt(s, sep, from) then Some(from)
    else IndexFrom(s, sep, from + 1)
  }

  /** Go's `strings.Index`: the first occurrence of `sep` in `s`, if any. */
  function Index(s: string, sep: string): (r: Option<nat>)
    ensures r.Some? ==> OccursAt(s, sep, r.value)
    ensures r.Some? ==> forall k: nat :: k < r.value ==> !OccursAt(s, sep, k)
    ensures r.None? <==> Free(s, sep)
  {
    IndexFrom(s, sep, 0)
  }

  /** The text before the first occurrence of a separator holds no occurrence of it. */
  lemma PrefixBeforeFirstIsFree(s: string, sep: string, i: nat)
    requires sep != ""
    requires i <= |s|
    requires forall k: nat :: k < i ==> !OccursAt(s, sep, k)
    ensures Free(s[..i], sep)
  {
    forall k: nat | OccursAt(s[..i], sep, k)
      ensures false
    {
      assert s[..i][k..k + |sep|] == s[k..k + |sep|];
      assert OccursAt(s, sep, k);
    }
  }

  /** Rejoins `parts` with `sep` between consecutive parts (Go's `strings.Join`). */
  function JoinWith(parts: seq<string>, sep: string): string
    requires |parts| >= 1
  {
    if |parts| == 1 then parts[0] else parts[0] + sep + JoinWith(parts[1..], sep)
  }

  /**
   * Go's `strings.Split` for a non-empty separator: the pieces between the
   * leftmost non-overlapping occurrences of `sep`. Joining the pieces back
   * gives `s`, and no piece contains `sep`.
   */
  function Split(s: string, sep: string): (parts: seq<string>)
    requires sep != ""
    ensures |parts| >= 1
    ensures JoinWith(parts, sep) == s
    ensures forall j :: 0 <= j < |parts| ==> Free(parts[j], sep)
    decreases |s|
  {
    match Index(s, sep)
    case None => [s]
    case Some(i) =>
      PrefixBeforeFirstIsFree(s, sep, i);
      var rest := Split(s[i + |sep|..], sep);
      assert s[..i] + sep + s[i + |sep|..] == s by {
        assert s == s[..i] + s[i..i + |sep|] + s[i + |sep|..];
      }
      assert ([s[..i]] + rest)[1..] == rest;
      [s[..i]] + rest
  }

  /** A string without the separator splits into itself alone. */
  lemma SplitFree(s: string, sep: string)
    requires sep != ""
    requires Free(s, sep)
    ensures Split(s, sep) == [s]
  {
  }

  /**
   * With a one-character separator, a separator-free head followed by the
   * separator splits off as the first piece.
   */
  lemma SplitSingleChar(a: string, sep: string, b: string)
    requires |sep| == 1
    requires Free(a, sep)
    ensures Split(a + sep + b, sep) == [a] + Split(b, sep)
  {
    var s := a + sep + b;
    assert s[|a|..|a| + 1] == sep;
    assert OccursAt(s, sep, |a|);
    forall k: nat | k < |a|
      ensures !OccursAt(s, sep, k)
    {
      assert s[k..k + 1] == a[k..k + 1];
      assert !OccursAt(a, sep, k);
    }
    assert Index(s, sep) == Some(|a|);
    assert s[..|a|] == a;
    assert s[|a| + 1..] == b;
  }

  /** Two strings without a one-character separator stay without it when concatenated. */
  lemma FreeConcat(a: string, b: string, sep: string)
    requires |sep| == 1
    requires Free(a, sep) && Free(b, sep)
    ensures Free(a + b, sep)
  {
    var s := a + b;
    forall i: nat | i <= |s|
      ensures !OccursAt(s, sep, i)
    {
      if i < |a| {
        assert s[i..i + 1] == a[i..i + 1];
        assert !OccursAt(a, sep, i);
      } else if i < |s| {
        assert s[i..i + 1] == b[i - |a|..i - |a| + 1];
        assert !OccursAt(b, sep, i - |a|);
      }
    }
  }

  /** The first piece of a split is the text up to the first separator, or all of `s`. */
  lemma SplitHead(s: string, sep: string)
    requires sep != ""
    ensures Index(s, sep).None? ==> Split(s, sep)[0] == s
    ensures Index(s, sep).Some? ==> Split(s, sep)[0] == s[..Index(s, sep).value]
  {
  }
}
