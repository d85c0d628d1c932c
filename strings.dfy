/** Option type shared by the other modules. */
module Wrappers {

  datatype Option<+T> = None | Some(value: T)
}

/** The few operations of Go's `strings` package that the crawler relies on. */
module Strings {
  import opened Wrappers

  /** `pat` occurs in `s` starting at offset `k`. */
  predicate OccursAt(s: string, pat: string, k: int)
  {
    0 <= k && k + |pat| <= |s| && s[k..k + |pat|] == pat
  }

  predicate HasPrefix(s: string, prefix: string)
  {
    |prefix| <= |s| && s[..|prefix|] == prefix
  }

  predicate HasSuffix(s: string, suffix: string)
  {
    |suffix| <= |s| && s[|s| - |suffix|..] == suffix
  }

  /** strings.TrimPrefix: drop `prefix` once if `s` starts with it. */
  function TrimPrefix(s: string, prefix: string): (r: string)
    ensures HasPrefix(s, prefix) ==> s == prefix + r
    ensures !HasPrefix(s, prefix) ==> r == s
  {
    if HasPrefix(s, prefix) then s[|prefix|..] else s
  }

  /** The first offset at or after `from` where `pat` occurs, as strings.Index does from 0. */
  function IndexFrom(s: string, pat: string, from: nat): (r: Option<nat>)
    ensures r.Some? ==> from <= r.value && r.value + |pat| <= |s|
    decreases |s| - from
  {
    if from + |pat| > |s| then None
    else if s[from..from + |pat|] == pat then Some(from)
    else IndexFrom(s, pat, from + 1)
  }

  /**
   * IndexFrom finds the first occurrence at or after `from`, and reports
   * `None` only when there is none.
   */
  lemma {:induction false} IndexFromFirst(s: string, pat: string, from: nat)
    ensures var r := IndexFrom(s, pat, from);
      && (r.Some? ==> from <= r.value && OccursAt(s, pat, r.value))
      && (r.Some? ==> forall k :: from <= k < r.value ==> !OccursAt(s, pat, k))
      && (r.None? ==> forall k :: from <= k ==> !OccursAt(s, pat, k))
    decreases |s| - from
  {
    if from + |pat| <= |s| && s[from..from + |pat|] != pat {
      IndexFromFirst(s, pat, from + 1);
    }
  }

  /** strings.Replace(s, target, replacement, 1): replace the first occurrence of `target` only. */
  function ReplaceFirst(s: string, target: string, replacement: string): string
  {
    Splice(s, IndexFrom(s, target, 0), |target|, replacement)
  }

  /** `s` with the `n` characters at `at` replaced, or `s` itself when there is nothing to replace. */
  function Splice(s: string, at: Option<nat>, n: nat, replacement: string): string
    requires at.Some? ==> at.value + n <= |s|
  {
    match at
    case None => s
    case Some(i) => s[..i] + replacement + s[i + n..]
  }

  /**
   * Without an occurrence the string is unchanged; otherwise exactly the first
   * occurrence is replaced.
   */
  lemma ReplaceFirstSpec(s: string, target: string, replacement: string)
    ensures (forall k :: !OccursAt(s, target, k)) ==> ReplaceFirst(s, target, replacement) == s
    ensures forall i :: OccursAt(s, target, i) && (forall k :: 0 <= k < i ==> !OccursAt(s, target, k)) ==>
              ReplaceFirst(s, target, replacement) == s[..i] + replacement + s[i + |target|..]
  {
    IndexFromFirst(s, target, 0);
  }

  /** A string that starts with the target has its leading occurrence replaced. */
  lemma ReplaceAtStart(target: string, rest: string, replacement: string)
    ensures ReplaceFirst(target + rest, target, replacement) == replacement + rest
  {
    var u := target + rest;
    assert u[0..|target|] == target;
    assert IndexFrom(u, target, 0) == Some(0);
    assert u[..0] == [] && u[|target|..] == rest;
  }

  /** Searching `p + rest` from inside `rest` finds what searching `rest` finds, shifted by `|p|`. */
  lemma {:induction false} IndexFromOffset(p: string, rest: string, pat: string, j: nat)
    ensures IndexFrom(rest, pat, j).None? ==> IndexFrom(p + rest, pat, |p| + j).None?
    ensures IndexFrom(rest, pat, j).Some? ==> IndexFrom(p + rest, pat, |p| + j) == Some(|p| + IndexFrom(rest, pat, j).value)
    decreases |rest| - j
  {
    if j + |pat| <= |rest| {
      assert (p + rest)[|p| + j..|p| + j + |pat|] == rest[j..j + |pat|];
      IndexFromOffset(p, rest, pat, j + 1);
    }
  }

  /** When no occurrence starts inside `p`, the search of `p + rest` skips over `p`. */
  lemma {:induction false} IndexFromSkip(p: string, rest: string, pat: string, from: nat)
    requires from <= |p|
    requires forall k :: from <= k < |p| ==> !OccursAt(p + rest, pat, k)
    ensures IndexFrom(p + rest, pat, from) == IndexFrom(p + rest, pat, |p|)
    decreases |p| - from
  {
    if from < |p| {
      assert !OccursAt(p + rest, pat, from);
      IndexFromSkip(p, rest, pat, from + 1);
    }
  }

  /** When no occurrence of `target` starts inside `p`, the replacement happens in `rest` alone. */
  lemma ReplaceAfterPrefix(p: string, rest: string, target: string, replacement: string)
    requires forall k :: 0 <= k < |p| ==> !OccursAt(p + rest, target, k)
    ensures ReplaceFirst(p + rest, target, replacement) == p + ReplaceFirst(rest, target, replacement)
  {
    IndexFromSkip(p, rest, target, 0);
    IndexFromOffset(p, rest, target, 0);
    assert |p| + 0 == |p|;
    ReplaceFoundAt(p, rest, target, replacement);
  }

  /** The replacement in `p + rest` lines up with the one in `rest` when the searches agree up to the shift. */
  lemma ReplaceFoundAt(p: string, rest: string, target: string, replacement: string)
    requires IndexFrom(rest, target, 0).None? ==> IndexFrom(p + rest, target, 0).None?
    requires IndexFrom(rest, target, 0).Some? ==> IndexFrom(p + rest, target, 0) == Some(|p| + IndexFrom(rest, target, 0).value)
    ensures ReplaceFirst(p + rest, target, replacement) == p + ReplaceFirst(rest, target, replacement)
  {
    SpliceAfterPrefix(p, rest, IndexFrom(rest, target, 0), IndexFrom(p + rest, target, 0), |target|, replacement);
  }

  lemma SpliceAfterPrefix(p: string, rest: string, at: Option<nat>, shifted: Option<nat>, n: nat, replacement: string)
    requires at.Some? ==> at.value + n <= |rest|
    requires at.None? ==> shifted.None?
    requires at.Some? ==> shifted == Some(|p| + at.value)
    ensures Splice(p + rest, shifted, n, replacement) == p + Splice(rest, at, n, replacement)
  {
    if at.Some? {
      var x := at.value;
      assert (p + rest)[..|p| + x] == p + rest[..x];
      assert (p + rest)[|p| + x + n..] == rest[x + n..];
    }
  }

  /** The last offset of character `c` in `s`, as strings.LastIndexByte does. */
  function LastIndexOf(s: string, c: char): (r: Option<nat>)
    ensures r.Some? ==> r.value < |s| && s[r.value] == c && c !in s[r.value + 1..]
    ensures r.None? ==> c !in s
  {
    if |s| == 0 then None
    else if s[|s| - 1] == c then Some(|s| - 1)
    else
      var r := LastIndexOf(s[..|s| - 1], c);
      assert s == s[..|s| - 1] + [s[|s| - 1]];
      r
  }
}
