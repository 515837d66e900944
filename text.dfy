/**
 The few Kotlin string operations the thumbnail extractor relies on:
 `lastIndexOf`, `substringAfterLast`, `contains`, `startsWith`, `endsWith`
 and `removePrefix`, over strings as sequences of characters.
 */
module Text {

  /** `s` starts with `prefix`. */
  predicate StartsWith(s: string, prefix: string) {
    |prefix| <= |s| && s[..|prefix|] == prefix
  }

  /** `s` ends with `suffix`. */
  predicate EndsWith(s: string, suffix: string) {
    |suffix| <= |s| && s[|s| - |suffix|..] == suffix
  }

  /** `sub` occurs in `s` starting at position `k`. */
  ghost predicate OccursAt(s: string, sub: string, k: int) {
    0 <= k && k + |sub| <= |s| && s[k..k + |sub|] == sub
  }

  /** Index of the last `c` in `s`, or -1 when there is none. */
  function LastIndexOf(s: string, c: char): (i: int)
    ensures -1 <= i < |s|
    decreases |s|
  {
    if |s| == 0 then -1
    else if s[|s| - 1] == c then |s| - 1
    else LastIndexOf(s[..|s| - 1], c)
  }

  /** `LastIndexOf` finds a `c`, and no `c` comes after it (so -1 means `s` holds none). */
  lemma {:induction false} LastIndexOfIsLast(s: string, c: char)
    ensures 0 <= LastIndexOf(s, c) ==> s[LastIndexOf(s, c)] == c
    ensures forall j :: LastIndexOf(s, c) < j < |s| ==> s[j] != c
    decreases |s|
  {
    if |s| > 0 && s[|s| - 1] != c {
      LastIndexOfIsLast(s[..|s| - 1], c);
    }
  }

  /**
   The text after the last `c` in `s`; `missing` when `s` holds no `c`
   (Kotlin passes the whole string there unless told otherwise).
   */
  function SubstringAfterLast(s: string, c: char, missing: string): string {
    var i := LastIndexOf(s, c);
    if i < 0 then missing else s[i + 1..]
  }

  /**
   Without a `c` the result is `missing`; otherwise `s` is some prefix, then
   `c`, then the result, which holds no `c`.
   */
  lemma SubstringAfterLastSplits(s: string, c: char, missing: string)
    ensures c !in s ==> SubstringAfterLast(s, c, missing) == missing
    ensures c in s ==>
              var r := SubstringAfterLast(s, c, missing);
              c !in r && |r| < |s| && s == s[..|s| - |r| - 1] + [c] + r
  {
    LastIndexOfIsLast(s, c);
  }

  /** Whatever precedes the last `c`, the text after it is the part that holds no `c`. */
  lemma AfterLastOfJoin(p: string, c: char, r: string, missing: string)
    requires c !in r
    ensures SubstringAfterLast(p + [c] + r, c, missing) == r
  {
    var s := p + [c] + r;
    LastIndexOfIsLast(s, c);
    var i := LastIndexOf(s, c);
    assert s[|p|] == c;
    assert i == |p|;
    assert s[i + 1..] == r;
  }

  /** `s` with one leading `prefix` removed, if it starts with it. */
  function RemovePrefix(s: string, prefix: string): (r: string)
    ensures StartsWith(s, prefix) ==> prefix + r == s
    ensures !StartsWith(s, prefix) ==> r == s
  {
    if StartsWith(s, prefix) then s[|prefix|..] else s
  }

  /** Occurrences in `s[1..]` are the occurrences in `s` shifted by one. */
  lemma OccursShift(s: string, sub: string)
    requires |s| > 0
    ensures forall k {:trigger OccursAt(s[1..], sub, k)} :: OccursAt(s[1..], sub, k) ==> OccursAt(s, sub, k + 1)
    ensures forall k {:trigger OccursAt(s, sub, k)} :: 1 <= k && OccursAt(s, sub, k) ==> OccursAt(s[1..], sub, k - 1)
  {
    forall k | OccursAt(s[1..], sub, k) ensures OccursAt(s, sub, k + 1) {
      assert s[1..][k..k + |sub|] == s[k + 1..k + 1 + |sub|];
    }
    forall k | 1 <= k && OccursAt(s, sub, k) ensures OccursAt(s[1..], sub, k - 1) {
      assert s[1..][k - 1..k - 1 + |sub|] == s[k..k + |sub|];
    }
  }

  /** Kotlin's `CharSequence.contains`: `sub` occurs somewhere in `s`. */
  function Contains(s: string, sub: string): bool
    decreases |s|
  {
    if |sub| > |s| then false
    else if s[..|sub|] == sub then true
    else Contains(s[1..], sub)
  }

  /** `Contains` holds exactly when `sub` occurs at some position of `s`. */
  lemma {:induction false} ContainsIffOccurs(s: string, sub: string)
    ensures Contains(s, sub) <==> exists k :: OccursAt(s, sub, k)
    decreases |s|
  {
    if |sub| > |s| {
    } else if s[..|sub|] == sub {
      assert OccursAt(s, sub, 0);
    } else {
      OccursShift(s, sub);
      ContainsIffOccurs(s[1..], sub);
    }
  }
}
