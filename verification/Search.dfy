/** Options, and the binary-safe substring search the template engine is built on. */
module Search {

  datatype Option<+T> = None | Some(value: T)

  /** pat is found in s at index i. */
  predicate OccursAt(s: string, i: nat, pat: string) {
    i + |pat| <= |s| && s[i..i + |pat|] == pat
  }

  predicate Occurs(s: string, pat: string) {
    exists i: nat | i <= |s| :: OccursAt(s, i, pat)
  }

  predicate StartsWith(s: string, pat: string) {
    |pat| <= |s| && s[..|pat|] == pat
  }

  predicate EndsWith(s: string, pat: string) {
    |pat| <= |s| && s[|s| - |pat|..] == pat
  }

  /** The first occurrence of pat at or after index from, if there is one. */
  function FirstAt(s: string, pat: string, from: nat): Option<nat>
    decreases |s| - from
  {
    if |s| < from + |pat| then None
    else if OccursAt(s, from, pat) then Some(from)
    else FirstAt(s, pat, from + 1)
  }

  /** No occurrence of pat starts in from..to. */
  predicate Free(s: string, pat: string, from: nat, to: nat) {
    forall i: nat | from <= i < to :: !OccursAt(s, i, pat)
  }

  lemma {:induction false} FirstAtSpec(s: string, pat: string, from: nat)
    ensures match FirstAt(s, pat, from)
      case None => Free(s, pat, from, |s| + 1)
      case Some(k) => from <= k && OccursAt(s, k, pat) && Free(s, pat, from, k)
    decreases |s| - from
  {
    if from + |pat| <= |s| && !OccursAt(s, from, pat) {
      FirstAtSpec(s, pat, from + 1);
    }
  }

  /** Being the first occurrence determines the index. */
  lemma FirstAtUnique(s: string, pat: string, from: nat, k: nat)
    requires from <= k && OccursAt(s, k, pat) && Free(s, pat, from, k)
    ensures FirstAt(s, pat, from) == Some(k)
  {
    FirstAtSpec(s, pat, from);
  }

  lemma FirstAtNone(s: string, pat: string, from: nat)
    requires Free(s, pat, from, |s| + 1)
    ensures FirstAt(s, pat, from) == None
  {
    FirstAtSpec(s, pat, from);
  }

  lemma OccursByIndex(s: string, i: nat, pat: string)
    requires i + |pat| <= |s| && forall k | 0 <= k < |pat| :: s[i + k] == pat[k]
    ensures OccursAt(s, i, pat)
  {
  }

  lemma CharsAt(s: string, i: nat, pat: string, k: nat)
    requires i + |pat| <= |s| && k < |pat|
    ensures OccursAt(s, i, pat) ==> s[i + k] == pat[k]
  {
    assert s[i..i + |pat|][k] == s[i + k];
  }

  /** The search loop: scan start positions upward, comparing the first byte
      before the rest, until the needle no longer fits. */
  method StrStr(s: string, lo: nat, hi: nat, needle: string) returns (r: Option<nat>)
    requires lo <= hi <= |s| && needle != ""
    ensures r == FirstAt(s[..hi], needle, lo)
  {
    if hi - lo < |needle| {
      return None;
    }
    ghost var t := s[..hi];
    var p := lo;
    var tooFar := hi - |needle| + 1;
    while p != tooFar
      invariant lo <= p <= tooFar
      invariant Free(t, needle, lo, p)
      decreases tooFar - p
    {
      if s[p] == needle[0] {
        var i := 1;
        while i != |needle| && s[p + i] == needle[i]
          invariant 1 <= i <= |needle|
          invariant forall k | 0 <= k < i :: t[p + k] == needle[k]
          decreases |needle| - i
        {
          i := i + 1;
        }
        if i == |needle| {
          OccursByIndex(t, p, needle);
          FirstAtUnique(t, needle, lo, p);
          return Some(p);
        }
        CharsAt(t, p, needle, i);
      } else {
        CharsAt(t, p, needle, 0);
      }
      p := p + 1;
    }
    FirstAtNone(t, needle, lo);
    r := None;
  }
}
