/** String helpers shared by the whole model: JavaScript's `String.prototype.indexOf`
    and the substring tests built on it. */
module Strings {

  /** `m` occurs in `s` starting at index `j`. */
  predicate OccursAt(s: string, m: string, j: nat) {
    j + |m| <= |s| && s[j..j + |m|] == m
  }

  /** `m` occurs somewhere in `s`. */
  ghost predicate Occurs(s: string, m: string) {
    exists j: nat :: OccursAt(s, m, j)
  }

  /** The first index at or after `k` where `m` occurs in `s`, or -1. */
  function IndexFrom(s: string, m: string, k: nat): (r: int)
    requires k <= |s|
    ensures r == -1 || (k <= r && OccursAt(s, m, r))
    decreases |s| - k
  {
    if k + |m| > |s| then -1
    else if s[k..k + |m|] == m then k
    else IndexFrom(s, m, k + 1)
  }

  /** The index found from `k` is the first occurrence at or after `k`, and -1 means there
      is none. */
  lemma {:induction false} IndexFromFirst(s: string, m: string, k: nat)
    requires k <= |s|
    ensures IndexFrom(s, m, k) == -1 <==> forall j: nat :: k <= j ==> !OccursAt(s, m, j)
    ensures IndexFrom(s, m, k) != -1 ==> forall j: nat :: k <= j < IndexFrom(s, m, k) ==> !OccursAt(s, m, j)
    decreases |s| - k
  {
    if k + |m| <= |s| && s[k..k + |m|] != m {
      IndexFromFirst(s, m, k + 1);
    }
  }

  /** JavaScript `s.indexOf(m)`: the first occurrence of `m` in `s`, or -1 when there is none
      (the empty string occurs at 0). */
  function IndexOf(s: string, m: string): (r: int)
    ensures -1 <= r <= |s| - |m| || r == -1
    ensures r != -1 ==> OccursAt(s, m, r)
  {
    IndexFrom(s, m, 0)
  }

  /** `indexOf` finds the first occurrence, and -1 exactly when there is none. */
  lemma IndexOfFirst(s: string, m: string)
    ensures IndexOf(s, m) != -1 ==> forall j: nat :: j < IndexOf(s, m) ==> !OccursAt(s, m, j)
    ensures IndexOf(s, m) == -1 <==> !Occurs(s, m)
  {
    IndexFromFirst(s, m, 0);
  }

  /** `s.indexOf(m) !== -1`. */
  predicate Contains(s: string, m: string) {
    IndexOf(s, m) != -1
  }

  /** `m` is a prefix of `s` exactly when `s.indexOf(m) === 0`. */
  lemma IndexOfZeroIsPrefix(s: string, m: string)
    ensures IndexOf(s, m) == 0 <==> (|m| <= |s| && s[..|m|] == m)
  {
    if |m| <= |s| && s[..|m|] == m {
      assert OccursAt(s, m, 0);
    }
  }

  /** A prefix test that follows the shape of the JavaScript one. */
  predicate StartsWith(s: string, m: string) {
    |m| <= |s| && s[..|m|] == m
  }

  /** A needle whose first character first appears in `s` where the needle occurs is found there. */
  lemma FoundAtFirstLead(s: string, m: string, k: nat)
    requires |m| > 0 && OccursAt(s, m, k)
    requires forall j :: 0 <= j < k ==> s[j] != m[0]
    ensures IndexOf(s, m) == k
  {
    IndexOfFirst(s, m);
    forall j: nat | j < k ensures !OccursAt(s, m, j) {
      if j + |m| <= |s| {
        assert s[j..j + |m|][0] == s[j];
      }
    }
  }

  /** A needle holding a character that `s` lacks is not found. */
  lemma NotFoundWithMissingChar(s: string, m: string, i: nat)
    requires i < |m| && forall j :: 0 <= j < |s| ==> s[j] != m[i]
    ensures IndexOf(s, m) == -1
  {
    forall j: nat ensures !OccursAt(s, m, j) {
      if j + |m| <= |s| {
        assert s[j..j + |m|][i] == s[j + i];
      }
    }
  }

  /** The first index at or after `k` holding the character `c`, or -1. */
  function FindChar(s: string, c: char, k: nat): (r: int)
    requires k <= |s|
    ensures r == -1 || (k <= r < |s| && s[r] == c)
    ensures r == -1 ==> forall j :: k <= j < |s| ==> s[j] != c
    ensures r != -1 ==> forall j :: k <= j < r ==> s[j] != c
    decreases |s| - k
  {
    if k == |s| then -1
    else if s[k] == c then k
    else FindChar(s, c, k + 1)
  }

  /** `s` has no character `c`. */
  predicate Lacks(s: string, c: char) {
    forall i :: 0 <= i < |s| ==> s[i] != c
  }
}
