/**
 * Absolute URIs as the broken-link check uses them, and the substring test
 * that Ruby's `String#include?` performs.
 */
module Uris {

  /**
   * An absolute URI as produced by URI.join: the components the check reads
   * (scheme, host, port) and its textual form (`to_s`). Two URIs are the same
   * cache key exactly when all components agree.
   */
  datatype Uri = Uri(scheme: string, host: string, port: int, text: string)

  /** `t` occurs in `s` starting at index `i`. */
  predicate OccursAt(s: string, t: string, i: int)
  {
    0 <= i && i + |t| <= |s| && s[i..i + |t|] == t
  }

  /** Reference definition: `t` is a contiguous part of `s`. */
  ghost predicate IsSubstring(t: string, s: string)
  {
    exists i :: OccursAt(s, t, i)
  }

  /** `s.include?(t)`: scans `s` for an occurrence of `t`, leftmost first. */
  function Includes(s: string, t: string): (r: bool)
    ensures r ==> |t| <= |s|
    ensures t == [] ==> r
    decreases |s|
  {
    if |t| > |s| then false
    else if s[..|t|] == t then true
    else Includes(s[1..], t)
  }

  /** The scan agrees with the reference definition, in both directions. */
  lemma {:induction false} IncludesIsSubstring(s: string, t: string)
    ensures Includes(s, t) <==> IsSubstring(t, s)
    decreases |s|
  {
    if |t| > |s| {
      assert forall i :: !OccursAt(s, t, i);
    } else if s[..|t|] == t {
      assert OccursAt(s, t, 0);
    } else {
      IncludesIsSubstring(s[1..], t);
      forall i | OccursAt(s[1..], t, i) ensures OccursAt(s, t, i + 1) {
        assert s[i + 1..i + 1 + |t|] == s[1..][i..i + |t|];
      }
      forall i | OccursAt(s, t, i) ensures i >= 1 && OccursAt(s[1..], t, i - 1) {
        assert i != 0;
        assert s[1..][i - 1..i - 1 + |t|] == s[i..i + |t|];
      }
    }
  }
}
