/**
 The two ordinal string tests the anonymous-type check applies to a type name:
 `String.StartsWith` and `String.Contains`.
 */
module Text {

  /** `sub` occurs in `s` starting at index `i`. */
  ghost predicate OccursAt(s: string, sub: string, i: nat) {
    i + |sub| <= |s| && s[i..i + |sub|] == sub
  }

  /** `s.StartsWith(prefix)`, compared ordinally: `s` is `prefix` followed by
      some suffix. */
  function StartsWith(s: string, prefix: string): (r: bool)
    ensures r <==> exists suffix: string :: s == prefix + suffix
  {
    if |prefix| <= |s| && s[..|prefix|] == prefix then
      assert s == prefix + s[|prefix|..];
      true
    else
      false
  }

  /** `s.Contains(sub)`: scans `s` from the left for an occurrence of `sub`. */
  function Contains(s: string, sub: string): (r: bool)
    ensures r <==> exists i: nat :: OccursAt(s, sub, i)
    decreases |s|
  {
    if StartsWith(s, sub) then
      assert OccursAt(s, sub, 0);
      true
    else if |s| == 0 then
      assert forall i: nat :: !OccursAt(s, sub, i);
      false
    else
      var found := Contains(s[1..], sub);
      ShiftOccurrence(s, sub);
      found
  }

  /** Occurrences in the tail of `s` are the occurrences in `s` past index 0. */
  lemma ShiftOccurrence(s: string, sub: string)
    requires |s| > 0
    ensures forall i: nat :: OccursAt(s[1..], sub, i) <==> OccursAt(s, sub, i + 1)
    ensures !OccursAt(s, sub, 0) ==>
      ((exists i: nat :: OccursAt(s, sub, i)) <==> (exists j: nat :: OccursAt(s[1..], sub, j)))
  {
    forall i: nat
      ensures OccursAt(s[1..], sub, i) <==> OccursAt(s, sub, i + 1)
    {
      if i + |sub| <= |s| - 1 {
        assert s[1..][i..i + |sub|] == s[i + 1..i + 1 + |sub|];
      }
    }
    if !OccursAt(s, sub, 0) {
      if exists i: nat :: OccursAt(s, sub, i) {
        var i: nat :| OccursAt(s, sub, i);
        assert i > 0;
        assert OccursAt(s[1..], sub, i - 1);
      }
    }
  }
}
