/** String matching used by the filter-by-example query: ASCII case folding and
    substring containment. */
module Text {

  /** ASCII lower case of one character; every other character is kept. */
  function Lower(c: char): char {
    if 'A' <= c <= 'Z' then (c as int + 32) as char else c
  }

  function LowerString(s: string): (r: string)
    ensures |r| == |s|
    ensures forall i :: 0 <= i < |s| ==> r[i] == Lower(s[i])
  {
    if s == [] then [] else [Lower(s[0])] + LowerString(s[1..])
  }

  predicate IsPrefix(p: string, s: string) {
    |p| <= |s| && s[..|p|] == p
  }

  /** `t` occurs somewhere in `s`. */
  predicate Contains(s: string, t: string)
    decreases |s|
  {
    IsPrefix(t, s) || (|s| > 0 && Contains(s[1..], t))
  }

  /** The `CONTAINING` string matcher with `withIgnoreCase`: both sides are lowered. */
  function ContainsIgnoreCase(s: string, t: string): (r: bool)
    ensures r <==> exists i :: OccursAt(LowerString(s), LowerString(t), i)
  {
    var ls, lt := LowerString(s), LowerString(t);
    ContainsIffOccurrence(ls, lt);
    assert Contains(ls, lt) <==> exists i :: OccursAt(LowerString(s), LowerString(t), i) by {
      if Contains(ls, lt) {
        var i :| OccursAt(ls, lt, i);
        assert OccursAt(LowerString(s), LowerString(t), i);
      }
    }
    Contains(ls, lt)
  }

  /** `t` occurs in `s` starting at position `i`. */
  predicate OccursAt(s: string, t: string, i: int) {
    0 <= i && i + |t| <= |s| && s[i..i + |t|] == t
  }

  /** `Contains` agrees with the positional definition of an occurrence, both ways. */
  lemma {:induction false} ContainsIffOccurrence(s: string, t: string)
    ensures Contains(s, t) <==> exists i :: OccursAt(s, t, i)
    decreases |s|
  {
    if IsPrefix(t, s) {
      assert OccursAt(s, t, 0);
    } else if |s| == 0 {
    } else {
      ContainsIffOccurrence(s[1..], t);
      if i :| OccursAt(s, t, i) {
        if i > 0 {
          assert OccursAt(s[1..], t, i - 1);
        }
      }
      if j :| OccursAt(s[1..], t, j) {
        assert OccursAt(s, t, j + 1);
      }
    }
  }

  lemma {:induction false} LowerIdempotent(s: string)
    ensures LowerString(LowerString(s)) == LowerString(s)
  {
  }

  /** Matching ignores the case of the probe and of the stored value. */
  lemma CaseOfEitherSideIsIgnored(s: string, t: string)
    ensures ContainsIgnoreCase(s, t) == ContainsIgnoreCase(LowerString(s), t)
    ensures ContainsIgnoreCase(s, t) == ContainsIgnoreCase(s, LowerString(t))
  {
    LowerIdempotent(s);
    LowerIdempotent(t);
  }

  /** An empty probe matches every value, and every value matches itself. */
  lemma {:induction false} EmptyProbeAndSelfMatch(s: string)
    ensures ContainsIgnoreCase(s, "")
    ensures ContainsIgnoreCase(s, s)
  {
    assert IsPrefix(LowerString(""), LowerString(s));
    assert IsPrefix(LowerString(s), LowerString(s));
  }

  /** A probe longer than the value never matches. */
  lemma {:induction false} LongerProbeNeverMatches(s: string, t: string)
    requires |t| > |s|
    ensures !ContainsIgnoreCase(s, t)
  {
    ContainsIffOccurrence(LowerString(s), LowerString(t));
  }
}
