/** Substring search on strings, as JavaScript's String.prototype.indexOf and includes. */
module Strings {
  import opened Wrappers

  /** `t` occurs in `s` starting at index `i`. */
  predicate OccursAt(s: string, t: string, i: nat) {
    i + |t| <= |s| && s[i..i + |t|] == t
  }

  /** Shifting past the first character moves every occurrence one place to the left. */
  lemma OccursAtTail(s: string, t: string)
    requires s != []
    ensures forall j: nat :: 0 < j ==> (OccursAt(s, t, j) <==> OccursAt(s[1..], t, j - 1))
  {
    forall j: nat | 0 < j ensures OccursAt(s, t, j) <==> OccursAt(s[1..], t, j - 1) {
      if j + |t| <= |s| {
        assert s[1..][j - 1..j - 1 + |t|] == s[j..j + |t|];
      }
    }
  }

  /** The index of the first occurrence of `t` in `s`, if any (`s.indexOf(t)`, with -1 as None). */
  function IndexOf(s: string, t: string): (r: Option<nat>)
    ensures r.Some? ==> OccursAt(s, t, r.value)
    ensures r.Some? ==> forall j: nat :: j < r.value ==> !OccursAt(s, t, j)
    ensures r.None? ==> forall j: nat :: !OccursAt(s, t, j)
    decreases |s|
  {
    if OccursAt(s, t, 0) then Some(0)
    else if s == [] then None
    else
      OccursAtTail(s, t);
      match IndexOf(s[1..], t)
      case Some(k) => Some(k + 1)
      case None => None
  }

  /** `t` is a prefix of `s`, compared character by character. */
  predicate IsPrefix(t: string, s: string) {
    |t| == 0 || (|s| > 0 && s[0] == t[0] && IsPrefix(t[1..], s[1..]))
  }

  /** `s.includes(t)`: `t` is a prefix of `s` or of some suffix of it. */
  predicate Includes(s: string, t: string) {
    IsPrefix(t, s) || (|s| > 0 && Includes(s[1..], t))
  }

  lemma {:induction false} IsPrefixIff(t: string, s: string)
    ensures IsPrefix(t, s) <==> OccursAt(s, t, 0)
    decreases |t|
  {
    if |t| > 0 && |s| > 0 {
      IsPrefixIff(t[1..], s[1..]);
      if |t| <= |s| {
        assert s[..|t|] == [s[0]] + s[1..][..|t| - 1];
        assert t == [t[0]] + t[1..];
      }
    }
  }

  /** `includes` holds exactly when `t` occurs in `s` at some index. */
  lemma {:induction false} IncludesIff(s: string, t: string)
    ensures Includes(s, t) <==> exists j: nat :: OccursAt(s, t, j)
    decreases |s|
  {
    IsPrefixIff(t, s);
    if |s| > 0 {
      IncludesIff(s[1..], t);
      OccursAtTail(s, t);
      if exists j: nat :: OccursAt(s, t, j) {
        var j: nat :| OccursAt(s, t, j);
        if j > 0 { assert OccursAt(s[1..], t, j - 1); }
      }
      if exists j: nat :: OccursAt(s[1..], t, j) {
        var j: nat :| OccursAt(s[1..], t, j);
        assert OccursAt(s, t, j + 1);
      }
    } else if exists j: nat :: OccursAt(s, t, j) {
      var j: nat :| OccursAt(s, t, j);
      assert j == 0;
    }
  }

  /** `includes` agrees with `indexOf`: some occurrence exists exactly when `indexOf` finds one. */
  lemma IncludesIffIndexOf(s: string, t: string)
    ensures Includes(s, t) <==> IndexOf(s, t).Some?
  {
    IncludesIff(s, t);
  }
}
