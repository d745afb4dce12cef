/** Searching a sequence for the first element with a property. */
module Sequences {
  import opened Wrappers

  /** The index of the first element of `s` at or after `from` that satisfies `p`, if any. */
  function FirstWhereFrom<T>(s: seq<T>, p: T -> bool, from: nat): (r: Option<nat>)
    requires from <= |s|
    ensures r.Some? ==> from <= r.value < |s| && p(s[r.value])
    ensures r.Some? ==> forall j :: from <= j < r.value ==> !p(s[j])
    ensures r.None? ==> forall j :: from <= j < |s| ==> !p(s[j])
    decreases |s| - from
  {
    if from == |s| then None
    else if p(s[from]) then Some(from)
    else FirstWhereFrom(s, p, from + 1)
  }

  /** The index of the first element of `s` that satisfies `p`, if any. */
  function FirstWhere<T>(s: seq<T>, p: T -> bool): (r: Option<nat>)
    ensures r.Some? ==> r.value < |s| && p(s[r.value])
    ensures r.Some? ==> forall j :: 0 <= j < r.value ==> !p(s[j])
    ensures r.None? ==> forall j :: 0 <= j < |s| ==> !p(s[j])
  {
    FirstWhereFrom(s, p, 0)
  }

  /** The first match is determined by the property alone. */
  lemma FirstWhereIs<T>(s: seq<T>, p: T -> bool, r: Option<nat>)
    requires r.Some? ==> r.value < |s| && p(s[r.value])
    requires r.Some? ==> forall j :: 0 <= j < r.value ==> !p(s[j])
    requires r.None? ==> forall j :: 0 <= j < |s| ==> !p(s[j])
    ensures FirstWhere(s, p) == r
  {
  }

  /** Appending an element can only find a first match where there was none before. */
  lemma FirstWhereSnoc<T>(s: seq<T>, x: T, p: T -> bool)
    ensures FirstWhere(s + [x], p)
         == if FirstWhere(s, p).Some? then FirstWhere(s, p)
            else if p(x) then Some(|s|)
            else None
  {
    var t := s + [x];
    forall j | 0 <= j < |s| ensures t[j] == s[j] { }
    assert t[|s|] == x;
    FirstWhereIs(t, p, if FirstWhere(s, p).Some? then FirstWhere(s, p) else if p(x) then Some(|s|) else None);
  }

  /** The elements of `s` with index `i` taken out, by position. */
  lemma RemoveAtIndex<T>(s: seq<T>, i: nat, q: seq<T>)
    requires i < |s| && q == s[..i] + s[i + 1..]
    ensures |q| == |s| - 1
    ensures forall j :: 0 <= j < i ==> q[j] == s[j]
    ensures forall j :: i <= j < |q| ==> q[j] == s[j + 1]
  {
  }

  /** Removing index `i` from `s`, seen from an index `k` before it. */
  lemma RemoveAfter<T>(s: seq<T>, i: nat, k: nat)
    requires k < i < |s|
    ensures (s[..i] + s[i + 1..])[k] == s[k]
    ensures (s[..i] + s[i + 1..])[..k] == s[..k]
    ensures (s[..i] + s[i + 1..])[k + 1..] == s[k + 1..][..i - k - 1] + s[k + 1..][i - k..]
  {
  }

  /** Removing index `i` from `s`, seen from an index `k` after it. */
  lemma RemoveBefore<T>(s: seq<T>, i: nat, k: nat)
    requires i < k < |s|
    ensures (s[..i] + s[i + 1..])[k - 1] == s[k]
    ensures (s[..i] + s[i + 1..])[..k - 1] == s[..k][..i] + s[..k][i + 1..]
    ensures (s[..i] + s[i + 1..])[k..] == s[k + 1..]
  {
  }

  /** Removing an element keeps the absence of a match. */
  lemma FirstWhereRemoveNone<T>(s: seq<T>, i: nat, p: T -> bool)
    requires i < |s|
    requires forall j :: 0 <= j < |s| ==> !p(s[j])
    ensures FirstWhere(s[..i] + s[i + 1..], p).None?
  {
    RemoveAtIndex(s, i, s[..i] + s[i + 1..]);
    FirstWhereIs(s[..i] + s[i + 1..], p, None);
  }

  /** Removing an element after the first match keeps that match. */
  lemma FirstWhereRemoveAfter<T>(s: seq<T>, i: nat, p: T -> bool, k: nat)
    requires k < i < |s| && p(s[k])
    requires forall j :: 0 <= j < k ==> !p(s[j])
    ensures FirstWhere(s[..i] + s[i + 1..], p) == Some(k)
  {
    RemoveAtIndex(s, i, s[..i] + s[i + 1..]);
    FirstWhereIs(s[..i] + s[i + 1..], p, Some(k));
  }

  /** Removing a non-matching element before the first match shifts it down by one. */
  lemma FirstWhereRemoveBefore<T>(s: seq<T>, i: nat, p: T -> bool, k: nat)
    requires i < k < |s| && p(s[k])
    requires forall j :: 0 <= j < k ==> !p(s[j])
    ensures FirstWhere(s[..i] + s[i + 1..], p) == Some(k - 1)
  {
    var q := s[..i] + s[i + 1..];
    RemoveAtIndex(s, i, q);
    forall j | 0 <= j < k - 1 ensures !p(q[j]) {
      if j < i { assert q[j] == s[j]; } else { assert q[j] == s[j + 1]; }
    }
    FirstWhereIs(q, p, Some(k - 1));
  }
}
