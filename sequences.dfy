/** The list operations the path code relies on: `[::-1]` and the common-prefix search. */
module Sequences {

  /** `s[::-1]`. */
  function Reverse<A>(s: seq<A>): (r: seq<A>)
    ensures |r| == |s|
  {
    seq(|s|, i requires 0 <= i < |s| => s[|s| - 1 - i])
  }

  lemma ReverseReverse<A>(s: seq<A>)
    ensures Reverse(Reverse(s)) == s
  {
    assert forall i :: 0 <= i < |s| ==> Reverse(Reverse(s))[i] == s[i];
  }

  lemma ReverseMember<A>(s: seq<A>, x: A)
    ensures x in Reverse(s) <==> x in s
  {
    if x in s {
      var i :| 0 <= i < |s| && s[i] == x;
      assert Reverse(s)[|s| - 1 - i] == x;
    }
  }

  /** Reversing a suffix gives a prefix of the reversal. */
  lemma ReverseSuffix<A>(s: seq<A>, i: nat)
    requires i <= |s|
    ensures Reverse(s[i..]) == Reverse(s)[..|s| - i]
  {
  }

  /** Reversing a prefix gives a suffix of the reversal. */
  lemma {:induction false} ReversePrefix<A>(s: seq<A>, k: nat)
    requires k <= |s|
    ensures Reverse(s[..k]) == Reverse(s)[|s| - k..]
  {
    var a, b := Reverse(s[..k]), Reverse(s)[|s| - k..];
    forall j | 0 <= j < k ensures a[j] == b[j] {
      assert a[j] == s[..k][k - 1 - j] == s[k - 1 - j];
      assert b[j] == Reverse(s)[|s| - k + j];
    }
  }

  /** Reversing a suffix of a reversal gives back a prefix. */
  lemma ReverseOfReversedSuffix<A>(s: seq<A>, i: nat)
    requires i <= |s|
    ensures Reverse(Reverse(s)[i..]) == s[..|s| - i]
  {
    ReversePrefix(s, |s| - i);
    ReverseReverse(s[..|s| - i]);
  }

  /** Dropping the last element of a reversal drops the first of the original. */
  lemma ReverseDropLast<A>(s: seq<A>)
    requires |s| >= 1
    ensures Reverse(s)[..|s| - 1] == Reverse(s[1..])
  {
  }

  /** Around an element of a sequence without duplicates, the stretches before and after it do not contain it. */
  lemma SplitAround<A>(s: seq<A>, m: nat, k: nat)
    requires NoDuplicates(s) && m <= k < |s|
    ensures s[m..] == s[m..k] + [s[k]] + s[k + 1..]
    ensures s[k] !in s[m..k] && s[k] !in s[k + 1..]
  {
    assert s[m..] == s[m..k] + [s[k]] + s[k + 1..];
  }

  /**
   * The length of the longest common prefix of `s` and `t`: the index of the
   * first `False` in `[a is b for a, b in zip(s, t)] + [False]`.
   */
  function MatchLength<A(==)>(s: seq<A>, t: seq<A>): (m: nat)
    ensures m <= |s| && m <= |t|
    ensures s[..m] == t[..m]
    ensures m < |s| && m < |t| ==> s[m] != t[m]
  {
    if s == [] || t == [] || s[0] != t[0] then 0
    else 1 + MatchLength(s[1..], t[1..])
  }

  /** Every common prefix is at most `MatchLength` long. */
  lemma MatchLengthAtLeast<A>(s: seq<A>, t: seq<A>, k: nat)
    requires k <= |s| && k <= |t| && s[..k] == t[..k]
    ensures k <= MatchLength(s, t)
  {
  }

  /** The properties in `MatchLength`'s contract determine it. */
  lemma MatchLengthUnique<A>(s: seq<A>, t: seq<A>, k: nat)
    requires k <= |s| && k <= |t| && s[..k] == t[..k]
    requires k == |s| || k == |t| || s[k] != t[k]
    ensures MatchLength(s, t) == k
  {
    MatchLengthAtLeast(s, t, k);
  }

  lemma MatchLengthSymmetric<A>(s: seq<A>, t: seq<A>)
    ensures MatchLength(s, t) == MatchLength(t, s)
  {
    MatchLengthUnique(t, s, MatchLength(s, t));
  }

  ghost predicate NoDuplicates<A>(s: seq<A>) {
    forall i, j :: 0 <= i < j < |s| ==> s[i] != s[j]
  }
}
