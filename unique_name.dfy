/**
  The names GenerateUniqueName tries for a pasted copy: "Base (0)",
  "Base (1)", ... as the "%s (%d)" format writes them. Engine strings compare
  without regard to case, so a candidate is in use when some existing name
  equals it up to ASCII case.

  The module proves that the search for the least unused suffix ends: the
  candidates are pairwise different even ignoring case, so no more of them can
  be in use than there are existing names.
 */
module UniqueName {
  import opened Decimal

  /** ASCII lower case. */
  function LowerChar(c: char): char {
    if 'A' <= c <= 'Z' then (c as int - 'A' as int + 'a' as int) as char else c
  }

  /** The string with every ASCII capital letter lowered. */
  function FoldCase(s: string): (t: string)
    ensures |t| == |s|
    ensures forall i :: 0 <= i < |s| ==> t[i] == LowerChar(s[i])
    ensures forall i :: 0 <= i < |s| ==> !('A' <= t[i] <= 'Z')
    ensures forall i :: 0 <= i < |s| && !('A' <= s[i] <= 'Z') ==> t[i] == s[i]
    ensures forall i :: 0 <= i < |s| && 'A' <= s[i] <= 'Z' ==> t[i] as int == s[i] as int + 32
  {
    seq(|s|, i requires 0 <= i < |s| => LowerChar(s[i]))
  }

  /** String equality ignoring case. */
  predicate SameName(a: string, b: string) {
    FoldCase(a) == FoldCase(b)
  }

  /** Some existing name is the same as `name` ignoring case. */
  predicate InUse(name: string, existing: seq<string>) {
    exists t :: 0 <= t < |existing| && SameName(existing[t], name)
  }

  /** The candidate name for suffix `k`. */
  function Suffixed(base: string, k: nat): string {
    base + " (" + NatToString(k) + ")"
  }

  /** A candidate is always longer than its base, so never equal to it. */
  lemma SuffixedLonger(base: string, k: nat)
    ensures |Suffixed(base, k)| >= |base| + 4
    ensures !SameName(Suffixed(base, k), base)
  {
    assert |FoldCase(Suffixed(base, k))| != |FoldCase(base)|;
  }

  /** Case folding leaves the suffix of a candidate alone. */
  lemma FoldSuffixed(base: string, k: nat)
    ensures FoldCase(Suffixed(base, k)) == FoldCase(base) + " (" + NatToString(k) + ")"
  {
    var s := Suffixed(base, k);
    var d := NatToString(k);
    var t := FoldCase(base) + " (" + d + ")";
    forall i | 0 <= i < |t|
      ensures FoldCase(s)[i] == t[i]
    {
      if i < |base| {
      } else if i < |base| + 2 {
      } else if i < |base| + 2 + |d| {
        assert s[i] == d[i - |base| - 2];
        assert IsDigit(d[i - |base| - 2]);
      }
    }
  }

  /** Different suffixes give candidates that differ even ignoring case. */
  lemma SuffixedDistinct(base: string, j: nat, k: nat)
    requires SameName(Suffixed(base, j), Suffixed(base, k))
    ensures j == k
  {
    FoldSuffixed(base, j);
    FoldSuffixed(base, k);
    var fj := FoldCase(base) + " (" + NatToString(j) + ")";
    var fk := FoldCase(base) + " (" + NatToString(k) + ")";
    var lo := |base| + 2;
    assert fj[lo..|fj| - 1] == NatToString(j);
    assert fk[lo..|fk| - 1] == NatToString(k);
    NatToStringInjective(j, k);
  }

  /** Every suffix below `k` gives a candidate that is in use. */
  ghost predicate Taken(base: string, existing: seq<string>, k: nat) {
    forall j :: 0 <= j < k ==> InUse(Suffixed(base, j), existing)
  }

  /** The folded candidates for the suffixes below `k`. */
  ghost function FoldedCandidates(base: string, k: nat): set<string> {
    if k == 0 then {} else FoldedCandidates(base, k - 1) + {FoldCase(Suffixed(base, k - 1))}
  }

  /** The folded existing names. */
  ghost function FoldedNames(existing: seq<string>): set<string> {
    if existing == [] then {} else FoldedNames(existing[..|existing| - 1]) + {FoldCase(existing[|existing| - 1])}
  }

  lemma {:induction false} FoldedCandidatesSize(base: string, k: nat)
    ensures |FoldedCandidates(base, k)| == k
    ensures forall n :: n in FoldedCandidates(base, k) ==> exists j :: 0 <= j < k && n == FoldCase(Suffixed(base, j))
  {
    if k > 0 {
      FoldedCandidatesSize(base, k - 1);
      var x := FoldCase(Suffixed(base, k - 1));
      if x in FoldedCandidates(base, k - 1) {
        var j :| 0 <= j < k - 1 && x == FoldCase(Suffixed(base, j));
        SuffixedDistinct(base, k - 1, j);
      }
    }
  }

  lemma {:induction false} FoldedNamesSize(existing: seq<string>)
    ensures |FoldedNames(existing)| <= |existing|
    ensures forall t :: 0 <= t < |existing| ==> FoldCase(existing[t]) in FoldedNames(existing)
  {
    if existing != [] {
      var front := existing[..|existing| - 1];
      FoldedNamesSize(front);
      forall t | 0 <= t < |existing| - 1
        ensures FoldCase(existing[t]) in FoldedNames(existing)
      {
        assert existing[t] == front[t];
      }
    }
  }

  /** No more candidates can be in use than there are existing names. */
  lemma Pigeonhole(base: string, existing: seq<string>, k: nat)
    requires Taken(base, existing, k)
    ensures k <= |existing|
  {
    FoldedCandidatesSize(base, k);
    FoldedNamesSize(existing);
    var a := FoldedCandidates(base, k);
    var b := FoldedNames(existing);
    forall n | n in a
      ensures n in b
    {
      var j :| 0 <= j < k && n == FoldCase(Suffixed(base, j));
      assert InUse(Suffixed(base, j), existing);
      var t :| 0 <= t < |existing| && SameName(existing[t], Suffixed(base, j));
    }
    assert a <= b;
    assert |b| == |a| + |b - a|;
  }

  /** The least free suffix from `k` on, when every suffix below `k` is taken. */
  ghost function FreeFrom(base: string, existing: seq<string>, k: nat): (r: nat)
    requires Taken(base, existing, k)
    ensures k <= r <= |existing|
    ensures !InUse(Suffixed(base, r), existing) && Taken(base, existing, r)
    decreases |existing| - k
  {
    Pigeonhole(base, existing, k);
    if !InUse(Suffixed(base, k), existing) then k
    else
      Pigeonhole(base, existing, k + 1);
      FreeFrom(base, existing, k + 1)
  }

  /**
    The least suffix whose candidate is free. It exists for every base and
    every finite list of names, and is at most the number of names.
   */
  ghost function LeastFreeSuffix(base: string, existing: seq<string>): (k: nat)
    ensures k <= |existing|
    ensures !InUse(Suffixed(base, k), existing)
    ensures forall j :: 0 <= j < k ==> InUse(Suffixed(base, j), existing)
  {
    FreeFrom(base, existing, 0)
  }

  /** Only one suffix is free with every smaller one taken. */
  lemma LeastFreeUnique(base: string, existing: seq<string>, k: nat)
    requires !InUse(Suffixed(base, k), existing) && Taken(base, existing, k)
    ensures k == LeastFreeSuffix(base, existing)
  {
  }
}
