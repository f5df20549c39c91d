/** Probabilities of one row: counts turned into `p` and cumulative `cp` in
    row order, and the choice of a record by a uniform draw. */
module Probabilities {
  import opened CharRecords

  /** Sum of the counts of a row. */
  function Total(s: seq<CharData>): int
  {
    if s == [] then 0 else Total(s[..|s| - 1]) + s[|s| - 1].count
  }

  /** Sum of the `p` values of a row. */
  function SumP(s: seq<CharData>): real
  {
    if s == [] then 0.0 else SumP(s[..|s| - 1]) + s[|s| - 1].p
  }

  /** Every record has been counted at least once. */
  ghost predicate PositiveCounts(s: seq<CharData>)
  {
    forall k :: 0 <= k < |s| ==> s[k].count >= 1
  }

  /** Extending a prefix by one record adds that record's count. */
  lemma TotalSnoc(s: seq<CharData>, n: nat)
    requires n < |s|
    ensures Total(s[..n + 1]) == Total(s[..n]) + s[n].count
  {
    assert s[..n + 1][..n] == s[..n];
  }

  /** With positive counts, a longer prefix has a strictly larger total. */
  lemma {:induction false} TotalPrefixGrows(s: seq<CharData>, i: nat, j: nat)
    requires PositiveCounts(s)
    requires i < j <= |s|
    ensures Total(s[..i]) < Total(s[..j])
  {
    TotalSnoc(s, j - 1);
    if i < j - 1 {
      TotalPrefixGrows(s, i, j - 1);
    }
  }

  /** A non-empty row with positive counts has a positive total. */
  lemma TotalPositive(s: seq<CharData>)
    requires PositiveCounts(s) && s != []
    ensures Total(s) > 0
  {
    TotalPrefixGrows(s, 0, |s|);
    assert s[..0] == [] && s[..|s|] == s;
  }

  /** Record `k` of a row after `calculateProbabilities`: its share `p` of
      the row's total, and the share `cp` of the counts of the records up to
      and including it. */
  function FinalizedRecord(s: seq<CharData>, k: nat): (d: CharData)
    requires PositiveCounts(s) && k < |s|
    ensures d.chr == s[k].chr && d.count == s[k].count
  {
    TotalPositive(s);
    var t := Total(s) as real;
    s[k].(p := s[k].count as real / t, cp := Total(s[..k + 1]) as real / t)
  }

  /** The row after `calculateProbabilities`: each record keeps its
      character and count and gets its `p` and `cp`. */
  function FinalizeRow(s: seq<CharData>): (r: seq<CharData>)
    requires PositiveCounts(s)
    ensures |r| == |s|
    ensures forall k :: 0 <= k < |s| ==> r[k].chr == s[k].chr && r[k].count == s[k].count
  {
    seq(|s|, k requires 0 <= k < |s| => FinalizedRecord(s, k))
  }

  lemma SumOfQuotients(a: real, b: real, t: real)
    requires t > 0.0
    ensures a / t + b / t == (a + b) / t
  {
  }

  lemma QuotientSelf(t: real)
    requires t > 0.0
    ensures t / t == 1.0
  {
  }

  lemma QuotientGrows(a: real, b: real, t: real)
    requires t > 0.0 && a < b
    ensures a / t < b / t
  {
  }

  /** Each `cp` is the previous one plus the record's own `p`. */
  lemma FinalizedCpSteps(s: seq<CharData>, k: nat)
    requires PositiveCounts(s) && k < |s|
    ensures FinalizeRow(s)[k].cp == (if k == 0 then 0.0 else FinalizeRow(s)[k - 1].cp) + FinalizeRow(s)[k].p
  {
    var r := FinalizeRow(s);
    TotalPositive(s);
    var t := Total(s) as real;
    TotalSnoc(s, k);
    assert s[..0] == [];
    SumOfQuotients(Total(s[..k]) as real, s[k].count as real, t);
  }

  /** `cp` strictly increases along the row, so it never decreases. */
  lemma FinalizedCpIncreasing(s: seq<CharData>, i: nat, j: nat)
    requires PositiveCounts(s) && i < j < |s|
    ensures FinalizeRow(s)[i].cp < FinalizeRow(s)[j].cp
  {
    TotalPositive(s);
    TotalPrefixGrows(s, i + 1, j + 1);
    QuotientGrows(Total(s[..i + 1]) as real, Total(s[..j + 1]) as real, Total(s) as real);
  }

  /** The last `cp` of a non-empty row is exactly 1. */
  lemma FinalizedLastCp(s: seq<CharData>)
    requires PositiveCounts(s) && s != []
    ensures FinalizeRow(s)[|s| - 1].cp == 1.0
  {
    TotalPositive(s);
    assert s[..|s|] == s;
    var t := Total(s) as real;
    assert FinalizeRow(s)[|s| - 1].cp == t / t;
    QuotientSelf(t);
  }

  /** The `p` values of a prefix add up to that prefix's share of the row. */
  lemma {:induction false} FinalizedSumPPrefix(s: seq<CharData>, n: nat)
    requires PositiveCounts(s) && 0 < n <= |s|
    ensures SumP(FinalizeRow(s)[..n]) == FinalizeRow(s)[n - 1].cp
  {
    var r := FinalizeRow(s);
    TotalPositive(s);
    var t := Total(s) as real;
    assert r[..n][..n - 1] == r[..n - 1];
    TotalSnoc(s, n - 1);
    if n == 1 {
      assert r[..0] == [] && s[..0] == [];
      SumOfQuotients(0.0, s[0].count as real, t);
    } else {
      FinalizedSumPPrefix(s, n - 1);
      SumOfQuotients(Total(s[..n - 1]) as real, s[n - 1].count as real, t);
    }
  }

  /** The `p` values of a non-empty row add up to exactly 1. */
  lemma FinalizedSumP(s: seq<CharData>)
    requires PositiveCounts(s) && s != []
    ensures SumP(FinalizeRow(s)) == 1.0
  {
    FinalizedSumPPrefix(s, |s|);
    FinalizedLastCp(s);
    assert FinalizeRow(s)[..|s|] == FinalizeRow(s);
  }

  /** Position of the first record whose `cp` is at least `draw`, or -1. */
  function Covering(s: seq<CharData>, draw: real): (i: int)
    ensures -1 <= i < |s|
    ensures i == -1 <==> forall k :: 0 <= k < |s| ==> s[k].cp < draw
    ensures 0 <= i ==> draw <= s[i].cp && forall k :: 0 <= k < i ==> s[k].cp < draw
  {
    if s == [] then -1
    else if draw <= s[0].cp then 0
    else
      var j := Covering(s[1..], draw);
      if j == -1 then -1 else j + 1
  }

  /** The character `getRandomChar` picks for `draw`: that of the first
      record whose `cp` reaches it, or a blank when none does. */
  function Sample(s: seq<CharData>, draw: real): char
  {
    var i := Covering(s, draw);
    if i == -1 then ' ' else s[i].chr
  }

  /** The first record whose `cp` reaches `draw` is the one `Covering` finds. */
  lemma CoveringFirst(s: seq<CharData>, k: nat, draw: real)
    requires k < |s| && draw <= s[k].cp
    requires forall j :: 0 <= j < k ==> s[j].cp < draw
    ensures Covering(s, draw) == k
  {
  }

  /** A draw in the interval (cp of the previous record, cp of record k]
      picks record k, and the width of that interval is k's own `p`. */
  lemma SampleBucket(s: seq<CharData>, k: nat, draw: real)
    requires PositiveCounts(s) && k < |s|
    requires k == 0 || FinalizeRow(s)[k - 1].cp < draw
    requires draw <= FinalizeRow(s)[k].cp
    ensures Covering(FinalizeRow(s), draw) == k
    ensures Sample(FinalizeRow(s), draw) == s[k].chr
    ensures FinalizeRow(s)[k].cp - (if k == 0 then 0.0 else FinalizeRow(s)[k - 1].cp) == FinalizeRow(s)[k].p
  {
    var r := FinalizeRow(s);
    forall j | 0 <= j < k ensures r[j].cp < draw {
      if j < k - 1 {
        FinalizedCpIncreasing(s, j, k - 1);
      }
    }
    CoveringFirst(r, k, draw);
    FinalizedCpSteps(s, k);
  }

  /** On a finalized non-empty row, a draw in [0, 1) always finds a record:
      the blank fallback is never taken and the character picked is one the
      row holds. */
  lemma SampleNeverFallsBack(s: seq<CharData>, draw: real)
    requires PositiveCounts(s) && s != []
    requires 0.0 <= draw < 1.0
    ensures 0 <= Covering(FinalizeRow(s), draw)
    ensures Sample(FinalizeRow(s), draw) == s[Covering(FinalizeRow(s), draw)].chr
  {
    FinalizedLastCp(s);
  }
}
