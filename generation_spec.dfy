/** What generation computes: the walk through the table that appends one
    sampled character per draw and slides the window after it. */
module GenerationSpec {
  import opened CharRecords
  import opened CharList
  import opened Probabilities
  import opened TrainingSpec

  /** The characters appended by at most `n` steps starting at `window`,
      step k using `draws[k]`; the walk stops early at a window the table
      does not hold. */
  function Walk(t: WindowTable, window: string, n: nat, draws: seq<real>): (out: string)
    requires n <= |draws|
    requires window != []
    ensures |out| <= n
    ensures |out| < n ==> (window + out)[|out|..] !in t
    decreases n
  {
    if n == 0 || window !in t then
      assert (window + "")[0..] == window;
      ""
    else
      var c := Sample(t[window], draws[0]);
      var rest := Walk(t, window[1..] + [c], n - 1, draws[1..]);
      assert window + ([c] + rest) == [window[0]] + ((window[1..] + [c]) + rest);
      assert (window + ([c] + rest))[|rest| + 1..] == ((window[1..] + [c]) + rest)[|rest|..];
      [c] + rest
  }

  /** The k-th appended character was drawn with `draws[k]` from the row of
      the window in effect at that step: the last `|window|` characters of
      the text so far, a key of the table. */
  lemma {:induction false} WalkFollowsRows(t: WindowTable, window: string, n: nat, draws: seq<real>, k: nat)
    requires n <= |draws| && window != []
    requires k < |Walk(t, window, n, draws)|
    decreases n
    ensures (window + Walk(t, window, n, draws))[k..k + |window|] in t
    ensures Walk(t, window, n, draws)[k] ==
            Sample(t[(window + Walk(t, window, n, draws))[k..k + |window|]], draws[k])
  {
    var out := Walk(t, window, n, draws);
    if k == 0 {
      assert (window + out)[..|window|] == window;
    } else {
      var c := Sample(t[window], draws[0]);
      var window' := window[1..] + [c];
      var out' := Walk(t, window', n - 1, draws[1..]);
      assert out == [c] + out';
      WalkFollowsRows(t, window', n - 1, draws[1..], k - 1);
      ShiftedWindow(window, c, out', k);
      assert out[k] == out'[k - 1] && draws[k] == draws[1..][k - 1];
    }
  }

  /** The window `k` characters into a text is the window `k - 1`
      characters into the text with its first character dropped. */
  lemma ShiftedWindow(window: string, c: char, rest: string, k: nat)
    requires window != [] && 0 < k <= |rest| + 1
    ensures (window + ([c] + rest))[k..k + |window|] == ((window[1..] + [c]) + rest)[k - 1..k - 1 + |window|]
  {
    assert window + ([c] + rest) == [window[0]] + ((window[1..] + [c]) + rest);
  }

  /** On a trained table and draws in [0, 1), every appended character is
      one the row of its window holds: the blank fallback is never taken. */
  lemma WalkUsesObservedSuccessors(t: WindowTable, window: string, n: nat, draws: seq<real>, k: nat)
    requires n <= |draws| && window != []
    requires WellFormedTable(t, |window|) && Finalized(t)
    requires forall i :: 0 <= i < |draws| ==> 0.0 <= draws[i] < 1.0
    ensures k < |Walk(t, window, n, draws)| ==>
              var u := (window + Walk(t, window, n, draws))[k..k + |window|];
              u in t && exists i :: 0 <= i < |t[u]| && t[u][i].chr == Walk(t, window, n, draws)[k]
  {
    if k < |Walk(t, window, n, draws)| {
      WalkFollowsRows(t, window, n, draws, k);
      var u := (window + Walk(t, window, n, draws))[k..k + |window|];
      SampleNeverFallsBack(t[u], draws[k]);
    }
  }

  /** On a model trained from scratch, every appended character is one that
      follows the window before it at some position of the corpus. */
  lemma WalkUsesCorpusSuccessors(corpus: string, window: string, n: nat, draws: seq<real>, k: nat)
    requires n <= |draws| && window != []
    requires forall i :: 0 <= i < |draws| ==> 0.0 <= draws[i] < 1.0
    ensures var out := Walk(Trained(map[], corpus, |window|), window, n, draws);
            k < |out| ==>
              exists i :: |window| <= i < |corpus| && Window(corpus, |window|, i) == (window + out)[k..k + |window|]
                                                   && corpus[i] == out[k]
  {
    var t := Trained(map[], corpus, |window|);
    var out := Walk(t, window, n, draws);
    if k < |out| {
      WalkUsesObservedSuccessors(t, window, n, draws, k);
      var u := (window + out)[k..k + |window|];
      TrainedFromEmpty(corpus, |window|, u, out[k]);
      assert WellFormedRow(t[u]);
      assert CountIn(t, u, out[k]) > 0;
      var i :| i in Occurrences(corpus, |window|, |corpus|, u, out[k]);
    }
  }

  /** Training a fresh model of window 1 on "aab" gives the window "a" a row
      with 'b' in front (the later, inserted successor) and 'a' behind it,
      each with half the weight. Walking from "a", the draw 0.7 passes the
      `cp` 0.5 of 'b' and picks 'a'; 0.2 then picks 'b'; the walk stops at
      the window "b", which nothing ever followed. */
  lemma TrainAndWalkExample()
    ensures Trained(map[], "aab", 1) == map["a" := [CharData('b', 1, 0.5, 0.5), CharData('a', 1, 0.5, 1.0)]]
    ensures Walk(Trained(map[], "aab", 1), "a", 3, [0.7, 0.2, 0.5]) == "ab"
  {
    var row := [Fresh('b'), Fresh('a')];
    var fin := [CharData('b', 1, 0.5, 0.5), CharData('a', 1, 0.5, 1.0)];
    ExampleCounted();
    ExampleFinalized(row, fin);
    var t := map["a" := fin];
    assert FinalizeTable(map["a" := row]) == t;
    ExampleWalk(t, fin);
  }

  /** The counting of the example: both successors land in the row of "a". */
  lemma ExampleCounted()
    ensures Counted(map[], "aab", 1, 3) == map["a" := [Fresh('b'), Fresh('a')]]
  {
    assert Window("aab", 1, 1) == "a" && Window("aab", 1, 2) == "a";
    var t1 := map["a" := [Fresh('a')]];
    assert Counted(map[], "aab", 1, 2) == t1;
    assert IndexIn([Fresh('a')], 'b') == -1;
    assert UpdatedRow([Fresh('a')], 'b') == [Fresh('b'), Fresh('a')];
  }

  /** The finalising of the example row. */
  lemma ExampleFinalized(row: seq<CharData>, fin: seq<CharData>)
    requires row == [Fresh('b'), Fresh('a')]
    requires fin == [CharData('b', 1, 0.5, 0.5), CharData('a', 1, 0.5, 1.0)]
    ensures PositiveCounts(row) && FinalizeRow(row) == fin
  {
    assert row[..1] == [row[0]] && row[..2] == row && row[..0] == [];
    assert Total(row[..1]) == 1;
    assert Total(row) == 2;
    assert FinalizedRecord(row, 0) == fin[0];
    assert FinalizedRecord(row, 1) == fin[1];
  }

  /** The walk of the example. */
  lemma ExampleWalk(t: WindowTable, fin: seq<CharData>)
    requires fin == [CharData('b', 1, 0.5, 0.5), CharData('a', 1, 0.5, 1.0)]
    requires t == map["a" := fin]
    ensures Walk(t, "a", 3, [0.7, 0.2, 0.5]) == "ab"
  {
    assert Sample(fin, 0.7) == 'a';
    assert Sample(fin, 0.2) == 'b';
    assert "a"[1..] + ['a'] == "a" && "a"[1..] + ['b'] == "b";
    assert [0.7, 0.2, 0.5][1..] == [0.2, 0.5] && [0.2, 0.5][1..] == [0.5];
    assert Walk(t, "b", 1, [0.5]) == "";
    assert Walk(t, "a", 2, [0.2, 0.5]) == "b";
  }
}
