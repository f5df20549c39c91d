/** The language model: a window length and a table from windows to rows,
    trained over a corpus and walked to generate text. */
module LanguageModels {
  import opened CharList
  import opened Probabilities
  import opened TrainingSpec
  import opened GenerationSpec

  class LanguageModel {
    /** The window length, fixed at construction. */
    const windowLength: int
    /** The table from windows to their rows. */
    var charDataMap: map<string, List>
    /** The table as values: each window's records. */
    ghost var table: WindowTable

    /** The model's invariant: a positive window length; each window owns a
        row of its own whose counter matches its records; `table` holds the
        rows' records; the table is well formed for the window length. */
    ghost predicate Valid()
      reads this, charDataMap.Values
    {
      && windowLength >= 1
      && RowsOwned()
      && RowsExact()
      && Abstracts()
      && WellFormedTable(table, windowLength)
    }

    /** Every window owns a row of its own. */
    ghost predicate RowsOwned()
      reads this
    {
      forall w, w' :: w in charDataMap && w' in charDataMap && w != w' ==> charDataMap[w] != charDataMap[w']
    }

    /** Every row's counter matches its records. */
    ghost predicate RowsExact()
      reads this, charDataMap.Values
    {
      forall w :: w in charDataMap ==> charDataMap[w].SizeExact()
    }

    /** `table` holds, for each window, the records of its row. */
    ghost predicate Abstracts()
      reads this, charDataMap.Values
    {
      && charDataMap.Keys == table.Keys
      && forall w :: w in charDataMap ==> charDataMap[w].elems == table[w]
    }

    /** No row's counter is 0, so each row can be iterated. */
    ghost predicate RowsNonEmpty()
      reads this, charDataMap.Values
    {
      forall w :: w in charDataMap ==> charDataMap[w].size != 0
    }

    /** The model's invariant provides every row with a non-zero counter. */
    lemma ValidRowsNonEmpty()
      requires Valid()
      ensures RowsNonEmpty()
    {
      forall w | w in charDataMap ensures charDataMap[w].size != 0 {
        assert table[w] != [];
      }
    }

    /** A model with the given window length and an empty table. */
    constructor (windowLength: int)
      requires windowLength >= 1
      ensures Valid()
      ensures this.windowLength == windowLength && table == map[]
    {
      this.windowLength := windowLength;
      charDataMap := map[];
      table := map[];
    }

    /** Slides a window of `windowLength` characters over the corpus,
        counting each successor in the row of the window before it, then
        computes the probabilities of every row. */
    method Train(corpus: string)
      requires Valid()
      modifies this, charDataMap.Values
      ensures Valid()
      ensures forall l :: l in charDataMap.Values ==> l in old(charDataMap.Values) || fresh(l)
      ensures table == Trained(old(table), corpus, windowLength)
    {
      ghost var t0 := table;
      var window := "";
      var pos := 0;
      while pos < windowLength && pos < |corpus|
        invariant 0 <= pos <= |corpus| && pos <= windowLength
        invariant window == corpus[..pos]
      {
        window := window + [corpus[pos]];
        pos := pos + 1;
      }
      // Past the first loop, either the window is full or the corpus is used
      // up, in which case the main loop would not run.
      if pos == windowLength {
        CountSuccessors(corpus, window);
      }
      assert table == if |corpus| <= windowLength then t0 else Counted(t0, corpus, windowLength, |corpus|);
      TrainedSteps(t0, corpus, windowLength);
      FinalizeRows();
    }

    /** The main loop of training: slides the window over the rest of the
        corpus, counting each character after the window before it. */
    method CountSuccessors(corpus: string, firstWindow: string)
      requires windowLength >= 1 && windowLength <= |corpus| && firstWindow == corpus[..windowLength]
      requires RowsOwned() && RowsExact() && Abstracts()
      modifies this, charDataMap.Values
      ensures RowsOwned() && RowsExact() && Abstracts()
      ensures forall l :: l in charDataMap.Values ==> l in old(charDataMap.Values) || fresh(l)
      ensures table == Counted(old(table), corpus, windowLength, |corpus|)
    {
      ghost var t0 := table;
      var window := firstWindow;
      var pos := windowLength;
      while pos < |corpus|
        invariant windowLength <= pos <= |corpus|
        invariant window == Window(corpus, windowLength, pos)
        invariant RowsOwned() && RowsExact() && Abstracts()
        invariant table == Counted(t0, corpus, windowLength, pos)
        invariant forall l :: l in charDataMap.Values ==> l in old(charDataMap.Values) || fresh(l)
      {
        var ch := corpus[pos];
        window := CountSuccessor(window, ch, t0, corpus, pos);
        pos := pos + 1;
      }
    }

    /** The loop body of training: counts `ch` in the row of `window`,
        creating a row holding one fresh record when the window is new. */
    method CountSuccessor(window: string, ch: char, ghost t0: WindowTable, ghost corpus: string, ghost pos: nat)
      returns (next: string)
      requires windowLength >= 1 && windowLength <= pos < |corpus| && ch == corpus[pos]
      requires window == Window(corpus, windowLength, pos)
      requires table == Counted(t0, corpus, windowLength, pos)
      requires RowsOwned() && RowsExact() && Abstracts()
      modifies this, charDataMap.Values
      ensures RowsOwned() && RowsExact() && Abstracts()
      ensures forall l :: l in charDataMap.Values ==> l in old(charDataMap.Values) || fresh(l)
      ensures table == Counted(t0, corpus, windowLength, pos + 1)
      ensures next == Window(corpus, windowLength, pos + 1)
    {
      if window in charDataMap {
        var curr := charDataMap[window];
        CountSeen(window, curr, ch);
      } else {
        AddRow(window, ch);
      }
      SlideWindow(corpus, windowLength, pos);
      next := window[1..] + [ch];
    }

    /** Counts `ch` once more in `curr`, the row of a window already held. */
    method CountSeen(window: string, curr: List, ch: char)
      requires window in charDataMap && charDataMap[window] == curr
      requires RowsOwned() && RowsExact() && Abstracts()
      modifies this, curr
      ensures charDataMap == old(charDataMap)
      ensures RowsOwned() && RowsExact() && Abstracts()
      ensures table == Step(old(table), window, ch)
    {
      curr.UpdateCorrected(ch);
      forall w | w in charDataMap && w != window
        ensures charDataMap[w].elems == table[w] && charDataMap[w].SizeExact()
      {
        assert charDataMap[w] != curr;
      }
      table := Step(table, window, ch);
    }

    /** Gives a window not yet held a row holding one fresh record for `ch`. */
    method AddRow(window: string, ch: char)
      requires window !in charDataMap
      requires RowsOwned() && RowsExact() && Abstracts()
      modifies this
      ensures RowsOwned() && RowsExact() && Abstracts()
      ensures charDataMap.Keys == old(charDataMap.Keys) + {window} && fresh(charDataMap[window])
      ensures forall w :: w in old(charDataMap) ==> charDataMap[w] == old(charDataMap[w])
      ensures table == Step(old(table), window, ch)
    {
      var lis := new List();
      lis.AddFirst(ch);
      charDataMap := charDataMap[window := lis];
      table := Step(table, window, ch);
    }

    /** The closing loop of training: computes the probabilities of every
        row, one row at a time in an unspecified order. */
    method FinalizeRows()
      requires RowsOwned() && RowsExact() && Abstracts()
      requires forall w :: w in table ==> table[w] != [] && PositiveCounts(table[w])
      modifies this, charDataMap.Values
      ensures charDataMap == old(charDataMap)
      ensures RowsOwned() && RowsExact() && Abstracts()
      ensures table == FinalizeTable(old(table))
    {
      var todo := charDataMap.Values;
      while todo != {}
        invariant todo <= charDataMap.Values
        invariant charDataMap == old(charDataMap) && table == old(table)
        invariant charDataMap.Keys == table.Keys
        invariant RowsExact() && FinalizedOutside(todo)
        decreases todo
      {
        var probs :| probs in todo;
        FinalizeOne(probs, todo);
        todo := todo - {probs};
      }
      table := FinalizeTable(table);
    }

    /** Every row outside `todo` holds its finalised records, every row in
        it its counted ones. */
    ghost predicate FinalizedOutside(todo: set<List>)
      reads this, charDataMap.Values
      requires charDataMap.Keys == table.Keys
      requires forall w :: w in table ==> PositiveCounts(table[w])
    {
      forall w :: w in charDataMap ==>
        charDataMap[w].elems == if charDataMap[w] in todo then table[w] else FinalizeRow(table[w])
    }

    /** One pass of the closing loop: finalises `probs`, a row still to do. */
    method FinalizeOne(probs: List, ghost todo: set<List>)
      requires probs in todo && todo <= charDataMap.Values
      requires RowsOwned() && RowsExact() && charDataMap.Keys == table.Keys
      requires forall w :: w in table ==> table[w] != [] && PositiveCounts(table[w])
      requires FinalizedOutside(todo)
      modifies probs
      ensures RowsExact() && FinalizedOutside(todo - {probs})
    {
      ghost var w0 :| w0 in charDataMap && charDataMap[w0] == probs;
      CalculateProbabilities(probs);
      forall w | w in charDataMap
        ensures charDataMap[w].elems == if charDataMap[w] in todo - {probs} then table[w] else FinalizeRow(table[w])
      {
        if w != w0 {
          assert charDataMap[w] != probs;
        }
      }
    }

    /** Sets each record's `p` to its count over the row's total and its
        `cp` to the running total of counts, in row order, over the row's
        total. */
    method CalculateProbabilities(probs: List)
      requires probs.size != 0
      requires PositiveCounts(probs.elems)
      modifies probs
      ensures probs.elems == FinalizeRow(old(probs.elems))
      ensures probs.size == old(probs.size)
    {
      ghost var s := probs.elems;
      var letters := 0;
      var k := 0;
      while k < |probs.elems|
        invariant 0 <= k <= |s|
        invariant letters == Total(s[..k])
        invariant probs.elems == s && probs.size == old(probs.size)
      {
        TotalSnoc(s, k);
        letters := letters + probs.elems[k].count;
        k := k + 1;
      }
      assert s[..|s|] == s;
      if s != [] {
        TotalPositive(s);
      }
      ghost var r := FinalizeRow(s);
      var totalCount := 0;
      k := 0;
      while k < |probs.elems|
        invariant 0 <= k <= |probs.elems| == |s|
        invariant totalCount == Total(s[..k])
        invariant forall j :: 0 <= j < k ==> probs.elems[j] == r[j]
        invariant forall j :: k <= j < |s| ==> probs.elems[j] == s[j]
        invariant probs.size == old(probs.size)
      {
        TotalSnoc(s, k);
        var curr := probs.elems[k];
        totalCount := totalCount + curr.count;
        probs.elems := probs.elems[k := curr.(p := curr.count as real / letters as real,
                                              cp := totalCount as real / letters as real)];
        assert probs.elems[k] == FinalizedRecord(s, k);
        k := k + 1;
      }
    }

    /** The character of the first record whose `cp` reaches `draw`, or a
        blank when no record does. */
    method GetRandomChar(probs: List, draw: real) returns (c: char)
      requires probs.size != 0
      ensures c == Sample(probs.elems, draw)
    {
      var k := 0;
      while k < |probs.elems|
        invariant 0 <= k <= |probs.elems|
        invariant forall j :: 0 <= j < k ==> probs.elems[j].cp < draw
      {
        if probs.elems[k].cp >= draw {
          return probs.elems[k].chr;
        }
        k := k + 1;
      }
      return ' ';
    }

    /** Starting from the last `windowLength` characters of `initialText`,
        appends up to `textLength` characters, one per draw, each sampled
        from the row of the current window; stops early at a window the
        table does not hold. A text shorter than the window comes back
        unchanged. */
    method Generate(initialText: string, textLength: int, draws: seq<real>) returns (output: string)
      requires windowLength >= 1 && RowsNonEmpty() && Abstracts()
      requires textLength <= |draws|
      ensures |initialText| < windowLength ==> output == initialText
      ensures windowLength <= |initialText| ==>
                output == initialText + Walk(table, initialText[|initialText| - windowLength..],
                                             if textLength < 0 then 0 else textLength, draws)
    {
      if |initialText| < windowLength {
        return initialText;
      }
      var window := initialText[|initialText| - windowLength..];
      output := initialText;
      ghost var t := table;
      ghost var n: nat := if textLength < 0 then 0 else textLength;
      ghost var whole := initialText + Walk(t, window, n, draws);
      assert draws[0..] == draws;
      var i := 0;
      while i < textLength
        invariant 0 <= i <= n
        invariant |window| == windowLength
        invariant whole == output + Walk(t, window, n - i, draws[i..])
      {
        if window !in charDataMap {
          assert Walk(t, window, n - i, draws[i..]) == "";
          assert output == whole;
          return output;
        }
        var curr := charDataMap[window];
        var next := GetRandomChar(curr, draws[i]);
        assert draws[i..][0] == draws[i] && draws[i..][1..] == draws[i + 1..];
        ghost var rest := Walk(t, window[1..] + [next], n - i - 1, draws[i + 1..]);
        assert Walk(t, window, n - i, draws[i..]) == [next] + rest;
        assert whole == (output + [next]) + rest;
        output := output + [next];
        window := window[1..] + [next];
        i := i + 1;
      }
      assert Walk(t, window, n - i, draws[i..]) == "";
      assert output == whole;
    }
  }
}
