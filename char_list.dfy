/** The association list of frequency records that backs one row of the
    model: a chain of nodes, seen here as the sequence of records it holds,
    together with the separately maintained `size` counter. */
module CharList {
  import opened CharRecords

  /** At most one record per character. */
  ghost predicate Distinct(s: seq<CharData>)
  {
    forall i, j :: 0 <= i < j < |s| ==> s[i].chr != s[j].chr
  }

  /** Position of the first record for `c`, or -1 when there is none. */
  function IndexIn(s: seq<CharData>, c: char): (i: int)
    ensures -1 <= i < |s|
    ensures i == -1 <==> forall k :: 0 <= k < |s| ==> s[k].chr != c
    ensures 0 <= i ==> s[i].chr == c && forall k :: 0 <= k < i ==> s[k].chr != c
  {
    if s == [] then -1
    else if s[0].chr == c then 0
    else
      var j := IndexIn(s[1..], c);
      if j == -1 then -1 else j + 1
  }

  /** How often `c` has been counted in the row: the count of its first
      record, 0 when it has none. */
  function CountOf(s: seq<CharData>, c: char): int
  {
    var i := IndexIn(s, c);
    if i == -1 then 0 else s[i].count
  }

  /** The records after `update(c)`: the first record for `c` counted once
      more, or a fresh record for `c` put in front. */
  function UpdatedRow(s: seq<CharData>, c: char): seq<CharData>
  {
    var i := IndexIn(s, c);
    if i == -1 then [Fresh(c)] + s
    else s[i := s[i].(count := s[i].count + 1)]
  }

  /** The records after `remove(c)`: the first record for `c` taken out. */
  function Removed(s: seq<CharData>, c: char): seq<CharData>
  {
    var i := IndexIn(s, c);
    if i == -1 then s else s[..i] + s[i + 1..]
  }

  /** `update(c)` counts `c` once more and leaves every other character's
      count alone. */
  lemma UpdatedRowCounts(s: seq<CharData>, c: char, d: char)
    ensures CountOf(UpdatedRow(s, c), d) == CountOf(s, d) + (if d == c then 1 else 0)
  {
    var i := IndexIn(s, c);
    if i == -1 {
      IndexInPrepend(s, Fresh(c), d);
    } else {
      var r := UpdatedRow(s, c);
      IndexInSameChars(s, r, d);
    }
  }

  /** A record put in front is found first for its own character and
      shifts every other character's position by one. */
  lemma IndexInPrepend(s: seq<CharData>, f: CharData, d: char)
    ensures IndexIn([f] + s, d) ==
              if f.chr == d then 0 else if IndexIn(s, d) == -1 then -1 else IndexIn(s, d) + 1
  {
    assert ([f] + s)[1..] == s;
  }

  /** Records with the same characters in the same order are found at the
      same positions. */
  lemma IndexInSameChars(s: seq<CharData>, r: seq<CharData>, c: char)
    requires |r| == |s|
    requires forall k :: 0 <= k < |s| ==> r[k].chr == s[k].chr
    ensures IndexIn(r, c) == IndexIn(s, c)
  {
  }

  /** `update(c)` on a row holding each character at most once yields such a
      row again, and the row then holds `c`. */
  lemma UpdatedRowDistinct(s: seq<CharData>, c: char)
    requires Distinct(s)
    ensures Distinct(UpdatedRow(s, c))
    ensures IndexIn(UpdatedRow(s, c), c) != -1
  {
    var r := UpdatedRow(s, c);
    if IndexIn(s, c) == -1 {
      forall i, j | 0 <= i < j < |r| ensures r[i].chr != r[j].chr {
        if i > 0 { assert r[i] == s[i - 1] && r[j] == s[j - 1]; }
        else { assert r[j] == s[j - 1]; }
      }
      assert r[0].chr == c;
    } else {
      assert r[IndexIn(s, c)].chr == c;
    }
  }

  /** `remove(c)` on a row holding each character at most once leaves no
      record for `c` and keeps the row duplicate-free. */
  lemma RemovedAbsent(s: seq<CharData>, c: char)
    requires Distinct(s)
    ensures Distinct(Removed(s, c))
    ensures IndexIn(Removed(s, c), c) == -1
    ensures |Removed(s, c)| == if IndexIn(s, c) == -1 then |s| else |s| - 1
  {
    var i := IndexIn(s, c);
    if i != -1 {
      CutDistinct(s, i);
      CutLacks(s, i, c, s[..i] + s[i + 1..]);
    }
  }

  /** Cutting record `i` out of a duplicate-free row leaves it duplicate-free. */
  lemma CutDistinct(s: seq<CharData>, i: nat)
    requires Distinct(s) && i < |s|
    ensures Distinct(s[..i] + s[i + 1..])
  {
    var r := s[..i] + s[i + 1..];
    forall a, b | 0 <= a < b < |r| ensures r[a].chr != r[b].chr {
      CutAt(s, i, a);
      CutAt(s, i, b);
    }
  }

  /** Cutting out the only record for `c` leaves none for it. */
  lemma CutLacks(s: seq<CharData>, i: nat, c: char, r: seq<CharData>)
    requires Distinct(s) && i < |s| && s[i].chr == c
    requires r == s[..i] + s[i + 1..]
    ensures forall k :: 0 <= k < |r| ==> r[k].chr != c
  {
    forall k | 0 <= k < |r| ensures r[k].chr != c {
      CutAt(s, i, k);
    }
  }

  /** Position `k` of a row with record `i` cut out. */
  lemma CutAt(s: seq<CharData>, i: nat, k: nat)
    requires i < |s| && k < |s| - 1
    ensures (s[..i] + s[i + 1..])[k] == if k < i then s[k] else s[k + 1]
  {
  }

  /** A character-data list: `elems` stands for the chain of nodes starting
      at `first`, `size` for the counter the class keeps beside it. */
  class List {
    var elems: seq<CharData>
    var size: int

    /** What every operation keeps: the counter never falls below the number
        of records in the chain. */
    ghost predicate Valid()
      reads this
    {
      |elems| <= size
    }

    /** What the field comment promises: the counter is the number of
        records. */
    ghost predicate SizeExact()
      reads this
    {
      size == |elems|
    }

    /** An empty list. */
    constructor ()
      ensures Valid() && SizeExact()
      ensures elems == [] && size == 0
    {
      elems := [];
      size := 0;
    }

    /** The counter. */
    method GetSize() returns (n: int)
      ensures n == size
    {
      n := size;
    }

    /** The first record; an empty chain has no first node to read. */
    method GetFirst() returns (r: Result<CharData>)
      ensures r.Ok? <==> elems != []
      ensures r.Ok? ==> r.value == elems[0]
      ensures r.Throws? ==> r.error == NullPointer
    {
      if elems == [] {
        r := Throws(NullPointer);
      } else {
        r := Ok(elems[0]);
      }
    }

    /** Puts a fresh record for `c` in front of the others. */
    method AddFirst(c: char)
      requires Valid()
      modifies this
      ensures Valid()
      ensures elems == [Fresh(c)] + old(elems)
      ensures size == old(size) + 1
      ensures old(SizeExact()) ==> SizeExact()
    {
      elems := [Fresh(c)] + elems;
      size := size + 1;
    }

    /** Index of the first record for `c`, scanning from the front, or -1. */
    method IndexOf(c: char) returns (index: int)
      ensures index == IndexIn(elems, c)
    {
      index := 0;
      while index < |elems|
        invariant 0 <= index <= |elems|
        invariant forall k :: 0 <= k < index ==> elems[k].chr != c
      {
        if elems[index].chr == c {
          return;
        }
        index := index + 1;
      }
      index := -1;
    }

    /** Increments the count of `c`'s record, or puts a fresh record for `c`
        in front, as written: the insert branch bumps the counter a second
        time after `AddFirst` has already done so. */
    method Update(c: char)
      requires Valid()
      modifies this
      ensures Valid()
      ensures elems == UpdatedRow(old(elems), c)
      ensures size == old(size) + (if IndexIn(old(elems), c) == -1 then 2 else 0)
    {
      var index := IndexOf(c);
      if index == -1 {
        AddFirst(c);
        size := size + 1;
      } else {
        var inc := Get(index);
        elems := elems[index := inc.value.(count := inc.value.count + 1)];
      }
    }

    /** `Update` with the counter incremented once only, which keeps the
        counter equal to the number of records. */
    method UpdateCorrected(c: char)
      requires Valid()
      modifies this
      ensures Valid()
      ensures elems == UpdatedRow(old(elems), c)
      ensures size == old(size) + (if IndexIn(old(elems), c) == -1 then 1 else 0)
      ensures old(SizeExact()) ==> SizeExact()
    {
      var index := IndexOf(c);
      if index == -1 {
        AddFirst(c);
      } else {
        var inc := Get(index);
        elems := elems[index := inc.value.(count := inc.value.count + 1)];
      }
    }

    /** Unlinks the first record for `c`, reporting whether there was one. */
    method Remove(c: char) returns (removed: bool)
      requires Valid()
      modifies this
      ensures Valid()
      ensures removed <==> IndexIn(old(elems), c) != -1
      ensures elems == Removed(old(elems), c)
      ensures size == if removed then old(size) - 1 else old(size)
      ensures old(SizeExact()) ==> SizeExact()
    {
      var k := 0;
      while k < |elems|
        invariant 0 <= k <= |elems|
        invariant forall j :: 0 <= j < k ==> elems[j].chr != c
        invariant elems == old(elems) && size == old(size)
      {
        if elems[k].chr == c {
          if k == 0 {
            elems := elems[1..];
          } else {
            elems := elems[..k] + elems[k + 1..];
          }
          size := size - 1;
          return true;
        }
        k := k + 1;
      }
      return false;
    }

    /** The record at `index`. The bounds test is against the counter; an
        index the counter admits but the chain does not reach runs off the
        end of the chain. */
    method Get(index: int) returns (r: Result<CharData>)
      ensures r == Throws(IndexOutOfBounds) <==> index < 0 || size <= index
      ensures 0 <= index < size && index < |elems| ==> r == Ok(elems[index])
      ensures 0 <= index < size && |elems| <= index ==> r == Throws(NullPointer)
    {
      if index < 0 || index >= size {
        return Throws(IndexOutOfBounds);
      }
      var counter := 0;
      while counter < index && counter < |elems|
        invariant 0 <= counter <= index
        invariant counter <= |elems|
      {
        counter := counter + 1;
      }
      if counter == |elems| {
        r := Throws(NullPointer);
      } else {
        r := Ok(elems[counter]);
      }
    }

    /** A new array of `size` slots holding the records in order; slots the
        chain does not reach stay null. */
    method ToArray() returns (arr: array<Option<CharData>>)
      requires Valid()
      ensures fresh(arr) && arr.Length == size
      ensures forall k :: 0 <= k < |elems| ==> arr[k] == Some(elems[k])
      ensures forall k :: |elems| <= k < size ==> arr[k] == None
    {
      arr := new Option<CharData>[size](_ => None);
      var i := 0;
      while i < |elems|
        invariant 0 <= i <= |elems|
        invariant forall k :: 0 <= k < i ==> arr[k] == Some(elems[k])
        invariant forall k :: i <= k < size ==> arr[k] == None
      {
        arr[i] := Some(elems[i]);
        i := i + 1;
      }
    }

    /** An iterator starting at position `index`, given as the records it
        will yield; null for a list whose counter is 0, and a null
        dereference when `index` lies beyond the end of the chain. */
    method ListIterator(index: int) returns (r: Result<Option<seq<CharData>>>)
      requires Valid()
      ensures size == 0 ==> r == Ok(None)
      ensures size != 0 && index <= |elems| ==> r == Ok(Some(elems[if index < 0 then 0 else index..]))
      ensures size != 0 && |elems| < index ==> r == Throws(NullPointer)
    {
      if size == 0 {
        return Ok(None);
      }
      var i := 0;
      while i < index
        invariant 0 <= i <= |elems|
        invariant i <= index || i == 0
      {
        if i == |elems| {
          return Throws(NullPointer);
        }
        i := i + 1;
      }
      r := Ok(Some(elems[i..]));
    }
  }

  /** `update` as written, on a new list: one character leaves a counter of
      2 over a single record, so `get(1)` passes the bounds test and runs
      off the end of the chain. */
  method UpdateDriftWitness() returns (size: int, records: int, second: Result<CharData>)
    ensures size == 2 && records == 1 && second == Throws(NullPointer)
  {
    var l := new List();
    l.Update('a');
    size := l.GetSize();
    records := |l.elems|;
    second := l.Get(1);
  }

  /** `update` with the counter bumped once: the same call leaves a counter
      of 1, and `get(1)` is out of bounds. */
  method UpdateCorrectedWitness() returns (size: int, records: int, second: Result<CharData>)
    ensures size == 1 && records == 1 && second == Throws(IndexOutOfBounds)
  {
    var l := new List();
    l.UpdateCorrected('a');
    size := l.GetSize();
    records := |l.elems|;
    second := l.Get(1);
  }

  /** The lookup the model relies on, `get(indexOf(c))`: on a list whose
      counter covers its records it finds the record for `c` whenever one
      exists, never dereferences null, and is out of bounds only when no
      record holds `c`. */
  method GetRecord(l: List, c: char) returns (r: Result<CharData>)
    requires l.Valid()
    ensures r.Ok? || r == Throws(IndexOutOfBounds)
    ensures r.Ok? ==> r.value.chr == c && r.value in l.elems
    ensures r == Throws(IndexOutOfBounds) <==> forall k :: 0 <= k < |l.elems| ==> l.elems[k].chr != c
  {
    var index := l.IndexOf(c);
    r := l.Get(index);
  }
}
