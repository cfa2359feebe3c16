/** The indexed Series container of NumCpp: a sequence of (index, value)
    entries built from parallel vectors or from values alone, and reordered
    by ascending value.

    Values are `real`: a totally ordered stand-in for the C++ arithmetic
    `DataType` (no NaN). The index label type `I` is generic; it needs
    equality only so that entries can be counted in a multiset. */
module Series {
  import opened Wrappers

  /** One entry of the container: an index label and its value. */
  datatype Entry<I> = Entry(index: I, data: real)

  /** The container itself: entries in their current order. */
  datatype IndexedSeries<I> = IndexedSeries(entries: seq<Entry<I>>)

  /** The exception the two-vector constructor throws: a
      `std::invalid_argument` with a fixed message. */
  datatype SeriesError = InvalidArgument(message: string)

  /** The message of the size-mismatch exception; it names no sizes. */
  const MismatchMessage := "ERROR Series(data, index): both arguments must be equal-sized."

  /** The value column of a sequence of entries. */
  function Values<I>(s: seq<Entry<I>>): seq<real>
  {
    seq(|s|, i requires 0 <= i < |s| => s[i].data)
  }

  /** The index column of a sequence of entries. */
  function Labels<I>(s: seq<Entry<I>>): seq<I>
  {
    seq(|s|, i requires 0 <= i < |s| => s[i].index)
  }

  // ---------------------------------------------------------------------------
  // Construction
  // ---------------------------------------------------------------------------

  /** The constructor loop: entry i is appended from index[i] and data[i],
      for i counting up. Unzipping the result gives back both vectors. */
  function Zip<I>(data: seq<real>, index: seq<I>): (r: seq<Entry<I>>)
    requires |data| == |index|
    ensures |r| == |data|
    ensures forall i :: 0 <= i < |r| ==> r[i] == Entry(index[i], data[i])
    ensures Values(r) == data && Labels(r) == index
    decreases |data|
  {
    if |data| == 0 then []
    else
      var n := |data| - 1;
      Zip(data[..n], index[..n]) + [Entry(index[n], data[n])]
  }

  /** `Series(data, index)`: fails exactly when the vectors differ in size;
      otherwise pairs them element-wise, in order. */
  function FromVectors<I>(data: seq<real>, index: seq<I>): (r: Result<IndexedSeries<I>, SeriesError>)
    ensures r.Failure? <==> |data| != |index|
    ensures r.Failure? ==> r.error == InvalidArgument(MismatchMessage)
    ensures r.Success? ==> |r.value.entries| == |data|
    ensures r.Success? ==>
      forall i :: 0 <= i < |data| ==> r.value.entries[i] == Entry(index[i], data[i])
    ensures r.Success? ==> Values(r.value.entries) == data && Labels(r.value.entries) == index
  {
    if |data| != |index| then Failure(InvalidArgument(MismatchMessage))
    else Success(IndexedSeries(Zip(data, index)))
  }

  /** `std::iota` over a vector of size n: the labels 0, 1, ..., n-1. The
      C++ counter is an `int` (the type of the literal 0), so it overflows
      from 2^31 values on; here positions are unbounded. */
  function Iota(n: nat): (r: seq<nat>)
    ensures |r| == n
    ensures forall i :: 0 <= i < n ==> r[i] == i
  {
    if n == 0 then [] else Iota(n - 1) + [n - 1]
  }

  /** Labels converted one by one, in order. */
  function Relabel<I>(ns: seq<nat>, toLabel: nat -> I): seq<I>
  {
    seq(|ns|, i requires 0 <= i < |ns| => toLabel(ns[i]))
  }

  /** `Series(data)`: never fails; entry i is labelled with its position i,
      a `size_t`, converted to the series' index type by `toLabel` (the
      conversion `emplace_back` performs; for a `size_t` index it is the
      identity, for `uint8_t` it wraps modulo 256). */
  function FromData<I>(data: seq<real>, toLabel: nat -> I): (r: IndexedSeries<I>)
    ensures |r.entries| == |data|
    ensures forall i :: 0 <= i < |data| ==> r.entries[i] == Entry(toLabel(i), data[i])
    ensures Values(r.entries) == data
    ensures Labels(r.entries) == Relabel(Iota(|data|), toLabel)
  {
    IndexedSeries(Zip(data, Relabel(Iota(|data|), toLabel)))
  }

  /** With a `size_t` index the labels are exactly 0..n-1. */
  lemma SizeLabelsEnumerate(data: seq<real>)
    ensures Labels(FromData(data, (n: nat) => n).entries) == Iota(|data|)
  {
    var id := (n: nat) => n;
    var r := FromData(data, id);
    RelabelIdentity(Iota(|data|), id);
  }

  /** Converting by the identity changes no label. */
  lemma RelabelIdentity(ns: seq<nat>, toLabel: nat -> nat)
    requires forall n: nat :: toLabel(n) == n
    ensures Relabel(ns, toLabel) == ns
  {
    assert forall i :: 0 <= i < |ns| ==> Relabel(ns, toLabel)[i] == ns[i];
  }

  /** With a `uint8_t` index the position 256 is labelled 0 again: the
      labels of a long series repeat. */
  lemma ByteLabelsWrap(data: seq<real>)
    requires |data| > 256
    ensures var r := FromData(data, (n: nat) => n % 256);
      r.entries[256].index == r.entries[0].index == 0
  {
  }

  // ---------------------------------------------------------------------------
  // Sorting
  // ---------------------------------------------------------------------------

  /** Values do not decrease along the sequence. */
  predicate Ascending(vs: seq<real>)
  {
    forall i, j :: 0 <= i < j < |vs| ==> vs[i] <= vs[j]
  }

  /** Entry values do not decrease along the sequence. */
  predicate ValuesSorted<I>(s: seq<Entry<I>>)
  {
    Ascending(Values(s))
  }

  /** What `std::sort` by `a.data < b.data` guarantees: `after` holds the very
      same (index, value) pairs as `before`, each as often, with values
      ascending. It says nothing about the order of entries of equal value. */
  predicate IsSortOf<I(==)>(before: seq<Entry<I>>, after: seq<Entry<I>>)
  {
    multiset(after) == multiset(before) && ValuesSorted(after)
  }

  /** Places e in front of the first entry whose value is not smaller. */
  function Insert<I(==)>(e: Entry<I>, s: seq<Entry<I>>): (r: seq<Entry<I>>)
    requires ValuesSorted(s)
    ensures multiset(r) == multiset(s) + multiset{e}
    ensures ValuesSorted(r)
    decreases |s|
  {
    if |s| == 0 || e.data <= s[0].data then
      ConsSorted(e, s);
      [e] + s
    else
      TailSorted(s);
      var rest := Insert(e, s[1..]);
      BoundKept(s[0].data, e, s[1..], rest);
      ConsSorted(s[0], rest);
      ConsCount(s, rest, e);
      [s[0]] + rest
  }

  /** An entry whose value is at most the first value of a sorted sequence
      can go in front of it. */
  lemma ConsSorted<I>(x: Entry<I>, r: seq<Entry<I>>)
    requires ValuesSorted(r)
    requires |r| > 0 ==> x.data <= r[0].data
    ensures ValuesSorted([x] + r)
  {
    var v := Values([x] + r);
    forall i, j | 0 <= i < j < |v|
      ensures v[i] <= v[j]
    {
      assert v[j] == Values(r)[j - 1];
      if i > 0 {
        assert v[i] == Values(r)[i - 1];
      } else {
        assert Values(r)[0] <= Values(r)[j - 1];
      }
    }
  }

  /** The entries after the first of a sorted sequence are sorted, and the
      first value bounds them all. */
  lemma TailSorted<I>(s: seq<Entry<I>>)
    requires ValuesSorted(s) && |s| > 0
    ensures ValuesSorted(s[1..])
    ensures forall k :: 0 <= k < |s[1..]| ==> s[0].data <= s[1..][k].data
  {
    assert Values(s[1..]) == Values(s)[1..];
    forall k | 0 <= k < |s[1..]|
      ensures s[0].data <= s[1..][k].data
    {
      assert Values(s)[0] <= Values(s)[k + 1];
    }
  }

  /** Putting the first entry of s back in front of a sequence holding the
      rest of s and e gives the entries of s and e. */
  lemma ConsCount<I>(s: seq<Entry<I>>, rest: seq<Entry<I>>, e: Entry<I>)
    requires |s| > 0
    requires multiset(rest) == multiset(s[1..]) + multiset{e}
    ensures multiset([s[0]] + rest) == multiset(s) + multiset{e}
  {
    assert s == [s[0]] + s[1..];
  }

  /** A lower bound of every value in src and of e bounds every value of a
      sequence holding just the entries of src and e. */
  lemma BoundKept<I>(bound: real, e: Entry<I>, src: seq<Entry<I>>, r: seq<Entry<I>>)
    requires multiset(r) == multiset(src) + multiset{e}
    requires bound <= e.data
    requires forall k :: 0 <= k < |src| ==> bound <= src[k].data
    ensures forall k :: 0 <= k < |r| ==> bound <= r[k].data
  {
    forall k | 0 <= k < |r|
      ensures bound <= r[k].data
    {
      assert r[k] in multiset(r);
      if r[k] != e {
        assert r[k] in multiset(src);
      }
    }
  }

  /** A concrete sort meeting IsSortOf: one of the orders `std::sort` may
      produce. */
  function InsertionSort<I(==)>(s: seq<Entry<I>>): (r: seq<Entry<I>>)
    ensures IsSortOf(s, r)
    decreases |s|
  {
    if |s| == 0 then []
    else
      assert s == [s[0]] + s[1..];
      Insert(s[0], InsertionSort(s[1..]))
  }

  /** `Series::sort()`: the entries, reordered by ascending value with every
      label kept next to its value; the size does not change. */
  function Sort<I(==)>(s: IndexedSeries<I>): (r: IndexedSeries<I>)
    ensures IsSortOf(s.entries, r.entries)
    ensures |r.entries| == |s.entries|
    ensures forall k :: 0 <= k < |r.entries| ==> r.entries[k] in s.entries
  {
    var sorted := InsertionSort(s.entries);
    assert |multiset(sorted)| == |multiset(s.entries)|;
    assert forall k :: 0 <= k < |sorted| ==> sorted[k] in s.entries by {
      forall k | 0 <= k < |sorted|
        ensures sorted[k] in s.entries
      {
        assert sorted[k] in multiset(sorted);
      }
    }
    IndexedSeries(sorted)
  }

  // ---------------------------------------------------------------------------
  // Properties of sorting
  // ---------------------------------------------------------------------------

  /** Cutting the entry at position k out of a sequence takes one copy of
      its value and of its label out of the two columns. */
  lemma ColumnsRemoveAt<I>(b: seq<Entry<I>>, k: nat)
    requires k < |b|
    ensures multiset(Values(b)) == multiset{b[k].data} + multiset(Values(b[..k] + b[k+1..]))
    ensures multiset(Labels(b)) == multiset{b[k].index} + multiset(Labels(b[..k] + b[k+1..]))
  {
    assert Values(b) == Values(b[..k]) + [b[k].data] + Values(b[k+1..]);
    assert Values(b[..k] + b[k+1..]) == Values(b[..k]) + Values(b[k+1..]);
    assert Labels(b) == Labels(b[..k]) + [b[k].index] + Labels(b[k+1..]);
    assert Labels(b[..k] + b[k+1..]) == Labels(b[..k]) + Labels(b[k+1..]);
  }

  /** Removing the element at position k removes one copy of it from the
      multiset. */
  lemma MultisetRemoveAt<T>(b: seq<T>, k: nat)
    requires k < |b|
    ensures multiset(b[..k] + b[k+1..]) == multiset(b) - multiset{b[k]}
  {
    assert b == b[..k] + [b[k]] + b[k+1..];
    assert multiset(b) == multiset(b[..k]) + multiset{b[k]} + multiset(b[k+1..]);
  }

  /** Reordering entries keeps the multiset of values and of labels: no value
      is separated from the count of its label. */
  lemma {:induction false} PermutationKeepsColumns<I>(a: seq<Entry<I>>, b: seq<Entry<I>>)
    requires multiset(a) == multiset(b)
    ensures multiset(Values(a)) == multiset(Values(b))
    ensures multiset(Labels(a)) == multiset(Labels(b))
    decreases |a|
  {
    if |a| == 0 {
      assert |multiset(b)| == 0;
      assert b == [];
    } else {
      var i: nat := 0;
      var e := a[i];
      assert e in multiset(b);
      var k :| 0 <= k < |b| && b[k] == e;
      var a' := a[..i] + a[i+1..];
      var b' := b[..k] + b[k+1..];
      MultisetRemoveAt(a, i);
      MultisetRemoveAt(b, k);
      PermutationKeepsColumns(a', b');
      ColumnsRemoveAt(a, i);
      ColumnsRemoveAt(b, k);
    }
  }

  /** Two ascending value sequences holding the same multiset are equal. */
  lemma {:induction false} AscendingUnique(a: seq<real>, b: seq<real>)
    requires Ascending(a) && Ascending(b)
    requires multiset(a) == multiset(b)
    ensures a == b
    decreases |a|
  {
    assert |a| == |multiset(a)| == |multiset(b)| == |b|;
    if |a| > 0 {
      LeastFirst(a, b);
      LeastFirst(b, a);
      var first: nat := 0;
      MultisetRemoveAt(a, first);
      MultisetRemoveAt(b, first);
      assert a[..first] + a[first + 1..] == a[1..];
      assert b[..first] + b[first + 1..] == b[1..];
      AscendingUnique(a[1..], b[1..]);
    }
  }

  /** The first value of an ascending sequence is no larger than any value
      of a sequence with the same multiset. */
  lemma LeastFirst(a: seq<real>, b: seq<real>)
    requires Ascending(a) && |a| > 0 && |b| > 0
    requires multiset(a) == multiset(b)
    ensures a[0] <= b[0]
  {
    assert b[0] in multiset(a);
    var i :| 0 <= i < |a| && a[i] == b[0];
  }


  /** Every sort of the same entries yields the same value sequence, however
      it arranges entries of equal value. */
  lemma SortedValuesDetermined<I>(s: seq<Entry<I>>, a: seq<Entry<I>>, b: seq<Entry<I>>)
    requires IsSortOf(s, a) && IsSortOf(s, b)
    ensures Values(a) == Values(b)
  {
    PermutationKeepsColumns(a, b);
    AscendingUnique(Values(a), Values(b));
  }

  /** Sorting a sorted series again leaves the value sequence as it was. */
  lemma SortTwiceSameValues<I>(s: seq<Entry<I>>, once: seq<Entry<I>>, twice: seq<Entry<I>>)
    requires IsSortOf(s, once) && IsSortOf(once, twice)
    ensures Values(twice) == Values(once)
    ensures |twice| == |s|
  {
    assert |multiset(twice)| == |multiset(s)|;
    SortedValuesDetermined(s, once, twice);
  }

  /** On an input already ascending by value, sorting keeps the value
      sequence (labels of equal values may still move). */
  lemma SortOfSortedKeepsValues<I>(s: seq<Entry<I>>, a: seq<Entry<I>>)
    requires ValuesSorted(s) && IsSortOf(s, a)
    ensures Values(a) == Values(s)
  {
    SortedValuesDetermined(s, a, s);
  }

  /** A series of zero or one entries is left exactly as it was. */
  lemma SortOfShortIsIdentity<I>(s: seq<Entry<I>>, a: seq<Entry<I>>)
    requires |s| <= 1 && IsSortOf(s, a)
    ensures a == s
  {
    assert |a| == |multiset(a)| == |multiset(s)| == |s|;
    if |s| == 1 {
      assert a[0] in multiset(s);
    }
  }

  /** The sort relation fixes no order among equal values: both arrangements
      of two entries of equal value are sorts of each other. */
  lemma EqualValuesMayTrade<I>(x: Entry<I>, y: Entry<I>)
    requires x.data == y.data && x != y
    ensures IsSortOf([x, y], [x, y]) && IsSortOf([x, y], [y, x])
    ensures [x, y] != [y, x]
  {
    assert multiset([y, x]) == multiset([x, y]);
  }

  /** Sorting a series built from values alone keeps its labels a permutation
      of 0..n-1 and its values a permutation of the input. */
  lemma SortedEnumerationKeepsLabels(data: seq<real>)
    ensures var sorted := Sort(FromData(data, (n: nat) => n)).entries;
      && multiset(Labels(sorted)) == multiset(Iota(|data|))
      && multiset(Values(sorted)) == multiset(data)
      && Ascending(Values(sorted))
  {
    var built := FromData(data, (n: nat) => n);
    var sorted := Sort(built).entries;
    SizeLabelsEnumerate(data);
    PermutationKeepsColumns(sorted, built.entries);
  }
}
