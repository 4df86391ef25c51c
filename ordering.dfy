/** Sort keys and the in-place exchange sort of `sorting_tiket` in
    `tiket.c`. The `qsort` of `tiket_baru.c` is modelled by the same sort,
    whose contract promises only what `qsort` promises: a permutation that
    is ordered by the comparator. */
module Ordering {
  import opened Text
  import opened Tickets

  /** tiket.c: 1 = price ascending, 2 = price descending, 3 = name A-Z.
      tiket_baru.c: `bandingkan_harga` and `bandingkan_nama`. */
  datatype Key = PriceAscending | PriceDescending | NameAscending

  /** The menu option of `tiket.c` that selects a key; any other option
      selects none, and then no pair is ever swapped. */
  function KeyOfOption(option: int): (k: Option<Key>)
    ensures k.None? <==> option != 1 && option != 2 && option != 3
  {
    if option == 1 then Some(PriceAscending)
    else if option == 2 then Some(PriceDescending)
    else if option == 3 then Some(NameAscending)
    else None
  }

  /** The `tukar` test: the neighbours x, y are in the wrong order. It is
      also the condition under which the `qsort` comparator is positive.
      The tests are strict, so two records with equal keys are never out of
      order. */
  predicate OutOfOrder(key: Key, x: Ticket, y: Ticket): (r: bool)
    ensures r && key != NameAscending ==> x.price != y.price
    ensures r && key == NameAscending ==> x.name != y.name
  {
    match key
    case PriceAscending => x.price > y.price
    case PriceDescending => x.price < y.price
    case NameAscending => StrCmp(x.name, y.name) > 0
  }

  predicate InOrder(key: Key, x: Ticket, y: Ticket)
  {
    !OutOfOrder(key, x, y)
  }

  predicate SortedBy(s: seq<Ticket>, key: Key)
  {
    forall i, j :: 0 <= i < j < |s| ==> InOrder(key, s[i], s[j])
  }

  lemma InOrderTransitive(key: Key, x: Ticket, y: Ticket, z: Ticket)
    requires InOrder(key, x, y) && InOrder(key, y, z)
    ensures InOrder(key, x, z)
  {
    if key == NameAscending {
      StrCmpTransitive(x.name, y.name, z.name);
    }
  }

  /** Swapping a pair that is out of order puts it in order. */
  lemma SwapPutsInOrder(key: Key, x: Ticket, y: Ticket)
    requires OutOfOrder(key, x, y)
    ensures InOrder(key, y, x)
  {
    if key == NameAscending {
      StrCmpAntisymmetric(x.name, y.name);
    }
  }

  /** What each key means for a sorted store. */
  lemma SortedByMeaning(s: seq<Ticket>, key: Key, i: int, j: int)
    requires SortedBy(s, key) && 0 <= i < j < |s|
    ensures key == PriceAscending ==> s[i].price <= s[j].price
    ensures key == PriceDescending ==> s[i].price >= s[j].price
    ensures key == NameAscending ==> StrCmp(s[i].name, s[j].name) <= 0
  {
  }

  /** Whether the sort swaps the neighbours x, y. */
  predicate Swaps(key: Option<Key>, x: Ticket, y: Ticket)
  {
    key.Some? && OutOfOrder(key.value, x, y)
  }

  /** Every record before position m is in order with every record from m
      up to n. */
  predicate Partitioned(s: seq<Ticket>, m: int, n: int, key: Key)
    requires 0 <= m <= n <= |s|
  {
    forall p, q :: 0 <= p < m <= q < n ==> InOrder(key, s[p], s[q])
  }

  /** The records from m up to n are sorted. */
  predicate SortedSlice(s: seq<Ticket>, m: int, n: int, key: Key)
    requires 0 <= m <= n <= |s|
  {
    forall p, q :: m <= p < q < n ==> InOrder(key, s[p], s[q])
  }

  /** The nested loops of `sorting_tiket` in `tiket.c` over the first `n`
      records of `a`: each pass bubbles the largest remaining record to the
      end of the unsorted prefix. Without a key no pair is swapped. */
  method BubbleSort(a: array<Ticket>, n: nat, key: Option<Key>)
    requires n <= a.Length
    modifies a
    ensures a[n..] == old(a[n..])
    ensures multiset(a[..n]) == multiset(old(a[..n]))
    ensures key.Some? ==> SortedBy(a[..n], key.value)
    ensures key.None? ==> a[..] == old(a[..])
  {
    var i := 0;
    while i < n - 1
      invariant 0 <= i && (n == 0 ==> i == 0) && (n > 0 ==> i <= n - 1)
      invariant a[n..] == old(a[n..])
      invariant multiset(a[..n]) == multiset(old(a[..n]))
      invariant key.None? ==> a[..] == old(a[..])
      invariant key.Some? ==> SortedSlice(a[..], n - i, n, key.value)
      invariant key.Some? ==> Partitioned(a[..], n - i, n, key.value)
    {
      SortStep(a, n, key, i);
      i := i + 1;
    }
    if key.Some? {
      assert SortedSlice(a[..], 0, n, key.value);
      assert a[..n] == a[..][..n];
    }
  }

  /** One turn of the outer loop: a pass over the unsorted prefix of length
      n-i grows the sorted part at the end by one record and permutes the
      first n records. */
  method SortStep(a: array<Ticket>, n: nat, key: Option<Key>, i: nat)
    requires i + 1 < n <= a.Length
    requires key.Some? ==> SortedSlice(a[..], n - i, n, key.value) && Partitioned(a[..], n - i, n, key.value)
    modifies a
    ensures a[n..] == old(a[n..])
    ensures multiset(a[..n]) == multiset(old(a[..n]))
    ensures key.None? ==> a[..] == old(a[..])
    ensures key.Some? ==> SortedSlice(a[..], n - i - 1, n, key.value) && Partitioned(a[..], n - i - 1, n, key.value)
  {
    ghost var before := a[..];
    BubblePass(a, n, n - i, key);
    PrefixPermutation(before, a[..], n - i, n);
    if key.Some? {
      PassExtendsSorted(before, a[..], n - i, n, key.value);
    }
  }

  /** Permuting a prefix and keeping the rest permutes every longer prefix. */
  lemma PrefixPermutation(before: seq<Ticket>, after: seq<Ticket>, m: int, n: int)
    requires 0 <= m <= n <= |before| == |after|
    requires after[m..] == before[m..]
    requires multiset(after[..m]) == multiset(before[..m])
    ensures multiset(after[..n]) == multiset(before[..n])
    ensures after[n..] == before[n..]
  {
    assert after[..n] == after[..m] + after[m..n];
    assert before[..n] == before[..m] + before[m..n];
    assert after[m..n] == after[m..][..n - m];
    assert before[m..n] == before[m..][..n - m];
    assert after[n..] == after[m..][n - m..];
    assert before[n..] == before[m..][n - m..];
  }

  /** After a pass over the prefix of length m, the sorted part grows by the
      record the pass left at position m-1. */
  lemma PassExtendsSorted(before: seq<Ticket>, after: seq<Ticket>, m: int, n: int, key: Key)
    requires 1 <= m <= n <= |before| == |after|
    requires forall k :: m <= k < |after| ==> after[k] == before[k]
    requires SortedSlice(before, m, n, key)
    requires Partitioned(after, m, n, key)
    requires forall p :: 0 <= p < m - 1 ==> InOrder(key, after[p], after[m - 1])
    ensures SortedSlice(after, m - 1, n, key)
    ensures Partitioned(after, m - 1, n, key)
  {
  }

  /** One pass of the inner loop over the unsorted prefix of length m: the
      largest record of the prefix ends at position m-1; the prefix is
      permuted and stays in order with the sorted part after it. */
  method BubblePass(a: array<Ticket>, n: nat, m: nat, key: Option<Key>)
    requires 1 <= m <= n <= a.Length
    requires key.Some? ==> Partitioned(a[..], m, n, key.value)
    modifies a
    ensures a[m..] == old(a[m..])
    ensures forall k :: m <= k < a.Length ==> a[k] == old(a[k])
    ensures multiset(a[..m]) == multiset(old(a[..m]))
    ensures key.Some? ==> Partitioned(a[..], m, n, key.value)
    ensures key.Some? ==> forall p :: 0 <= p < m - 1 ==> InOrder(key.value, a[p], a[m - 1])
    ensures key.None? ==> a[..] == old(a[..])
  {
    var j := 0;
    while j < m - 1
      invariant 0 <= j <= m - 1
      invariant a[m..] == old(a[m..])
      invariant multiset(a[..m]) == multiset(old(a[..m]))
      invariant key.None? ==> a[..] == old(a[..])
      invariant key.Some? ==> Partitioned(a[..], m, n, key.value)
      invariant key.Some? ==> forall p :: 0 <= p < j ==> InOrder(key.value, a[p], a[j])
    {
      PassStep(a, n, m, key, j);
      j := j + 1;
    }
  }

  /** One turn of the inner loop at position j: the `tukar` test and the
      exchange. Afterwards the record at j+1 is in order after every record
      before it, and the prefix of length m is still a permutation that is
      in order with the sorted part. */
  method PassStep(a: array<Ticket>, n: nat, m: nat, key: Option<Key>, j: nat)
    requires 1 <= m <= n <= a.Length && j + 1 < m
    requires key.Some? ==> Partitioned(a[..], m, n, key.value)
    requires key.Some? ==> forall p :: 0 <= p < j ==> InOrder(key.value, a[p], a[j])
    modifies a
    ensures a[m..] == old(a[m..])
    ensures multiset(a[..m]) == multiset(old(a[..m]))
    ensures key.None? ==> a[..] == old(a[..])
    ensures key.Some? ==> Partitioned(a[..], m, n, key.value)
    ensures key.Some? ==> forall p :: 0 <= p < j + 1 ==> InOrder(key.value, a[p], a[j + 1])
  {
    if Swaps(key, a[j], a[j + 1]) {
      SwapPutsInOrder(key.value, a[j], a[j + 1]);
      ghost var before := a[..];
      SwapNeighbours(a, j, m);
      forall p, q | 0 <= p < m <= q < n ensures InOrder(key.value, a[..][p], a[..][q]) {
        var p' := if p == j then j + 1 else if p == j + 1 then j else p;
        assert a[p] == before[p'] && a[q] == before[q];
      }
    } else if key.Some? {
      forall p | 0 <= p < j ensures InOrder(key.value, a[p], a[j + 1]) {
        InOrderTransitive(key.value, a[p], a[j], a[j + 1]);
      }
    }
  }

  /** Exchange of the neighbours `a[j]` and `a[j+1]` inside the prefix of
      length `n`. */
  method SwapNeighbours(a: array<Ticket>, j: nat, n: nat)
    requires j + 1 < n <= a.Length
    modifies a
    ensures a[j] == old(a[j + 1]) && a[j + 1] == old(a[j])
    ensures forall k :: 0 <= k < a.Length && k != j && k != j + 1 ==> a[k] == old(a[k])
    ensures a[n..] == old(a[n..])
    ensures multiset(a[..n]) == multiset(old(a[..n]))
  {
    ghost var before := a[..n];
    a[j], a[j + 1] := a[j + 1], a[j];
    assert a[..n] == before[j := before[j + 1]][j + 1 := before[j]];
  }
}
