/** The ticket record shared by both inventory variants (`tiket_baru.c` and
    `tiket.c`), the store-wide notions both of them rely on (the next id,
    the first record with an id, stable removal, filtering in store order)
    and the constants of their `#define`s. */
module Tickets {
  import opened Text

  datatype Option<T> = None | Some(value: T) {
    predicate IsFailure() { None? }

    function PropagateFailure<U>(): Option<U>
      requires None?
    {
      None
    }

    function Extract(): T
      requires Some?
    {
      value
    }
  }

  /** MAX_NAMA and MAX_KATEGORI: buffer sizes, terminator included. */
  const MaxName: nat := 50
  const MaxCategory: nat := 20

  /** KADALUARSA_DETIK: seven days in seconds. */
  const ExpirySeconds: int := 7 * 24 * 60 * 60

  /** The C struct `Tiket`. The price (a `float` in C) is an integer number
      of cents; `createdAt` is the `time_t` creation stamp. */
  datatype Ticket = Ticket(
    id: int,
    name: string,
    category: string,
    price: int,
    stock: int,
    createdAt: int)

  /** The name and category fit their fixed-size buffers. */
  predicate Bounded(t: Ticket)
  {
    |t.name| < MaxName && |t.category| < MaxCategory
  }

  predicate AllBounded(s: seq<Ticket>)
  {
    forall k :: 0 <= k < |s| ==> Bounded(s[k])
  }

  predicate UniqueIds(s: seq<Ticket>)
  {
    forall i, j :: 0 <= i < j < |s| ==> s[i].id != s[j].id
  }

  /** A reordering of a store keeps every record within its buffers. */
  lemma PermutationKeepsBounded(a: seq<Ticket>, b: seq<Ticket>)
    requires multiset(a) == multiset(b) && AllBounded(a)
    ensures AllBounded(b)
  {
    forall k | 0 <= k < |b| ensures Bounded(b[k]) {
      assert b[k] in multiset(b);
      assert b[k] in a;
    }
  }

  /** A reordering of a store with unique ids keeps the ids unique: two
      positions of the reordered store holding the same id would hold
      either one record twice or two records of the original with that id. */
  lemma PermutationKeepsUnique(a: seq<Ticket>, b: seq<Ticket>)
    requires multiset(a) == multiset(b) && UniqueIds(a)
    ensures UniqueIds(b)
  {
    forall i, j | 0 <= i < j < |b| ensures b[i].id != b[j].id {
      assert b[i] in multiset(a) && b[j] in multiset(a);
      SameIdSameRecord(a, b[i], b[j]);
      CountedTwice(b, i, j);
      CountedOnce(a, b[i]);
    }
  }

  /** In a store with unique ids, two records with the same id are one. */
  lemma SameIdSameRecord(s: seq<Ticket>, x: Ticket, y: Ticket)
    requires UniqueIds(s) && x in s && y in s
    ensures x.id == y.id ==> x == y
  {
    var p :| 0 <= p < |s| && s[p] == x;
    var q :| 0 <= q < |s| && s[q] == y;
    assert p < q || p == q || q < p;
  }

  /** A record at two positions is counted at least twice. */
  lemma CountedTwice(s: seq<Ticket>, i: nat, j: nat)
    requires i < j < |s|
    ensures s[i] == s[j] ==> multiset(s)[s[i]] >= 2
  {
    assert s == s[..j] + [s[j]] + s[j + 1..];
    assert s[i] == s[..j][i];
    assert s[i] in multiset(s[..j]);
  }

  /** With unique ids no record occurs twice. */
  lemma {:induction false} CountedOnce(s: seq<Ticket>, x: Ticket)
    requires UniqueIds(s)
    ensures multiset(s)[x] <= 1
    decreases |s|
  {
    if s != [] {
      var init := s[..|s| - 1];
      assert s == init + [s[|s| - 1]];
      CountedOnce(init, x);
      if s[|s| - 1] == x {
        assert x !in init by {
          forall k | 0 <= k < |init| ensures init[k] != x {
            assert s[k].id != s[|s| - 1].id;
          }
        }
      }
    }
  }

  /** The running `max_id` of `buat_id_unik` after scanning all of `s`:
      it starts at 0, so ids that are all negative leave it at 0. */
  function MaxIdOrZero(s: seq<Ticket>): (m: int)
    ensures m >= 0
    ensures forall k :: 0 <= k < |s| ==> s[k].id <= m
    ensures m == 0 || exists k :: 0 <= k < |s| && s[k].id == m
  {
    if s == [] then 0
    else
      var m := MaxIdOrZero(s[..|s| - 1]);
      if s[|s| - 1].id > m then s[|s| - 1].id else m
  }

  /** The id `buat_id_unik` hands out: 1 on an empty store, otherwise one
      more than the largest id (or 1 when no id is positive). It is the
      least positive number above every id in the store. */
  function NextId(s: seq<Ticket>): (r: int)
    ensures r >= 1
    ensures forall k :: 0 <= k < |s| ==> s[k].id < r
    ensures r == 1 || exists k :: 0 <= k < |s| && s[k].id == r - 1
  {
    MaxIdOrZero(s) + 1
  }

  /** A record that takes the next id raises the next id by exactly one, so
      ids handed out by successive adds are strictly increasing. */
  lemma NextIdAfterAppend(s: seq<Ticket>, t: Ticket)
    requires t.id == NextId(s)
    ensures NextId(s + [t]) == t.id + 1
  {
    assert (s + [t])[..|s|] == s;
  }

  /** Appending a record with the next id keeps the ids unique. */
  lemma AppendNextIdKeepsUnique(s: seq<Ticket>, t: Ticket)
    requires UniqueIds(s) && t.id == NextId(s)
    ensures UniqueIds(s + [t])
  {
  }

  /** Replacing a record by one with the same id keeps the ids unique. */
  lemma SameIdKeepsUnique(s: seq<Ticket>, k: nat, t: Ticket)
    requires UniqueIds(s) && k < |s| && t.id == s[k].id
    ensures UniqueIds(s[k := t])
  {
  }

  /** The index the id scans stop at: the first record with the id, if
      any. */
  function FirstIndex(s: seq<Ticket>, id: int): (r: Option<nat>)
    ensures r.Some? ==> r.value < |s| && s[r.value].id == id
    ensures r.Some? ==> forall j :: 0 <= j < r.value ==> s[j].id != id
    ensures r.None? <==> forall j :: 0 <= j < |s| ==> s[j].id != id
  {
    if s == [] then None
    else if s[0].id == id then Some(0)
    else match FirstIndex(s[1..], id)
      case None => None
      case Some(k) => Some(k + 1)
  }

  /** Stable compaction: record `k` is dropped and the survivors keep their
      relative order. */
  function Without(s: seq<Ticket>, k: nat): (r: seq<Ticket>)
    requires k < |s|
    ensures |r| == |s| - 1
    ensures forall j :: 0 <= j < k ==> r[j] == s[j]
    ensures forall j :: k <= j < |r| ==> r[j] == s[j + 1]
  {
    s[..k] + s[k + 1..]
  }

  /** With unique ids, removing the record found for an id leaves no record
      with that id, and the ids stay unique. */
  lemma RemoveFoundLeavesNone(s: seq<Ticket>, id: int)
    requires UniqueIds(s) && FirstIndex(s, id).Some?
    ensures UniqueIds(Without(s, FirstIndex(s, id).value))
    ensures FirstIndex(Without(s, FirstIndex(s, id).value), id).None?
  {
    var k := FirstIndex(s, id).value;
    var r := Without(s, k);
    forall j | 0 <= j < |r| ensures r[j].id != id {
      if j >= k { assert r[j] == s[j + 1]; }
    }
  }

  /** Without keeps the bounds of the survivors. */
  lemma WithoutKeepsBounded(s: seq<Ticket>, k: nat)
    requires k < |s| && AllBounded(s)
    ensures AllBounded(Without(s, k))
  {
  }

  predicate Expired(t: Ticket, now: int)
  {
    now - t.createdAt > ExpirySeconds
  }

  /** The record tests the store filters by. */
  datatype Criterion =
    | NameContains(term: string)          // tiket_baru.c: search by name
    | CategoryIs(term: string)            // tiket_baru.c: search by category
    | AnyField(idKey: int, keyword: string) // tiket.c: combined search
    | Unexpired(now: int)                 // survives the delete sweep
    | ExpiredAt(now: int)                 // removed by the delete sweep
    | Stale(now: int)                     // zeroed by the zero-stock sweep

  predicate Satisfies(t: Ticket, c: Criterion)
  {
    match c
    case NameContains(term) => Contains(LowerText(t.name), LowerText(term))
    case CategoryIs(term) => LowerText(t.category) == LowerText(term)
    case AnyField(idKey, keyword) =>
      || t.id == idKey
      || Contains(LowerText(t.name), LowerText(keyword))
      || Contains(LowerText(t.category), LowerText(keyword))
    case Unexpired(now) => !Expired(t, now)
    case ExpiredAt(now) => Expired(t, now)
    case Stale(now) => Expired(t, now) && t.stock > 0
  }

  /** The two searches of `tiket_baru.c` in the terms of its C calls: the
      name search finds the lowered term by `strstr` at some position of the
      lowered name, and the category search needs `strcmp` of the lowered
      texts to be 0. */
  lemma SatisfiesMeaning(t: Ticket, c: Criterion)
    ensures c.NameContains? ==>
      (Satisfies(t, c) <==> exists i :: 0 <= i <= |t.name| && LowerText(c.term) <= LowerText(t.name)[i..])
    ensures c.CategoryIs? ==>
      (Satisfies(t, c) <==> StrCmp(LowerText(t.category), LowerText(c.term)) == 0)
  {
    if c.NameContains? {
      ContainsIffOccurs(LowerText(t.name), LowerText(c.term));
    } else if c.CategoryIs? {
      StrCmpZeroIffEqual(LowerText(t.category), LowerText(c.term));
    }
  }

  /** The records of `s` that satisfy `c`, in store order. */
  function Where(s: seq<Ticket>, c: Criterion): (r: seq<Ticket>)
    ensures |r| <= |s|
    ensures forall k :: 0 <= k < |r| ==> Satisfies(r[k], c) && r[k] in s
  {
    if s == [] then []
    else Where(s[..|s| - 1], c) + (if Satisfies(s[|s| - 1], c) then [s[|s| - 1]] else [])
  }

  /** Filtering distributes over concatenation: the filter keeps the
      relative order of the records it lets through. */
  lemma {:induction false} WhereAppend(a: seq<Ticket>, b: seq<Ticket>, c: Criterion)
    ensures Where(a + b, c) == Where(a, c) + Where(b, c)
    decreases |b|
  {
    if b == [] {
      assert a + b == a;
    } else {
      var b' := b[..|b| - 1];
      assert (a + b)[..|a + b| - 1] == a + b';
      WhereAppend(a, b', c);
    }
  }

  /** Exactly the records satisfying the criterion are kept. */
  lemma {:induction false} WhereMember(s: seq<Ticket>, c: Criterion, t: Ticket)
    ensures t in Where(s, c) <==> t in s && Satisfies(t, c)
    decreases |s|
  {
    if s != [] {
      var s' := s[..|s| - 1];
      WhereMember(s', c, t);
      assert s == s' + [s[|s| - 1]];
    }
  }

  /** Every record is either kept or removed by the delete sweep. */
  lemma {:induction false} SweepPartition(s: seq<Ticket>, now: int)
    ensures |Where(s, Unexpired(now))| + |Where(s, ExpiredAt(now))| == |s|
    decreases |s|
  {
    if s != [] {
      SweepPartition(s[..|s| - 1], now);
    }
  }

  /** Filtering keeps ids unique and records within their buffers. */
  lemma {:induction false} WhereKeepsInvariants(s: seq<Ticket>, c: Criterion)
    ensures UniqueIds(s) ==> UniqueIds(Where(s, c))
    ensures AllBounded(s) ==> AllBounded(Where(s, c))
    decreases |s|
  {
    if s != [] {
      var s' := s[..|s| - 1];
      WhereKeepsInvariants(s', c);
      var r' := Where(s', c);
      if UniqueIds(s) && Satisfies(s[|s| - 1], c) {
        forall k | 0 <= k < |r'| ensures r'[k].id != s[|s| - 1].id {
          assert r'[k] in s';
        }
      }
    }
  }
}
