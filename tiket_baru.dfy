/** The ticket store of `tiket_baru.c`: a growable array of records with
    validated create, three search modes, sentinel-based partial update,
    confirmed delete, sort by price or name, and an expiry sweep that
    deletes expired records and then asks for a save. Console input arrives
    already parsed, as method parameters; a number the console could not
    parse is `None`. */
module TiketBaru {
  import opened Text
  import opened Tickets
  import opened Ordering
  import TicketArray

  datatype AddOutcome = Added(id: int) | InvalidPrice | InvalidStock

  datatype SearchOutcome =
    | NoTicketsToSearch
    | InvalidSearchChoice
    | Hits(found: seq<Ticket>)

  datatype UpdateOutcome = NoTicketsToUpdate | UpdateIdUnknown | Updated(index: nat)

  datatype DeleteOutcome =
    | NoTicketsToDelete
    | DeleteIdUnknown
    | DeleteCancelled
    | Deleted(index: nat)

  datatype SortOutcome = TooFewToSort | InvalidSortChoice | SortDone

  /** The answer to a Y/T prompt read with `scanf(" %c")`. */
  predicate Confirms(answer: char)
  {
    answer == 'Y' || answer == 'y'
  }

  /** The record `update_tiket` leaves behind. An empty name or category,
      a price that is not above 0 and a stock below 0 each mean "keep";
      a confirmed refresh restamps the record with `now`. */
  function Revised(t: Ticket, name: string, category: string, price: Option<int>,
                   stock: Option<int>, refresh: char, now: int): (r: Ticket)
    ensures r.id == t.id
    ensures |name| == 0 ==> r.name == t.name
    ensures |name| > 0 ==> r.name == Truncate(name, MaxName - 1)
    ensures |category| == 0 ==> r.category == t.category
    ensures |category| > 0 ==> r.category == Truncate(category, MaxCategory - 1)
    ensures price.Some? && price.value > 0 ==> r.price == price.value
    ensures !(price.Some? && price.value > 0) ==> r.price == t.price
    ensures stock.Some? && stock.value >= 0 ==> r.stock == stock.value
    ensures !(stock.Some? && stock.value >= 0) ==> r.stock == t.stock
    ensures Confirms(refresh) ==> r.createdAt == now
    ensures !Confirms(refresh) ==> r.createdAt == t.createdAt
    ensures Bounded(t) ==> Bounded(r)
    ensures t.price >= 0 ==> r.price >= 0
    ensures t.stock >= 0 ==> r.stock >= 0
    ensures r.price == 0 ==> t.price == 0
  {
    Ticket(
      t.id,
      if |name| > 0 then Truncate(name, MaxName - 1) else t.name,
      if |category| > 0 then Truncate(category, MaxCategory - 1) else t.category,
      if price.Some? && price.value > 0 then price.value else t.price,
      if stock.Some? && stock.value >= 0 then stock.value else t.stock,
      if Confirms(refresh) then now else t.createdAt)
  }

  /** The globals `daftar_tiket` and `jumlah_tiket`. The array may be
      longer than the count: shrinking `realloc`s are not modelled. Every
      operation keeps the ids of the records unique. */
  class Store {
    var data: array<Ticket>
    var count: nat

    ghost predicate Valid()
      reads this, data
    {
      count <= data.Length && AllBounded(data[..count]) && UniqueIds(data[..count])
    }

    ghost function Contents(): seq<Ticket>
      reads this, data
      requires Valid()
    {
      data[..count]
    }

    constructor ()
      ensures Valid() && Contents() == [] && fresh(data)
    {
      data := new Ticket[0];
      count := 0;
    }

    /** `buat_id_unik`. */
    method NewId() returns (id: int)
      requires Valid()
      ensures id == NextId(Contents())
    {
      if count == 0 {
        return 1;
      }
      var maxId := 0;
      var i := 0;
      while i < count
        invariant 0 <= i <= count
        invariant maxId == MaxIdOrZero(data[..i])
      {
        assert data[..i + 1][..i] == data[..i];
        if data[i].id > maxId {
          maxId := data[i].id;
        }
        i := i + 1;
      }
      assert data[..i] == data[..count];
      return maxId + 1;
    }

    /** `tambah_tiket`: a negative or unreadable price or stock is refused
        and nothing changes; otherwise one record with the next id, the
        truncated texts and the time `now` is appended. */
    method Add(name: string, category: string, price: Option<int>, stock: Option<int>, now: int)
      returns (r: AddOutcome)
      requires Valid()
      modifies this, data
      ensures Valid() && (data == old(data) || fresh(data))
      ensures r == InvalidPrice <==> !(price.Some? && price.value >= 0)
      ensures r == InvalidStock <==> price.Some? && price.value >= 0 && !(stock.Some? && stock.value >= 0)
      ensures !r.Added? ==> Contents() == old(Contents())
      ensures r.Added? ==> r.id == NextId(old(Contents()))
      ensures r.Added? ==>
        Contents() == old(Contents()) +
          [Ticket(r.id, Truncate(name, MaxName - 1), Truncate(category, MaxCategory - 1),
                  price.value, stock.value, now)]
    {
      var id := NewId();
      var t := Ticket(id, Truncate(name, MaxName - 1), Truncate(category, MaxCategory - 1), 0, 0, 0);
      if price.None? || price.value < 0 {
        return InvalidPrice;
      }
      t := t.(price := price.value);
      if stock.None? || stock.value < 0 {
        return InvalidStock;
      }
      t := t.(stock := stock.value, createdAt := now);
      Append(t);
      return Added(id);
    }

    /** The `realloc` and the store of the new record at the end of
        `tambah_tiket`. */
    method Append(t: Ticket)
      requires Valid() && Bounded(t) && t.id == NextId(Contents())
      modifies this, data
      ensures Valid() && (data == old(data) || fresh(data))
      ensures Contents() == old(Contents()) + [t]
    {
      ghost var before := data[..count];
      if count == data.Length {
        data := TicketArray.Grow(data, count);
      }
      data[count] := t;
      count := count + 1;
      assert data[..count] == before + [t];
      AddKeepsUniqueIds(before, t);
    }

    /** `cari_tiket`. Option 1 shows the first record with the id, option 2
        every record whose lowercased name contains the lowercased term,
        option 3 every record whose lowercased category equals the
        lowercased term. The terms come from 50- and 20-byte buffers. */
    method Search(option: int, id: int, term: string) returns (r: SearchOutcome)
      requires Valid()
      requires option == 2 ==> |term| < MaxName
      requires option == 3 ==> |term| < MaxCategory
      ensures count == 0 ==> r == NoTicketsToSearch
      ensures count > 0 && option != 1 && option != 2 && option != 3 ==> r == InvalidSearchChoice
      ensures count > 0 && option == 1 ==>
        r == Hits(match FirstIndex(Contents(), id)
                  case Some(k) => [Contents()[k]]
                  case None => [])
      ensures count > 0 && option == 2 ==> r == Hits(Where(Contents(), NameContains(term)))
      ensures count > 0 && option == 3 ==> r == Hits(Where(Contents(), CategoryIs(term)))
    {
      if count == 0 {
        return NoTicketsToSearch;
      }
      if option == 1 {
        var k := TicketArray.FindFirst(data, count, id);
        match k
        case Some(i) => return Hits([data[i]]);
        case None => return Hits([]);
      } else if option == 2 {
        var found := TicketArray.Collect(data, count, NameContains(term));
        return Hits(found);
      } else if option == 3 {
        var found := TicketArray.Collect(data, count, CategoryIs(term));
        return Hits(found);
      }
      return InvalidSearchChoice;
    }

    /** `update_tiket`: an unknown id changes nothing; otherwise only the
        first record with the id is revised. */
    method Update(id: int, name: string, category: string, price: Option<int>,
                  stock: Option<int>, refresh: char, now: int) returns (r: UpdateOutcome)
      requires Valid()
      modifies data
      ensures Valid()
      ensures r == NoTicketsToUpdate <==> count == 0
      ensures count > 0 ==> (r == UpdateIdUnknown <==> FirstIndex(old(Contents()), id).None?)
      ensures !r.Updated? ==> Contents() == old(Contents())
      ensures r.Updated? ==>
        && FirstIndex(old(Contents()), id) == Some(r.index)
        && Contents() == old(Contents())[r.index := Revised(old(Contents())[r.index], name, category, price, stock, refresh, now)]
    {
      if count == 0 {
        return NoTicketsToUpdate;
      }
      var k := TicketArray.FindFirst(data, count, id);
      if k.None? {
        return UpdateIdUnknown;
      }
      var i := k.value;
      var t := data[i];
      if |name| > 0 {
        t := t.(name := Truncate(name, MaxName - 1));
      }
      if |category| > 0 {
        t := t.(category := Truncate(category, MaxCategory - 1));
      }
      if price.Some? && price.value > 0 {
        t := t.(price := price.value);
      }
      if stock.Some? && stock.value >= 0 {
        t := t.(stock := stock.value);
      }
      if Confirms(refresh) {
        t := t.(createdAt := now);
      }
      ghost var before := data[..count];
      data[i] := t;
      assert data[..count] == before[i := t];
      SameIdKeepsUnique(before, i, t);
      return Updated(i);
    }

    /** `hapus_tiket`: after a 'Y'/'y' confirmation the first record with
        the id is removed by a stable left shift. */
    method Delete(id: int, answer: char) returns (r: DeleteOutcome)
      requires Valid()
      modifies this`count, data
      ensures Valid()
      ensures r == NoTicketsToDelete <==> old(count) == 0
      ensures old(count) > 0 ==> (r == DeleteIdUnknown <==> FirstIndex(old(Contents()), id).None?)
      ensures r == DeleteCancelled <==>
        old(count) > 0 && FirstIndex(old(Contents()), id).Some? && !Confirms(answer)
      ensures !r.Deleted? ==> Contents() == old(Contents())
      ensures r.Deleted? ==>
        FirstIndex(old(Contents()), id) == Some(r.index) && Contents() == Without(old(Contents()), r.index)
    {
      if count == 0 {
        return NoTicketsToDelete;
      }
      var k := TicketArray.FindFirst(data, count, id);
      if k.None? {
        return DeleteIdUnknown;
      }
      if !Confirms(answer) {
        return DeleteCancelled;
      }
      ghost var before := data[..count];
      TicketArray.RemoveAt(data, k.value, count);
      count := count - 1;
      WithoutKeepsBounded(before, k.value);
      RemoveFoundLeavesNone(before, id);
      return Deleted(k.value);
    }

    /** `sorting_tiket`: option 1 orders by price, option 2 by name, through
        `qsort`; only a permutation in comparator order is promised. */
    method Sort(option: int) returns (r: SortOutcome)
      requires Valid()
      modifies data
      ensures Valid()
      ensures r == TooFewToSort <==> count < 2
      ensures r == SortDone <==> count >= 2 && (option == 1 || option == 2)
      ensures !r.SortDone? ==> Contents() == old(Contents())
      ensures r.SortDone? ==> multiset(Contents()) == multiset(old(Contents()))
      ensures r.SortDone? ==> SortedBy(Contents(), if option == 1 then PriceAscending else NameAscending)
    {
      if count < 2 {
        return TooFewToSort;
      }
      if option != 1 && option != 2 {
        return InvalidSortChoice;
      }
      ghost var before := data[..count];
      var key := if option == 1 then PriceAscending else NameAscending;
      BubbleSort(data, count, Some(key));
      PermutationKeepsBounded(before, data[..count]);
      PermutationKeepsUnique(before, data[..count]);
      return SortDone;
    }

    /** `update_otomatis_kadaluarsa`: every record older than seven days is
        removed, the survivors keep their order, and a save is requested
        exactly when something was removed. */
    method SweepExpired(now: int) returns (removed: nat, saveRequested: bool)
      requires Valid()
      modifies this`count, data
      ensures Valid()
      ensures Contents() == Where(old(Contents()), Unexpired(now))
      ensures removed == |Where(old(Contents()), ExpiredAt(now))|
      ensures removed == old(count) - count
      ensures saveRequested <==> removed > 0
    {
      if count == 0 {
        return 0, false;
      }
      ghost var before := data[..count];
      var kept := SweepArray(data, count, now);
      removed := count - kept;
      count := kept;
      WhereKeepsInvariants(before, Unexpired(now));
      SweepKeepsUniqueIds(before, now);
      saveRequested := removed > 0;
    }
  }

  /** The loop of `update_otomatis_kadaluarsa` over the first n slots of a:
      an expired record at index i is shifted out and i stays put, any
      other record is passed over. The survivors end up in the first
      `kept` slots, in their original order. */
  method SweepArray(a: array<Ticket>, n: nat, now: int) returns (kept: nat)
    requires n <= a.Length
    modifies a
    ensures kept <= n
    ensures a[..kept] == Where(old(a[..n]), Unexpired(now))
    ensures n - kept == |Where(old(a[..n]), ExpiredAt(now))|
  {
    ghost var s0 := a[..n];
    ghost var cur := s0;
    var i: nat := 0;
    var count: nat := n;
    var removed: nat := 0;
    SweepStart(s0, now);
    while i < count
      invariant count <= n && a[..count] == cur
      invariant SweepProgress(s0, cur, i, removed, now)
      decreases count - i
    {
      i, count, cur, removed := SweepStep(a, n, now, s0, cur, i, count, removed);
    }
    SweepDone(s0, cur, i, removed, now);
    kept := count;
  }

  /** One turn of the sweep loop: an expired record at index i is shifted
      out and i stays put; any other record is passed over. */
  method SweepStep(a: array<Ticket>, n: nat, now: int, ghost s0: seq<Ticket>, ghost cur: seq<Ticket>,
                   i: nat, count: nat, removed: nat)
    returns (i': nat, count': nat, ghost cur': seq<Ticket>, removed': nat)
    requires count <= n <= a.Length && a[..count] == cur && i < count
    requires SweepProgress(s0, cur, i, removed, now)
    modifies a
    ensures count' <= n && a[..count'] == cur'
    ensures SweepProgress(s0, cur', i', removed', now)
    ensures count' - i' < count - i
    ensures Expired(cur[i], now) ==>
      i' == i && count' == count - 1 && cur' == Without(cur, i) && removed' == removed + 1
    ensures !Expired(cur[i], now) ==>
      i' == i + 1 && count' == count && cur' == cur && removed' == removed
  {
    assert a[i] == cur[i];
    if now - a[i].createdAt > ExpirySeconds {
      TicketArray.RemoveAt(a, i, count);
      SweepRemoveStep(s0, cur, i, removed, now);
      i', count', cur', removed' := i, count - 1, Without(cur, i), removed + 1;
    } else {
      SweepKeepStep(s0, cur, i, removed, now);
      i', count', cur', removed' := i + 1, count, cur, removed;
    }
  }

  /** The state of the sweep loop over the original records `s0`: the
      first i records of `cur` are the survivors among the first
      i + removed originals, and the rest of `cur` is still unexamined. */
  ghost predicate SweepProgress(s0: seq<Ticket>, cur: seq<Ticket>, i: nat, removed: nat, now: int)
  {
    && i <= |cur|
    && |cur| + removed == |s0|
    && cur[..i] == Where(s0[..i + removed], Unexpired(now))
    && removed == |Where(s0[..i + removed], ExpiredAt(now))|
    && cur[i..] == s0[i + removed..]
  }

  /** An expired record at position i is dropped by the left shift. */
  lemma SweepRemoveStep(s0: seq<Ticket>, cur: seq<Ticket>, i: nat, removed: nat, now: int)
    requires SweepProgress(s0, cur, i, removed, now)
    requires i < |cur| && Expired(cur[i], now)
    ensures SweepProgress(s0, Without(cur, i), i, removed + 1, now)
  {
    var p := i + removed;
    assert cur[i] == cur[i..][0] == s0[p];
    assert s0[..p + 1][..p] == s0[..p];
    var next := Without(cur, i);
    assert next[..i] == cur[..i];
    assert next[i..] == cur[i + 1..];
    assert cur[i + 1..] == cur[i..][1..];
    assert s0[p + 1..] == s0[p..][1..];
  }

  /** Before the loop nothing has been examined. */
  lemma SweepStart(s0: seq<Ticket>, now: int)
    ensures SweepProgress(s0, s0, 0, 0, now)
  {
    assert s0[..0] == [];
  }

  /** When the loop has examined every record, the survivors are all that
      is left and every removal was an expired record. */
  lemma SweepDone(s0: seq<Ticket>, cur: seq<Ticket>, i: nat, removed: nat, now: int)
    requires SweepProgress(s0, cur, i, removed, now) && i == |cur|
    ensures cur == Where(s0, Unexpired(now))
    ensures removed == |Where(s0, ExpiredAt(now))|
  {
    assert s0[..i + removed] == s0;
    assert cur[..i] == cur;
  }

  /** A record at position i that has not expired is kept in place. */
  lemma SweepKeepStep(s0: seq<Ticket>, cur: seq<Ticket>, i: nat, removed: nat, now: int)
    requires SweepProgress(s0, cur, i, removed, now)
    requires i < |cur| && !Expired(cur[i], now)
    ensures SweepProgress(s0, cur, i + 1, removed, now)
  {
    var p := i + removed;
    assert cur[i] == cur[i..][0] == s0[p];
    assert s0[..p + 1][..p] == s0[..p];
    assert cur[..i + 1] == cur[..i] + [cur[i]];
    assert cur[i + 1..] == cur[i..][1..];
    assert s0[p + 1..] == s0[p..][1..];
  }

  /** The ids of the store stay unique under every operation that changes
      it, given they were unique before: adding takes the next id,
      deleting and sweeping keep a subsequence, updating keeps every id and
      sorting only reorders (`Tickets.SameIdKeepsUnique`,
      `Tickets.RemoveFoundLeavesNone`, `Tickets.PermutationKeepsUnique`). */
  lemma AddKeepsUniqueIds(s: seq<Ticket>, t: Ticket)
    requires UniqueIds(s) && t.id == NextId(s)
    ensures UniqueIds(s + [t])
    ensures NextId(s + [t]) > NextId(s)
  {
    AppendNextIdKeepsUnique(s, t);
    NextIdAfterAppend(s, t);
  }

  lemma SweepKeepsUniqueIds(s: seq<Ticket>, now: int)
    requires UniqueIds(s)
    ensures UniqueIds(Where(s, Unexpired(now)))
  {
    WhereKeepsInvariants(s, Unexpired(now));
  }

  /** A record just past the seven days is removed by the sweep; one just
      inside them survives unchanged. */
  lemma SweepBoundary(s: seq<Ticket>, now: int, stale: Ticket, young: Ticket)
    requires stale.createdAt == now - ExpirySeconds - 1
    requires young.createdAt == now - ExpirySeconds + 1
    ensures stale !in Where(s, Unexpired(now))
    ensures young in s ==> young in Where(s, Unexpired(now))
  {
    WhereMember(s, Unexpired(now), stale);
    WhereMember(s, Unexpired(now), young);
  }

  /** Category search ignores case: "VIP", "Vip" and "vip" all match the
      term "vip". */
  lemma CategorySearchIgnoresCase(t: Ticket)
    requires t.category == "VIP" || t.category == "Vip" || t.category == "vip"
    ensures Satisfies(t, CategoryIs("vip"))
  {
    assert LowerText("vip") == "vip";
    assert LowerText(t.category) == "vip";
  }

  /** Two records with different prices, sorted by price, are in the one
      possible order. */
  lemma TwoSortedByPrice(c: seq<Ticket>, a: Ticket, b: Ticket)
    requires multiset(c) == multiset([a, b]) && a.price > b.price
    requires SortedBy(c, PriceAscending)
    ensures c == [b, a]
  {
    assert |c| == 2 by {
      assert |c| == |multiset(c)| && |multiset([a, b])| == 2;
    }
    assert a in multiset([a, b]) && b in multiset([a, b]);
    assert a in c && b in c;
    assert c[0] in multiset([a, b]) && c[1] in multiset([a, b]);
    assert InOrder(PriceAscending, c[0], c[1]);
    assert c[0] == b;
  }

  /** A walk-through from an empty store: two adds get ids 1 and 2, the
      price sort puts the cheaper one first, and deleting id 2 with
      confirmation leaves only the first ticket. */
  method Walkthrough(now: int) returns (final: seq<Ticket>)
    ensures final == [Ticket(1, "Coldplay", "VIP", 15000000, 10, now)]
  {
    var coldplay := Ticket(1, "Coldplay", "VIP", 15000000, 10, now);
    var dewa := Ticket(2, "Dewa19", "Reguler", 8000000, 5, now);
    var store := AddTwo(now);
    var sorted := store.Sort(1);
    TwoSortedByPrice(store.Contents(), coldplay, dewa);
    var deleted := store.Delete(2, 'y');
    assert FirstIndex([dewa, coldplay], 2) == Some(0);
    final := store.data[..store.count];
    assert final == Without([dewa, coldplay], 0);
  }

  /** The two adds of the walk-through. */
  method AddTwo(now: int) returns (store: Store)
    ensures fresh(store) && fresh(store.data) && store.Valid()
    ensures store.Contents() == [Ticket(1, "Coldplay", "VIP", 15000000, 10, now),
                                 Ticket(2, "Dewa19", "Reguler", 8000000, 5, now)]
  {
    store := new Store();
    var first := store.Add("Coldplay", "VIP", Some(15000000), Some(10), now);
    var coldplay := Ticket(1, "Coldplay", "VIP", 15000000, 10, now);
    assert store.Contents() == [coldplay];
    var second := store.Add("Dewa19", "Reguler", Some(8000000), Some(5), now);
    assert [coldplay][..0] == [];
    assert NextId([coldplay]) == 2;
  }
}
