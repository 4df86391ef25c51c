/** The ticket store of `tiket.c`: the same growable array as in
    `tiket_baru.c`, with a text file (see `TextCodec`), an add that keeps
    asking until the price and the stock are acceptable, one combined
    search, an update driven by raw input lines, a delete without
    confirmation, an exchange sort with three keys and an expiry sweep that
    sets the stock of old records to 0 instead of deleting them. */
module Tiket {
  import opened Text
  import opened Tickets
  import opened Ordering
  import opened TextCodec
  import TicketArray

  /** The value the re-prompting loops of `tambah_tiket` settle on: the
      first attempt that was read as a number and is at least `lo`. An
      attempt `None` is input `scanf` could not convert. */
  function FirstAtLeast(attempts: seq<Option<int>>, lo: int): (r: Option<int>)
    ensures r.Some? ==> r.value >= lo && Some(r.value) in attempts
    ensures r.None? <==> forall k :: 0 <= k < |attempts| ==> !(attempts[k].Some? && attempts[k].value >= lo)
    ensures r.Some? ==> exists k :: 0 <= k < |attempts| && attempts[k] == r &&
                          forall j :: 0 <= j < k ==> !(attempts[j].Some? && attempts[j].value >= lo)
  {
    if attempts == [] then None
    else if attempts[0].Some? && attempts[0].value >= lo then attempts[0]
    else
      var r := FirstAtLeast(attempts[1..], lo);
      if r.Some? then
        var k :| 0 <= k < |attempts[1..]| && attempts[1..][k] == r &&
                 forall j :: 0 <= j < k ==> !(attempts[1..][j].Some? && attempts[1..][j].value >= lo);
        assert attempts[k + 1] == r;
        r
      else r
  }

  /** A `do { ... } while (1)` loop of `tambah_tiket`: attempts are read
      until one converts and is not negative. */
  method Prompt(attempts: seq<Option<int>>) returns (v: int)
    requires FirstAtLeast(attempts, 0).Some?
    ensures Some(v) == FirstAtLeast(attempts, 0)
  {
    var i := 0;
    while i < |attempts|
      invariant 0 <= i <= |attempts|
      invariant FirstAtLeast(attempts[i..], 0) == FirstAtLeast(attempts, 0)
      decreases |attempts| - i
    {
      var a := attempts[i];
      if a.Some? && a.value >= 0 {
        assert attempts[i..][0] == a;
        return a.value;
      }
      assert attempts[i..][1..] == attempts[i + 1..];
      i := i + 1;
    }
    assert false;
  }

  /** The record `update_tiket` leaves behind, given the raw `fgets` lines
      for the name and the category: a line of at most one character
      (the bare newline of ENTER) keeps the field, a longer one replaces it
      by the text before its newline. The price is replaced only by a
      number above 0, the stock only by one of at least 0; the creation
      time is kept. */
  function Revised(t: Ticket, nameLine: string, categoryLine: string,
                   price: Option<int>, stock: Option<int>): (r: Ticket)
    requires |nameLine| < MaxName && |categoryLine| < MaxCategory
    ensures r.id == t.id && r.createdAt == t.createdAt
    ensures Bounded(t) ==> Bounded(r)
    ensures |nameLine| <= 1 ==> r.name == t.name
    ensures |nameLine| > 1 ==> r.name == UntilNewline(nameLine)
    ensures '\n' !in nameLine && |nameLine| > 1 ==> r.name == nameLine
    ensures |categoryLine| <= 1 ==> r.category == t.category
    ensures |categoryLine| > 1 ==> r.category == UntilNewline(categoryLine)
    ensures price.Some? && price.value > 0 ==> r.price == price.value
    ensures !(price.Some? && price.value > 0) ==> r.price == t.price
    ensures stock.Some? && stock.value >= 0 ==> r.stock == stock.value
    ensures !(stock.Some? && stock.value >= 0) ==> r.stock == t.stock
    ensures t.stock >= 0 ==> r.stock >= 0
  {
    Ticket(
      t.id,
      if |nameLine| > 1 then UntilNewline(nameLine) else t.name,
      if |categoryLine| > 1 then UntilNewline(categoryLine) else t.category,
      if price.Some? && price.value > 0 then price.value else t.price,
      if stock.Some? && stock.value >= 0 then stock.value else t.stock,
      t.createdAt)
  }

  /** A record the zero-stock sweep changes: older than seven days and
      still in stock. */
  function ClearIfStale(t: Ticket, now: int): (r: Ticket)
    ensures Satisfies(t, Stale(now)) ==> r == t.(stock := 0)
    ensures !Satisfies(t, Stale(now)) ==> r == t
  {
    if Expired(t, now) && t.stock > 0 then t.(stock := 0) else t
  }

  /** The store after the zero-stock sweep: every record in place, only
      the stale ones with their stock set to 0. */
  function AfterZeroSweep(s: seq<Ticket>, now: int): (r: seq<Ticket>)
    ensures |r| == |s|
    ensures forall k :: 0 <= k < |s| ==> r[k] == ClearIfStale(s[k], now)
  {
    seq(|s|, k requires 0 <= k < |s| => ClearIfStale(s[k], now))
  }

  /** The first pass of `muat_data`: `fscanf` is called until it fails to
      convert all six fields, and the successful calls are counted. */
  method CountRecords(text: string) returns (n: nat)
    ensures n == |Decode(text)|
  {
    n := 0;
    var rest := text;
    while ScanRecord(rest).Some?
      invariant |Decode(text)| == n + |Decode(rest)|
      decreases |rest|
    {
      DecodeStep(rest);
      n := n + 1;
      rest := ScanRecord(rest).value.1;
    }
    DecodeStep(rest);
  }

  /** The second pass of `muat_data`: after rewinding, `n` records are read
      in file order into `n` freshly allocated slots. The records are
      gathered first and the slots filled from them. */
  method ReadRecords(text: string, n: nat) returns (a: array<Ticket>)
    requires n == |Decode(text)|
    ensures fresh(a) && a[..] == Decode(text)
  {
    var read: seq<Ticket> := [];
    var rest := text;
    while |read| < n
      invariant |read| <= n
      invariant read + Decode(rest) == Decode(text)
    {
      var t, after := ReadOne(rest, Decode(rest));
      AppendOne(read, t, Decode(after));
      read := read + [t];
      rest := after;
    }
    a := new Ticket[n](k requires 0 <= k < n => read[k]);
    assert a[..] == read;
  }

  lemma AppendOne(read: seq<Ticket>, t: Ticket, later: seq<Ticket>)
    ensures read + ([t] + later) == read + [t] + later
  {
  }

  /** One `fscanf` of the second pass: it reads the first of the records
      still to come and leaves the others. */
  method ReadOne(rest: string, ghost later: seq<Ticket>) returns (t: Ticket, after: string)
    requires later == Decode(rest) && later != []
    ensures later == [t] + Decode(after)
  {
    DecodeStep(rest);
    var p := ScanRecord(rest).value;
    t, after := p.0, p.1;
  }

  /** The globals `daftar_tiket` and `jumlah_tiket` of `tiket.c`. */
  class Store {
    var data: array<Ticket>
    var count: nat

    ghost predicate Valid()
      reads this, data
    {
      count <= data.Length && AllBounded(data[..count])
    }

    ghost function Contents(): seq<Ticket>
      reads this, data
      requires Valid()
    {
      data[..count]
    }

    constructor ()
      ensures Valid() && Contents() == [] && fresh(data)
    {
      data := new Ticket[0];
      count := 0;
    }

    /** `buat_id_unik`: one more than the largest id, where the running
        maximum starts at 0. */
    method NewId() returns (id: int)
      requires Valid()
      ensures id == NextId(Contents())
    {
      var maxId := 0;
      var i := 0;
      while i < count
        invariant 0 <= i <= count
        invariant maxId == MaxIdOrZero(data[..i])
      {
        assert data[..i + 1][..i] == data[..i];
        if data[i].id > maxId {
          maxId := data[i].id;
        }
        i := i + 1;
      }
      assert data[..i] == data[..count];
      return maxId + 1;
    }

    /** `muat_data` on a file holding `file` (`None`: the file cannot be
        opened). A missing file or one whose first record does not convert
        changes nothing; otherwise the store becomes the leading run of
        records that convert, counted in a first pass and read in a second
        one. `%[^;]` has no width, so longer texts would overflow the
        buffers: the records must fit them. */
    method Load(file: Option<string>)
      requires Valid()
      requires file.Some? ==> AllBounded(Decode(file.value))
      modifies this
      ensures Valid() && (data == old(data) || fresh(data))
      ensures file.None? || Decode(file.value) == [] ==> Contents() == old(Contents())
      ensures file.Some? && Decode(file.value) != [] ==> Contents() == Decode(file.value)
    {
      if file.None? {
        return;
      }
      var n := CountRecords(file.value);
      if n == 0 {
        return;
      }
      var a := ReadRecords(file.value, n);
      data := a;
      count := n;
    }

    /** `simpan_data`: the text written to the file, one line per record
        in store order. */
    method Save() returns (text: string)
      requires Valid()
      ensures text == Encode(Contents())
    {
      text := "";
      var i := 0;
      while i < count
        invariant 0 <= i <= count
        invariant text == Encode(data[..i])
      {
        EncodePrefix(data[..], i);
        text := text + FormatRecord(data[i]);
        i := i + 1;
      }
      assert data[..i] == data[..count];
    }

    /** `tambah_tiket`: always appends one record, with the next id, the
        first 49 and 19 characters of the name and category inputs, the
        first acceptable price and stock, and the time `now`. `name` is the
        input line after the white space `scanf` skips, of which
        `%49[^\n]` consumes at most 49 characters; `category` likewise with
        19. The model reads the category from a line of its own; the
        characters of a longer name line that the C program leaves for the
        category read are not modelled. */
    method Add(name: string, category: string, prices: seq<Option<int>>,
               stocks: seq<Option<int>>, now: int) returns (id: int)
      requires Valid()
      requires FirstAtLeast(prices, 0).Some? && FirstAtLeast(stocks, 0).Some?
      modifies this, data
      ensures Valid() && (data == old(data) || fresh(data))
      ensures id == NextId(old(Contents()))
      ensures Contents() == old(Contents()) +
        [Ticket(id, Truncate(name, MaxName - 1), Truncate(category, MaxCategory - 1),
                FirstAtLeast(prices, 0).value, FirstAtLeast(stocks, 0).value, now)]
      ensures count == old(count) + 1
      ensures Contents()[count - 1].price >= 0 && Contents()[count - 1].stock >= 0
      ensures UniqueIds(old(Contents())) ==> UniqueIds(Contents())
    {
      ghost var before := data[..count];
      if count == data.Length {
        data := TicketArray.Grow(data, count);
      }
      assert data[..count] == before;
      id := NewId();
      var price := Prompt(prices);
      var stock := Prompt(stocks);
      var t := Ticket(id, Truncate(name, MaxName - 1), Truncate(category, MaxCategory - 1),
                      price, stock, now);
      data[count] := t;
      count := count + 1;
      assert data[..count] == before + [t];
      if UniqueIds(before) {
        AppendNextIdKeepsUnique(before, t);
      }
    }

    /** `cari_tiket`: every record whose id is `atoi(keyword)`, or whose
        lowercased name or category contains the lowercased keyword, in
        store order, and how many there are. `keyword` is the text `scanf`
        read into its 50-byte buffer. */
    method Search(keyword: string) returns (found: seq<Ticket>, hits: nat)
      requires Valid()
      ensures found == Where(Contents(), AnyField(Atoi(keyword), keyword))
      ensures hits == |found|
    {
      if count == 0 {
        return [], 0;
      }
      found := TicketArray.Collect(data, count, AnyField(Atoi(keyword), keyword));
      hits := |found|;
    }

    /** `update_tiket`: only the first record with the id is revised; an
        unknown id changes nothing. The lines come from `fgets` into 50-
        and 20-byte buffers. */
    method Update(id: int, nameLine: string, categoryLine: string,
                  price: Option<int>, stock: Option<int>) returns (updated: bool)
      requires Valid()
      requires |nameLine| < MaxName && |categoryLine| < MaxCategory
      modifies data
      ensures Valid()
      ensures updated <==> FirstIndex(old(Contents()), id).Some?
      ensures !updated ==> Contents() == old(Contents())
      ensures updated ==>
        var k := FirstIndex(old(Contents()), id).value;
        Contents() == old(Contents())[k := Revised(old(Contents())[k], nameLine, categoryLine, price, stock)]
      ensures UniqueIds(old(Contents())) ==> UniqueIds(Contents())
    {
      var k := TicketArray.FindFirst(data, count, id);
      if k.None? {
        return false;
      }
      var i := k.value;
      var t := data[i];
      if |nameLine| > 1 {
        t := t.(name := UntilNewline(nameLine));
      }
      if |categoryLine| > 1 {
        t := t.(category := UntilNewline(categoryLine));
      }
      if price.Some? && price.value > 0 {
        t := t.(price := price.value);
      }
      if stock.Some? && stock.value >= 0 {
        t := t.(stock := stock.value);
      }
      ghost var before := data[..count];
      data[i] := t;
      assert data[..count] == before[i := t];
      if UniqueIds(before) {
        SameIdKeepsUnique(before, i, t);
      }
      return true;
    }

    /** `hapus_tiket`: the first record with the id is removed by a stable
        left shift; an unknown id changes nothing. */
    method Delete(id: int) returns (deleted: bool)
      requires Valid()
      modifies this`count, data
      ensures Valid()
      ensures deleted <==> FirstIndex(old(Contents()), id).Some?
      ensures !deleted ==> Contents() == old(Contents())
      ensures deleted ==> Contents() == Without(old(Contents()), FirstIndex(old(Contents()), id).value)
      ensures deleted ==> count == old(count) - 1
      ensures UniqueIds(old(Contents())) ==> UniqueIds(Contents())
    {
      var k := TicketArray.FindFirst(data, count, id);
      if k.None? {
        return false;
      }
      ghost var before := data[..count];
      TicketArray.RemoveAt(data, k.value, count);
      count := count - 1;
      WithoutKeepsBounded(before, k.value);
      if UniqueIds(before) {
        RemoveFoundLeavesNone(before, id);
      }
      return true;
    }

    /** `sorting_tiket`: with two records or more, the exchange sort with
        the key of the option; an option without a key swaps nothing. */
    method Sort(option: int)
      requires Valid()
      modifies data
      ensures Valid()
      ensures count < 2 || KeyOfOption(option).None? ==> Contents() == old(Contents())
      ensures multiset(Contents()) == multiset(old(Contents()))
      ensures KeyOfOption(option).Some? ==> SortedBy(Contents(), KeyOfOption(option).value)
      ensures UniqueIds(old(Contents())) ==> UniqueIds(Contents())
    {
      if count < 2 {
        assert SortedBy(data[..count], PriceAscending);
        assert SortedBy(data[..count], PriceDescending);
        assert SortedBy(data[..count], NameAscending);
        return;
      }
      ghost var before := data[..count];
      BubbleSort(data, count, KeyOfOption(option));
      PermutationKeepsBounded(before, data[..count]);
      if UniqueIds(before) {
        PermutationKeepsUnique(before, data[..count]);
      }
    }

    /** `update_otomatis_kadaluarsa` of `tiket.c`: every record older than
        seven days that is still in stock gets stock 0; nothing is removed
        or moved. The result is the number of records changed. */
    method SweepZeroStock(now: int) returns (updated: nat)
      requires Valid()
      modifies data
      ensures Valid()
      ensures Contents() == AfterZeroSweep(old(Contents()), now)
      ensures updated == |Where(old(Contents()), Stale(now))|
      ensures UniqueIds(old(Contents())) ==> UniqueIds(Contents())
    {
      ghost var before := data[..count];
      updated := ZeroStale(data, count, now);
      ZeroSweepKeepsBounded(before, now);
      ZeroSweepKeeps(before, now);
    }
  }

  /** The loop of `update_otomatis_kadaluarsa` over the first n slots of a:
      every record older than seven days that still has stock gets stock 0,
      and those records are counted. */
  method ZeroStale(a: array<Ticket>, n: nat, now: int) returns (updated: nat)
    requires n <= a.Length
    modifies a
    ensures a[..n] == AfterZeroSweep(old(a[..n]), now)
    ensures updated == |Where(old(a[..n]), Stale(now))|
  {
    ghost var s0 := a[..n];
    updated := 0;
    var i := 0;
    while i < n
      invariant 0 <= i <= n
      invariant forall k :: 0 <= k < i ==> a[k] == ClearIfStale(s0[k], now)
      invariant forall k :: i <= k < n ==> a[k] == s0[k]
      invariant updated == |Where(s0[..i], Stale(now))|
    {
      StaleCountStep(s0, i, now);
      var t := a[i];
      if now - t.createdAt > ExpirySeconds {
        if t.stock > 0 {
          a[i] := t.(stock := 0);
          updated := updated + 1;
        }
      }
      assert a[i] == ClearIfStale(s0[i], now);
      i := i + 1;
    }
    assert s0[..i] == s0;
    assert a[..n] == AfterZeroSweep(s0, now);
  }

  /** The count of stale records over a prefix grows by one exactly at a
      stale record. */
  lemma StaleCountStep(s: seq<Ticket>, i: nat, now: int)
    requires i < |s|
    ensures |Where(s[..i + 1], Stale(now))|
         == |Where(s[..i], Stale(now))| + (if Satisfies(s[i], Stale(now)) then 1 else 0)
  {
    assert s[..i + 1][..i] == s[..i];
  }

  /** Zeroing stock keeps every record within its buffers. */
  lemma ZeroSweepKeepsBounded(s: seq<Ticket>, now: int)
    requires AllBounded(s)
    ensures AllBounded(AfterZeroSweep(s, now))
  {
  }

  /** A second zero-stock sweep right after the first changes nothing and
      reports no update. */
  lemma {:induction false} ZeroSweepIdempotent(s: seq<Ticket>, now: int)
    ensures AfterZeroSweep(AfterZeroSweep(s, now), now) == AfterZeroSweep(s, now)
    ensures Where(AfterZeroSweep(s, now), Stale(now)) == []
  {
    var r := AfterZeroSweep(s, now);
    NoneStaleAfterSweep(s, now);
    assert Where(r, Stale(now)) == [] by {
      WhereNone(r, Stale(now));
    }
  }

  lemma NoneStaleAfterSweep(s: seq<Ticket>, now: int)
    ensures forall k :: 0 <= k < |s| ==> !Satisfies(AfterZeroSweep(s, now)[k], Stale(now))
  {
  }

  /** No record satisfies the criterion, so the filter keeps none. */
  lemma {:induction false} WhereNone(s: seq<Ticket>, c: Criterion)
    requires forall k :: 0 <= k < |s| ==> !Satisfies(s[k], c)
    ensures Where(s, c) == []
    decreases |s|
  {
    if s != [] {
      WhereNone(s[..|s| - 1], c);
    }
  }

  /** The zero-stock sweep keeps every record's id, texts, price and time,
      keeps records that are not stale, and keeps the ids unique. */
  lemma ZeroSweepKeeps(s: seq<Ticket>, now: int)
    ensures forall k :: 0 <= k < |s| ==>
      var r := AfterZeroSweep(s, now)[k];
      r.id == s[k].id && r.name == s[k].name && r.category == s[k].category &&
      r.price == s[k].price && r.createdAt == s[k].createdAt
    ensures forall k :: 0 <= k < |s| && !Expired(s[k], now) ==> AfterZeroSweep(s, now)[k] == s[k]
    ensures forall k :: 0 <= k < |s| && Expired(s[k], now) ==> AfterZeroSweep(s, now)[k].stock <= 0
    ensures UniqueIds(s) ==> UniqueIds(AfterZeroSweep(s, now))
  {
  }

  /** A record one second past the seven days is kept with stock 0; one
      second inside them is kept unchanged. A record already out of stock
      is kept unchanged and is not counted again. */
  lemma ZeroSweepBoundary(t: Ticket, now: int)
    ensures now - t.createdAt == ExpirySeconds + 1 && t.stock >= 0 ==> ClearIfStale(t, now).stock == 0
    ensures now - t.createdAt == ExpirySeconds - 1 ==> ClearIfStale(t, now) == t
    ensures t.stock == 0 ==> ClearIfStale(t, now) == t && !Satisfies(t, Stale(now))
  {
  }

  /** The combined search matches exactly the records of the store with
      the `atoi` id or with the keyword in the name or the category. */
  lemma SearchMatches(s: seq<Ticket>, keyword: string, t: Ticket)
    ensures t in Where(s, AnyField(Atoi(keyword), keyword)) <==>
      t in s &&
      (t.id == Atoi(keyword) ||
       Contains(LowerText(t.name), LowerText(keyword)) ||
       Contains(LowerText(t.category), LowerText(keyword)))
  {
    WhereMember(s, AnyField(Atoi(keyword), keyword), t);
  }

  /** Typing a record's id as the keyword finds that record. */
  lemma SearchById(s: seq<Ticket>, t: Ticket)
    requires t in s
    ensures t in Where(s, AnyField(Atoi(ShowInt(t.id)), ShowInt(t.id)))
  {
    AtoiShowInt(t.id);
    SearchMatches(s, ShowInt(t.id), t);
  }
}
