# Concert ticket inventory: a Dafny model

The repository holds two console programs for a concert ticket store, plus a
small smart-city simulator:

- `tiket_baru.c` keeps the tickets in a growable array. It validates new
  records, offers three search modes (by id, by name substring, by exact
  category) and updates records with "keep this field" sentinels. A delete
  needs a Y/T confirmation. Sorting is by price or by name through `qsort`.
  The expiry sweep deletes records older than seven days and then saves.
- `tiket.c` keeps the same array. It stores it as a text file of
  `id;name;category;price;stock;created` lines. Adding a record asks again
  until the price and the stock are acceptable. It has one combined search,
  an update driven by raw `fgets` lines, a delete without confirmation and an
  exchange sort with three keys. Its expiry sweep sets the stock of old
  records to 0 and keeps the records.
- `main.c` holds two in-place rules of the simulator. One sets the traffic
  lights from the vehicle counts. The other ages the residents through a
  recursion over an index.

## How the model is built

- `Tickets.Ticket` is the ticket record, a value. Its price is in integer
  cents, because the C `float` holds rupiah with two decimals.
- Each program's store is a class `Store` with an `array<Ticket>` and a
  count, as the globals `daftar_tiket` and `jumlah_tiket` are. `Valid()`
  says every record fits the C buffers; in `TiketBaru` it also says the ids
  are unique. `Contents()` is the live prefix of the array.
- A C string is a Dafny `string` holding the characters before the
  terminator, and each `char` stands for one byte. A buffer of 50 bytes
  holds a string of at most 49 `char`s.
- The methods change the array in place, as the C loops do. Each method's
  `ensures` ties the new contents to functions of the old contents:
  `NextId`, `FirstIndex`, `Without`, `Where`, `SortedBy` and
  `AfterZeroSweep`. The lemmas beside those functions state what the
  programs promise: unique ids, the seven-day boundary, case-insensitive
  matching, idempotence and the text round trip.
- Console input arrives already read, as parameters. An `Option<int>` is a
  number input, and `None` stands for input `scanf` could not convert. The
  clock `time(NULL)` is the parameter `now`.
- `TextCodec` models `fprintf("%d;%s;%s;%.2f;%d;%ld\n")` as `Encode`. It
  models the `fscanf` loop of `muat_data` over the whole character stream as
  `Decode`. These include white-space skipping and the `%[^;]` field, which
  may span lines.

Modules: `Text` (C string helpers), `Tickets` (records, ids, filters),
`Ordering` (sort keys and the exchange sort), `TicketArray` (array loops
shared by both stores), `TextCodec`, `TiketBaru`, `Tiket` and `SmartCity`.

## Model

| member | source | states |
|---|---|---|
| Tickets.MaxIdOrZero | tiket.c:63-71 | the running maximum from 0 is at least every id, and is 0 or one of the ids |
| Tickets.NextId | tiket_baru.c:141-153 | the new id is above every id in the store; it is 1 for an empty store, else one more than an existing id |
| Tickets.NextIdAfterAppend | tiket_baru.c:203-210 | after appending a record with the next id, the next id is one more than that record's id |
| Tickets.SameIdKeepsUnique | tiket_baru.c:376-403 | replacing a record by one with the same id keeps the ids unique |
| Tickets.PermutationKeepsUnique | tiket_baru.c:532-546 | any reordering of a store with unique ids has unique ids |
| Tickets.FirstIndex | tiket_baru.c:274-280 | the index found holds the id and no earlier record does; there is none exactly when no record holds the id |
| Tickets.Without | tiket_baru.c:466-469 | removing position k keeps the records before k and moves each later record one place left |
| Tickets.RemoveFoundLeavesNone | tiket.c:325-353 | with unique ids, after removing the record found for an id no record has that id and ids stay unique |
| Tickets.Where | tiket_baru.c:289-300 | the filter keeps only records that satisfy the criterion and that occur in the store |
| Tickets.WhereMember | tiket_baru.c:309-320 | a record is in the filtered store exactly when it is in the store and satisfies the criterion |
| Tickets.SatisfiesMeaning | tiket_baru.c:289-320 | the name test holds exactly when the lowered term occurs, as `strstr` finds it, at some position of the lowered name; the category test exactly when `strcmp` of the lowered texts is 0 |
| Tickets.WhereAppend | tiket_baru.c:563-579 | filtering a concatenation is the concatenation of the filtered parts |
| Tickets.SweepPartition | tiket_baru.c:563-579 | every record is either kept or counted as expired by the sweep, never both or neither |
| Text.LowerText | tiket_baru.c:293-294 | every character is lowered by `tolower`: the length is kept, no upper-case letter is left, and any character that changes is an upper-case letter moved 32 codes up |
| Text.UntilNewline | tiket.c:280 | the result is the part of the line before its first newline, a prefix without newline, and the whole line when it has none |
| Text.Contains | tiket_baru.c:296 | the empty needle is always found, and a needle is found only when it is no longer than the text |
| Text.StrCmp | tiket_baru.c:504 | the result is -1, 0 or 1; equal strings give 0; a proper prefix sorts before the longer string and after it the other way round |
| Text.Truncate | tiket_baru.c:172 | `strncpy` to n characters gives a prefix of at most n characters, the whole text when it fits |
| Text.ContainsIffOccurs | tiket.c:243-245 | `strstr` finds the needle exactly when it occurs at some position of the text |
| Text.StrCmpAntisymmetric | tiket_baru.c:501-505 | swapping the operands of `strcmp` negates its result |
| Text.StrCmpZeroIffEqual | tiket_baru.c:316 | `strcmp` is 0 exactly for equal strings |
| Text.StrCmpTransitive | tiket.c:381 | the name order `strcmp <= 0` is transitive |
| Ordering.OutOfOrder | tiket.c:379-381 | the `tukar` tests are strict: two records with equal prices (for a price key) or equal names (for the name key) are never out of order |
| Ordering.SwapPutsInOrder | tiket.c:383-386 | swapping two neighbours that are out of order leaves them in order |
| Ordering.SwapNeighbours | tiket.c:384-386 | the records at j and j+1 trade places, every other slot keeps its record, and the first n records stay a permutation of themselves |
| Ordering.BubblePass | tiket.c:376-388 | one run of the inner loop over the unsorted prefix of length m permutes that prefix and leaves the rest alone; the prefix stays in order with the sorted part after it and ends with a record no smaller than any before it; without a key nothing changes |
| Ordering.PassStep | tiket.c:377-387 | one turn of the inner loop keeps the prefix a permutation and in order with the sorted part, and leaves at j+1 a record no smaller than any before it; without a key nothing changes |
| Ordering.SortStep | tiket.c:375-389 | one turn of the outer loop permutes the first n records and grows the sorted, partitioned tail by one record; without a key nothing changes |
| Ordering.KeyOfOption | tiket.c:375-389 | options 1, 2 and 3 select a key and any other option selects none |
| Ordering.InOrderTransitive | tiket_baru.c:490-505 | the order each comparator defines is transitive |
| Ordering.SortedByMeaning | tiket_baru.c:532-546 | in a sorted store, prices ascend, prices descend or names ascend by `strcmp`, per key |
| Ordering.BubbleSort | tiket.c:375-389 | the first n records become a permutation of themselves, sorted by the key; without a key nothing changes; slots beyond n are untouched |
| TicketArray.FindFirst | tiket_baru.c:356-361 | the scan returns the first index holding the id, or none |
| TicketArray.RemoveAt | tiket_baru.c:466-469 | the left shift leaves the records without position i, in order; the last slot keeps its value |
| TicketArray.Grow | tiket_baru.c:203-210 | `realloc` gives a fresh array one slot longer that keeps all n records |
| TicketArray.Collect | tiket_baru.c:289-300 | the records shown are exactly those passing the test, in store order |
| TiketBaru.Revised | tiket_baru.c:372-412 | the id is kept; an empty name or category keeps the old text and a non-empty one replaces it by its first 49 or 19 characters; a price above 0 replaces the price and any other keeps it; a stock of at least 0 replaces the stock and any other keeps it; a 'Y'/'y' refresh sets the time to `now` and any other answer keeps it; the record still fits its buffers |
| TiketBaru.Store.constructor | tiket_baru.c:23-24 | the store starts empty, with (trivially) unique ids |
| TiketBaru.Store.NewId | tiket_baru.c:141-153 | the id `buat_id_unik` returns is `NextId` of the store |
| TiketBaru.Store.Add | tiket_baru.c:158-215 | an unreadable or negative price, then an unreadable or negative stock, is refused with the store unchanged; otherwise exactly one record with the next id, the truncated texts and `now` is appended; the ids stay unique |
| TiketBaru.Store.Search | tiket_baru.c:238-331 | empty store or unknown option reported; option 1 gives the first record with the id, option 2 every name containing the term, option 3 every category equal to it, ignoring case and in store order |
| TiketBaru.Store.Update | tiket_baru.c:336-418 | empty store and unknown id reported with the store unchanged; otherwise only the first record with the id is replaced by `Revised`; the ids stay unique |
| TiketBaru.Store.Delete | tiket_baru.c:423-485 | empty store, unknown id and a refused confirmation each leave the store unchanged; after 'Y'/'y' exactly the first record with the id is removed, in order; the ids stay unique |
| TiketBaru.Store.Sort | tiket_baru.c:510-547 | fewer than two records or an unknown option change nothing; options 1 and 2 give a permutation sorted by price or by name; the ids stay unique |
| TiketBaru.Store.SweepExpired | tiket_baru.c:552-599 | the store becomes its unexpired records in order, the count removed is the number of expired ones, and a save is requested exactly when something was removed; the ids stay unique |
| TiketBaru.SweepArray | tiket_baru.c:563-579 | the shift-and-stay loop leaves the unexpired records, in order, in the first slots and removes exactly the expired ones |
| TiketBaru.SweepStep | tiket_baru.c:564-577 | for an expired record at i, one turn removes it (the shadow store becomes `Without(cur, i)`), keeps i, lowers the count by one and raises the removed count by one; for a live one it keeps the store and counts and moves i on by one; either way the sweep's progress invariant still holds |
| TiketBaru.Store.Append | tiket_baru.c:203-210 | the record with the next id is appended to the store, whose ids stay unique |
| TiketBaru.AddKeepsUniqueIds | tiket_baru.c:141-153 | appending a record with the next id keeps ids unique and raises the next id |
| TiketBaru.SweepKeepsUniqueIds | tiket_baru.c:563-579 | the sweep keeps ids unique |
| TiketBaru.SweepBoundary | tiket_baru.c:564 | a record one second past seven days is removed; one a second inside them is kept |
| TiketBaru.CategorySearchIgnoresCase | tiket_baru.c:309-320 | "VIP", "Vip" and "vip" all match the category term "vip" |
| TiketBaru.TwoSortedByPrice | tiket_baru.c:490-496 | two records with different prices, sorted by price, come cheaper first |
| TiketBaru.Walkthrough | tiket_baru.c:158-485 | from an empty store, adding Coldplay and Dewa19, sorting by price and deleting id 2 with confirmation leaves only Coldplay with id 1 |
| TiketBaru.AddTwo | tiket_baru.c:158-215 | two adds into an empty store get ids 1 and 2, in order |
| Tiket.FirstAtLeast | tiket.c:172-190 | the value settled on is the first attempt that converted and is at least the bound; there is none exactly when no attempt qualifies |
| Tiket.Prompt | tiket.c:172-180 | the re-prompting loop returns the first acceptable attempt |
| Tiket.Revised | tiket.c:270-311 | id and time are kept; a name or category line of more than one character replaces the text by the part before its newline, a shorter line keeps it; a price above 0 replaces the price and any other keeps it; a stock of at least 0 replaces the stock and any other keeps it |
| Tiket.ClearIfStale | tiket.c:400-408 | a stale record (expired and in stock) gets stock 0; any other record is unchanged |
| Tiket.AfterZeroSweep | tiket.c:400-408 | every record stays in place and only stale ones lose their stock |
| Tiket.CountRecords | tiket.c:86-94 | the first pass counts exactly the records `Decode` reads |
| Tiket.ReadRecords | tiket.c:114-121 | the second pass fills a fresh array with exactly the decoded records, in file order |
| Tiket.ZeroStale | tiket.c:400-408 | the loop leaves the records as `AfterZeroSweep` says and counts the stale ones |
| Tiket.Store.constructor | tiket.c:23-24 | the store starts empty |
| Tiket.Store.NewId | tiket.c:63-71 | the id `buat_id_unik` returns is `NextId` of the store |
| Tiket.Store.Load | tiket.c:75-125 | a missing file or one without a first record changes nothing; otherwise the store becomes the decoded records |
| Tiket.Store.Save | tiket.c:127-147 | the text written is `Encode` of the store |
| Tiket.Store.Add | tiket.c:152-196 | exactly one record is appended: the next id, the truncated texts, the first acceptable price and stock, `now`; unique ids stay unique |
| Tiket.Store.Search | tiket.c:212-257 | the hits are the records with the `atoi` id or the keyword in name or category, ignoring case, in order, with their count |
| Tiket.Store.Update | tiket.c:260-312 | an unknown id changes nothing; otherwise only the first record with the id is replaced by `Revised`; unique ids stay unique |
| Tiket.Store.Delete | tiket.c:315-354 | an unknown id changes nothing; otherwise exactly the first record with the id is removed, in order; unique ids stay unique |
| Tiket.Store.Sort | tiket.c:357-393 | fewer than two records or an option without a key change nothing; otherwise a permutation sorted by the key; unique ids stay unique |
| Tiket.Store.SweepZeroStock | tiket.c:396-413 | the store becomes `AfterZeroSweep` of itself and the count reported is the number of stale records; unique ids stay unique |
| Tiket.StaleCountStep | tiket.c:403-406 | the count of stale records grows by one exactly at a stale record |
| Tiket.ZeroSweepIdempotent | tiket.c:396-413 | a second sweep right away changes nothing and finds nothing stale |
| Tiket.ZeroSweepKeeps | tiket.c:400-408 | the sweep keeps ids, texts, prices and times, keeps records younger than seven days, and keeps ids unique |
| Tiket.ZeroSweepBoundary | tiket.c:402 | one second past seven days the stock becomes 0; one second inside it nothing changes; a record already out of stock is not counted |
| Tiket.SearchMatches | tiket.c:243-245 | a record is a hit exactly when it is in the store and matches by id, name or category |
| Tiket.SearchById | tiket.c:243 | typing a record's id as the keyword finds that record |
| TextCodec.ScanRecord | tiket.c:86-92 | one `fscanf` call that converts all six fields consumes at least one character of the text |
| TextCodec.Decode | tiket.c:86-94 | nothing loads exactly when the first record does not convert, and no more records load than the file has characters |
| TextCodec.Atoi | tiket.c:243 | a keyword that is blank or starts with anything but a sign or a digit gives 0; one that starts with a digit gives a number of at least 0 |
| TextCodec.FormatRecord | tiket.c:136-141 | a line written by `fprintf` starts with the id's `%d` text and ends with the newline |
| TextCodec.Encode | tiket.c:134-143 | only the empty store gives the empty file |
| TextCodec.EncodeEndsLine | tiket.c:134-143 | the file written for a non-empty store ends with a newline |
| TextCodec.EncodePrefix | tiket.c:134-143 | writing records one at a time: the text of the first i+1 records is that of the first i followed by line i |
| TextCodec.DecodeRecordLine | tiket.c:75-147 | a line written for a record with non-empty, ';'-free texts is read back as that record, followed by what the text after it decodes to |
| TextCodec.ScanShowInt | tiket.c:86-94 | `%d` reads back what `%d` wrote, up to the next non-digit |
| TextCodec.ScanShowCents | tiket.c:136-141 | `%f` reads back the cents `%.2f` wrote |
| TextCodec.ScanFormatRecord | tiket.c:134-143 | one line written by `simpan_data` is read back by one `fscanf` as the same record |
| TextCodec.EncodeAppend | tiket.c:134-143 | the text of a store with one more record is the old text followed by that record's line |
| TextCodec.DecodeEncode | tiket.c:75-147 | records written before any text are read back first, followed by what that text decodes to |
| TextCodec.RoundTrip | tiket.c:75-147 | saving and loading a store with non-empty, ';'-free names and categories gives back the same records |
| TextCodec.StopsAtMalformed | tiket.c:86-94 | loading stops at the first line that does not convert all six fields |
| TextCodec.DecodeEmpty | tiket.c:96-99 | an empty file loads no record |
| TextCodec.AtoiShowInt | tiket.c:243 | `atoi` of a number's decimal text is that number |
| SmartCity.Refreshed | main.c:28-33 | a lane is green exactly when more than five vehicles wait, red otherwise; the count is kept |
| SmartCity.UpdateLights | main.c:28-33 | the first n lanes get the light rule and the other lanes are unchanged |
| SmartCity.LightRule | main.c:28-33 | after the rule each of the first n lanes is green exactly above five vehicles; the rest are unchanged |
| SmartCity.LightsIdempotent | main.c:28-33 | applying the rule twice is applying it once |
| SmartCity.Aged | main.c:36-40 | a resident ages one year and nothing else about them changes |
| SmartCity.AgeResidents | main.c:36-40 | every resident in [idx, n) ages one year and the others are unchanged |
| SmartCity.AgeRule | main.c:36-40 | ages in [idx, n) go up by one; names, temperature, pollution and safety never change |
| SmartCity.AgedRangeSplit | main.c:36-40 | recursing over [i, j) and then [j, n) is recursing over [i, n) |

## Left out

- Console I/O: prompts, messages, the display functions (`tampilkan_tiket_detail`, `lihat_semua_tiket`, the time formatting) and buffer flushing. Inputs arrive as parameters.
- The menus, `main`, `login_admin` and failures of the `scanf` that reads an id or a menu option; an id or option is a parameter of type `int`.
- End of input and `NULL` from `fgets`. The early return of `tiket_baru.c`'s update on a failed `fgets` is also left out.
- The clock: `time(NULL)` is the parameter `now`.
- The binary `fread`/`fwrite` load and save of `tiket_baru.c` (lines 74-135): the save the sweep requests is the flag `saveRequested`. The model's store starts empty and gets its ids only from `NextId`, so it assumes what a file written by the program holds: records with unique ids. A hand-edited file with repeated ids is not modelled.
- `fopen` failure when saving; `Tiket.Store.Save` returns the text that would be written.
- Floating point: prices are integer cents. `%f` is modelled for an optional sign, digits and an optional fraction, of which only two digits are kept; exponents, `inf`, `nan` and hexadecimal forms are treated as a failed conversion.
- Overflow of `int` and `time_t`: numbers are unbounded.
- `malloc`/`realloc` failure, and the `exit` after a failed `malloc` in `muat_data`.
- The shrinking `realloc` after a delete: the model keeps the capacity, which is what a failed shrink also does.
- `qsort` internals: `TiketBaru.Store.Sort` uses the verified exchange sort and promises only what `qsort` promises, a permutation in comparator order. `qsort` is not stable, so the order of equal keys is not modelled.
- The smart-city simulator apart from its two rules: `rand`, the temperature drift, the pollution update, `simpanLog` and the log file.
- `tiket baru.c` is not part of this model, and with it its purchase operation `beli_tiket`.
- Tiket.Store.Load: requires every decoded record to fit its buffers, because `%[^;]` has no width and longer texts overflow `nama_konser` and `kategori`.
- TiketBaru.Store.Search: requires the term to be shorter than the buffer it is copied into (50 bytes for a name, 20 for a category), because a longer one overflows.
- Tiket.Store.Update: requires each `fgets` line to be shorter than its 50- or 20-byte buffer, which `fgets` guarantees.
- Tiket.Store.Add: when the name line is longer than 49 characters, the C program leaves the rest of it for the category read; the model reads the category from its own input.
- TiketBaru.Store.Add: `fgets(buffer, 100)` at tiket_baru.c:170 and :177 reads at most 99 characters of the name or category line and leaves the rest of a longer line for the next read; the model takes each input as a line of its own and does not carry the rest over.
- TiketBaru.Store.Update: `fgets(buffer, 100)` at tiket_baru.c:374 and :383 likewise leaves input beyond 99 characters for the next read, which the model does not carry over.
- Tiket.Store: unique ids are kept only when they held before, not as part of `Valid()`, because `muat_data` loads whatever ids the file holds, repeated ones included.
- Tiket.Store.Add: requires that some price attempt and some stock attempt are acceptable, because otherwise the `do`/`while (1)` loop never ends.
- Tiket.ReadRecords: the records are gathered first and then placed in the fresh array, rather than each `fscanf` writing into `daftar_tiket[i]`.
- Tiket.Store.Load: after a failure the store is left as it was, which is what the code does; the outcome is an empty store only because loading happens at start-up, when the store is still empty.
- TextCodec.RoundTrip: names and categories may contain newlines, because `%[^;]` reads across lines; they must be non-empty and free of ';'.
