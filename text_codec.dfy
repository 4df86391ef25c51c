/** The text format of `data_tiket.txt` in `tiket.c`. `simpan_data` writes
    every record as `fprintf("%d;%s;%s;%.2f;%d;%ld\n", ...)`; `muat_data`
    reads records back with `fscanf("%d;%[^;];%[^;];%f;%d;%ld\n", ...)`
    for as long as all six conversions succeed. The scanner below is the
    part of the C `scanf` family that this one pattern uses, applied to the
    whole remaining text of the file: `%d`, `%ld` and `%f` skip leading
    white space, `%[^;]` takes one or more characters up to the next ';'
    (line breaks included), a literal ';' must match the next character,
    and the trailing "\n" directive skips any amount of white space. */
module TextCodec {
  import opened Tickets

  /** `isspace` in the "C" locale: space, \t, \n, \v, \f and \r. */
  predicate IsSpace(c: char)
  {
    c == ' ' || 9 <= c as int <= 13
  }

  predicate IsDigit(c: char)
  {
    '0' <= c <= '9'
  }

  predicate AllDigits(s: string)
  {
    forall i :: 0 <= i < |s| ==> IsDigit(s[i])
  }

  function DigitValue(c: char): (d: nat)
    requires IsDigit(c)
    ensures d < 10
  {
    c as int - '0' as int
  }

  function DigitChar(d: nat): (c: char)
    requires d < 10
    ensures IsDigit(c) && DigitValue(c) == d
  {
    ('0' as int + d) as char
  }

  // ---------------------------------------------------------------- reading

  /** The white space every numeric conversion skips first. What is left
      is a suffix of the text that starts with no white space. */
  function SkipSpace(s: string): (r: string)
    ensures |r| <= |s|
    ensures r == [] || !IsSpace(r[0])
  {
    if |s| > 0 && IsSpace(s[0]) then SkipSpace(s[1..]) else s
  }

  /** The length of the run of leading digits. */
  function DigitRun(s: string): (n: nat)
    ensures n <= |s| && AllDigits(s[..n])
    ensures n < |s| ==> !IsDigit(s[n])
  {
    if |s| > 0 && IsDigit(s[0]) then
      var n := 1 + DigitRun(s[1..]);
      assert s[..n] == [s[0]] + s[1..][..n - 1];
      n
    else 0
  }

  /** The decimal value of a run of digits, most significant first. */
  function DigitsValue(ds: string): (v: nat)
    requires AllDigits(ds)
    ensures |ds| == 0 ==> v == 0
  {
    if ds == [] then 0
    else 10 * DigitsValue(ds[..|ds| - 1]) + DigitValue(ds[|ds| - 1])
  }

  /** The length of a leading '+' or '-'. */
  function SignLength(s: string): (n: nat)
    ensures n <= 1 && n <= |s|
  {
    if |s| > 0 && (s[0] == '-' || s[0] == '+') then 1 else 0
  }

  function SignOf(s: string): int
  {
    if |s| > 0 && s[0] == '-' then -1 else 1
  }

  /** `%d` and `%ld`: white space, an optional sign and at least one digit.
      The result is the value and the text after the last digit. */
  function ScanInt(s: string): (r: Option<(int, string)>)
    ensures r.Some? ==> |r.value.1| < |s|
  {
    ScanSigned(SkipSpace(s))
  }

  /** `%d` after the white space. */
  function ScanSigned(t: string): (r: Option<(int, string)>)
    ensures r.Some? ==> |r.value.1| < |t|
  {
    var u := t[SignLength(t)..];
    var n := DigitRun(u);
    if n == 0 then None
    else Some((SignOf(t) * DigitsValue(u[..n]), u[n..]))
  }

  /** A literal character of the pattern. */
  function Expect(c: char, s: string): (r: Option<string>)
    ensures r.Some? <==> |s| > 0 && s[0] == c
    ensures r.Some? ==> r.value == s[1..]
  {
    if |s| > 0 && s[0] == c then Some(s[1..]) else None
  }

  /** The length of the run of leading characters other than ';'. */
  function FieldRun(s: string): (n: nat)
    ensures n <= |s| && ';' !in s[..n]
    ensures n < |s| ==> s[n] == ';'
  {
    if |s| > 0 && s[0] != ';' then
      var n := 1 + FieldRun(s[1..]);
      assert s[..n] == [s[0]] + s[1..][..n - 1];
      n
    else 0
  }

  /** `%[^;]`: one or more characters up to the next ';'; no white space is
      skipped and line breaks are kept. */
  function ScanField(s: string): (r: Option<(string, string)>)
    ensures r.Some? ==> |r.value.0| > 0 && ';' !in r.value.0 && s == r.value.0 + r.value.1
    ensures r.None? <==> s == [] || s[0] == ';'
  {
    var n := FieldRun(s);
    if n == 0 then None else Some((s[..n], s[n..]))
  }

  /** The hundredths given by the first two digits after the point. */
  function Hundredths(fd: string): (h: nat)
    requires AllDigits(fd)
    ensures h < 100
  {
    if |fd| == 0 then 0
    else if |fd| == 1 then 10 * DigitValue(fd[0])
    else 10 * DigitValue(fd[0]) + DigitValue(fd[1])
  }

  /** `%f` read into a price in cents: white space, an optional sign, digits,
      optionally a point and more digits, with at least one digit in all.
      Digits after the hundredths are read and dropped. */
  function ScanCents(s: string): (r: Option<(int, string)>)
    ensures r.Some? ==> |r.value.1| < |s|
  {
    var t := SkipSpace(s);
    var u := t[SignLength(t)..];
    var n := DigitRun(u);
    ScanFraction(SignOf(t), u[..n], u[n..])
  }

  /** The rest of `%f` once the sign and the whole digits are read. */
  function ScanFraction(sign: int, whole: string, after: string): (r: Option<(int, string)>)
    requires AllDigits(whole)
    ensures r.Some? ==> |r.value.1| < |whole| + |after|
  {
    if |after| > 0 && after[0] == '.' then
      var frac := after[1..];
      var m := DigitRun(frac);
      if |whole| + m == 0 then None
      else Some((sign * (100 * DigitsValue(whole) + Hundredths(frac[..m])), frac[m..]))
    else if |whole| == 0 then None
    else Some((sign * 100 * DigitsValue(whole), after))
  }

  /** One call of the `fscanf` of `muat_data` that converts all six fields:
      the record read and the text after the trailing white space. The
      directives are matched from left to right; each stage below reads
      one ';' and one field. */
  function ScanRecord(s: string): (r: Option<(Ticket, string)>)
    ensures r.Some? ==> |r.value.1| < |s|
  {
    var id :- ScanInt(s);
    AfterId(id.0, id.1)
  }

  function AfterId(id: int, s: string): (r: Option<(Ticket, string)>)
    ensures r.Some? ==> |r.value.1| < |s|
  {
    var s1 :- Expect(';', s);
    var name :- ScanField(s1);
    AfterName(id, name.0, name.1)
  }

  function AfterName(id: int, name: string, s: string): (r: Option<(Ticket, string)>)
    ensures r.Some? ==> |r.value.1| < |s|
  {
    var s1 :- Expect(';', s);
    var category :- ScanField(s1);
    AfterCategory(id, name, category.0, category.1)
  }

  function AfterCategory(id: int, name: string, category: string, s: string): (r: Option<(Ticket, string)>)
    ensures r.Some? ==> |r.value.1| < |s|
  {
    var s1 :- Expect(';', s);
    var price :- ScanCents(s1);
    AfterPrice(id, name, category, price.0, price.1)
  }

  function AfterPrice(id: int, name: string, category: string, price: int, s: string): (r: Option<(Ticket, string)>)
    ensures r.Some? ==> |r.value.1| < |s|
  {
    var s1 :- Expect(';', s);
    var stock :- ScanInt(s1);
    AfterStock(id, name, category, price, stock.0, stock.1)
  }

  function AfterStock(id: int, name: string, category: string, price: int, stock: int, s: string): (r: Option<(Ticket, string)>)
    ensures r.Some? ==> |r.value.1| < |s|
  {
    var s1 :- Expect(';', s);
    var stamp :- ScanInt(s1);
    Some((Ticket(id, name, category, price, stock, stamp.0), SkipSpace(stamp.1)))
  }

  /** The records `muat_data` loads from a file holding `s`: the leading run
      of records that convert all six fields. Nothing loads exactly when
      the first record does not convert, and every record takes at least one
      character of the file. */
  function Decode(s: string): (r: seq<Ticket>)
    ensures r == [] <==> ScanRecord(s).None?
    ensures |r| <= |s|
    decreases |s|
  {
    match ScanRecord(s)
    case None => []
    case Some(p) => [p.0] + Decode(p.1)
  }

  /** One step of `Decode`: a record that converts is followed by the
      records of the text after it. */
  lemma DecodeStep(s: string)
    ensures ScanRecord(s).None? ==> Decode(s) == []
    ensures ScanRecord(s).Some? ==> Decode(s) == [ScanRecord(s).value.0] + Decode(ScanRecord(s).value.1)
  {
  }

  /** `atoi`: the value of a leading `%d` number, or 0 when there is none,
      as for a blank text or one that starts with a letter. A number written
      without a sign is never negative. */
  function Atoi(s: string): (r: int)
    ensures var t := SkipSpace(s);
      (t == [] || (t[0] != '-' && t[0] != '+' && !IsDigit(t[0]))) ==> r == 0
    ensures var t := SkipSpace(s); |t| > 0 && IsDigit(t[0]) ==> r >= 0
  {
    match ScanInt(s)
    case Some(p) => p.0
    case None => 0
  }

  // ---------------------------------------------------------------- writing

  /** `%d` of a non-negative number: its decimal digits, no leading zero. */
  function ShowNat(n: nat): (r: string)
    ensures |r| >= 1 && AllDigits(r)
    decreases n
  {
    if n < 10 then [DigitChar(n)] else ShowNat(n / 10) + [DigitChar(n % 10)]
  }

  /** `%d` and `%ld`. */
  function ShowInt(i: int): (r: string)
    ensures |r| >= 1 && (r[0] == '-' || IsDigit(r[0]))
  {
    if i < 0 then "-" + ShowNat(-i) else ShowNat(i)
  }

  /** `%.2f` of a price in cents: sign, whole units, point, two digits. */
  function ShowCents(c: int): (r: string)
    ensures |r| >= 4 && (r[0] == '-' || IsDigit(r[0]))
  {
    SignText(c) + ShowNat(Magnitude(c) / 100) + "." + TwoDigits(Magnitude(c) % 100)
  }

  function Magnitude(c: int): nat
  {
    if c < 0 then -c else c
  }

  function SignText(c: int): string
  {
    if c < 0 then "-" else ""
  }

  /** The two digits of a number below 100, with a leading zero. */
  function TwoDigits(h: nat): (r: string)
    requires h < 100
    ensures |r| == 2 && AllDigits(r)
  {
    [DigitChar(h / 10), DigitChar(h % 10)]
  }

  /** One line of `simpan_data`, built from the right: each piece below
      is one field followed by the rest of the line. The line starts with
      the `%d` text of the id and ends with the newline. */
  function FormatRecord(t: Ticket): (r: string)
    ensures |r| > 0 && r[|r| - 1] == '\n'
    ensures r[0] == '-' || IsDigit(r[0])
  {
    ShowInt(t.id) + ";" + NameField(t)
  }

  function NameField(t: Ticket): string
  {
    t.name + ";" + CategoryField(t)
  }

  function CategoryField(t: Ticket): string
  {
    t.category + ";" + PriceField(t)
  }

  function PriceField(t: Ticket): string
  {
    ShowCents(t.price) + ";" + StockField(t)
  }

  function StockField(t: Ticket): string
  {
    ShowInt(t.stock) + ";" + StampField(t)
  }

  function StampField(t: Ticket): string
  {
    ShowInt(t.createdAt) + "\n"
  }

  /** The whole file `simpan_data` writes: one line per record, in store
      order. Only the empty store gives the empty file. */
  function Encode(ts: seq<Ticket>): (r: string)
    ensures r == [] <==> ts == []
  {
    if ts == [] then "" else FormatRecord(ts[0]) + Encode(ts[1..])
  }

  // ---------------------------------------------------------------- proofs

  /** A record whose text fields survive `%[^;]`: non-empty and free of ';'. */
  predicate Storable(t: Ticket)
  {
    |t.name| > 0 && ';' !in t.name && |t.category| > 0 && ';' !in t.category
  }

  /** Writing one more record appends one more line. */
  lemma {:induction false} EncodeAppend(ts: seq<Ticket>, t: Ticket)
    ensures Encode(ts + [t]) == Encode(ts) + FormatRecord(t)
    decreases |ts|
  {
    if ts == [] {
      assert [t][1..] == [];
    } else {
      var longer := ts + [t];
      assert longer[0] == ts[0] && longer[1..] == ts[1..] + [t];
      EncodeAppend(ts[1..], t);
      ConcatAssociative(FormatRecord(ts[0]), Encode(ts[1..]), FormatRecord(t));
    }
  }

  /** The file of a non-empty store ends with the newline of its last
      line. */
  lemma {:induction false} EncodeEndsLine(ts: seq<Ticket>)
    requires ts != []
    ensures var text := Encode(ts); |text| > 0 && text[|text| - 1] == '\n'
    decreases |ts|
  {
    if ts[1..] != [] {
      EncodeEndsLine(ts[1..]);
    }
  }

  /** Writing the records of a prefix one at a time: the text of the
      prefix of length i + 1 is that of length i followed by line i. */
  lemma EncodePrefix(s: seq<Ticket>, i: nat)
    requires i < |s|
    ensures Encode(s[..i + 1]) == Encode(s[..i]) + FormatRecord(s[i])
  {
    assert s[..i + 1] == s[..i] + [s[i]];
    EncodeAppend(s[..i], s[i]);
  }

  lemma ConcatAssociative(a: string, b: string, c: string)
    ensures a + (b + c) == a + b + c
  {
  }

  lemma {:induction false} DigitsValueShowNat(n: nat)
    ensures DigitsValue(ShowNat(n)) == n
    decreases n
  {
    if n >= 10 {
      var r := ShowNat(n);
      assert r[..|r| - 1] == ShowNat(n / 10);
      DigitsValueShowNat(n / 10);
    }
  }

  lemma {:induction false} DigitRunOfDigits(ds: string, rest: string)
    requires AllDigits(ds)
    requires rest == [] || !IsDigit(rest[0])
    ensures DigitRun(ds + rest) == |ds|
    decreases |ds|
  {
    if ds == [] {
      assert ds + rest == rest;
    } else {
      assert (ds + rest)[1..] == ds[1..] + rest;
      DigitRunOfDigits(ds[1..], rest);
    }
  }

  /** What `%d` wrote, `%d` reads back, up to the first non-digit. */
  lemma ScanShowInt(i: int, rest: string)
    requires rest == [] || !IsDigit(rest[0])
    ensures ScanInt(ShowInt(i) + rest) == Some((i, rest))
  {
    var a := if i < 0 then -i else i;
    var sign := if i < 0 then "-" else "";
    assert ShowInt(i) + rest == sign + ShowNat(a) + rest;
    ScanSignedDigits(sign, ShowNat(a), rest);
    DigitsValueShowNat(a);
  }

  /** `%d` on an optional '-', a run of digits and then a non-digit. */
  lemma ScanSignedDigits(sign: string, digits: string, rest: string)
    requires sign == "" || sign == "-"
    requires |digits| > 0 && AllDigits(digits)
    requires rest == [] || !IsDigit(rest[0])
    ensures ScanInt(sign + digits + rest) ==
      Some(((if sign == "-" then -1 else 1) * DigitsValue(digits), rest))
  {
    var u := digits + rest;
    assert sign + digits + rest == sign + u;
    SignedText(sign, u);
    DigitRunOfDigits(digits, rest);
    assert u[..|digits|] == digits;
    assert u[|digits|..] == rest;
  }

  /** An optional '-' before a digit: nothing to skip, and the sign is
      read. */
  lemma SignedText(sign: string, u: string)
    requires sign == "" || sign == "-"
    requires |u| > 0 && IsDigit(u[0])
    ensures SkipSpace(sign + u) == sign + u
    ensures SignLength(sign + u) == |sign|
    ensures (sign + u)[|sign|..] == u
    ensures SignOf(sign + u) == if sign == "-" then -1 else 1
  {
    assert (sign + u)[0] == if sign == "-" then '-' else u[0];
  }

  /** What `%.2f` wrote, `%f` reads back as the same number of cents. */
  lemma ScanShowCents(c: int, rest: string)
    requires rest == [] || !IsDigit(rest[0])
    ensures ScanCents(ShowCents(c) + rest) == Some((c, rest))
  {
    CentsText(c, rest);
    ScanCentsParts(c, rest);
  }

  lemma CentsText(c: int, rest: string)
    ensures ShowCents(c) + rest
         == SignText(c) + ShowNat(Magnitude(c) / 100) + ("." + TwoDigits(Magnitude(c) % 100) + rest)
  {
  }

  lemma ScanCentsParts(c: int, rest: string)
    requires rest == [] || !IsDigit(rest[0])
    ensures ScanCents(SignText(c) + ShowNat(Magnitude(c) / 100) + ("." + TwoDigits(Magnitude(c) % 100) + rest))
         == Some((c, rest))
  {
    var m := Magnitude(c);
    var whole, two := ShowNat(m / 100), TwoDigits(m % 100);
    CentsValue(c);
    if c < 0 {
      ScanSignedDecimal("-", whole, two, rest);
    } else {
      ScanSignedDecimal("", whole, two, rest);
    }
  }

  /** The two digits `%.2f` writes after the point are read back as the
      hundredths. */
  lemma HundredthsOfTwoDigits(h: nat)
    requires h < 100
    ensures Hundredths(TwoDigits(h)) == h
  {
  }

  /** Sign, whole part and hundredths put back together give the cents. */
  lemma CentsValue(c: int)
    ensures (if SignText(c) == "-" then -1 else 1)
          * (100 * DigitsValue(ShowNat(Magnitude(c) / 100)) + Hundredths(TwoDigits(Magnitude(c) % 100))) == c
  {
    DigitsValueShowNat(Magnitude(c) / 100);
    HundredthsOfTwoDigits(Magnitude(c) % 100);
    assert 100 * (Magnitude(c) / 100) + Magnitude(c) % 100 == Magnitude(c);
  }

  /** `%f` on an optional '-', a run of digits, a point, two digits and
      then a non-digit. */
  lemma ScanSignedDecimal(sign: string, digits: string, two: string, rest: string)
    requires sign == "" || sign == "-"
    requires |digits| > 0 && AllDigits(digits)
    requires |two| == 2 && AllDigits(two)
    requires rest == [] || !IsDigit(rest[0])
    ensures ScanCents(sign + digits + ("." + two + rest)) ==
      Some(((if sign == "-" then -1 else 1) * (100 * DigitsValue(digits) + Hundredths(two)), rest))
  {
    ScanWholeDigits(sign, digits, "." + two + rest);
    ScanTwoDecimals(if sign == "-" then -1 else 1, digits, two, rest);
  }

  /** `%f` reads the sign and the whole digits, then goes on after them. */
  lemma ScanWholeDigits(sign: string, digits: string, after: string)
    requires sign == "" || sign == "-"
    requires |digits| > 0 && AllDigits(digits)
    requires after == [] || !IsDigit(after[0])
    ensures ScanCents(sign + digits + after) ==
      ScanFraction(if sign == "-" then -1 else 1, digits, after)
  {
    var u := digits + after;
    assert sign + digits + after == sign + u;
    SignedText(sign, u);
    DigitRunOfDigits(digits, after);
    assert u[..|digits|] == digits;
    assert u[|digits|..] == after;
  }

  /** The point and two digits after the whole digits of `%f`. */
  lemma ScanTwoDecimals(sign: int, digits: string, two: string, rest: string)
    requires AllDigits(digits)
    requires |two| == 2 && AllDigits(two)
    requires rest == [] || !IsDigit(rest[0])
    ensures ScanFraction(sign, digits, "." + two + rest) ==
      Some((sign * (100 * DigitsValue(digits) + Hundredths(two)), rest))
  {
    var frac := ("." + two + rest)[1..];
    assert frac == two + rest;
    DigitRunOfDigits(two, rest);
    assert frac[..2] == two;
    assert frac[2..] == rest;
  }

  /** What `%s` wrote, `%[^;]` reads back when the text is non-empty and
      free of ';' and a ';' follows it. */
  lemma ScanFieldText(f: string, rest: string)
    requires |f| > 0 && ';' !in f
    ensures ScanField(f + ";" + rest) == Some((f, ";" + rest))
  {
    FieldRunOfText(f, ";" + rest);
    assert (f + ";" + rest)[..|f|] == f;
    assert (f + ";" + rest)[|f|..] == ";" + rest;
  }

  lemma {:induction false} FieldRunOfText(f: string, rest: string)
    requires ';' !in f && |rest| > 0 && rest[0] == ';'
    ensures FieldRun(f + rest) == |f|
    decreases |f|
  {
    if f == [] {
      assert f + rest == rest;
    } else {
      assert (f + rest)[1..] == f[1..] + rest;
      FieldRunOfText(f[1..], rest);
    }
  }

  lemma ExpectSemicolon(s: string)
    ensures Expect(';', ";" + s) == Some(s)
  {
    assert (";" + s)[1..] == s;
  }

  /** Skipping white space twice is skipping it once. */
  lemma SkipSpaceIdempotent(s: string)
    ensures SkipSpace(SkipSpace(s)) == SkipSpace(s)
  {
  }

  /** `%d` skips leading white space, so so does the whole record pattern. */
  lemma DecodeSkipsSpace(s: string)
    ensures Decode(SkipSpace(s)) == Decode(s)
  {
    SkipSpaceIdempotent(s);
    assert ScanRecord(SkipSpace(s)) == ScanRecord(s);
  }

  /** One line written by `simpan_data` is one record read by `muat_data`. */
  lemma ScanFormatRecord(t: Ticket, rest: string)
    requires Storable(t)
    ensures ScanRecord(FormatRecord(t) + rest) == Some((t, SkipSpace(rest)))
  {
    Regroup(ShowInt(t.id), ";", NameField(t), rest);
    ScanShowInt(t.id, ";" + (NameField(t) + rest));
    NameStage(t, rest);
    CategoryStage(t, rest);
    PriceStage(t, rest);
    StockStage(t, rest);
    StampStage(t, rest);
  }

  /** `a + sep + b + rest` read as `a`, then `sep`, then the rest. */
  lemma Regroup(a: string, sep: string, b: string, rest: string)
    ensures a + sep + b + rest == a + (sep + (b + rest))
  {
  }

  lemma NameStage(t: Ticket, rest: string)
    requires |t.name| > 0 && ';' !in t.name
    ensures AfterId(t.id, ";" + (NameField(t) + rest))
         == AfterName(t.id, t.name, ";" + (CategoryField(t) + rest))
  {
    Regroup(t.name, ";", CategoryField(t), rest);
    ExpectSemicolon(NameField(t) + rest);
    ScanFieldText(t.name, CategoryField(t) + rest);
  }

  lemma CategoryStage(t: Ticket, rest: string)
    requires |t.category| > 0 && ';' !in t.category
    ensures AfterName(t.id, t.name, ";" + (CategoryField(t) + rest))
         == AfterCategory(t.id, t.name, t.category, ";" + (PriceField(t) + rest))
  {
    Regroup(t.category, ";", PriceField(t), rest);
    ExpectSemicolon(CategoryField(t) + rest);
    ScanFieldText(t.category, PriceField(t) + rest);
  }

  lemma PriceStage(t: Ticket, rest: string)
    ensures AfterCategory(t.id, t.name, t.category, ";" + (PriceField(t) + rest))
         == AfterPrice(t.id, t.name, t.category, t.price, ";" + (StockField(t) + rest))
  {
    Regroup(ShowCents(t.price), ";", StockField(t), rest);
    ExpectSemicolon(PriceField(t) + rest);
    ScanShowCents(t.price, ";" + (StockField(t) + rest));
  }

  lemma StockStage(t: Ticket, rest: string)
    ensures AfterPrice(t.id, t.name, t.category, t.price, ";" + (StockField(t) + rest))
         == AfterStock(t.id, t.name, t.category, t.price, t.stock, ";" + (StampField(t) + rest))
  {
    Regroup(ShowInt(t.stock), ";", StampField(t), rest);
    ExpectSemicolon(StockField(t) + rest);
    ScanShowInt(t.stock, ";" + (StampField(t) + rest));
  }

  lemma StampStage(t: Ticket, rest: string)
    ensures AfterStock(t.id, t.name, t.category, t.price, t.stock, ";" + (StampField(t) + rest))
         == Some((t, SkipSpace(rest)))
  {
    ExpectSemicolon(StampField(t) + rest);
    StampScan(t, rest);
    SkipNewline(rest);
  }

  lemma StampScan(t: Ticket, rest: string)
    ensures ScanInt(StampField(t) + rest) == Some((t.createdAt, "\n" + rest))
  {
    assert StampField(t) + rest == ShowInt(t.createdAt) + ("\n" + rest);
    ScanShowInt(t.createdAt, "\n" + rest);
  }

  lemma SkipNewline(rest: string)
    ensures SkipSpace("\n" + rest) == SkipSpace(rest)
  {
    assert ("\n" + rest)[1..] == rest;
  }

  /** Reading back what was written: the records written, then whatever the
      text after them holds. */
  lemma {:induction false} DecodeEncode(ts: seq<Ticket>, rest: string)
    requires forall k :: 0 <= k < |ts| ==> Storable(ts[k])
    ensures Decode(Encode(ts) + rest) == ts + Decode(rest)
    decreases |ts|
  {
    if ts == [] {
      assert Encode(ts) + rest == rest;
    } else {
      DecodeEncode(ts[1..], rest);
      DecodeEncodeCons(ts, rest);
      ConsAppend(ts, Decode(rest));
    }
  }

  /** The step of `DecodeEncode`: the first line written is read back as the
      first record, followed by what the lines after it decode to. */
  lemma DecodeEncodeCons(ts: seq<Ticket>, rest: string)
    requires |ts| > 0 && Storable(ts[0])
    ensures Decode(Encode(ts) + rest) == [ts[0]] + Decode(Encode(ts[1..]) + rest)
  {
    var head, body := FormatRecord(ts[0]), Encode(ts[1..]);
    assert Encode(ts) == head + body;
    ConcatAssociative(head, body, rest);
    DecodeRecordLine(ts[0], body + rest);
  }

  /** A line written for a storable record is read back as that record,
      followed by the records of the text after it. */
  lemma DecodeRecordLine(t: Ticket, rest: string)
    requires Storable(t)
    ensures Decode(FormatRecord(t) + rest) == [t] + Decode(rest)
  {
    ScanFormatRecord(t, rest);
    DecodeSkipsSpace(rest);
  }

  lemma ConsAppend(ts: seq<Ticket>, more: seq<Ticket>)
    requires |ts| > 0
    ensures [ts[0]] + (ts[1..] + more) == ts + more
  {
    assert ts == [ts[0]] + ts[1..];
  }

  /** The round trip of `simpan_data` and `muat_data`: a store whose names
      and categories are non-empty and free of ';' is read back exactly. */
  lemma RoundTrip(ts: seq<Ticket>)
    requires forall k :: 0 <= k < |ts| ==> Storable(ts[k])
    ensures Decode(Encode(ts)) == ts
  {
    DecodeEncode(ts, "");
    EmptyRight(Encode(ts));
    DecodeEmpty();
    assert ts + [] == ts;
  }

  lemma EmptyRight(s: string)
    ensures s + "" == s
  {
  }

  /** Loading stops at the first line that does not convert all six fields:
      the well-formed lines before it are loaded and nothing after it. */
  lemma StopsAtMalformed(ts: seq<Ticket>, tail: string)
    requires forall k :: 0 <= k < |ts| ==> Storable(ts[k])
    requires ScanRecord(tail).None?
    ensures Decode(Encode(ts) + tail) == ts
  {
    DecodeEncode(ts, tail);
  }

  /** An empty file loads nothing. */
  lemma DecodeEmpty()
    ensures Decode("") == []
  {
    assert ScanInt("") == None;
  }

  /** `atoi` reads back the decimal text of any number, so typing an id
      as the search keyword finds that id. */
  lemma AtoiShowInt(i: int)
    ensures Atoi(ShowInt(i)) == i
  {
    ScanShowInt(i, "");
    assert ShowInt(i) + "" == ShowInt(i);
  }
}
