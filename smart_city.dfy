/** The two in-place rules of the smart-city simulator in `main.c`: the
    traffic-light threshold of `updateLampuOtomatis` and the recursive age
    increment of `tambahUmurWarga`. */
module SmartCity {

  /** The struct `Jalan`: the light (0 red, 1 green) and the number of
      waiting vehicles. */
  datatype Lane = Lane(light: int, vehicles: int)

  /** The struct `Warga`. The temperature (a `float` in C) is kept in
      tenths of a degree; neither rule here reads or changes it. */
  datatype Resident = Resident(name: string, age: int, temperature: int, pollution: int, safe: int)

  /** More than this many vehicles turn a lane green. */
  const GreenThreshold: int := 5

  /** The light rule for one lane. */
  function Refreshed(l: Lane): (r: Lane)
    ensures r.vehicles == l.vehicles
    ensures r.light == 1 <==> l.vehicles > GreenThreshold
    ensures r.light == 0 <==> l.vehicles <= GreenThreshold
  {
    l.(light := if l.vehicles > GreenThreshold then 1 else 0)
  }

  /** The lanes after the rule is applied to the first `n` of them. */
  function LightsAfter(s: seq<Lane>, n: int): (r: seq<Lane>)
    ensures |r| == |s|
    ensures forall k :: 0 <= k < |s| ==> r[k] == if k < n then Refreshed(s[k]) else s[k]
  {
    seq(|s|, k requires 0 <= k < |s| => if k < n then Refreshed(s[k]) else s[k])
  }

  /** `updateLampuOtomatis(jalan, n)`: for every i below n the light is set
      from the vehicle count. */
  method UpdateLights(lanes: array<Lane>, n: int)
    requires n <= lanes.Length
    modifies lanes
    ensures lanes[..] == LightsAfter(old(lanes[..]), n)
  {
    var i := 0;
    while i < n
      invariant 0 <= i <= lanes.Length && (i <= n || i == 0)
      invariant forall k :: 0 <= k < i ==> lanes[k] == Refreshed(old(lanes[k]))
      invariant forall k :: i <= k < lanes.Length ==> lanes[k] == old(lanes[k])
    {
      if lanes[i].vehicles > GreenThreshold {
        lanes[i] := lanes[i].(light := 1);
      } else {
        lanes[i] := lanes[i].(light := 0);
      }
      i := i + 1;
    }
    assert lanes[..] == LightsAfter(old(lanes[..]), n);
  }

  /** After the rule, each of the first n lanes is green exactly when more
      than five vehicles wait, and red otherwise; no vehicle count changes. */
  lemma LightRule(s: seq<Lane>, n: int, k: int)
    requires 0 <= k < |s|
    ensures LightsAfter(s, n)[k].vehicles == s[k].vehicles
    ensures k < n ==> (LightsAfter(s, n)[k].light == 1 <==> s[k].vehicles > 5)
    ensures k < n ==> (LightsAfter(s, n)[k].light == 0 <==> s[k].vehicles <= 5)
    ensures k >= n ==> LightsAfter(s, n)[k] == s[k]
  {
  }

  /** Applying the rule twice is applying it once. */
  lemma {:induction false} LightsIdempotent(s: seq<Lane>, n: int)
    ensures LightsAfter(LightsAfter(s, n), n) == LightsAfter(s, n)
  {
    var once := LightsAfter(s, n);
    var twice := LightsAfter(once, n);
    forall k | 0 <= k < |s| ensures twice[k] == once[k] {
      if k < n {
        RefreshedIdempotent(s[k]);
      }
    }
  }

  lemma RefreshedIdempotent(l: Lane)
    ensures Refreshed(Refreshed(l)) == Refreshed(l)
  {
  }

  /** One year older. */
  function Aged(w: Resident): (r: Resident)
    ensures r.age == w.age + 1
    ensures r.name == w.name && r.temperature == w.temperature
    ensures r.pollution == w.pollution && r.safe == w.safe
  {
    w.(age := w.age + 1)
  }

  /** The residents after every index in [idx, n) has aged one year. */
  function AgedRange(s: seq<Resident>, idx: int, n: int): (r: seq<Resident>)
    ensures |r| == |s|
    ensures forall k :: 0 <= k < |s| ==> r[k] == if idx <= k < n then Aged(s[k]) else s[k]
  {
    seq(|s|, k requires 0 <= k < |s| => if idx <= k < n then Aged(s[k]) else s[k])
  }

  /** `tambahUmurWarga(warga, idx, jumlah)`: stops when idx reaches jumlah,
      otherwise ages `warga[idx]` and recurses on idx+1. The recursion ends
      because jumlah - idx goes down; with idx above jumlah it would not. */
  method AgeResidents(residents: array<Resident>, idx: int, n: int)
    requires 0 <= idx <= n <= residents.Length
    modifies residents
    ensures residents[..] == AgedRange(old(residents[..]), idx, n)
    decreases n - idx
  {
    if idx == n {
      assert residents[..] == AgedRange(old(residents[..]), idx, n);
      return;
    }
    residents[idx] := residents[idx].(age := residents[idx].age + 1);
    ghost var mid := residents[..];
    AgeResidents(residents, idx + 1, n);
    AgedRangeStep(old(residents[..]), mid, idx, n);
  }

  /** Aging index idx first and then [idx+1, n) ages [idx, n). */
  lemma AgedRangeStep(s: seq<Resident>, mid: seq<Resident>, idx: int, n: int)
    requires 0 <= idx < n <= |s| && |mid| == |s|
    requires mid == s[idx := Aged(s[idx])]
    ensures AgedRange(mid, idx + 1, n) == AgedRange(s, idx, n)
  {
  }

  /** Every resident in [idx, n) is exactly one year older and nothing else
      about any resident changes; residents outside the range are kept. */
  lemma AgeRule(s: seq<Resident>, idx: int, n: int, k: int)
    requires 0 <= k < |s|
    ensures idx <= k < n ==> AgedRange(s, idx, n)[k].age == s[k].age + 1
    ensures AgedRange(s, idx, n)[k].name == s[k].name
    ensures AgedRange(s, idx, n)[k].temperature == s[k].temperature
    ensures AgedRange(s, idx, n)[k].pollution == s[k].pollution
    ensures AgedRange(s, idx, n)[k].safe == s[k].safe
    ensures !(idx <= k < n) ==> AgedRange(s, idx, n)[k] == s[k]
  {
  }

  /** Aging [i, j) and then [j, n) is aging [i, n): the recursion can be
      split at any index. */
  lemma {:induction false} AgedRangeSplit(s: seq<Resident>, i: int, j: int, n: int)
    requires i <= j <= n
    ensures AgedRange(AgedRange(s, i, j), j, n) == AgedRange(s, i, n)
  {
    var left := AgedRange(s, i, j);
    var both := AgedRange(left, j, n);
    forall k | 0 <= k < |s| ensures both[k] == AgedRange(s, i, n)[k] {
    }
  }
}
