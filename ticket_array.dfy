/** The array-level steps both store variants repeat: the linear scan for
    the first record with an id, the left shift that removes one record,
    and the `realloc` that makes room for one more. */
module TicketArray {
  import opened Tickets

  /** The scan over the first n records that stops at the first one with
      the id. */
  method FindFirst(a: array<Ticket>, n: nat, id: int) returns (k: Option<nat>)
    requires n <= a.Length
    ensures k == FirstIndex(a[..n], id)
  {
    var i := 0;
    while i < n
      invariant 0 <= i <= n
      invariant forall j :: 0 <= j < i ==> a[j].id != id
    {
      if a[i].id == id {
        assert a[..n][i].id == id;
        return Some(i);
      }
      i := i + 1;
    }
    return None;
  }

  /** The left shift over the first n slots: every record after position
      i moves one place to the left. The last slot keeps its old value; the
      caller then shortens the count. */
  method RemoveAt(a: array<Ticket>, i: nat, n: nat)
    requires i < n <= a.Length
    modifies a
    ensures a[..n - 1] == Without(old(a[..n]), i)
    ensures a[n - 1..] == old(a[n - 1..])
  {
    var j := i;
    while j < n - 1
      invariant i <= j <= n - 1
      invariant forall k :: 0 <= k < i ==> a[k] == old(a[k])
      invariant forall k :: i <= k < j ==> a[k] == old(a[k + 1])
      invariant forall k :: j <= k < a.Length ==> a[k] == old(a[k])
    {
      a[j] := a[j + 1];
      j := j + 1;
    }
    assert a[n - 1..] == old(a[n - 1..]);
  }

  /** `realloc(a, (n + 1) * sizeof(Tiket))`: a fresh array one slot longer
      than the n records it keeps. */
  method Grow(a: array<Ticket>, n: nat) returns (b: array<Ticket>)
    requires n <= a.Length
    ensures fresh(b) && b.Length == n + 1
    ensures b[..n] == a[..n]
  {
    b := new Ticket[n + 1];
    var i := 0;
    while i < n
      invariant 0 <= i <= n
      invariant forall k :: 0 <= k < i ==> b[k] == a[k]
    {
      b[i] := a[i];
      i := i + 1;
    }
  }

  /** The search loops that show every record passing a test, in store
      order. */
  method Collect(a: array<Ticket>, n: nat, c: Criterion) returns (found: seq<Ticket>)
    requires n <= a.Length
    ensures found == Where(a[..n], c)
  {
    found := [];
    var i := 0;
    while i < n
      invariant 0 <= i <= n
      invariant found == Where(a[..i], c)
    {
      assert a[..i + 1][..i] == a[..i];
      if Satisfies(a[i], c) {
        found := found + [a[i]];
      }
      i := i + 1;
    }
    assert a[..i] == a[..n];
  }
}
