/**
  The dynamic table of core/tincd/src/h3.c (section 3.2 of RFC 9204) as a value: everything ever
  inserted, and how many of the latest entries are still in the table.
  */
module QpackTable {
  import opened Wrappers
  import opened Bits
  import opened StaticTable

  /** QPACK_STR_MAX: the longest name or value kept. */
  const STR_MAX := 4096

  /** A string the table can hold. */
  predicate Keepable(s: seq<Byte>) {
    NulFree(s) && |s| <= STR_MAX
  }

  lemma KeepableFits(s: seq<Byte>)
    ensures Keepable(s) <==> NulFree(s) && |s| < STR_MAX + 1
  {
  }

  function Size(e: Entry): nat {
    |e.name| + |e.value| + 32
  }

  function TotalSize(es: seq<Entry>): nat {
    if es == [] then 0 else Size(es[0]) + TotalSize(es[1..])
  }

  lemma {:induction false} TotalSizeAppend(a: seq<Entry>, b: seq<Entry>)
    ensures TotalSize(a + b) == TotalSize(a) + TotalSize(b)
  {
    if a == [] {
      assert a + b == b;
    } else {
      TotalSizeAppend(a[1..], b);
      assert (a + b)[1..] == a[1..] + b;
    }
  }

  lemma {:induction false} TotalSizeCounts(es: seq<Entry>)
    ensures TotalSize(es) >= 32 * |es|
  {
    if es != [] {
      TotalSizeCounts(es[1..]);
    }
  }

  datatype Table = Table(maxCapacity: nat, capacity: nat, history: seq<Entry>, live: nat)
  {
    predicate WellFormed() {
      live <= |history|
    }

    /** The entries still in the table, oldest first. */
    function Live(): (es: seq<Entry>)
      requires WellFormed()
      ensures |es| == live
    {
      history[|history| - live..]
    }

    predicate Invariant() {
      && WellFormed()
      && TotalSize(Live()) <= capacity <= maxCapacity
      && forall i :: 0 <= i < |history| ==> |history[i].name| <= STR_MAX && |history[i].value| <= STR_MAX
    }

    /** The entry with absolute index `index`, if it has not been evicted. */
    function Get(index: nat): (r: Option<Entry>)
      requires WellFormed()
    {
      if |history| - live <= index < |history| then Some(history[index]) else None
    }
  }

  /** The entry with absolute index `index` has come and has not been evicted. */
  predicate IsLive(t: Table, index: nat)
    requires t.WellFormed()
  {
    |t.history| - t.live <= index < |t.history|
  }

  /** Oldest entries go until the rest take up at most `limit`. */
  function Evicted(t: Table, limit: nat): (r: Table)
    requires t.WellFormed()
    ensures r == t.(live := r.live) && r.live <= t.live
    ensures TotalSize(r.Live()) <= limit
    decreases t.live
  {
    if TotalSize(t.Live()) <= limit then t else Evicted(t.(live := t.live - 1), limit)
  }

  /** No more goes than has to: whatever longer suffix was there did not fit. */
  lemma {:induction false} EvictedKeepsMost(t: Table, limit: nat, n: nat)
    requires t.WellFormed() && Evicted(t, limit).live < n <= t.live
    ensures TotalSize(t.(live := n).Live()) > limit
    decreases t.live
  {
    hide TotalSize;
    if n < t.live {
      EvictedKeepsMost(t.(live := t.live - 1), limit, n);
    }
  }

  function Inserted(t: Table, e: Entry): (r: Option<Table>)
    requires t.WellFormed()
    ensures r.Some? <==> Size(e) <= t.capacity
    ensures r.Some? ==> r.value.WellFormed() && r.value.history == t.history + [e] && r.value.live >= 1
  {
    if Size(e) > t.capacity then None
    else
      var kept := Evicted(t, t.capacity - Size(e));
      Some(kept.(history := t.history + [e], live := kept.live + 1))
  }

  lemma InsertedIs(t: Table, e: Entry, r: Table)
    requires t.WellFormed() && Size(e) <= t.capacity
    requires var kept := Evicted(t, t.capacity - Size(e)); r == kept.(history := t.history + [e], live := kept.live + 1)
    ensures Inserted(t, e) == Some(r)
  {
  }

  function Resized(t: Table, capacity: nat): (r: Option<Table>)
    requires t.WellFormed()
    ensures r.Some? <==> capacity <= t.maxCapacity
    ensures r.Some? ==> r.value.WellFormed() && r.value.history == t.history
  {
    if capacity > t.maxCapacity then None else Some(Evicted(t.(capacity := capacity), capacity))
  }

  /** Insertion keeps the table's invariant, whatever it evicts. */
  lemma InsertKeeps(t: Table, e: Entry)
    requires t.Invariant() && |e.name| <= STR_MAX && |e.value| <= STR_MAX && Size(e) <= t.capacity
    ensures Inserted(t, e).value.Invariant()
    ensures Inserted(t, e).value.Get(|t.history|) == Some(e)
  {
    hide Evicted, TotalSize;
    var kept := Evicted(t, t.capacity - Size(e));
    var r := Inserted(t, e).value;
    assert r.Live() == kept.Live() + [e];
    TotalSizeAppend(kept.Live(), [e]);
    TotalSizeOne(e);
  }

  lemma TotalSizeOne(e: Entry)
    ensures TotalSize([e]) == Size(e)
  {
    assert TotalSize([e]) == Size(e) + TotalSize([]);
  }

  lemma ResizeKeeps(t: Table, capacity: nat)
    requires t.Invariant() && capacity <= t.maxCapacity
    ensures Resized(t, capacity).value.Invariant()
  {
  }

  /** The array the table lives in never needs more than max_capacity / 32 slots. */
  lemma LiveBound(t: Table)
    requires t.Invariant()
    ensures t.live <= t.maxCapacity / 32
  {
    TotalSizeCounts(t.Live());
  }
}
