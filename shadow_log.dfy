/**
 * The local shadow copy of every sent payload (`akshar_visitor_data`): each
 * send appends one entry and then drops entries from the front so that at
 * most the newest 1000 remain. A write that storage refuses changes nothing.
 */
module ShadowLog {
  import opened Events

  const MaxEntries: nat := 1000

  /** A stored payload with its `storedAt` time. */
  datatype Entry = Entry(event: Event, storedAt: int)

  function Min(a: int, b: int): int {
    if a < b then a else b
  }

  /** `if (storedData.length > 1000) storedData.splice(0, storedData.length - 1000)`: the newest 1000 entries. */
  function Capped(log: seq<Entry>): seq<Entry> {
    if |log| > MaxEntries then log[|log| - MaxEntries..] else log
  }

  /** The capped log is the last min(|log|, 1000) entries of the log, in their order. */
  lemma CappedIsNewest(log: seq<Entry>)
    ensures var r := Capped(log);
      |r| == Min(|log|, MaxEntries) && r == log[|log| - |r|..]
  {
  }

  /** One call of `storeTrackingDataLocally`: push, cap, and write back, unless the write is refused. */
  function StoreOne(log: seq<Entry>, e: Event, storedAt: int, writable: bool): seq<Entry> {
    if writable then Capped(log + [Entry(e, storedAt)]) else log
  }

  /**
   * After an accepted append the new entry is last, the log holds
   * min(|old| + 1, 1000) entries, those are the newest of `old + [entry]` in
   * their original order, and below the cap nothing is evicted.
   */
  lemma AppendKeepsNewest(log: seq<Entry>, e: Event, storedAt: int)
    ensures var r := StoreOne(log, e, storedAt, true);
      && |r| == Min(|log| + 1, MaxEntries)
      && r[|r| - 1] == Entry(e, storedAt)
      && r == (log + [Entry(e, storedAt)])[|log| + 1 - |r|..]
      && (|log| < MaxEntries ==> r == log + [Entry(e, storedAt)])
  {
  }

  /** The entries made by sending `es` at one time. */
  function Entries(es: seq<Event>, storedAt: int): (r: seq<Entry>)
    ensures |r| == |es|
    ensures forall i :: 0 <= i < |es| ==> r[i] == Entry(es[i], storedAt)
  {
    if es == [] then [] else Entries(es[..|es| - 1], storedAt) + [Entry(es[|es| - 1], storedAt)]
  }

  /** The log after the payloads `es` have been stored one after another. */
  function Stored(log: seq<Entry>, es: seq<Event>, storedAt: int, writable: bool): seq<Entry> {
    if es == [] then log
    else StoreOne(Stored(log, es[..|es| - 1], storedAt, writable), es[|es| - 1], storedAt, writable)
  }

  /** Capping twice is capping once: only the newest entries ever survive. */
  lemma CappedAbsorbs(s: seq<Entry>, u: seq<Entry>)
    ensures Capped(Capped(s) + u) == Capped(s + u)
  {
    if |s| > MaxEntries {
      var c := Capped(s);
      var n := |s + u|;
      assert (c + u)[|c + u| - Min(|c + u|, MaxEntries)..] == (s + u)[n - Min(n, MaxEntries)..];
    }
  }

  /** Storing payloads one at a time keeps exactly the newest 1000 entries of the whole history. */
  lemma {:induction false} StoredIsCappedAppend(log: seq<Entry>, es: seq<Event>, storedAt: int)
    requires es != []
    ensures Stored(log, es, storedAt, true) == Capped(log + Entries(es, storedAt))
  {
    var init, last := es[..|es| - 1], es[|es| - 1];
    var en := Entry(last, storedAt);
    assert Entries(es, storedAt) == Entries(init, storedAt) + [en];
    if init == [] {
      assert Entries(es, storedAt) == [en];
    } else {
      StoredIsCappedAppend(log, init, storedAt);
      CappedAbsorbs(log + Entries(init, storedAt), [en]);
      assert log + Entries(init, storedAt) + [en] == log + Entries(es, storedAt);
    }
  }

  /** Stores made in two batches equal the stores made in one. */
  lemma {:induction false} StoredConcat(log: seq<Entry>, a: seq<Event>, b: seq<Event>, storedAt: int, writable: bool)
    ensures Stored(Stored(log, a, storedAt, writable), b, storedAt, writable) == Stored(log, a + b, storedAt, writable)
    decreases |b|
  {
    if b == [] {
      assert a + b == a;
    } else {
      assert (a + b)[..|a + b| - 1] == a + b[..|b| - 1];
      StoredConcat(log, a, b[..|b| - 1], storedAt, writable);
    }
  }

  /** A refused write leaves the log as it was, however many payloads are sent. */
  lemma {:induction false} RefusedWritesChangeNothing(log: seq<Entry>, es: seq<Event>, storedAt: int)
    ensures Stored(log, es, storedAt, false) == log
  {
    if es != [] {
      RefusedWritesChangeNothing(log, es[..|es| - 1], storedAt);
    }
  }

  /** Sending 1005 payloads into an empty log keeps the newest 1000: the oldest five are gone. */
  lemma ThousandAndFiveSends(es: seq<Event>, storedAt: int)
    requires |es| == 1005
    ensures Stored([], es, storedAt, true) == Entries(es[5..], storedAt)
  {
    StoredIsCappedAppend([], es, storedAt);
    assert [] + Entries(es, storedAt) == Entries(es, storedAt);
    assert Entries(es, storedAt)[5..] == Entries(es[5..], storedAt);
  }

  /** Storing a single payload is one call of `storeTrackingDataLocally`. */
  lemma StoredOne(log: seq<Entry>, e: Event, storedAt: int, writable: bool)
    ensures Stored(log, [e], storedAt, writable) == StoreOne(log, e, storedAt, writable)
  {
    assert [e][..0] == [];
  }

  /** Storing one more payload after a batch is one more call after the batch's stores. */
  lemma StoredSnoc(log: seq<Entry>, es: seq<Event>, e: Event, storedAt: int, writable: bool)
    ensures Stored(log, es + [e], storedAt, writable) == StoreOne(Stored(log, es, storedAt, writable), e, storedAt, writable)
  {
    assert (es + [e])[..|es|] == es;
  }
}
