/**
 * Persistence of (current date, reminder store): the store serialises as the
 * sequence of its (key, value) pairs in iteration order and deserialises by
 * collecting pairs into a map; a missing or undecodable file loads as the
 * default date and an empty store.
 */
module Persistence {
  import opened Wrappers
  import opened Calendar
  import opened Reminders

  type Pair = (StampedDate, Reminder)

  /** The keys of a pair sequence, in order. */
  function PairKeys(pairs: seq<Pair>): seq<StampedDate> {
    seq(|pairs|, i requires 0 <= i < |pairs| => pairs[i].0)
  }

  /** `collect` into a `BTreeMap`: pairs are inserted front to back, so for
      a repeated key the last pair wins (`FromPairsLastWins`). The keys are
      exactly the pairs' keys. */
  function FromPairs(pairs: seq<Pair>): (m: Store)
    ensures forall k :: k in m <==> k in PairKeys(pairs)
    decreases |pairs|
  {
    if |pairs| == 0 then map[]
    else
      var init := pairs[..|pairs| - 1];
      assert PairKeys(pairs) == PairKeys(init) + [pairs[|pairs| - 1].0];
      FromPairs(init)[pairs[|pairs| - 1].0 := pairs[|pairs| - 1].1]
  }

  /** A key's value in the rebuilt map is the value of its last pair. */
  lemma {:induction false} FromPairsLastWins(pairs: seq<Pair>, i: nat)
    requires i < |pairs|
    requires forall j :: i < j < |pairs| ==> pairs[j].0 != pairs[i].0
    ensures pairs[i].0 in FromPairs(pairs)
    ensures FromPairs(pairs)[pairs[i].0] == pairs[i].1
    decreases |pairs|
  {
    assert PairKeys(pairs)[i] == pairs[i].0;
    if i < |pairs| - 1 {
      var init := pairs[..|pairs| - 1];
      assert init[i] == pairs[i];
      FromPairsLastWins(init, i);
    }
  }

  /** Rebuilding from any listing of a store, in any order, gives back that
      store: each key listed once, each with its value, no other keys. */
  lemma {:induction false} FromPairsOfListing(store: Store, pairs: seq<Pair>)
    requires Distinct(PairKeys(pairs))
    requires forall i :: 0 <= i < |pairs| ==> pairs[i].0 in store && store[pairs[i].0] == pairs[i].1
    requires forall k :: k in store ==> k in PairKeys(pairs)
    ensures FromPairs(pairs) == store
  {
    forall k | k in store
      ensures k in FromPairs(pairs) && FromPairs(pairs)[k] == store[k]
    {
      ListedKeyValue(store, pairs, k);
    }
  }

  /** A key of the store that is listed once maps to its value in the
      rebuilt map. */
  lemma {:induction false} ListedKeyValue(store: Store, pairs: seq<Pair>, k: StampedDate)
    requires Distinct(PairKeys(pairs))
    requires forall i :: 0 <= i < |pairs| ==> pairs[i].0 in store && store[pairs[i].0] == pairs[i].1
    requires k in store && k in PairKeys(pairs)
    ensures k in FromPairs(pairs) && FromPairs(pairs)[k] == store[k]
  {
    var ks := PairKeys(pairs);
    assert |ks| == |pairs| && forall j :: 0 <= j < |pairs| ==> ks[j] == pairs[j].0;
    var i :| 0 <= i < |ks| && ks[i] == k;
    assert forall j :: i < j < |pairs| ==> pairs[j].0 != pairs[i].0;
    FromPairsLastWins(pairs, i);
  }

  /** `Reminders::serialize`: the entries in iteration order. The listing is
      sorted and duplicate-free, holds every entry with its value, and
      rebuilds into the same store. */
  method Serialize(store: Store) returns (pairs: seq<Pair>)
    ensures Sorted(PairKeys(pairs)) && Distinct(PairKeys(pairs))
    ensures forall k :: k in store <==> k in PairKeys(pairs)
    ensures forall i :: 0 <= i < |pairs| ==> pairs[i].0 in store && pairs[i].1 == store[pairs[i].0]
    ensures FromPairs(pairs) == store
  {
    var ks := SortedKeys(store);
    pairs := seq(|ks|, i requires 0 <= i < |ks| => (ks[i], store[ks[i]]));
    assert PairKeys(pairs) == ks;
    FromPairsOfListing(store, pairs);
  }

  /** The file's content: the current date and the serialised store. */
  datatype Snapshot = Snapshot(date: Date, reminders: seq<Pair>)

  /** `dump`: the snapshot written after every change and at shutdown. */
  method Save(cell: Date, store: Store) returns (snap: Snapshot)
    ensures Load(Some(snap)) == (cell, store)
  {
    var pairs := Serialize(store);
    snap := Snapshot(cell, pairs);
  }

  /** Start-up: `None` stands for a file that is missing or does not
      decode; either falls back to the default date and an empty store. A
      decoded file gives its date and the store rebuilt from its pairs. */
  function Load(file: Option<Snapshot>): (r: (Date, Store))
    ensures file.None? ==> r.0 == DefaultDate() && r.1 == map[]
    ensures file.Some? ==> r.0 == file.value.date
    ensures file.Some? ==> forall k :: k in r.1 <==> k in PairKeys(file.value.reminders)
  {
    match file
    case None => (DefaultDate(), map[])
    case Some(snap) => (snap.date, FromPairs(snap.reminders))
  }
}
