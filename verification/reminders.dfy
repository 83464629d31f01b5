/**
 * The reminder store (`Reminders`, a `BTreeMap<StampedDate, (String, bool)>`)
 * and the state transitions the UI performs on it: insert with interval
 * validation, the one-shot trigger scan, and batch removal. The map's
 * iteration order is given by `SortedKeys`.
 */
module Reminders {
  import opened Wrappers
  import opened Calendar

  /** The value part of an entry: its text and whether it has fired. */
  datatype Reminder = Reminder(text: string, triggered: bool)

  type Store = map<StampedDate, Reminder>

  /** Every key's date lies inside the calendar's radix; this holds for every
      key the store itself creates. */
  predicate WellFormed(store: Store) {
    forall k :: k in store ==> Valid(k.date)
  }

  /** Keys listed in `BTreeMap` iteration order: non-decreasing under the key
      order, each key once. */
  predicate Sorted(ks: seq<StampedDate>) {
    forall i, j :: 0 <= i < j < |ks| ==> StampedLe(ks[i], ks[j])
  }

  predicate Distinct<T(==)>(s: seq<T>) {
    forall i, j :: 0 <= i < j < |s| ==> s[i] != s[j]
  }

  /** Distinct keys of a well-formed store are even strictly ascending. */
  lemma SortedIsStrict(ks: seq<StampedDate>)
    requires Sorted(ks) && Distinct(ks)
    requires forall i :: 0 <= i < |ks| ==> Valid(ks[i].date)
    ensures forall i, j :: 0 <= i < j < |ks| ==> StampedLess(ks[i], ks[j])
  {
    forall i, j | 0 <= i < j < |ks|
      ensures StampedLess(ks[i], ks[j])
    {
      StampedCmpEqualIffSame(ks[i], ks[j]);
    }
  }

  /** A least key of a non-empty key set. */
  method MinKey(keys: set<StampedDate>) returns (m: StampedDate)
    requires keys != {}
    ensures m in keys
    ensures forall x :: x in keys ==> StampedLe(m, x)
  {
    m :| m in keys;
    var rest := keys - {m};
    while rest != {}
      invariant rest <= keys && m in keys
      invariant forall x :: x in keys && x !in rest ==> StampedLe(m, x)
      decreases rest
    {
      var y :| y in rest;
      if StampedCmp(y, m) == Less {
        forall x | x in keys && x !in rest
          ensures StampedLe(y, x)
        {
          StampedCmpIsTotalPreorder(y, m, x);
        }
        m := y;
      } else {
        StampedCmpIsTotalPreorder(m, y, m);
      }
      rest := rest - {y};
    }
  }

  /** The store's keys in iteration order. */
  method SortedKeys(store: Store) returns (ks: seq<StampedDate>)
    ensures Sorted(ks) && Distinct(ks)
    ensures forall k :: k in ks <==> k in store
  {
    ks := [];
    var rest := store.Keys;
    while rest != {}
      invariant rest <= store.Keys
      invariant forall k :: k in ks ==> k in store && k !in rest
      invariant forall k :: k in store ==> k in ks || k in rest
      invariant Sorted(ks) && Distinct(ks)
      invariant forall i, x :: 0 <= i < |ks| && x in rest ==> StampedLe(ks[i], x)
      decreases rest
    {
      var m := MinKey(rest);
      ks := ks + [m];
      rest := rest - {m};
    }
  }

  /** The interval check of the Add button: at least one day and at most 300
      years of 360 days. */
  predicate ValidInterval(interval: int) {
    1 <= interval <= 300 * 360
  }

  /** `interval as u16`: Rust's float-to-integer cast saturates at the
      target's bounds. */
  function CastToU16(interval: int): U16 {
    if interval < 0 then 0 else if interval > 0xFFFF then 0xFFFF else interval
  }

  /** The source's target computation: the interval cast to `u16` and added
      with `with_days_added`, whose `u16` arithmetic must not overflow. */
  function InsertKeyAsWritten(current: Date, interval: int, now: nat): (k: StampedDate)
    requires ValidInterval(interval) && AddDefined(current, CastToU16(interval))
    ensures Valid(k.date) && k.time == now
    ensures DaysSinceJesus(k.date) == DaysSinceJesus(current) + CastToU16(interval)
  {
    StampedDate(now, WithDaysAdded(current, CastToU16(interval)))
  }

  /** The Add button as written: an interval outside 1..108000 leaves the
      store as it was; otherwise the entry is stored under the key of
      `InsertKeyAsWritten`, whose arithmetic overflows for every interval of
      65535 days or more on a date with a day of month of at least 1. */
  function InsertAsWritten(store: Store, current: Date, text: string, interval: int, now: nat): (r: Store)
    requires ValidInterval(interval) ==> AddDefined(current, CastToU16(interval))
    ensures !ValidInterval(interval) ==> r == store
    ensures ValidInterval(interval) ==>
      var k := InsertKeyAsWritten(current, interval, now);
      && r.Keys == store.Keys + {k}
      && r[k] == Reminder(text, false)
      && (forall x :: x in store && x != k ==> r[x] == store[x])
  {
    if ValidInterval(interval) then
      store[InsertKeyAsWritten(current, interval, now) := Reminder(text, false)]
    else
      store
  }

  /** The defect: the interval check admits up to 108000 days, but the
      saturating cast turns everything from 65535 up into 65535, and adding
      that to any day of month from 1 overflows `u16`. So the largest
      intervals the check accepts can never be added. */
  lemma InsertAsWrittenOverflows(current: Date, interval: int)
    requires 0xFFFF <= interval <= 300 * 360 && current.day >= 1
    ensures ValidInterval(interval)
    ensures !AddDefined(current, CastToU16(interval))
  {
  }

  /** A day count `n` days after `current` that still fits the date type. */
  predicate TargetFits(current: Date, interval: int) {
    interval >= 0 && DayCountFits(DaysSinceJesus(current) + interval)
  }

  /** The corrected addition has room for every accepted interval from any
      current year 1..64999: only a start in year 0 or after 64999 can make
      the target's day count leave the date type. */
  lemma TargetFitsFromPlayableYears(current: Date, interval: int)
    requires 1 <= current.year <= 64999 && ValidInterval(interval)
    ensures TargetFits(current, interval)
  {
  }

  /** The key an accepted insert creates: (now, current + interval days). */
  function InsertKey(current: Date, interval: int, now: nat): (k: StampedDate)
    requires ValidInterval(interval) && TargetFits(current, interval)
    ensures Valid(k.date) && k.time == now
    ensures DaysSinceJesus(k.date) == DaysSinceJesus(current) + interval
  {
    StampedDate(now, AddDays(current, interval))
  }

  /** The Add button with the target computed as intended. An interval
      outside 1..108000 leaves the store as it was. Otherwise exactly one
      untriggered entry carrying the text is stored under the key of
      `InsertKey`; every other entry is kept, and an entry with the very same
      key is replaced. */
  function Insert(store: Store, current: Date, text: string, interval: int, now: nat): (r: Store)
    requires ValidInterval(interval) ==> TargetFits(current, interval)
    ensures !ValidInterval(interval) ==> r == store
    ensures ValidInterval(interval) ==>
      var k := InsertKey(current, interval, now);
      && r.Keys == store.Keys + {k}
      && r[k] == Reminder(text, false)
      && (forall x :: x in store && x != k ==> r[x] == store[x])
    ensures WellFormed(store) ==> WellFormed(r)
  {
    if ValidInterval(interval) then
      store[InsertKey(current, interval, now) := Reminder(text, false)]
    else
      store
  }

  /** Wherever the source's insert completes without clamping, the corrected
      insert does exactly the same. */
  lemma InsertAgreesWithSource(store: Store, current: Date, text: string, interval: int, now: nat)
    requires interval <= 0xFFFF
    requires ValidInterval(interval) ==> AddDefined(current, CastToU16(interval))
    ensures ValidInterval(interval) ==> TargetFits(current, interval)
    ensures ValidInterval(interval) ==> InsertKey(current, interval, now) == InsertKeyAsWritten(current, interval, now)
    ensures ValidInterval(interval) ==> Insert(store, current, text, interval, now) == InsertAsWritten(store, current, text, interval, now)
  {
    if ValidInterval(interval) {
      WithDaysAddedAgreesWithAddDays(current, CastToU16(interval));
    }
  }

  /** The target of an accepted insert is strictly later than the current
      date, by exactly the interval. */
  lemma InsertTarget(current: Date, interval: int, now: nat)
    requires ValidInterval(interval) && TargetFits(current, interval)
    ensures Cmp(current, InsertKey(current, interval, now).date) == Less
    ensures Cmp(InsertKey(current, interval, now).date, current) == Greater
  {
  }

  /** The boundaries of the interval check: 0 and 108001 change nothing. */
  lemma InsertRejectsOutsideBounds(store: Store, current: Date, text: string, now: nat)
    ensures Insert(store, current, text, 0, now) == store
    ensures Insert(store, current, text, 108001, now) == store
  {
  }

  /** The boundaries of the interval check: 1 and 108000 add an entry to a
      store that did not have its key. */
  lemma InsertAcceptsBounds(store: Store, text: string, now: nat)
    ensures InsertKey(DefaultDate(), 1, now) !in store ==>
      |Insert(store, DefaultDate(), text, 1, now)| == |store| + 1
    ensures InsertKey(DefaultDate(), 108000, now) !in store ==>
      |Insert(store, DefaultDate(), text, 108000, now)| == |store| + 1
  {
    assert DaysSinceJesus(DefaultDate()) == 2200 * 360 + 31;
  }

  /** An entry fires when it has not fired yet and its target date is not
      after the current date. */
  predicate Due(store: Store, current: Date, k: StampedDate)
    requires k in store
  {
    !store[k].triggered && Le(k.date, current)
  }

  /** The keys a scan at `current` notifies. */
  function DueKeys(store: Store, current: Date): set<StampedDate> {
    set k | k in store && Due(store, current, k)
  }

  /** The store after a scan at `current`: every entry whose target is not
      after `current` is marked triggered; nothing else changes. */
  function Trigger(store: Store, current: Date): (r: Store)
    ensures r.Keys == store.Keys
    ensures forall k :: k in store ==> r[k].text == store[k].text
    ensures forall k :: k in store ==> (r[k].triggered <==> store[k].triggered || Le(k.date, current))
  {
    map k | k in store :: Fire(store, current, k)
  }

  /** One entry after a scan at `current`. */
  function Fire(store: Store, current: Date, k: StampedDate): Reminder
    requires k in store
  {
    if Due(store, current, k) then Reminder(store[k].text, true) else store[k]
  }

  /** Appending a key that lies above and apart from every listed key keeps
      the list sorted and duplicate-free. */
  lemma AppendKeepsSortedDistinct(ks: seq<StampedDate>, k: StampedDate)
    requires Sorted(ks) && Distinct(ks)
    requires forall x :: x in ks ==> StampedLe(x, k) && x != k
    ensures Sorted(ks + [k]) && Distinct(ks + [k])
  {
    assert forall i :: 0 <= i < |ks| ==> (ks + [k])[i] == ks[i] && ks[i] in ks;
  }

  /** In a sorted list of distinct keys, every key before position `i` is
      below the key at `i`. */
  lemma EarlierKeysAreSmaller(ks: seq<StampedDate>, i: nat)
    requires Sorted(ks) && Distinct(ks) && i < |ks|
    ensures forall x :: x in ks[..i] ==> StampedLe(x, ks[i]) && x != ks[i]
  {
  }

  /** The per-refresh scan as the UI runs it: walk the entries in key order,
      notify (emit the text of) each one that is due, and latch it. Each due
      entry is notified exactly once, in ascending key order, and no other
      entry is. */
  method ScanAndTrigger(store: Store, current: Date)
    returns (next: Store, fired: seq<StampedDate>, alerts: seq<string>)
    ensures next == Trigger(store, current)
    ensures forall k :: k in fired <==> k in DueKeys(store, current)
    ensures Sorted(fired) && Distinct(fired)
    ensures |alerts| == |fired|
    ensures forall i :: 0 <= i < |fired| ==> fired[i] in store && alerts[i] == store[fired[i]].text
  {
    var ks := SortedKeys(store);
    fired, alerts := CollectDue(store, current, ks);
    next := LatchAll(store, current, ks);
  }

  /** The notifying half of the scan, over the keys in iteration order. */
  method CollectDue(store: Store, current: Date, ks: seq<StampedDate>)
    returns (fired: seq<StampedDate>, alerts: seq<string>)
    requires Sorted(ks) && Distinct(ks)
    requires forall k :: k in ks <==> k in store
    ensures forall k :: k in fired <==> k in store && Due(store, current, k)
    ensures Sorted(fired) && Distinct(fired)
    ensures |alerts| == |fired|
    ensures forall i :: 0 <= i < |fired| ==> fired[i] in store && alerts[i] == store[fired[i]].text
  {
    fired := [];
    alerts := [];
    for i := 0 to |ks|
      invariant forall k :: k in fired ==> k in ks[..i] && k in store && Due(store, current, k)
      invariant forall k :: k in ks[..i] && k in store && Due(store, current, k) ==> k in fired
      invariant Sorted(fired) && Distinct(fired)
      invariant |alerts| == |fired|
      invariant forall j :: 0 <= j < |fired| ==> fired[j] in store && alerts[j] == store[fired[j]].text
    {
      var k := ks[i];
      assert ks[..i + 1] == ks[..i] + [k];
      EarlierKeysAreSmaller(ks, i);
      if Due(store, current, k) {
        AppendKeepsSortedDistinct(fired, k);
        fired := fired + [k];
        alerts := alerts + [store[k].text];
      }
    }
    assert ks[..|ks|] == ks;
  }

  /** The latching half of the scan, over the keys in iteration order. */
  method LatchAll(store: Store, current: Date, ks: seq<StampedDate>) returns (next: Store)
    requires Distinct(ks)
    requires forall k :: k in ks <==> k in store
    ensures next == Trigger(store, current)
  {
    next := store;
    for i := 0 to |ks|
      invariant next.Keys == store.Keys
      invariant forall j :: 0 <= j < i ==> next[ks[j]] == Fire(store, current, ks[j])
      invariant forall j :: i <= j < |ks| ==> next[ks[j]] == store[ks[j]]
    {
      var k := ks[i];
      if Due(store, current, k) {
        next := next[k := Reminder(store[k].text, true)];
      }
    }
    assert forall k :: k in store ==> next[k] == Fire(store, current, k);
  }

  /** The latch: a scan never clears a triggered flag. */
  lemma TriggerLatches(store: Store, current: Date, k: StampedDate)
    requires k in store && store[k].triggered
    ensures Trigger(store, current)[k].triggered
  {
  }

  /** After a scan at `c`, a scan at `c` or at any earlier date notifies
      nothing; a later scan notifies exactly the untriggered entries whose
      targets lie after `c` and not after the new date. */
  lemma RescanNotifiesOnlyNewlyReached(store: Store, c: Date, c2: Date)
    ensures Le(c2, c) ==> DueKeys(Trigger(store, c), c2) == {}
    ensures forall k :: k in DueKeys(Trigger(store, c), c2) <==>
      k in store && !store[k].triggered && Cmp(c, k.date) == Less && Le(k.date, c2)
  {
    var after := Trigger(store, c);
    forall k | k in DueKeys(after, c2)
      ensures k in store && !store[k].triggered && Cmp(c, k.date) == Less && Le(k.date, c2)
    {
      CmpIsTotalPreorder(k.date, c, c2);
    }
    if Le(c2, c) {
      forall k | k in after && Le(k.date, c2)
        ensures after[k].triggered
      {
        CmpIsTotalPreorder(k.date, c2, c);
      }
    }
  }

  /** The trigger scenario: a reminder due on 2200.1.5 fires once when the
      cell reaches that date, and never again on the same or a later date. */
  lemma TriggerExample(text: string, now: nat, later: Date)
    requires Le(Date(2200, 1, 5), later)
    ensures var k := StampedDate(now, Date(2200, 1, 5));
      var store := map[k := Reminder(text, false)];
      && DueKeys(store, Date(2200, 1, 5)) == {k}
      && DueKeys(Trigger(store, Date(2200, 1, 5)), later) == {}
  {
    var k := StampedDate(now, Date(2200, 1, 5));
    var store := map[k := Reminder(text, false)];
    assert k in DueKeys(store, Date(2200, 1, 5));
  }

  /** The Clear buttons: the collected keys are removed one after another;
      keys that are absent are ignored. */
  function RemoveAll(store: Store, removing: seq<StampedDate>): (r: Store)
    ensures r.Keys == store.Keys - set k | k in removing
    ensures forall k :: k in r ==> r[k] == store[k]
    decreases |removing|
  {
    if |removing| == 0 then store else RemoveAll(store - {removing[0]}, removing[1..])
  }

  /** Removal keeps every key the store creates well formed. */
  lemma RemoveAllWellFormed(store: Store, removing: seq<StampedDate>)
    requires WellFormed(store)
    ensures WellFormed(RemoveAll(store, removing))
  {
  }

  /** Scanning keeps the store well formed. */
  lemma TriggerWellFormed(store: Store, current: Date)
    requires WellFormed(store)
    ensures WellFormed(Trigger(store, current))
  {
  }
}
