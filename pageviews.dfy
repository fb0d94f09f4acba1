/**
 The contents of the aggregated `pageviews` table, as a finite map from its
 primary key `(domain, page, date)` to `view_count`, together with the two
 statements that fill it: the upsert of one view and the `GROUP BY` that folds
 the legacy per-event rows into per-day counts.
 */
module Pageviews {
  import opened Wrappers
  import opened Dates

  /** The primary key `(domain, page, date)` of the aggregated table. */
  datatype Key = Key(domain: string, page: string, date: string)

  /** One row `(ts, domain, page)` of the legacy per-event table. */
  datatype Event = Event(ts: int, domain: string, page: string)

  /** The aggregated table: each key present maps to its `view_count`. */
  type Counts = map<Key, int>

  const UnknownDomain: string := "unknown"
  const UnknownPage: string := "/unknown"

  /** Every stored count is at least one. */
  predicate Positive(m: Counts) {
    forall k | k in m :: m[k] >= 1
  }

  // ---------------------------------------------------------------------------
  // Recording one view

  /** `Option::unwrap_or_else`: an absent parameter takes the sentinel; a present one (even "") is kept. */
  function OrDefault(value: Option<string>, default: string): string {
    match value
    case Some(v) => v
    case None => default
  }

  /** The key one view of `page` on `domain`, recorded on day `today`, is counted under. */
  function ViewKey(domain: Option<string>, page: Option<string>, today: Date): Key {
    Key(OrDefault(domain, UnknownDomain), OrDefault(page, UnknownPage), FormatDate(today))
  }

  /**
   Missing parameters are stored as the sentinels and present ones verbatim; the
   date column reads back as the day of the call.
   */
  lemma ViewKeyFields(domain: Option<string>, page: Option<string>, today: Date)
    requires FourDigitYear(today)
    ensures var k := ViewKey(domain, page, today);
      && (domain.None? ==> k.domain == UnknownDomain)
      && (domain.Some? ==> k.domain == domain.value)
      && (page.None? ==> k.page == UnknownPage)
      && (page.Some? ==> k.page == page.value)
      && |k.date| == 10
      && ParseDate(k.date) == Some(today)
  {
    FormatDateShape(today);
    FormatParseRoundTrip(today);
  }

  /** The same page on two different days is counted in two different rows, on the same day in one. */
  lemma NewDayNewRow(domain: Option<string>, page: Option<string>, day1: Date, day2: Date)
    requires FourDigitYear(day1) && FourDigitYear(day2)
    ensures ViewKey(domain, page, day1) == ViewKey(domain, page, day2) <==> day1 == day2
  {
    FormatDateInjective(day1, day2);
  }

  /**
   `INSERT ... VALUES (?, ?, ?, 1) ON CONFLICT (domain, page, date) DO UPDATE SET
   view_count = view_count + 1`: a new key starts at one, an existing one grows by one.
   */
  function Upsert(m: Counts, k: Key): Counts {
    m[k := if k in m then m[k] + 1 else 1]
  }

  /** `n` upserts of the same key, one after another. */
  function UpsertTimes(m: Counts, k: Key, n: nat): Counts {
    if n == 0 then m else Upsert(UpsertTimes(m, k, n - 1), k)
  }

  /** After `n` upserts of one key its count has grown by exactly `n` and no other row changed. */
  lemma {:induction false} UpsertTimesCounts(m: Counts, k: Key, n: nat)
    ensures var r := UpsertTimes(m, k, n);
      && (n > 0 ==> k in r && r[k] == (if k in m then m[k] else 0) + n)
      && (forall j :: j != k ==> (j in r <==> j in m))
      && (forall j :: j != k && j in m ==> r[j] == m[j])
  {
    if n > 0 {
      UpsertTimesCounts(m, k, n - 1);
    }
  }

  /** Two views applied in either order leave the same table: no interleaving loses a view. */
  lemma UpsertCommutes(m: Counts, a: Key, b: Key)
    ensures Upsert(Upsert(m, a), b) == Upsert(Upsert(m, b), a)
  {
    if a != b {
      var l, r := Upsert(Upsert(m, a), b), Upsert(Upsert(m, b), a);
      assert l.Keys == r.Keys;
      forall j | j in l
        ensures l[j] == r[j]
      {
      }
    }
  }

  /** The upsert keeps every count positive and never lowers a count. */
  lemma UpsertKeepsPositive(m: Counts, k: Key)
    requires Positive(m)
    ensures Positive(Upsert(m, k))
    ensures forall j :: j in m ==> j in Upsert(m, k) && Upsert(m, k)[j] >= m[j]
  {
  }

  // ---------------------------------------------------------------------------
  // Total number of views held by a table

  /** Some key of a non-empty table. */
  ghost function Pick(m: Counts): Key
    requires m != map[]
  {
    var k :| k in m; k
  }

  /** The sum of all `view_count`s. */
  ghost function Total(m: Counts): int
    decreases |m|
  {
    if m == map[] then 0
    else
      var k := Pick(m);
      m[k] + Total(m - {k})
  }

  /** The total can be taken by removing any key first. */
  lemma {:induction false} TotalRemove(m: Counts, k: Key)
    requires k in m
    ensures Total(m) == m[k] + Total(m - {k})
    decreases |m|
  {
    var j := Pick(m);
    if j != k {
      assert (m - {j}).Keys == m.Keys - {j};
      assert (m - {k}).Keys == m.Keys - {k};
      TotalRemove(m - {j}, k);
      TotalRemove(m - {k}, j);
      assert m - {j} - {k} == m - {k} - {j};
    }
  }

  /** Each upsert adds exactly one view to the table's total. */
  lemma UpsertTotal(m: Counts, k: Key)
    ensures Total(Upsert(m, k)) == Total(m) + 1
  {
    var r := Upsert(m, k);
    TotalRemove(r, k);
    if k in m {
      TotalRemove(m, k);
      assert r - {k} == m - {k};
    } else {
      assert r - {k} == m;
    }
  }

  // ---------------------------------------------------------------------------
  // Migration of the legacy per-event rows

  /** The group an event falls in: `(domain, page, date(ts, 'unixepoch'))`, with the day conversion given. */
  function EventKey(e: Event, dayOf: int -> string): Key {
    Key(e.domain, e.page, dayOf(e.ts))
  }

  /** `COUNT(*)` of the group `k`: how many events fall in it. */
  function Occurrences(events: seq<Event>, k: Key, dayOf: int -> string): nat {
    if events == [] then 0
    else
      var n := |events| - 1;
      Occurrences(events[..n], k, dayOf) + (if EventKey(events[n], dayOf) == k then 1 else 0)
  }

  /** The groups that occur among the events. */
  function Groups(events: seq<Event>, dayOf: int -> string): set<Key> {
    set e | e in events :: EventKey(e, dayOf)
  }

  /**
   `SELECT domain, page, date(ts, 'unixepoch'), COUNT(*) ... GROUP BY domain, page,
   date(ts, 'unixepoch')`: one row per group present, holding the group's size.
   */
  function GroupBy(events: seq<Event>, dayOf: int -> string): Counts {
    map k | k in Groups(events, dayOf) :: Occurrences(events, k, dayOf)
  }

  /** The table RecordView would have built had each legacy event been recorded on its own day. */
  function Replay(events: seq<Event>, dayOf: int -> string): Counts {
    if events == [] then map[]
    else
      var n := |events| - 1;
      Upsert(Replay(events[..n], dayOf), EventKey(events[n], dayOf))
  }

  lemma {:induction false} OccurrencesOutsideGroups(events: seq<Event>, k: Key, dayOf: int -> string)
    requires k !in Groups(events, dayOf)
    ensures Occurrences(events, k, dayOf) == 0
  {
    if events != [] {
      var n := |events| - 1;
      assert events[n] in events;
      assert Groups(events[..n], dayOf) <= Groups(events, dayOf) by {
        forall e | e in events[..n] ensures e in events { }
      }
      OccurrencesOutsideGroups(events[..n], k, dayOf);
    }
  }

  /** Appending one event to the legacy rows changes the grouped table exactly as one upsert would. */
  lemma GroupByAppend(events: seq<Event>, e: Event, dayOf: int -> string)
    ensures GroupBy(events + [e], dayOf) == Upsert(GroupBy(events, dayOf), EventKey(e, dayOf))
  {
    var es := events + [e];
    assert es[..|es| - 1] == events;
    assert Groups(es, dayOf) == Groups(events, dayOf) + {EventKey(e, dayOf)} by {
      forall x | x in es ensures x in events || x == e { }
      assert e in es;
      forall x | x in events ensures x in es { }
    }
    var l, r := GroupBy(es, dayOf), Upsert(GroupBy(events, dayOf), EventKey(e, dayOf));
    assert l.Keys == r.Keys;
    forall k | k in l
      ensures l[k] == r[k]
    {
      if k == EventKey(e, dayOf) && k !in Groups(events, dayOf) {
        OccurrencesOutsideGroups(events, k, dayOf);
      }
    }
  }

  /** Grouping the legacy events gives the same table as replaying them one upsert at a time. */
  lemma {:induction false} GroupByIsReplay(events: seq<Event>, dayOf: int -> string)
    ensures GroupBy(events, dayOf) == Replay(events, dayOf)
  {
    if events == [] {
      assert GroupBy(events, dayOf) == map[];
    } else {
      var n := |events| - 1;
      GroupByIsReplay(events[..n], dayOf);
      assert events == events[..n] + [events[n]];
      GroupByAppend(events[..n], events[n], dayOf);
    }
  }

  /** Replaying events gives positive counts whose sum is the number of events. */
  lemma {:induction false} ReplayCounts(events: seq<Event>, dayOf: int -> string)
    ensures Positive(Replay(events, dayOf))
    ensures Total(Replay(events, dayOf)) == |events|
  {
    if events == [] {
      assert Total(map[]) == 0;
    } else {
      var n := |events| - 1;
      ReplayCounts(events[..n], dayOf);
      UpsertKeepsPositive(Replay(events[..n], dayOf), EventKey(events[n], dayOf));
      UpsertTotal(Replay(events[..n], dayOf), EventKey(events[n], dayOf));
    }
  }

  /**
   The migration is count-preserving: exactly the groups present get a row, each
   row counts its group's events and is positive, and all rows add up to the
   number of legacy events.
   */
  lemma GroupByCounts(events: seq<Event>, dayOf: int -> string)
    ensures var m := GroupBy(events, dayOf);
      && (forall k :: k in m <==> exists i :: 0 <= i < |events| && EventKey(events[i], dayOf) == k)
      && (forall k :: k in m ==> m[k] == Occurrences(events, k, dayOf))
      && Positive(m)
      && Total(m) == |events|
  {
    var m := GroupBy(events, dayOf);
    forall k
      ensures k in m <==> exists i :: 0 <= i < |events| && EventKey(events[i], dayOf) == k
    {
      if k in m {
        var e :| e in events && EventKey(e, dayOf) == k;
        var i :| 0 <= i < |events| && events[i] == e;
      }
    }
    GroupByIsReplay(events, dayOf);
    ReplayCounts(events, dayOf);
  }
}
