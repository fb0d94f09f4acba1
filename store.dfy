/**
 The page-view store: one SQLite database holding the `pageviews` table, with
 the startup schema step, the per-request upsert and the export with its
 summary. Access is serialised by a mutex in the service, so each operation
 runs here as one uninterrupted method on the single owned database.
 */
module Store {
  import opened Wrappers
  import opened Text
  import opened Dates
  import opened Pageviews
  import opened Schema

  /** One exported record `{domain, page, date, view_count}`. */
  datatype Row = Row(domain: string, page: string, date: string, viewCount: int)

  /** The export's `summary` object. */
  datatype Summary = Summary(uniquePages: nat, totalViews: int, totalRecords: nat)

  /** The export's result: the summary and the ordered records. */
  datatype Report = Report(summary: Summary, pageviews: seq<Row>)

  function KeyOf(r: Row): Key {
    Key(r.domain, r.page, r.date)
  }

  /** `WHERE domain = ?` when a domain is given; every row otherwise. */
  predicate Matches(filter: Option<string>, k: Key) {
    filter.None? || k.domain == filter.value
  }

  /** The rows of the table the export's query selects. */
  function Selected(m: Counts, filter: Option<string>): Counts {
    map k | k in m && Matches(filter, k) :: m[k]
  }

  /** `rows` lists the table `m`: one record per key, carrying that key's count. */
  ghost predicate Lists(rows: seq<Row>, m: Counts) {
    && |rows| == |m|
    && (set r | r in rows :: KeyOf(r)) == m.Keys
    && forall r | r in rows :: KeyOf(r) in m && m[KeyOf(r)] == r.viewCount
  }

  /** `ORDER BY date DESC`: no record's date sorts before that of a later record. */
  ghost predicate DateDescending(rows: seq<Row>) {
    forall i, j | 0 <= i < j < |rows| :: !LexLess(rows[i].date, rows[j].date)
  }

  /** The sum of the records' view counts, as `total_views += view_count` accumulates it. */
  function SumViews(rows: seq<Row>): int {
    if rows == [] then 0 else SumViews(rows[..|rows| - 1]) + rows[|rows| - 1].viewCount
  }

  /** The distinct pages among the records, as the `pages` hash set collects them. */
  function PagesOf(rows: seq<Row>): set<string> {
    set r | r in rows :: r.page
  }

  /** One more record adds its page to the pages collected so far. */
  lemma PagesStep(rows: seq<Row>, i: nat)
    requires i < |rows|
    ensures PagesOf(rows[..i + 1]) == PagesOf(rows[..i]) + {rows[i].page}
  {
    assert rows[..i + 1] == rows[..i] + [rows[i]];
  }

  // ---------------------------------------------------------------------------
  // The query: SELECT ... [WHERE domain = ?] ORDER BY date DESC

  /** Places a record after every record whose date does not sort before it. */
  function InsertByDate(rows: seq<Row>, r: Row): (s: seq<Row>)
    ensures multiset(s) == multiset(rows) + multiset{r}
  {
    if rows == [] || !LexLess(r.date, rows[0].date) then [r] + rows
    else
      assert rows == [rows[0]] + rows[1..];
      [rows[0]] + InsertByDate(rows[1..], r)
  }

  lemma {:induction false} InsertKeepsOrder(rows: seq<Row>, r: Row)
    requires DateDescending(rows)
    ensures DateDescending(InsertByDate(rows, r))
  {
    var s := InsertByDate(rows, r);
    if rows == [] || !LexLess(r.date, rows[0].date) {
      forall i, j | 0 <= i < j < |s|
        ensures !LexLess(s[i].date, s[j].date)
      {
        if i == 0 && j > 1 {
          LexNotLessTransitive(r.date, rows[0].date, rows[j - 1].date);
        }
      }
    } else {
      InsertKeepsOrder(rows[1..], r);
      var t := InsertByDate(rows[1..], r);
      assert s == [rows[0]] + t;
      forall j | 0 <= j < |t|
        ensures !LexLess(rows[0].date, t[j].date)
      {
        assert t[j] in multiset(t);
        if t[j] == r {
          LexTrichotomy(r.date, rows[0].date);
        } else {
          assert t[j] in rows[1..];
          var k :| 0 <= k < |rows[1..]| && rows[1..][k] == t[j];
          assert rows[k + 1] == t[j];
        }
      }
    }
  }

  /** Adding a record for a key not yet listed lists the table with that key added. */
  lemma ListsAdd(rows: seq<Row>, m: Counts, r: Row, s: seq<Row>)
    requires Lists(rows, m) && KeyOf(r) !in m
    requires multiset(s) == multiset(rows) + multiset{r}
    ensures Lists(s, m[KeyOf(r) := r.viewCount])
  {
    OneMore(rows, r, s);
    assert (set x | x in s :: KeyOf(x)) == (set x | x in rows :: KeyOf(x)) + {KeyOf(r)};
  }

  /** A sequence holding the records of another plus one more has those members and that length. */
  lemma OneMore(rows: seq<Row>, r: Row, s: seq<Row>)
    requires multiset(s) == multiset(rows) + multiset{r}
    ensures |s| == |rows| + 1
    ensures forall x :: x in s <==> x in rows || x == r
  {
    assert |s| == |multiset(s)|;
    forall x ensures x in s <==> x in rows || x == r {
      assert x in s <==> x in multiset(s);
      assert x in rows <==> x in multiset(rows);
    }
  }

  lemma QueryStep(rows: seq<Row>, selected: Counts, pending: set<Key>, k: Key)
    requires pending <= selected.Keys && k in pending
    requires Lists(rows, selected - pending) && DateDescending(rows)
    ensures var s := InsertByDate(rows, Row(k.domain, k.page, k.date, selected[k]));
      Lists(s, selected - (pending - {k})) && DateDescending(s)
  {
    var row := Row(k.domain, k.page, k.date, selected[k]);
    ListsAdd(rows, selected - pending, row, InsertByDate(rows, row));
    InsertKeepsOrder(rows, row);
    assert (selected - pending)[k := selected[k]] == selected - (pending - {k});
  }

  /**
   Models SQLite answering the export's query: the selected rows, each once,
   newest date first; rows of one date come in no particular order.
   */
  method Query(m: Counts, filter: Option<string>) returns (rows: seq<Row>)
    ensures Lists(rows, Selected(m, filter))
    ensures DateDescending(rows)
  {
    var selected := Selected(m, filter);
    var pending := selected.Keys;
    rows := [];
    while pending != {}
      invariant pending <= selected.Keys
      invariant Lists(rows, selected - pending)
      invariant DateDescending(rows)
      decreases |pending|
    {
      var k :| k in pending;
      var row := Row(k.domain, k.page, k.date, selected[k]);
      QueryStep(rows, selected, pending, k);
      rows := InsertByDate(rows, row);
      pending := pending - {k};
    }
    assert selected - pending == selected;
  }

  /**
   Records whose dates were rendered from four-digit-year days and that are in
   descending string order are in reverse chronological order.
   */
  lemma ExportChronological(rows: seq<Row>, days: seq<Date>)
    requires |days| == |rows| && DateDescending(rows)
    requires forall i | 0 <= i < |rows| :: FourDigitYear(days[i]) && rows[i].date == FormatDate(days[i])
    ensures forall i, j | 0 <= i < j < |rows| :: !Before(days[i], days[j])
  {
    forall i, j | 0 <= i < j < |rows|
      ensures !Before(days[i], days[j])
    {
      FormatDateOrder(days[i], days[j]);
    }
  }

  // ---------------------------------------------------------------------------
  // What the export's summary computes over a listing

  lemma {:induction false} ListsLast(rows: seq<Row>, m: Counts)
    requires Lists(rows, m) && rows != []
    ensures var last := rows[|rows| - 1];
      KeyOf(last) in m && Lists(rows[..|rows| - 1], m - {KeyOf(last)})
  {
    var n := |rows| - 1;
    var last, init := rows[n], rows[..n];
    var keys := set x | x in init :: KeyOf(x);
    LastKey(rows);
    assert KeyOf(last) !in keys by {
      KeysAtMost(init);
    }
    var m' := m - {KeyOf(last)};
    assert m'.Keys == keys;
  }

  /** The keys of a non-empty listing are those of all but its last record, plus the last one's. */
  lemma LastKey(rows: seq<Row>)
    requires rows != []
    ensures var n := |rows| - 1;
      && (set x | x in rows :: KeyOf(x)) == (set x | x in rows[..n] :: KeyOf(x)) + {KeyOf(rows[n])}
      && forall x :: x in rows[..n] ==> x in rows
  {
    var n := |rows| - 1;
    assert rows == rows[..n] + [rows[n]];
  }

  lemma {:induction false} KeysAtMost(rows: seq<Row>)
    ensures |set x | x in rows :: KeyOf(x)| <= |rows|
  {
    if rows != [] {
      var n := |rows| - 1;
      KeysAtMost(rows[..n]);
      assert rows == rows[..n] + [rows[n]];
      assert (set x | x in rows :: KeyOf(x)) == (set x | x in rows[..n] :: KeyOf(x)) + {KeyOf(rows[n])};
    }
  }

  /** The views summed over a listing are the table's total. */
  lemma {:induction false} ListsTotal(rows: seq<Row>, m: Counts)
    requires Lists(rows, m)
    ensures SumViews(rows) == Total(m)
  {
    if rows == [] {
      assert m.Keys == {};
      assert m == map[];
    } else {
      var n := |rows| - 1;
      ListsLast(rows, m);
      ListsTotal(rows[..n], m - {KeyOf(rows[n])});
      TotalRemove(m, KeyOf(rows[n]));
    }
  }

  /** The pages collected from a listing are the pages of the table. */
  lemma ListsPages(rows: seq<Row>, m: Counts)
    requires Lists(rows, m)
    ensures PagesOf(rows) == set k | k in m :: k.page
  {
    forall p | p in set k | k in m :: k.page
      ensures p in PagesOf(rows)
    {
      var k :| k in m && k.page == p;
      assert k in (set r | r in rows :: KeyOf(r));
      var r :| r in rows && KeyOf(r) == k;
    }
  }

  /**
   With a domain filter the listed records all carry that domain and every
   stored row of that domain is listed with its count; without one, every
   stored row is listed.
   */
  lemma ExportFilter(rows: seq<Row>, m: Counts, filter: Option<string>)
    requires Lists(rows, Selected(m, filter))
    ensures forall r | r in rows :: KeyOf(r) in m && r.viewCount == m[KeyOf(r)]
    ensures filter.Some? ==> forall r | r in rows :: r.domain == filter.value
    ensures forall k | k in m && Matches(filter, k) ::
      exists r | r in rows :: KeyOf(r) == k && r.viewCount == m[k]
    ensures filter.None? ==> |rows| == |m|
  {
    var sel := Selected(m, filter);
    forall k | k in m && Matches(filter, k)
      ensures exists r | r in rows :: KeyOf(r) == k && r.viewCount == m[k]
    {
      assert k in sel.Keys;
      var r :| r in rows && KeyOf(r) == k;
    }
    if filter.None? {
      assert sel == m;
    }
  }

  /**
   The export's single pass over the queried records: it copies them into the
   record list, collects their distinct pages and accumulates their views.
   */
  method Summarize(rows: seq<Row>) returns (summary: Summary, views: seq<Row>)
    ensures views == rows
    ensures summary.totalRecords == |rows|
    ensures summary.totalViews == SumViews(rows)
    ensures summary.uniquePages == |PagesOf(rows)|
  {
    views := [];
    var pages: set<string> := {};
    var totalViews := 0;
    for i := 0 to |rows|
      invariant views == rows[..i]
      invariant pages == PagesOf(rows[..i])
      invariant totalViews == SumViews(rows[..i])
    {
      var row := rows[i];
      assert rows[..i + 1][..i] == rows[..i];
      PagesStep(rows, i);
      pages := pages + {row.page};
      totalViews := totalViews + row.viewCount;
      views := views + [row];
    }
    assert rows[..|rows|] == rows;
    summary := Summary(|pages|, totalViews, |views|);
  }

  // ---------------------------------------------------------------------------
  // The database

  class Database {
    /** The catalog entry of the table named `pageviews`, if there is one. */
    var pageviews: Option<Table>
    /** The catalog entry of the table named `pageviews_old`, if there is one. */
    var pageviewsOld: Option<Table>

    ghost predicate Valid()
      reads this
    {
      && (pageviews.Some? ==> WellFormed(pageviews.value))
      && (pageviewsOld.Some? ==> WellFormed(pageviewsOld.value))
    }

    /** The database file as it is found at startup. */
    constructor Open(pageviews: Option<Table>, pageviewsOld: Option<Table>)
      requires pageviews.Some? ==> WellFormed(pageviews.value)
      requires pageviewsOld.Some? ==> WellFormed(pageviewsOld.value)
      ensures Valid()
      ensures this.pageviews == pageviews && this.pageviewsOld == pageviewsOld
    {
      this.pageviews := pageviews;
      this.pageviewsOld := pageviewsOld;
    }

    /**
     The startup schema step. On the legacy layout: rename the table to
     `pageviews_old`, create the aggregated table, fill it with the grouped
     counts, drop `pageviews_old`. Otherwise `CREATE TABLE IF NOT EXISTS`.
     The rename fails when `pageviews_old` already exists; the service then
     stops, which `ok == false` reports here.
     */
    method EnsureSchema(dayOf: int -> string) returns (ok: bool)
      requires Valid()
      modifies this
      ensures Valid()
      ensures ok <==> !(NeedsMigration(old(pageviews)) && old(pageviewsOld).Some?)
      ensures ok ==> pageviews == Some(SchemaResult(old(pageviews), dayOf))
      ensures !ok ==> pageviews == old(pageviews)
      ensures pageviewsOld == old(pageviewsOld)
      ensures ok && NeedsMigration(old(pageviews)) ==> pageviewsOld.None?
      ensures ok ==> !NeedsMigration(pageviews)
    {
      AggregatedSqlIsCurrent();
      if NeedsMigration(pageviews) {
        if pageviewsOld.Some? {
          return false;
        }
        // ALTER TABLE pageviews RENAME TO pageviews_old
        pageviewsOld, pageviews := pageviews, None;
        // CREATE TABLE pageviews (...)
        pageviews := Some(EmptyTable);
        // INSERT INTO pageviews SELECT ... FROM pageviews_old GROUP BY ...
        var legacy := pageviewsOld.value.layout.events;
        pageviews := Some(Migrated(legacy, dayOf));
        // DROP TABLE pageviews_old
        pageviewsOld := None;
      } else if pageviews.None? {
        // CREATE TABLE IF NOT EXISTS pageviews (...)
        pageviews := Some(EmptyTable);
      }
      ok := true;
    }

    /**
     Records one view: the upsert on the key built from the parameters and the
     day. If the table is not in the aggregated layout the statement fails and
     the failure is ignored, leaving the database as it was.
     */
    method RecordView(domain: Option<string>, page: Option<string>, today: Date)
      requires Valid()
      modifies this
      ensures Valid()
      ensures pageviewsOld == old(pageviewsOld)
      ensures match old(pageviews)
        case Some(Table(sql, Aggregated(counts))) =>
          pageviews == Some(Table(sql, Aggregated(Upsert(counts, ViewKey(domain, page, today)))))
        case _ => pageviews == old(pageviews)
    {
      var key := ViewKey(domain, page, today);
      match pageviews
      case Some(Table(sql, Aggregated(counts))) =>
        assert WellFormed(Table(sql, Aggregated(counts)));
        UpsertKeepsPositive(counts, key);
        pageviews := Some(Table(sql, Aggregated(Upsert(counts, key))));
      case _ =>
    }

    /**
     The export: query the selected rows newest first, then one pass that
     collects the records, the distinct pages and the running view total.
     Without an aggregated table the query fails and there is no report.
     */
    method Export(filter: Option<string>) returns (report: Option<Report>)
      requires Valid()
      ensures report.Some? <==> pageviews.Some? && pageviews.value.layout.Aggregated?
      ensures report.Some? ==>
        var sel := Selected(pageviews.value.layout.counts, filter);
        var rep := report.value;
        && Lists(rep.pageviews, sel)
        && DateDescending(rep.pageviews)
        && rep.summary.totalRecords == |rep.pageviews| == |sel|
        && rep.summary.totalViews == SumViews(rep.pageviews) == Total(sel)
        && rep.summary.uniquePages == |PagesOf(rep.pageviews)| == |set k | k in sel :: k.page|
    {
      if !(pageviews.Some? && pageviews.value.layout.Aggregated?) {
        return None;
      }
      var counts := pageviews.value.layout.counts;
      var rows := Query(counts, filter);
      var summary, views := Summarize(rows);
      ListsTotal(rows, Selected(counts, filter));
      ListsPages(rows, Selected(counts, filter));
      report := Some(Report(summary, views));
    }
  }
}
