/**
 The `pageviews` entry of SQLite's catalog (`sqlite_master`): its stored
 `CREATE TABLE` text and its rows, in either the legacy per-event layout or the
 aggregated per-day layout, and the startup decision between migrating,
 creating and leaving the table alone.
 */
module Schema {
  import opened Wrappers
  import opened Text
  import opened Pageviews

  /** The column signature only the legacy per-event layout has. */
  const LegacyMarker: string := "ts INTEGER"

  const Indent: string := "                "

  /** The lines of the aggregated table's definition, as both startup branches write it. */
  const CreateLine: string := "CREATE TABLE pageviews (\n"
  const DomainLine: string := Indent + "domain TEXT NOT NULL,\n"
  const PageLine: string := Indent + "page TEXT NOT NULL,\n"
  const DateLine: string := Indent + "date TEXT NOT NULL,\n"
  const CountLine: string := Indent + "view_count INTEGER NOT NULL DEFAULT 1,\n"
  const KeyLine: string := Indent + "PRIMARY KEY (domain, page, date)\n"
  const CloseLine: string := "            )"

  /**
   The `sql` text SQLite stores for the aggregated table. SQLite drops
   `IF NOT EXISTS` and the trailing `;` when it records the statement.
   */
  const AggregatedSql: string :=
    CreateLine + DomainLine + PageLine + DateLine + CountLine + KeyLine + CloseLine

  /** The rows of a table, in the layout its definition gives them. */
  datatype Layout = EventLog(events: seq<Event>) | Aggregated(counts: Counts)

  /** A catalog entry: the stored definition text and the rows. */
  datatype Table = Table(sql: string, layout: Layout)

  /**
   A definition text carries the legacy marker exactly when the rows are
   per-event, and aggregated rows satisfy `view_count >= 1`.
   */
  predicate WellFormed(t: Table) {
    && (Contains(t.sql, LegacyMarker) <==> t.layout.EventLog?)
    && (t.layout.Aggregated? ==> Positive(t.layout.counts))
  }

  /** The freshly created aggregated table. */
  const EmptyTable: Table := Table(AggregatedSql, Aggregated(map[]))

  /** Migration runs when a table named `pageviews` exists and its stored text contains the marker. */
  predicate NeedsMigration(pageviews: Option<Table>) {
    pageviews.Some? && Contains(pageviews.value.sql, LegacyMarker)
  }

  /**
   A text whose only 'G' is preceded, seven characters back, by something other
   than 't' cannot contain the marker, whose 'G' sits seven characters after its 't'.
   */
  lemma MarkerNeedsItsG(s: string, head: string, tail: string)
    requires s == head + "G" + tail && 'G' !in head && 'G' !in tail
    requires |head| >= 7 && head[|head| - 7] != 't'
    ensures !Contains(s, LegacyMarker)
  {
    forall i | 0 <= i <= |s| - |LegacyMarker|
      ensures !OccursAt(s, LegacyMarker, i)
    {
      if i + 7 < |head| {
        assert s[i + 7] == head[i + 7];
        assert head[i + 7] in head;
      } else if i + 7 > |head| {
        assert s[i + 7] == tail[i + 7 - |head| - 1];
        assert tail[i + 7 - |head| - 1] in tail;
      } else {
        assert s[i] == head[|head| - 7];
      }
    }
  }

  /** The count line around its only 'G', the one in `INTEGER`. */
  lemma CountLineSplits()
    ensures CountLine == (Indent + "view_count INTE") + "G" + "ER NOT NULL DEFAULT 1,\n"
  {
  }

  lemma CountLineAroundG()
    ensures 'G' !in Indent + "view_count INTE" && 'G' !in "ER NOT NULL DEFAULT 1,\n"
    ensures (Indent + "view_count INTE")[|Indent| + 8] == 'n'
  {
    assert 'G' !in Indent;
  }

  lemma NoGInColumns()
    ensures 'G' !in DomainLine + PageLine
  {
    assert 'G' !in DomainLine;
    assert 'G' !in PageLine;
  }

  lemma NoGBeforeCount()
    ensures 'G' !in CreateLine + DomainLine + PageLine + DateLine
  {
    NoGInColumns();
    assert 'G' !in CreateLine;
    assert 'G' !in DateLine;
  }

  lemma NoGAfterCount()
    ensures 'G' !in KeyLine + CloseLine
  {
    assert 'G' !in KeyLine;
    assert 'G' !in CloseLine;
  }

  /** A text made of a prefix, the count line split at its 'G', and a suffix, regrouped around that 'G'. */
  lemma SplitAround(pre: string, a: string, b: string, post: string, line: string)
    requires line == a + "G" + b
    ensures pre + line + post == (pre + a) + "G" + (b + post)
  {
  }

  /**
   The aggregated table's own definition does not contain the marker: its only
   `INTEGER` column is `view_count`, which ends in "nt INTEGER".
   */
  lemma AggregatedSqlIsCurrent()
    ensures !Contains(AggregatedSql, LegacyMarker)
  {
    var pre := CreateLine + DomainLine + PageLine + DateLine;
    var post := KeyLine + CloseLine;
    var a, b := Indent + "view_count INTE", "ER NOT NULL DEFAULT 1,\n";
    CountLineSplits();
    CountLineAroundG();
    NoGBeforeCount();
    NoGAfterCount();
    assert AggregatedSql == pre + CountLine + post;
    SplitAround(pre, a, b, post, CountLine);
    assert (pre + a)[|pre + a| - 7] == a[|a| - 7];
    MarkerNeedsItsG(AggregatedSql, pre + a, b + post);
  }

  /** The aggregated table that migration builds from the legacy events. */
  function Migrated(events: seq<Event>, dayOf: int -> string): (t: Table)
    ensures WellFormed(t) && t.layout.Aggregated?
    ensures Total(t.layout.counts) == |events|
  {
    AggregatedSqlIsCurrent();
    GroupByCounts(events, dayOf);
    Table(AggregatedSql, Aggregated(GroupBy(events, dayOf)))
  }

  /**
   The `pageviews` table once the schema step has run: migrated when the marker
   is present, created when absent, and otherwise the existing table unchanged.
   */
  function SchemaResult(pageviews: Option<Table>, dayOf: int -> string): (t: Table)
    requires pageviews.Some? ==> WellFormed(pageviews.value)
    ensures WellFormed(t) && t.layout.Aggregated?
    ensures !NeedsMigration(Some(t))
  {
    AggregatedSqlIsCurrent();
    match pageviews
    case None => EmptyTable
    case Some(table) =>
      if Contains(table.sql, LegacyMarker) then Migrated(table.layout.events, dayOf) else table
  }

  /**
   The schema step neither loses nor invents a view. A missing table is created
   empty. An aggregated table keeps its counts. A legacy table becomes one row
   per `(domain, page, day)` group of its events, and the rows add up to the
   number of events.
   */
  lemma SchemaKeepsViews(pageviews: Option<Table>, dayOf: int -> string)
    requires pageviews.Some? ==> WellFormed(pageviews.value)
    ensures var counts := SchemaResult(pageviews, dayOf).layout.counts;
      match pageviews
      case None => counts == map[]
      case Some(Table(_, Aggregated(kept))) => counts == kept
      case Some(Table(_, EventLog(events))) =>
        && Total(counts) == |events|
        && (forall k :: k in counts <==> exists i :: 0 <= i < |events| && EventKey(events[i], dayOf) == k)
  {
    match pageviews
    case Some(Table(_, EventLog(events))) =>
      GroupByCounts(events, dayOf);
    case _ =>
  }

  /** Running the schema step a second time changes nothing. */
  lemma SchemaIdempotent(pageviews: Option<Table>, dayOf: int -> string)
    requires pageviews.Some? ==> WellFormed(pageviews.value)
    ensures SchemaResult(Some(SchemaResult(pageviews, dayOf)), dayOf) == SchemaResult(pageviews, dayOf)
  {
  }
}
