/**
  The two POST handlers of src/app.py as instances of the generic
  reconciliation: `/update/builds` keyed by `link` with freshness column
  `lastBuildDate`, and `/update/feed` keyed by `guid` with freshness column
  `pubDate`. Each answers with the numeric HTTP status only.
*/
module App {
  import opened Wrappers
  import opened Reconciler
  import Properties

  /** The `builds` table: the columns bound by the INSERT and UPDATE of `update_builds`. */
  const Builds := Schema("link", "lastBuildDate",
    ["title", "link", "description", "generator", "language", "copyright",
     "lastBuildDate", "atom_link_href", "atom_link_rel", "atom_link_type"])

  /** The `feed` table: the columns bound by the INSERT and UPDATE of `update_feed`. */
  const Feed := Schema("guid", "pubDate", ["title", "link", "pubDate", "guid", "description"])

  lemma BuildsWellFormed()
    ensures Builds.WellFormed() && Builds.key == "link" && Builds.freshness == "lastBuildDate"
  {
  }

  lemma FeedWellFormed()
    ensures Feed.WellFormed() && Feed.key == "guid" && Feed.freshness == "pubDate"
  {
  }

  /** `POST /update/builds`. */
  method UpdateBuilds<V(==)>(builds: Table<V>, data: Payload<V>, fault: Fault) returns (status: int)
    requires builds.Valid() && builds.schema == Builds
    modifies builds
    ensures builds.Valid()
    ensures var r := Step(Builds, old(builds.rows), data, fault);
      status == StatusCode(r.outcome) && builds.rows == r.rows
  {
    var outcome := builds.Reconcile(data, fault);
    status := StatusCode(outcome);
  }

  /** `POST /update/feed`. */
  method UpdateFeed<V(==)>(feed: Table<V>, data: Payload<V>, fault: Fault) returns (status: int)
    requires feed.Valid() && feed.schema == Feed
    modifies feed
    ensures feed.Valid()
    ensures var r := Step(Feed, old(feed.rows), data, fault);
      status == StatusCode(r.outcome) && feed.rows == r.rows
  {
    var outcome := feed.Reconcile(data, fault);
    status := StatusCode(outcome);
  }

  /**
    An update of a feed item overwrites its `link` column too, since `link`
    is not the key of `feed` (whereas it is the key of `builds`).
  */
  lemma FeedUpdateOverwritesLink<V>(rows: Rows<V>, data: Payload<V>)
    requires RowsValid(Feed, rows)
    requires Field(data, Feed.key) in rows
    requires rows[Field(data, Feed.key)][Feed.freshness] != Field(data, Feed.freshness)
    ensures var r := Step(Feed, rows, data, NoFault);
      && r.outcome == Updated
      && Field(data, Feed.key) in r.rows && "link" in r.rows[Field(data, Feed.key)]
      && r.rows[Field(data, Feed.key)]["link"] == Field(data, "link")
  {
    Properties.UpdateOverwritesColumn(Feed, rows, data, "link");
  }

  /**
    Posting `{"link": "http://x", "lastBuildDate": "2024-01-01"}` to an empty
    `builds` table creates the row (201); posting it again changes nothing
    (200); posting `"lastBuildDate": "2024-02-01"` updates the stored value (200).
  */
  lemma BuildsScenario()
    ensures var d1 := map["link" := Some("http://x"), "lastBuildDate" := Some("2024-01-01")];
      var d2 := map["link" := Some("http://x"), "lastBuildDate" := Some("2024-02-01")];
      var r1 := Step(Builds, map[], d1, NoFault);
      var r2 := Step(Builds, r1.rows, d1, NoFault);
      var r3 := Step(Builds, r2.rows, d2, NoFault);
      && StatusCode(r1.outcome) == 201 && r1.rows.Keys == {Some("http://x")}
      && r2.outcome == Unchanged && StatusCode(r2.outcome) == 200 && r2.rows == r1.rows
      && r3.outcome == Updated && StatusCode(r3.outcome) == 200 && r3.rows.Keys == {Some("http://x")}
      && "lastBuildDate" in r3.rows[Some("http://x")]
      && r3.rows[Some("http://x")]["lastBuildDate"] == Some("2024-02-01")
  {
    var d1 := map["link" := Some("http://x"), "lastBuildDate" := Some("2024-01-01")];
    var d2 := map["link" := Some("http://x"), "lastBuildDate" := Some("2024-02-01")];
    assert Field(d1, Builds.key) == Field(d2, Builds.key) == Some("http://x");
    assert Field(d1, Builds.freshness) != Field(d2, Builds.freshness);
    var empty: Rows<string> := map[];
    Properties.InsertWhenAbsent(Builds, empty, d1);
    var r1 := Step(Builds, empty, d1, NoFault);
    Properties.Idempotent(Builds, empty, d1);
    Properties.ChangeIsWrittenOnce(Builds, r1.rows, d1, d2);
    Properties.KeysGrowOnlyOnInsert(Builds, r1.rows, d2, NoFault);
  }

  /** A client of the `builds` handler: a new channel is created, the same post again changes nothing. */
  method BuildsClient() {
    BuildsWellFormed();
    var builds := new Table<string>(Builds);
    var d := map["link" := Some("http://x"), "lastBuildDate" := Some("2024-01-01")];
    Properties.InsertWhenAbsent(Builds, builds.rows, d);
    Properties.Idempotent(Builds, builds.rows, d);
    var first := UpdateBuilds(builds, d, NoFault);
    var second := UpdateBuilds(builds, d, NoFault);
    assert first == 201 && second == 200;
  }
}
