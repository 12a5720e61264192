/**
 * The older copy of the Twitter source (src/sources.rs): credentials read
 * with `expect`, anchors chosen without the `deleted_at` filter, the same
 * paging loop, and statuses stored newest first with no entities.
 */
module LegacySources {
  import opened Wrappers
  import opened Text
  import opened Types
  import opened Table
  import opened Store
  import opened Inserts
  import opened Sources
  import opened Twitter

  /** Every variable must be set (`expect_env!`) and the user id must parse. */
  predicate EnvComplete(env: string -> EnvVar) {
    && (forall name <- CREDENTIAL_VARS + ["TWITTER_USER_ID"] :: env(name).Set?)
    && ParseU64(env("TWITTER_USER_ID").value).Some?
  }

  /** `Twitter::load`: the same source the newer loader builds, but a missing variable is fatal. */
  function LoadLegacy(env: string -> EnvVar): (r: TwitterSource)
    requires EnvComplete(env)
    ensures LoadTwitter(env) == Loaded(r)
  {
    var names := CREDENTIAL_VARS + ["TWITTER_USER_ID"];
    assert forall i | 0 <= i < 5 :: env(names[i]).Set? by {
      forall i | 0 <= i < 5 ensures env(names[i]).Set? {
        assert names[i] in names;
      }
    }
    TwitterSource(
      Token(env(names[0]).value, env(names[1]).value, env(names[2]).value, env(names[3]).value),
      ParseU64(env(names[4]).value).value)
  }

  /** The paging loop's body for one page, without media. */
  method LegacyReadPage(feed: seq<Tweet>, latest: nat, now: Time, ghost before: seq<Tweet>, statusbag: seq<NewStatus>)
    returns (statuses: seq<NewStatus>, containsLatest: bool, ntweets: nat)
    requires forall t <- before :: Convertible(t)
    requires forall t <- feed :: Convertible(t)
    requires statusbag == Statuses(before, now)
    ensures forall t <- before + feed :: Convertible(t)
    ensures statuses == Statuses(before + feed, now)
    ensures containsLatest <==> HasTweet(feed, latest)
    ensures ntweets == |feed|
  {
    statuses, containsLatest, ntweets := statusbag, false, 0;
    assert before + feed[..0] == before;
    var j := 0;
    while j < |feed|
      invariant 0 <= j <= |feed| && ntweets == j
      invariant forall t <- before + feed[..j] :: Convertible(t)
      invariant statuses == Statuses(before + feed[..j], now)
      invariant containsLatest <==> HasTweet(feed[..j], latest)
    {
      var tweet := feed[j];
      assert Convertible(tweet);
      assert feed[..j + 1] == feed[..j] + [tweet];
      assert before + feed[..j + 1] == (before + feed[..j]) + [tweet];
      ntweets := ntweets + 1;
      statuses := statuses + [StatusFromTweet(tweet, now)];
      if tweet.id == latest {
        containsLatest := true;
      }
      j := j + 1;
    }
    assert feed[..j] == feed;
  }

  /** The paging loop, with the newer source's stopping rule. */
  method LegacyFetchTimeline(page: nat -> Option<seq<Tweet>>, latest: nat, now: Time)
    returns (ok: bool, calls: nat, statusbag: seq<NewStatus>)
    requires PagesConvertible(page)
    ensures !ok ==> calls >= 1 && page(calls - 1).None?
    ensures ok ==>
      && PagingStopsAfter(page, latest, calls)
      && (forall t <- PagesUpTo(page, calls) :: Convertible(t))
      && statusbag == Statuses(PagesUpTo(page, calls), now)
  {
    statusbag, calls := [], 0;
    while true
      invariant forall t <- PagesUpTo(page, calls) :: Convertible(t)
      invariant statusbag == Statuses(PagesUpTo(page, calls), now)
      invariant forall j | 0 <= j < calls :: page(j).Some? && !StopsAt(page, latest, j)
      decreases TIMELINE_CAP - |statusbag|
    {
      var feed := page(calls);
      if feed.None? {
        return false, calls + 1, statusbag;
      }
      ghost var before := PagesUpTo(page, calls);
      var containsLatest, ntweets;
      statusbag, containsLatest, ntweets := LegacyReadPage(feed.value, latest, now, before, statusbag);
      calls := calls + 1;
      assert PagesUpTo(page, calls) == before + feed.value;
      if containsLatest || ntweets == 0 || |statusbag| >= TIMELINE_CAP {
        return true, calls, statusbag;
      }
    }
  }

  datatype LegacyOutcome =
    | LegacyTimelineFailed(anchors: Anchors, calls: nat)
    | LegacySynced(anchors: Anchors, calls: nat, fetched: nat, inserted: nat, hint: Hint)

  /**
   * `sync` of the older source: anchors over every Twitter original
   * (deleted ones included), the same paging, and one insert of the
   * statuses in the order they were fetched (newest first).
   */
  method LegacySync(db: Db, timeline: Option<nat> -> nat -> Option<seq<Tweet>>, now: Time) returns (r: LegacyOutcome)
    requires db.Valid()
    requires CandidatesParse(db.tables.statuses, false)
    requires TimelineConvertible(timeline)
    modifies db
    ensures db.Valid()
    ensures AnchorsOf(old(db.tables).statuses, false, r.anchors)
    ensures r.LegacyTimelineFailed? ==>
      db.tables == old(db.tables) && r.calls >= 1 && timeline(r.anchors.penultimate)(r.calls - 1).None?
    ensures r.LegacySynced? ==>
      var page := timeline(r.anchors.penultimate);
      var tweets := PagesUpTo(page, r.calls);
      && PagingStopsAfter(page, LatestId(r.anchors), r.calls)
      && (forall t <- tweets :: Convertible(t))
      && r.fetched == |tweets|
      && var (t1, ids) := InsertStatuses(old(db.tables), Statuses(tweets, now));
      && db.tables == t1 && r.inserted == |ids|
      && r.inserted <= r.fetched
      && r.hint == SyncHint(r.inserted, r.fetched)
  {
    var anchors := Latest2(db.tables.statuses, false);
    var latest := LatestId(anchors);
    var page := timeline(anchors.penultimate);
    var ok, batch, statusbag := LegacyFetchTimeline(page, latest, now);
    if !ok {
      return LegacyTimelineFailed(anchors, batch);
    }
    InsertStatusesValid(db.tables, statusbag);
    InsertIgnoreIds(db.tables.statuses, db.tables.nextStatus, statusbag, StatusKey);
    var (t1, ids) := InsertStatuses(db.tables, statusbag);
    db.tables := t1;
    var inserted := |ids|;
    r := LegacySynced(anchors, batch, |statusbag|, inserted, SyncHint(inserted, |statusbag|));
  }
}
