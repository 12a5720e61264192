/**
 * The Twitter source (src/sources/twitter.rs): choosing the anchors of a
 * sync from the store, paging the timeline until it overlaps what is
 * stored, storing statuses oldest first with their media, deleting a
 * status remotely, and storing the ids of blocked accounts.
 *
 * The remote timeline is an oracle `timeline(since)(k)`: the k-th page the
 * cursor returns when asked for tweets since `since`, or `None` when the
 * call fails.
 */
module Twitter {
  import opened Wrappers
  import opened Text
  import opened Types
  import opened Table
  import opened Store
  import opened Inserts
  import opened Sources

  // ---------------------------------------------------------------------
  // Anchors

  /** The statuses the anchor query reads: Twitter, not reposts, and (when `skipDeleted`) not deleted. */
  predicate IsAnchorCandidate(s: NewStatus, skipDeleted: bool) {
    s.source == Twitter && !s.isRepost && (skipDeleted ==> s.deletedAt.None?)
  }

  /** The query's ordering casts every candidate's source id to a number, and the two kept are parsed as u64. */
  predicate CandidatesParse(st: map<nat, NewStatus>, skipDeleted: bool) {
    forall k | k in st && IsAnchorCandidate(st[k], skipDeleted) :: ParseU64(st[k].sourceId).Some?
  }

  /** `k` is a candidate whose source id reads as `v`. */
  predicate CandidateOf(st: map<nat, NewStatus>, skipDeleted: bool, k: nat, v: nat) {
    k in st && IsAnchorCandidate(st[k], skipDeleted) && ParseU64(st[k].sourceId) == Some(v)
  }

  function IdValue(st: map<nat, NewStatus>, k: nat): nat
    requires k in st && ParseU64(st[k].sourceId).Some?
  {
    ParseU64(st[k].sourceId).value
  }

  /** `(penultimate, latest)` as `latest_2_ids_in_db` returns them. */
  datatype Anchors = Anchors(penultimate: Option<nat>, latest: Option<nat>)

  /**
   * The anchors are the two largest candidate ids, the larger as `latest`;
   * with one candidate it is `penultimate` and `latest` is absent; with
   * none both are absent.
   */
  ghost predicate AnchorsOf(st: map<nat, NewStatus>, skipDeleted: bool, a: Anchors)
    requires CandidatesParse(st, skipDeleted)
  {
    && (a.penultimate.None? <==> forall k | k in st :: !IsAnchorCandidate(st[k], skipDeleted))
    && (a.latest.Some? ==> a.penultimate.Some?)
    && (a.latest.Some? ==>
          exists k1, k2 | k1 != k2 ::
            && CandidateOf(st, skipDeleted, k1, a.latest.value)
            && CandidateOf(st, skipDeleted, k2, a.penultimate.value)
            && (forall k | k in st && IsAnchorCandidate(st[k], skipDeleted) :: IdValue(st, k) <= a.latest.value)
            && (forall k | k in st && k != k1 && IsAnchorCandidate(st[k], skipDeleted) ::
                  IdValue(st, k) <= a.penultimate.value))
    && (a.latest.None? && a.penultimate.Some? ==>
          exists k1 ::
            && CandidateOf(st, skipDeleted, k1, a.penultimate.value)
            && forall k | k in st && IsAnchorCandidate(st[k], skipDeleted) :: k == k1)
  }

  /**
   * Having read every row outside `todo`: `first` is the largest candidate
   * id seen (at row `k1`), `second` the largest among the other rows (at
   * row `k2`).
   */
  ghost predicate TopTwo(st: map<nat, NewStatus>, skipDeleted: bool, todo: set<nat>,
                         first: Option<nat>, second: Option<nat>, k1: nat, k2: nat)
    requires CandidatesParse(st, skipDeleted)
  {
    && todo <= st.Keys
    && (first.None? <==> forall k | k in st && k !in todo :: !IsAnchorCandidate(st[k], skipDeleted))
    && (first.None? ==> second.None?)
    && (first.Some? ==>
          && k1 in st && k1 !in todo && CandidateOf(st, skipDeleted, k1, first.value)
          && forall k | k in st && k !in todo && IsAnchorCandidate(st[k], skipDeleted) :: IdValue(st, k) <= first.value)
    && (second.Some? ==>
          && k2 in st && k2 !in todo && k2 != k1 && CandidateOf(st, skipDeleted, k2, second.value)
          && forall k | k in st && k !in todo && k != k1 && IsAnchorCandidate(st[k], skipDeleted) ::
               IdValue(st, k) <= second.value)
    && (first.Some? && second.None? ==>
          forall k | k in st && k !in todo && IsAnchorCandidate(st[k], skipDeleted) :: k == k1)
  }

  /** Reading a row that is not a candidate changes nothing. */
  lemma TopTwoSkip(st: map<nat, NewStatus>, skipDeleted: bool, todo: set<nat>,
                   first: Option<nat>, second: Option<nat>, k1: nat, k2: nat, k: nat)
    requires CandidatesParse(st, skipDeleted)
    requires TopTwo(st, skipDeleted, todo, first, second, k1, k2) && k in todo
    requires !IsAnchorCandidate(st[k], skipDeleted)
    ensures TopTwo(st, skipDeleted, todo - {k}, first, second, k1, k2)
  {
  }

  /** A candidate above the largest so far becomes the largest, the old largest the second. */
  lemma TopTwoNewFirst(st: map<nat, NewStatus>, skipDeleted: bool, todo: set<nat>,
                       first: Option<nat>, second: Option<nat>, k1: nat, k2: nat, k: nat)
    requires CandidatesParse(st, skipDeleted)
    requires TopTwo(st, skipDeleted, todo, first, second, k1, k2) && k in todo
    requires IsAnchorCandidate(st[k], skipDeleted) && (first.None? || IdValue(st, k) > first.value)
    ensures TopTwo(st, skipDeleted, todo - {k}, Some(IdValue(st, k)), first, k, k1)
  {
  }

  /** A candidate not above the largest but above the second becomes the second. */
  lemma TopTwoNewSecond(st: map<nat, NewStatus>, skipDeleted: bool, todo: set<nat>,
                        first: Option<nat>, second: Option<nat>, k1: nat, k2: nat, k: nat)
    requires CandidatesParse(st, skipDeleted)
    requires TopTwo(st, skipDeleted, todo, first, second, k1, k2) && k in todo
    requires IsAnchorCandidate(st[k], skipDeleted) && first.Some? && IdValue(st, k) <= first.value
    requires second.None? || IdValue(st, k) > second.value
    ensures TopTwo(st, skipDeleted, todo - {k}, first, Some(IdValue(st, k)), k1, k)
  {
  }

  /** A candidate not above the second changes nothing. */
  lemma TopTwoKeep(st: map<nat, NewStatus>, skipDeleted: bool, todo: set<nat>,
                   first: Option<nat>, second: Option<nat>, k1: nat, k2: nat, k: nat)
    requires CandidatesParse(st, skipDeleted)
    requires TopTwo(st, skipDeleted, todo, first, second, k1, k2) && k in todo
    requires IsAnchorCandidate(st[k], skipDeleted) && first.Some? && IdValue(st, k) <= first.value
    requires second.Some? && IdValue(st, k) <= second.value
    ensures TopTwo(st, skipDeleted, todo - {k}, first, second, k1, k2)
  {
  }

  /** Once every row is read, the two kept ids are the anchors. */
  lemma TopTwoAnchors(st: map<nat, NewStatus>, skipDeleted: bool, first: Option<nat>, second: Option<nat>, k1: nat, k2: nat)
    requires CandidatesParse(st, skipDeleted)
    requires TopTwo(st, skipDeleted, {}, first, second, k1, k2)
    ensures AnchorsOf(st, skipDeleted, if second.Some? then Anchors(second, first) else Anchors(first, None))
  {
    if second.Some? {
      assert CandidateOf(st, skipDeleted, k1, first.value) && CandidateOf(st, skipDeleted, k2, second.value);
    } else if first.Some? {
      assert CandidateOf(st, skipDeleted, k1, first.value);
    }
  }

  /**
   * `latest_2_ids_in_db`: one pass over the rows keeping the two largest
   * candidate ids. `skipDeleted` is false for the older copy of the source,
   * whose query has no `deleted_at` filter.
   */
  method Latest2(st: map<nat, NewStatus>, skipDeleted: bool) returns (a: Anchors)
    requires CandidatesParse(st, skipDeleted)
    ensures AnchorsOf(st, skipDeleted, a)
  {
    var first: Option<nat> := None;
    var second: Option<nat> := None;
    ghost var k1: nat := 0;
    ghost var k2: nat := 0;
    var todo := st.Keys;
    while todo != {}
      invariant TopTwo(st, skipDeleted, todo, first, second, k1, k2)
      decreases |todo|
    {
      var k :| k in todo;
      if IsAnchorCandidate(st[k], skipDeleted) {
        var v := ParseU64(st[k].sourceId).value;
        if first.None? || v > first.value {
          TopTwoNewFirst(st, skipDeleted, todo, first, second, k1, k2, k);
          second, k2 := first, k1;
          first, k1 := Some(v), k;
        } else if second.None? || v > second.value {
          TopTwoNewSecond(st, skipDeleted, todo, first, second, k1, k2, k);
          second, k2 := Some(v), k;
        } else {
          TopTwoKeep(st, skipDeleted, todo, first, second, k1, k2, k);
        }
      } else {
        TopTwoSkip(st, skipDeleted, todo, first, second, k1, k2, k);
      }
      todo := todo - {k};
    }
    TopTwoAnchors(st, skipDeleted, first, second, k1, k2);
    if second.Some? {
      a := Anchors(second, first);
    } else {
      a := Anchors(first, None);
    }
  }

  /** `latest.or(penultimate).unwrap_or(0)`: the id whose presence in a page ends the paging. */
  function LatestId(a: Anchors): nat {
    a.latest.Or(a.penultimate).UnwrapOr(0)
  }

  /** The id paging looks for is the largest candidate id, or 0 when there is none. */
  lemma LatestIdIsMax(st: map<nat, NewStatus>, skipDeleted: bool, a: Anchors)
    requires CandidatesParse(st, skipDeleted) && AnchorsOf(st, skipDeleted, a)
    ensures a.penultimate.None? ==> LatestId(a) == 0
    ensures a.penultimate.Some? ==>
      && (exists k :: CandidateOf(st, skipDeleted, k, LatestId(a)))
      && forall k | k in st && IsAnchorCandidate(st[k], skipDeleted) :: IdValue(st, k) <= LatestId(a)
  {
    if a.latest.Some? {
      var k1, k2 :| k1 != k2
        && CandidateOf(st, skipDeleted, k1, a.latest.value)
        && CandidateOf(st, skipDeleted, k2, a.penultimate.value)
        && (forall k | k in st && IsAnchorCandidate(st[k], skipDeleted) :: IdValue(st, k) <= a.latest.value);
      assert CandidateOf(st, skipDeleted, k1, LatestId(a));
    } else if a.penultimate.Some? {
      var k1 :| CandidateOf(st, skipDeleted, k1, a.penultimate.value)
        && forall k | k in st && IsAnchorCandidate(st[k], skipDeleted) :: k == k1;
      assert CandidateOf(st, skipDeleted, k1, LatestId(a));
    }
  }

  // ---------------------------------------------------------------------
  // Paging

  /** The tweets of the first `n` pages, in the order they came. */
  function PagesUpTo(page: nat -> Option<seq<Tweet>>, n: nat): seq<Tweet> {
    if n == 0 then [] else PagesUpTo(page, n - 1) + page(n - 1).UnwrapOr([])
  }

  predicate HasTweet(p: seq<Tweet>, id: nat) {
    exists t <- p :: t.id == id
  }

  lemma HasTweetPush(p: seq<Tweet>, tweet: Tweet, id: nat)
    ensures HasTweet(p + [tweet], id) <==> HasTweet(p, id) || tweet.id == id
  {
    if HasTweet(p, id) {
      var t :| t in p && t.id == id;
      assert t in p + [tweet];
    }
    assert tweet in p + [tweet];
  }

  /** The most tweets the loop collects before it stops on its own. */
  const TIMELINE_CAP: nat := 3200

  /** After page `j` the loop stops: the page holds `latest`, is empty, or the bag reached the cap. */
  predicate StopsAt(page: nat -> Option<seq<Tweet>>, latest: nat, j: nat)
    requires page(j).Some?
  {
    HasTweet(page(j).value, latest) || |page(j).value| == 0 || |PagesUpTo(page, j + 1)| >= TIMELINE_CAP
  }

  /** Pages 0 to n-1 were all answered, and n-1 is the first after which the loop stops. */
  predicate PagingStopsAfter(page: nat -> Option<seq<Tweet>>, latest: nat, n: nat) {
    && n >= 1
    && (forall j | 0 <= j < n :: page(j).Some?)
    && (forall j | 0 <= j < n - 1 :: !StopsAt(page, latest, j))
    && StopsAt(page, latest, n - 1)
  }

  /** The stopping rule picks exactly one number of calls. */
  lemma PagingStopsOnce(page: nat -> Option<seq<Tweet>>, latest: nat, n1: nat, n2: nat)
    requires PagingStopsAfter(page, latest, n1) && PagingStopsAfter(page, latest, n2)
    ensures n1 == n2
  {
  }

  lemma {:induction false} PagesUpToLength(page: nat -> Option<seq<Tweet>>, latest: nat, j: nat)
    requires forall i | 0 <= i < j :: page(i).Some? && !StopsAt(page, latest, i)
    ensures |PagesUpTo(page, j)| >= j
  {
    if j > 0 {
      PagesUpToLength(page, latest, j - 1);
      assert |page(j - 1).value| != 0;
    }
  }

  /** Every page but the last is non-empty and under the cap, so at most 3201 calls are made. */
  lemma PagingBounded(page: nat -> Option<seq<Tweet>>, latest: nat, n: nat)
    requires PagingStopsAfter(page, latest, n)
    ensures n <= TIMELINE_CAP + 1
  {
    PagesUpToLength(page, latest, n - 1);
    if n >= 2 {
      assert !StopsAt(page, latest, n - 2);
      assert PagesUpTo(page, n - 1) == PagesUpTo(page, n - 2) + page(n - 2).value;
    }
  }

  // ---------------------------------------------------------------------
  // Bags

  /** The conversions unwrap the reply user id, and every media item's video info. */
  predicate Convertible(t: Tweet) {
    && ReplyUserKnown(Original(t))
    && (t.extendedMedia.Some? ==> forall m <- t.extendedMedia.value :: MediaConvertible(m))
  }

  function Statuses(tweets: seq<Tweet>, now: Time): (r: seq<NewStatus>)
    requires forall t <- tweets :: Convertible(t)
    ensures |r| == |tweets|
  {
    seq(|tweets|, i requires 0 <= i < |tweets| => assert Convertible(tweets[i]); StatusFromTweet(tweets[i], now))
  }

  /**
   * The entity bag after the tweets: each tweet with media files its
   * entities under its own id, a later tweet with the same id replacing
   * the earlier entry.
   */
  function EntityBag(tweets: seq<Tweet>, now: Time): map<string, seq<NewEntity>>
    requires forall t <- tweets :: Convertible(t)
  {
    if tweets == [] then map[]
    else
      var last := tweets[|tweets| - 1];
      var m := EntityBag(tweets[..|tweets| - 1], now);
      assert Convertible(last);
      if last.extendedMedia.Some?
      then m[DecimalString(last.id) := EntitiesFromMedia(last.extendedMedia.value, now)]
      else m
  }

  /** A key of the bag names a tweet with media, and holds that tweet's entities. */
  lemma {:induction false} EntityBagKeys(tweets: seq<Tweet>, now: Time, key: string)
    requires forall t <- tweets :: Convertible(t)
    ensures key in EntityBag(tweets, now) ==>
      exists t <- tweets :: t.extendedMedia.Some? && DecimalString(t.id) == key
        && EntityBag(tweets, now)[key] == EntitiesFromMedia(t.extendedMedia.value, now)
  {
    if tweets != [] {
      var init := tweets[..|tweets| - 1];
      var last := tweets[|tweets| - 1];
      EntityBagKeys(init, now, key);
      assert forall t <- init :: t in tweets;
      assert last in tweets;
    }
  }

  function Owned(es: seq<NewEntity>, id: nat): (r: seq<NewEntity>)
    ensures |r| == |es|
  {
    seq(|es|, i requires 0 <= i < |es| => es[i].(statusId := id))
  }

  /**
   * The entity sack before reversal: for each inserted row in order, the
   * bag entry under its source id, owned by the row, the entry then
   * removed from the bag.
   */
  function Attach(ids: seq<nat>, rows: map<nat, NewStatus>, bag: map<string, seq<NewEntity>>): seq<NewEntity>
    requires forall id <- ids :: id in rows
  {
    if ids == [] then []
    else
      var sid := rows[ids[0]].sourceId;
      if sid in bag then Owned(bag[sid], ids[0]) + Attach(ids[1..], rows, bag - {sid})
      else Attach(ids[1..], rows, bag)
  }

  /**
   * Every attached entity belongs to an inserted row and comes from the bag
   * entry filed under that row's source id.
   */
  lemma {:induction false} AttachOwned(ids: seq<nat>, rows: map<nat, NewStatus>, bag: map<string, seq<NewEntity>>)
    requires forall id <- ids :: id in rows
    ensures forall e <- Attach(ids, rows, bag) ::
      && e.statusId in ids
      && rows[e.statusId].sourceId in bag
      && exists x <- bag[rows[e.statusId].sourceId] :: e == x.(statusId := e.statusId)
  {
    if ids != [] {
      var sid := rows[ids[0]].sourceId;
      var bag' := if sid in bag then bag - {sid} else bag;
      AttachOwned(ids[1..], rows, bag');
      var r := Attach(ids, rows, bag);
      forall e <- r
        ensures e.statusId in ids && rows[e.statusId].sourceId in bag
          && exists x <- bag[rows[e.statusId].sourceId] :: e == x.(statusId := e.statusId)
      {
        if sid in bag && e in Owned(bag[sid], ids[0]) {
          var i :| 0 <= i < |bag[sid]| && e == Owned(bag[sid], ids[0])[i];
          assert e == bag[sid][i].(statusId := ids[0]);
        } else {
          assert e in Attach(ids[1..], rows, bag');
        }
      }
    }
  }

  /**
   * When the inserted rows have distinct source ids (as the rows of one
   * statement do), every entity filed under an inserted row's source id is
   * attached to that row.
   */
  lemma {:induction false} AttachComplete(ids: seq<nat>, rows: map<nat, NewStatus>, bag: map<string, seq<NewEntity>>, i: nat)
    requires forall id <- ids :: id in rows
    requires forall a, b | 0 <= a < b < |ids| :: rows[ids[a]].sourceId != rows[ids[b]].sourceId
    requires i < |ids| && rows[ids[i]].sourceId in bag
    ensures forall x <- bag[rows[ids[i]].sourceId] :: x.(statusId := ids[i]) in Attach(ids, rows, bag)
  {
    var sid := rows[ids[0]].sourceId;
    if i == 0 {
      forall x <- bag[sid] ensures x.(statusId := ids[0]) in Attach(ids, rows, bag) {
        var j :| 0 <= j < |bag[sid]| && bag[sid][j] == x;
        assert Owned(bag[sid], ids[0])[j] == x.(statusId := ids[0]);
      }
    } else {
      var bag' := if sid in bag then bag - {sid} else bag;
      var s := rows[ids[i]].sourceId;
      assert s != sid;
      assert s in bag' && bag'[s] == bag[s];
      AttachComplete(ids[1..], rows, bag', i - 1);
    }
  }

  function Reverse<T>(s: seq<T>): (r: seq<T>)
    ensures |r| == |s|
    ensures forall i | 0 <= i < |s| :: r[i] == s[|s| - 1 - i]
  {
    seq(|s|, i requires 0 <= i < |s| => s[|s| - 1 - i])
  }

  // ---------------------------------------------------------------------
  // Hint

  /** Rust's `usize` on the 64-bit targets the program is built for. */
  const USIZE_LIMIT: nat := U64_LIMIT

  datatype Hint = AsExpected | SomethingOdd | SomeDuplicates

  /**
   * The hint printed after a sync. `fetched - 1` is a `usize` subtraction:
   * with nothing fetched it wraps to the largest `usize` (a release build).
   */
  function SyncHint(inserted: nat, fetched: nat): Hint {
    var expected := if fetched == 0 then USIZE_LIMIT - 1 else fetched - 1;
    if inserted == expected then AsExpected
    else if inserted >= fetched then SomethingOdd
    else SomeDuplicates
  }

  /**
   * With at most as many inserted as fetched: "as expected" exactly when
   * all but the one overlapping tweet were new, "something's odd" exactly
   * when all were new, "some duplicates" otherwise.
   */
  lemma SyncHintMeaning(inserted: nat, fetched: nat)
    requires inserted <= fetched < USIZE_LIMIT
    ensures fetched == 0 ==> SyncHint(inserted, fetched) == SomethingOdd
    ensures fetched > 0 ==> (SyncHint(inserted, fetched) == AsExpected <==> inserted == fetched - 1)
    ensures SyncHint(inserted, fetched) == SomethingOdd <==> inserted == fetched
    ensures SyncHint(inserted, fetched) == SomeDuplicates <==> inserted + 1 < fetched
  {
  }

  // ---------------------------------------------------------------------
  // Sync

  datatype SyncOutcome =
    /** A timeline call failed after `calls` calls; the source panics and writes nothing. */
    | TimelineFailed(anchors: Anchors, calls: nat)
    | Synced(anchors: Anchors, calls: nat, fetched: nat, inserted: nat, entitied: nat, hint: Hint)

  ghost predicate PagesConvertible(page: nat -> Option<seq<Tweet>>) {
    forall k :: page(k).Some? ==> forall t <- page(k).value :: Convertible(t)
  }

  ghost predicate TimelineConvertible(timeline: Option<nat> -> nat -> Option<seq<Tweet>>) {
    forall since :: PagesConvertible(timeline(since))
  }

  /** One more tweet pushes its status and, when it has media, files them under its id. */
  lemma PushTweet(tweets: seq<Tweet>, tweet: Tweet, now: Time)
    requires forall t <- tweets :: Convertible(t)
    requires Convertible(tweet)
    ensures forall t <- tweets + [tweet] :: Convertible(t)
    ensures Statuses(tweets + [tweet], now) == Statuses(tweets, now) + [StatusFromTweet(tweet, now)]
    ensures EntityBag(tweets + [tweet], now) ==
      if tweet.extendedMedia.Some?
      then EntityBag(tweets, now)[DecimalString(tweet.id) := EntitiesFromMedia(tweet.extendedMedia.value, now)]
      else EntityBag(tweets, now)
  {
    var all := tweets + [tweet];
    assert all[..|all| - 1] == tweets && all[|all| - 1] == tweet;
  }

  /**
   * The `j`th tweet of a page: its status pushed, its media (if any) filed
   * under its id, and whether it is the latest noted.
   */
  method ReadTweet(feed: seq<Tweet>, j: nat, latest: nat, now: Time, ghost before: seq<Tweet>,
                   statusbag: seq<NewStatus>, entitybag: map<string, seq<NewEntity>>, containsLatest: bool)
    returns (statuses: seq<NewStatus>, entities: map<string, seq<NewEntity>>, containsLatest': bool)
    requires j < |feed|
    requires forall t <- before + feed[..j] :: Convertible(t)
    requires Convertible(feed[j])
    requires statusbag == Statuses(before + feed[..j], now) && entitybag == EntityBag(before + feed[..j], now)
    requires containsLatest <==> HasTweet(feed[..j], latest)
    ensures forall t <- before + feed[..j + 1] :: Convertible(t)
    ensures statuses == Statuses(before + feed[..j + 1], now) && entities == EntityBag(before + feed[..j + 1], now)
    ensures containsLatest' <==> HasTweet(feed[..j + 1], latest)
  {
    var tweet := feed[j];
    assert feed[..j + 1] == feed[..j] + [tweet];
    assert before + feed[..j + 1] == (before + feed[..j]) + [tweet];
    PushTweet(before + feed[..j], tweet, now);
    HasTweetPush(feed[..j], tweet, latest);
    statuses := statusbag + [StatusFromTweet(tweet, now)];
    entities := entitybag;
    if tweet.extendedMedia.Some? {
      entities := entities[DecimalString(tweet.id) := EntitiesFromMedia(tweet.extendedMedia.value, now)];
    }
    containsLatest' := containsLatest || tweet.id == latest;
  }

  /**
   * The body of the paging loop for one page: each tweet's status is
   * pushed, its media filed under its id, and the page is checked for the
   * latest id.
   */
  method ReadPage(feed: seq<Tweet>, latest: nat, now: Time, ghost before: seq<Tweet>,
                  statusbag: seq<NewStatus>, entitybag: map<string, seq<NewEntity>>)
    returns (statuses: seq<NewStatus>, entities: map<string, seq<NewEntity>>, containsLatest: bool, ntweets: nat)
    requires forall t <- before :: Convertible(t)
    requires forall t <- feed :: Convertible(t)
    requires statusbag == Statuses(before, now) && entitybag == EntityBag(before, now)
    ensures forall t <- before + feed :: Convertible(t)
    ensures statuses == Statuses(before + feed, now) && entities == EntityBag(before + feed, now)
    ensures containsLatest <==> HasTweet(feed, latest)
    ensures ntweets == |feed|
  {
    statuses, entities, containsLatest, ntweets := statusbag, entitybag, false, 0;
    assert before + feed[..0] == before;
    var j := 0;
    while j < |feed|
      invariant 0 <= j <= |feed| && ntweets == j
      invariant forall t <- before + feed[..j] :: Convertible(t)
      invariant statuses == Statuses(before + feed[..j], now)
      invariant entities == EntityBag(before + feed[..j], now)
      invariant containsLatest <==> HasTweet(feed[..j], latest)
    {
      statuses, entities, containsLatest := ReadTweet(feed, j, latest, now, before, statuses, entities, containsLatest);
      ntweets := ntweets + 1;
      j := j + 1;
    }
    assert feed[..j] == feed;
  }

  /** One more answered page either is where paging stops or extends the run of pages it goes past. */
  lemma PagingStep(page: nat -> Option<seq<Tweet>>, latest: nat, calls: nat)
    requires forall j | 0 <= j < calls :: page(j).Some? && !StopsAt(page, latest, j)
    requires page(calls).Some?
    ensures StopsAt(page, latest, calls) ==> PagingStopsAfter(page, latest, calls + 1)
    ensures !StopsAt(page, latest, calls) ==>
      forall j | 0 <= j < calls + 1 :: page(j).Some? && !StopsAt(page, latest, j)
  {
  }

  /**
   * The paging loop: ask for the next page until one holds the latest id,
   * is empty, or the bag holds at least 3200 statuses. `ok` is false when a
   * call failed (the source panics there).
   */
  method FetchTimeline(page: nat -> Option<seq<Tweet>>, latest: nat, now: Time)
    returns (ok: bool, calls: nat, statusbag: seq<NewStatus>, entitybag: map<string, seq<NewEntity>>)
    requires PagesConvertible(page)
    ensures !ok ==> calls >= 1 && page(calls - 1).None?
    ensures ok ==>
      && PagingStopsAfter(page, latest, calls)
      && (forall t <- PagesUpTo(page, calls) :: Convertible(t))
      && statusbag == Statuses(PagesUpTo(page, calls), now)
      && entitybag == EntityBag(PagesUpTo(page, calls), now)
  {
    statusbag, entitybag, calls := [], map[], 0;
    while true
      invariant forall t <- PagesUpTo(page, calls) :: Convertible(t)
      invariant statusbag == Statuses(PagesUpTo(page, calls), now)
      invariant entitybag == EntityBag(PagesUpTo(page, calls), now)
      invariant forall j | 0 <= j < calls :: page(j).Some? && !StopsAt(page, latest, j)
      decreases TIMELINE_CAP - |statusbag|
    {
      var feed := page(calls);
      if feed.None? {
        return false, calls + 1, statusbag, entitybag;
      }
      ghost var before := PagesUpTo(page, calls);
      assert forall t <- feed.value :: Convertible(t);
      var containsLatest, ntweets;
      statusbag, entitybag, containsLatest, ntweets := ReadPage(feed.value, latest, now, before, statusbag, entitybag);
      assert PagesUpTo(page, calls + 1) == before + feed.value;
      assert StopsAt(page, latest, calls) <==> containsLatest || ntweets == 0 || |statusbag| >= TIMELINE_CAP;
      PagingStep(page, latest, calls);
      calls := calls + 1;
      if containsLatest || ntweets == 0 || |statusbag| >= TIMELINE_CAP {
        return true, calls, statusbag, entitybag;
      }
    }
  }

  /**
   * The entity sack: for each inserted row in order, the entities filed
   * under its source id, each given the row's id; the entry is then
   * removed from the bag.
   */
  method AttachEntities(inserted: seq<nat>, rows: map<nat, NewStatus>, entitybag: map<string, seq<NewEntity>>)
    returns (entitysack: seq<NewEntity>)
    requires forall id <- inserted :: id in rows
    ensures entitysack == Attach(inserted, rows, entitybag)
  {
    entitysack := [];
    var bag := entitybag;
    var i := 0;
    while i < |inserted|
      invariant 0 <= i <= |inserted|
      invariant entitysack + Attach(inserted[i..], rows, bag) == Attach(inserted, rows, entitybag)
    {
      assert inserted[i..][1..] == inserted[i + 1..];
      var sid := rows[inserted[i]].sourceId;
      if sid in bag {
        var ents := bag[sid];
        bag := bag - {sid};
        var e := 0;
        ghost var sack0 := entitysack;
        while e < |ents|
          invariant 0 <= e <= |ents|
          invariant entitysack == sack0 + Owned(ents, inserted[i])[..e]
        {
          assert Owned(ents, inserted[i])[..e + 1] == Owned(ents, inserted[i])[..e] + [ents[e].(statusId := inserted[i])];
          entitysack := entitysack + [ents[e].(statusId := inserted[i])];
          e := e + 1;
        }
        assert Owned(ents, inserted[i])[..e] == Owned(ents, inserted[i]);
      }
      i := i + 1;
    }
    assert inserted[i..] == [];
  }

  /** The store after the statuses and then the entities of `tweets` (newest first) are inserted. */
  function SyncedTables(t: Tables, tweets: seq<Tweet>, now: Time): (Tables, seq<nat>, nat)
    requires ValidTables(t)
    requires forall tw <- tweets :: Convertible(tw)
  {
    InsertStatusesValid(t, Reverse(Statuses(tweets, now)));
    var (t1, ids) := InsertStatuses(t, Reverse(Statuses(tweets, now)));
    InsertIgnoreFrame(t.statuses, t.nextStatus, Reverse(Statuses(tweets, now)), StatusKey);
    var (t2, n) := InsertEntities(t1, Reverse(Attach(ids, t1.statuses, EntityBag(tweets, now))));
    (t2, ids, n)
  }

  /**
   * `sync`: read the anchors, page the timeline since the penultimate one
   * until a page holds the latest, is empty, or 3200 tweets are in; store
   * the statuses oldest first, then the entities of the rows that were
   * actually inserted.
   */
  method Sync(db: Db, timeline: Option<nat> -> nat -> Option<seq<Tweet>>, now: Time) returns (r: SyncOutcome)
    requires db.Valid()
    requires CandidatesParse(db.tables.statuses, true)
    requires TimelineConvertible(timeline)
    modifies db
    ensures db.Valid()
    ensures AnchorsOf(old(db.tables).statuses, true, r.anchors)
    ensures r.TimelineFailed? ==>
      db.tables == old(db.tables) && r.calls >= 1 && timeline(r.anchors.penultimate)(r.calls - 1).None?
    ensures r.Synced? ==>
      var page := timeline(r.anchors.penultimate);
      var tweets := PagesUpTo(page, r.calls);
      && PagingStopsAfter(page, LatestId(r.anchors), r.calls)
      && (forall t <- tweets :: Convertible(t))
      && r.fetched == |tweets|
      && var (t2, ids, n) := SyncedTables(old(db.tables), tweets, now);
      && db.tables == t2 && r.inserted == |ids| && r.entitied == n
      && r.inserted <= r.fetched
      && r.hint == SyncHint(r.inserted, r.fetched)
  {
    var anchors := Latest2(db.tables.statuses, true);
    var latest := LatestId(anchors);
    var page := timeline(anchors.penultimate);
    var ok, batch, statusbag, entitybag := FetchTimeline(page, latest, now);
    if !ok {
      return TimelineFailed(anchors, batch);
    }
    ghost var tweets := PagesUpTo(page, batch);
    statusbag := Reverse(statusbag);

    InsertStatusesValid(db.tables, statusbag);
    InsertIgnoreIds(db.tables.statuses, db.tables.nextStatus, statusbag, StatusKey);
    InsertIgnoreFrame(db.tables.statuses, db.tables.nextStatus, statusbag, StatusKey);
    var (t1, inserted) := InsertStatuses(db.tables, statusbag);
    db.tables := t1;

    var entitysack := AttachEntities(inserted, db.tables.statuses, entitybag);
    entitysack := Reverse(entitysack);

    InsertEntitiesValid(db.tables, entitysack);
    var (t2, entitied) := InsertEntities(db.tables, entitysack);
    db.tables := t2;

    r := Synced(anchors, batch, |statusbag|, |inserted|, entitied, SyncHint(|inserted|, |statusbag|));
  }

  // ---------------------------------------------------------------------
  // Delete

  datatype RemoteCall = Unretweet(id: U64) | DestroyTweet(id: U64)

  /** What `delete` does with a status before any call: refuse it, or call the API. */
  datatype DeletePlan = Refuse(error: DeleteError) | Call(call: RemoteCall)

  /** The source id is parsed with `expect` once the two guards pass. */
  predicate DeletableParses(s: NewStatus) {
    s.deletedAt.None? && s.source == Twitter ==> ParseU64(s.sourceId).Some?
  }

  /**
   * The guards of `delete`, in order: a deleted status is refused first
   * (whatever its source), then a status of another source; a repost is
   * un-retweeted, anything else destroyed, by its native id.
   */
  function PlanDelete(s: NewStatus): (p: DeletePlan)
    requires DeletableParses(s)
    ensures p == Refuse(AlreadyDone) <==> s.deletedAt.Some?
    ensures p == Refuse(WrongSource) <==> s.deletedAt.None? && s.source != Twitter
    ensures p.Call? <==> s.deletedAt.None? && s.source == Twitter
    ensures p.Call? ==> Some(p.call.id) == ParseU64(s.sourceId) && (p.call.Unretweet? <==> s.isRepost)
  {
    if s.deletedAt.Some? then Refuse(AlreadyDone)
    else if s.source != Twitter then Refuse(WrongSource)
    else
      var id := ParseU64(s.sourceId).value;
      if s.isRepost then Call(Unretweet(id)) else Call(DestroyTweet(id))
  }

  /** `update(statuses.find(id)).set(deleted_at.eq(now))`: a missing id updates nothing. */
  function MarkDeleted(st: map<nat, NewStatus>, id: nat, now: Time): map<nat, NewStatus> {
    if id in st then st[id := st[id].(deletedAt := Some(now))] else st
  }

  /**
   * Marking a status deleted keeps the store's invariant, changes no other
   * row, and a second deletion of the stored row is refused as already done.
   */
  lemma MarkDeletedValid(t: Tables, id: nat, now: Time)
    requires ValidTables(t)
    ensures var st := MarkDeleted(t.statuses, id, now);
      && ValidTables(t.(statuses := st))
      && st.Keys == t.statuses.Keys
      && (forall k | k in st && k != id :: st[k] == t.statuses[k])
      && (id in st ==> st[id].deletedAt == Some(now) && st[id] == t.statuses[id].(deletedAt := Some(now))
                       && PlanDelete(st[id]) == Refuse(AlreadyDone))
  {
    var st := MarkDeleted(t.statuses, id, now);
    assert forall k | k in st :: StatusKey(st[k]) == StatusKey(t.statuses[k]);
  }

  datatype DeleteResult = Deleted | Failed(error: DeleteError)

  /**
   * `delete`: refuse, or call the API (`remote` gives its error, if any),
   * then mark the row deleted (`update` gives the store's error, if any).
   * `called` is the API call made.
   */
  method Delete(db: Db, status: Status, remote: RemoteCall -> Option<EggError>, update: Option<DbError>, now: Time)
    returns (r: DeleteResult, called: Option<RemoteCall>)
    requires db.Valid()
    requires DeletableParses(status.row)
    modifies db
    ensures db.Valid()
    ensures var plan := PlanDelete(status.row);
      && (plan.Refuse? ==> r == Failed(plan.error) && called.None? && db.tables == old(db.tables))
      && (plan.Call? ==> called == Some(plan.call))
      && (plan.Call? && remote(plan.call).Some? ==>
            r == Failed(TwitterError(remote(plan.call).value)) && db.tables == old(db.tables))
      && (plan.Call? && remote(plan.call).None? && update.Some? ==>
            r == Failed(Database(update.value)) && db.tables == old(db.tables))
      && (plan.Call? && remote(plan.call).None? && update.None? ==>
            r == Deleted && db.tables == old(db.tables).(statuses := MarkDeleted(old(db.tables).statuses, status.id, now)))
  {
    called := None;
    if status.row.deletedAt.Some? {
      return Failed(AlreadyDone), called;
    }
    if status.row.source != Twitter {
      return Failed(WrongSource), called;
    }
    var id := ParseU64(status.row.sourceId).value;
    var call := if status.row.isRepost then Unretweet(id) else DestroyTweet(id);
    called := Some(call);
    var answer := remote(call);
    if answer.Some? {
      return Failed(DeleteErrorFromEgg(answer.value)), called;
    }
    if update.Some? {
      return Failed(DeleteErrorFromDb(update.value)), called;
    }
    MarkDeletedValid(db.tables, status.id, now);
    db.tables := db.tables.(statuses := MarkDeleted(db.tables.statuses, status.id, now));
    r := Deleted;
  }

  // ---------------------------------------------------------------------
  // Blocked accounts

  /** The ids are saved every 4000th id, and once more at the end. */
  const BLOCK_BATCH: nat := 4000

  /** The placeholder user rows of blocked ids. */
  function BlockRows(ids: seq<U64>, now: Time): (r: seq<NewTwitterUserID>)
    ensures |r| == |ids|
    ensures forall i | 0 <= i < |ids| :: r[i] == UserIdFromU64(ids[i], now)
  {
    seq(|ids|, i requires 0 <= i < |ids| => UserIdFromU64(ids[i], now))
  }

  /**
   * The pause after a saved batch, as written: `60 - elapsed` in `u64`,
   * which wraps (in a release build) once a batch took over a minute.
   */
  function BlockPauseAsWritten(elapsed: nat): nat {
    (60 - elapsed) % U64_LIMIT
  }

  /** A batch that took 61 seconds is followed by a pause of 2^64 - 1 seconds. */
  lemma BlockPauseAsWrittenOverflows()
    ensures BlockPauseAsWritten(61) == U64_LIMIT - 1
    ensures BlockPauseAsWritten(61) > 60
  {
  }

  /** The pause as intended: the rest of the minute, none once the minute is over. */
  function BlockPause(elapsed: nat): nat {
    if elapsed >= 60 then 0 else 60 - elapsed
  }

  /**
   * The intended pause keeps batches a minute apart and never exceeds a
   * minute, and agrees with the code as written wherever that does not wrap.
   */
  lemma BlockPauseBounded(elapsed: nat)
    ensures BlockPause(elapsed) <= 60
    ensures elapsed + BlockPause(elapsed) >= 60
    ensures elapsed <= 60 ==> BlockPause(elapsed) == BlockPauseAsWritten(elapsed)
  {
  }

  /** `a + b` ids in batches of 4000 make `a` batches plus what is left. */
  lemma BatchCount(batches: nat, rest: nat)
    requires rest < BLOCK_BATCH
    ensures (batches * BLOCK_BATCH + rest) / BLOCK_BATCH == batches
    ensures (batches * BLOCK_BATCH + rest) % BLOCK_BATCH == rest
  {
  }

  /** `n` whole batches that fit in the ids are fewer than the ids' batch count plus one. */
  lemma PausesWithin(n: nat, len: nat)
    requires n * BLOCK_BATCH <= len
    ensures n <= len / BLOCK_BATCH
  {
  }

  /** Past a minute (and within a u64), the pause as written wraps to more than a minute. */
  lemma BlockPauseStalls(elapsed: nat)
    requires 60 < elapsed < U64_LIMIT
    ensures BlockPauseAsWritten(elapsed) == U64_LIMIT + 60 - elapsed
    ensures BlockPauseAsWritten(elapsed) > 60
  {
  }

  /** Saving the ids up to `fetched` is saving those up to `saved`, then the rest. */
  lemma BlockRowsSplit(t: Tables, ids: seq<U64>, now: Time, saved: nat, fetched: nat)
    requires Below(t.users, t.nextUser)
    requires saved <= fetched <= |ids|
    ensures var (t1, n1) := InsertUserIds(t, BlockRows(ids[..saved], now));
      Below(t1.users, t1.nextUser)
      && var (t2, n2) := InsertUserIds(t1, BlockRows(ids[saved..fetched], now));
      InsertUserIds(t, BlockRows(ids[..fetched], now)) == (t2, n1 + n2)
  {
    assert BlockRows(ids[..fetched], now) == BlockRows(ids[..saved], now) + BlockRows(ids[saved..fetched], now);
    InsertUserIdsAppend(t, BlockRows(ids[..saved], now), BlockRows(ids[saved..fetched], now));
  }

  lemma BlockRowsPush(ids: seq<U64>, now: Time, a: nat, b: nat)
    requires a <= b < |ids|
    ensures BlockRows(ids[a..b + 1], now) == BlockRows(ids[a..b], now) + [UserIdFromU64(ids[b], now)]
  {
  }

  /** Placeholder rows are keyed by canonical numerals. */
  lemma BlockRowsCanonical(ids: seq<U64>, now: Time)
    ensures forall u <- BlockRows(ids, now) :: IsCanonicalU64(u.sourceId)
  {
    forall i | 0 <= i < |ids| ensures IsCanonicalU64(BlockRows(ids, now)[i].sourceId) {
      UserIdFromU64Fields(ids[i], now);
    }
  }

  /** The insert statement of `fetch_block_ids`, issued for a full batch and for the remainder. */
  method SaveBlockBag(db: Db, blockbag: seq<NewTwitterUserID>, ghost part: seq<U64>, now: Time) returns (n: nat)
    requires db.Valid()
    requires blockbag == BlockRows(part, now)
    modifies db
    ensures db.Valid()
    ensures (db.tables, n) == InsertUserIds(old(db.tables), blockbag)
  {
    BlockRowsCanonical(part, now);
    InsertUserIdsValid(db.tables, blockbag);
    var (t, inserted) := InsertUserIds(db.tables, blockbag);
    db.tables := t;
    n := inserted;
  }

  /** None of the first `n` batches took over a minute, so none of their pauses wrapped. */
  ghost predicate Calm(elapsed: nat -> U64, n: nat) {
    forall k | 0 <= k < n :: elapsed(k) <= 60
  }

  /**
   * Where `fetch_block_ids` stands after `fetched` ids: the first `saved`
   * (whole batches) are stored, the rest wait in `blockbag`, and a pause,
   * computed as written, followed each stored batch.
   */
  ghost predicate BlockProgress(t0: Tables, t: Tables, ids: seq<U64>, elapsed: nat -> U64, now: Time,
                                fetched: nat, inserted: nat, pauses: seq<nat>, blockbag: seq<NewTwitterUserID>, saved: nat)
  {
    && Below(t0.users, t0.nextUser)
    && saved <= fetched <= |ids|
    && saved == |pauses| * BLOCK_BATCH
    && fetched == saved + |blockbag|
    && |blockbag| < BLOCK_BATCH
    && blockbag == BlockRows(ids[saved..fetched], now)
    && (t, inserted) == InsertUserIds(t0, BlockRows(ids[..saved], now))
    && forall k | 0 <= k < |pauses| :: pauses[k] == BlockPauseAsWritten(elapsed(k))
  }

  /** Saving a full batch: the bag is stored and emptied, and the pause is computed. */
  method SaveFullBatch(db: Db, ids: seq<U64>, elapsed: nat -> U64, now: Time, ghost t0: Tables,
                       fetched: nat, inserted: nat, pauses: seq<nat>, blockbag: seq<NewTwitterUserID>, ghost saved: nat)
    returns (inserted': nat, pauses': seq<nat>)
    requires db.Valid() && Below(t0.users, t0.nextUser)
    requires saved == |pauses| * BLOCK_BATCH && fetched == saved + BLOCK_BATCH <= |ids|
    requires blockbag == BlockRows(ids[saved..fetched], now)
    requires (db.tables, inserted) == InsertUserIds(t0, BlockRows(ids[..saved], now))
    requires forall k | 0 <= k < |pauses| :: pauses[k] == BlockPauseAsWritten(elapsed(k))
    modifies db
    ensures db.Valid()
    ensures pauses' == pauses + [BlockPauseAsWritten(elapsed(|pauses|))]
    ensures BlockProgress(t0, db.tables, ids, elapsed, now, fetched, inserted', pauses', [], fetched)
  {
    BlockRowsSplit(t0, ids, now, saved, fetched);
    var n := SaveBlockBag(db, blockbag, ids[saved..fetched], now);
    inserted' := inserted + n;
    pauses' := pauses + [BlockPauseAsWritten(elapsed(|pauses|))];
    assert ids[fetched..fetched] == [];
  }

  /**
   * The closure `fetch_block_ids` runs for each id: push its placeholder,
   * and on every 4000th id save the bag, empty it and pause. When the batch
   * took over a minute, `60 - elapsed` underflows: a release build sleeps
   * about 2^64 seconds and a debug build panics, so the pass `stalled` and
   * stores nothing more.
   */
  method OnBlockId(db: Db, ids: seq<U64>, elapsed: nat -> U64, now: Time, ghost t0: Tables,
                   fetched: nat, inserted: nat, pauses: seq<nat>, blockbag: seq<NewTwitterUserID>, ghost saved: nat)
    returns (fetched': nat, inserted': nat, pauses': seq<nat>, blockbag': seq<NewTwitterUserID>, ghost saved': nat,
             stalled: bool)
    requires db.Valid() && fetched < |ids| && Calm(elapsed, |pauses|)
    requires BlockProgress(t0, db.tables, ids, elapsed, now, fetched, inserted, pauses, blockbag, saved)
    modifies db
    ensures db.Valid() && fetched' == fetched + 1
    ensures BlockProgress(t0, db.tables, ids, elapsed, now, fetched', inserted', pauses', blockbag', saved')
    ensures !stalled ==> Calm(elapsed, |pauses'|)
    ensures stalled ==>
      && 0 < |pauses'| && Calm(elapsed, |pauses'| - 1) && elapsed(|pauses'| - 1) > 60
      && blockbag' == [] && saved' == fetched'
  {
    BlockRowsPush(ids, now, saved, fetched);
    blockbag' := blockbag + [UserIdFromU64(ids[fetched], now)];
    fetched' := fetched + 1;
    inserted', pauses', saved' := inserted, pauses, saved;
    stalled := false;
    if |blockbag'| < BLOCK_BATCH {
      BatchCount(|pauses|, |blockbag'|);
    } else {
      BatchCount(|pauses| + 1, 0);
    }
    if fetched' % BLOCK_BATCH == 0 {
      inserted', pauses' := SaveFullBatch(db, ids, elapsed, now, t0, fetched', inserted, pauses, blockbag', saved);
      blockbag' := [];
      saved' := fetched';
      stalled := elapsed(|pauses|) > 60;
    }
  }

  /** The stream of block ids, up to its end or to the first pause that stalls. */
  method StreamBlockIds(db: Db, ids: seq<U64>, elapsed: nat -> U64, now: Time)
    returns (fetched: nat, inserted: nat, pauses: seq<nat>, blockbag: seq<NewTwitterUserID>, ghost saved: nat, stalled: bool)
    requires db.Valid()
    modifies db
    ensures db.Valid()
    ensures BlockProgress(old(db.tables), db.tables, ids, elapsed, now, fetched, inserted, pauses, blockbag, saved)
    ensures !stalled ==> fetched == |ids| && Calm(elapsed, |pauses|)
    ensures stalled ==>
      && 0 < |pauses| && Calm(elapsed, |pauses| - 1) && elapsed(|pauses| - 1) > 60
      && blockbag == [] && saved == fetched
  {
    fetched, inserted, pauses, blockbag, saved, stalled := 0, 0, [], [], 0, false;
    ghost var t0 := db.tables;
    while fetched < |ids| && !stalled
      invariant db.Valid()
      invariant BlockProgress(t0, db.tables, ids, elapsed, now, fetched, inserted, pauses, blockbag, saved)
      invariant !stalled ==> Calm(elapsed, |pauses|)
      invariant stalled ==>
        && 0 < |pauses| && Calm(elapsed, |pauses| - 1) && elapsed(|pauses| - 1) > 60
        && blockbag == [] && saved == fetched
      decreases |ids| - fetched
    {
      fetched, inserted, pauses, blockbag, saved, stalled :=
        OnBlockId(db, ids, elapsed, now, t0, fetched, inserted, pauses, blockbag, saved);
    }
  }

  /**
   * What `fetch_block_ids` comes to: it returns the ids streamed and the
   * rows inserted; or it stalls in the pause after a batch that took over a
   * minute, with the ids up to that batch stored; or the stream fails after
   * its last id and the source panics with the pending bag unsaved.
   */
  datatype BlockResult =
    | BlockIds(fetched: nat, inserted: nat)
    | Stalled(fetched: nat, inserted: nat, pause: nat)
    | BlocksFailed(fetched: nat, inserted: nat)

  /**
   * `fetch_block_ids`: store a placeholder user per blocked id, saving every
   * 4000th id and once at the end; `elapsed(k)` is how long batch `k` took.
   * The stream yields `ids` and then ends, or fails when `streamFails`.
   * The batches store exactly what one statement over the ids streamed
   * would; the pass returns exactly when no full batch took over a minute
   * and the stream did not fail.
   */
  method FetchBlockIds(db: Db, ids: seq<U64>, streamFails: bool, elapsed: nat -> U64, now: Time)
    returns (r: BlockResult, pauses: seq<nat>)
    requires db.Valid()
    modifies db
    ensures db.Valid()
    ensures forall k | 0 <= k < |pauses| :: pauses[k] == BlockPauseAsWritten(elapsed(k))
    ensures r.BlockIds? <==> Calm(elapsed, |ids| / BLOCK_BATCH) && !streamFails
    ensures r.BlocksFailed? <==> Calm(elapsed, |ids| / BLOCK_BATCH) && streamFails
    ensures r.BlocksFailed? ==>
      && r.fetched == |ids| && |pauses| == |ids| / BLOCK_BATCH
      && (db.tables, r.inserted) == InsertUserIds(old(db.tables), BlockRows(ids[..|pauses| * BLOCK_BATCH], now))
    ensures r.BlockIds? ==>
      && r.fetched == |ids| && |pauses| == |ids| / BLOCK_BATCH
      && (db.tables, r.inserted) == InsertUserIds(old(db.tables), BlockRows(ids, now))
    ensures r.Stalled? ==>
      && 0 < |pauses| && r.fetched == |pauses| * BLOCK_BATCH <= |ids|
      && Calm(elapsed, |pauses| - 1) && elapsed(|pauses| - 1) > 60
      && r.pause == pauses[|pauses| - 1] && r.pause > 60
      && (db.tables, r.inserted) == InsertUserIds(old(db.tables), BlockRows(ids[..r.fetched], now))
  {
    ghost var t0 := db.tables;
    var fetched, inserted, blockbag, stalled;
    ghost var saved;
    fetched, inserted, pauses, blockbag, saved, stalled := StreamBlockIds(db, ids, elapsed, now);
    if stalled {
      PausesWithin(|pauses|, |ids|);
      BlockPauseStalls(elapsed(|pauses| - 1));
      return Stalled(fetched, inserted, pauses[|pauses| - 1]), pauses;
    }
    BatchCount(|pauses|, |blockbag|);
    if streamFails {
      return BlocksFailed(fetched, inserted), pauses;
    }
    BlockRowsSplit(t0, ids, now, saved, fetched);
    assert ids[..fetched] == ids;
    var n := SaveBlockBag(db, blockbag, ids[saved..fetched], now);
    r := BlockIds(fetched, inserted + n);
  }
}
