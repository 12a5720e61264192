/**
 * The hydration reconciler (src/bin/omelette-twitter-hydrate.rs): slim
 * statuses and slim users (rows known only by id) are looked up remotely
 * in batches of 100 and reconciled with what the lookup returns.
 *
 * The remote lookups are oracles over the set of ids asked for; `None` is
 * a failed call. Time is a parameter, and durations are whole nanoseconds.
 */
module Hydrate {
  import opened Wrappers
  import opened Text
  import opened Seqs
  import opened Types
  import opened Table
  import opened Store
  import opened Inserts
  import opened Twitter

  /** Ids are looked up at most 100 at a time. */
  const BATCH_SIZE: nat := 100

  /** The least time a batch takes (`Duration::from_secs(5)`), in nanoseconds. */
  const MIN_BATCH: nat := 5_000_000_000

  /** What to hydrate, as (users, tweets): with neither flag, both. */
  function Targets(users: bool, tweets: bool): (r: (bool, bool))
    ensures r.0 || r.1
    ensures users || tweets ==> r == (users, tweets)
    ensures !users && !tweets ==> r == (true, true)
  {
    if !users && !tweets then (true, true) else (users, tweets)
  }

  datatype Estimate = Estimate(hours: nat, minutes: nat)

  /**
   * `hydrate_est`'s arithmetic: five seconds per hundred ids, in whole hours
   * and the remaining minutes, rounded half down and never below one.
   */
  function EstimateOf(n: nat): Estimate {
    var seconds := n * 5 / 100;
    var hours := seconds / 3600;
    var rest := seconds % 3600;
    var minutes := rest / 60;
    Estimate(hours, if rest % 60 > 30 then minutes + 1 else if minutes == 0 then 1 else minutes)
  }

  /**
   * The minutes shown are between 1 and 60, the hours are the whole hours,
   * and the estimate is within half a minute below and one minute above the
   * time the ids take.
   */
  lemma EstimateBounds(n: nat)
    ensures var e := EstimateOf(n);
      var seconds := n * 5 / 100;
      && 1 <= e.minutes <= 60
      && e.hours == seconds / 3600
      && seconds - 30 <= e.hours * 3600 + e.minutes * 60 <= seconds + 60
  {
    var seconds := n * 5 / 100;
    var rest := seconds % 3600;
    assert seconds == seconds / 3600 * 3600 + rest;
    assert rest == rest / 60 * 60 + rest % 60;
  }

  /** `hydrate_est`: "M minutes" under an hour, "H hours M minutes" otherwise. */
  function HydrateEst(n: nat): (r: string)
    ensures var e := EstimateOf(n);
      e.hours == 0 ==> r == DecimalString(e.minutes) + " minutes"
    ensures var e := EstimateOf(n);
      e.hours > 0 ==> r == DecimalString(e.hours) + " hours " + DecimalString(e.minutes) + " minutes"
  {
    var e := EstimateOf(n);
    if e.hours == 0 then DecimalString(e.minutes) + " minutes"
    else DecimalString(e.hours) + " hours " + DecimalString(e.minutes) + " minutes"
  }

  /**
   * `min.checked_sub(elapsed)`: the batch sleeps for what is left of five
   * seconds, and not at all once they are spent.
   */
  function RateLimitPause(elapsed: nat): (r: Option<nat>)
    ensures r.Some? <==> elapsed <= MIN_BATCH
    ensures r.Some? ==> r.value <= MIN_BATCH && elapsed + r.value == MIN_BATCH
  {
    if elapsed <= MIN_BATCH then Some(MIN_BATCH - elapsed) else None
  }

  /** A batch either failed its lookup (and returned at once) or was stored, then paused. */
  datatype BatchResult = LookupFailed | Stored(pause: Option<nat>)

  /** The internal ids in `batch` whose rows exist, in batch order (`filter(id.eq_any(batch))`). */
  function Present<T>(t: map<nat, T>, batch: seq<nat>): (r: seq<nat>)
    ensures forall id <- r :: id in t && id in batch
    ensures forall id <- batch :: id in t ==> id in r
  {
    if batch == [] then []
    else if batch[0] in t then [batch[0]] + Present(t, batch[1..])
    else Present(t, batch[1..])
  }

  predicate Distinct(ids: seq<nat>) {
    forall i, j | 0 <= i < j < |ids| :: ids[i] != ids[j]
  }

  lemma {:induction false} PresentDistinct<T>(t: map<nat, T>, batch: seq<nat>)
    requires Distinct(batch)
    ensures Distinct(Present(t, batch))
  {
    if batch != [] {
      PresentDistinct(t, batch[1..]);
      assert batch[0] !in batch[1..];
    }
  }

  /** The numeric source ids of the rows of `batch`, parsed with `expect`. */
  function SourceIdsOf<T>(t: map<nat, T>, key: T -> string, batch: seq<nat>): set<nat> {
    set id | id in batch && id in t && ParseU64(key(t[id])).Some? :: ParseU64(key(t[id])).value
  }

  /** Every row of the batch has a numeric source id (else the source panics). */
  predicate BatchParses<T>(t: map<nat, T>, key: T -> string, batch: seq<nat>) {
    forall id <- batch :: id in t ==> ParseU64(key(t[id])).Some?
  }

  // ---------------------------------------------------------------------
  // Users

  /**
   * `update(..).set(changes)` with a `NewTwitterUser`: its `None` fields
   * leave their columns as they were.
   */
  function ApplyUserChanges(row: NewTwitterUser, changes: NewTwitterUser): NewTwitterUser {
    changes.(
      description := changes.description.Or(row.description),
      location := changes.location.Or(row.location),
      url := changes.url.Or(row.url),
      blockedAt := changes.blockedAt.Or(row.blockedAt),
      mutedAt := changes.mutedAt.Or(row.mutedAt),
      uiLanguage := changes.uiLanguage.Or(row.uiLanguage),
      uiTimezone := changes.uiTimezone.Or(row.uiTimezone),
      withheldIn := changes.withheldIn.Or(row.withheldIn),
      withheldScope := changes.withheldScope.Or(row.withheldScope))
  }

  /** A user found upstream: fresh profile data, with the row's block and mute times carried over. */
  function RefreshUser(row: NewTwitterUser, u: EggUser, now: Time): NewTwitterUser {
    ApplyUserChanges(row, UserFromEgg(u, now).(blockedAt := row.blockedAt, mutedAt := row.mutedAt))
  }

  /** A user not found upstream is flagged missing as of now. */
  function MarkMissing(row: NewTwitterUser, now: Time): NewTwitterUser {
    row.(missing := true, fetchedAt := now)
  }

  /**
   * A refreshed user keeps its block and mute times, is not missing, takes
   * every plain field from upstream, and keeps an optional field only when
   * upstream has none.
   */
  lemma RefreshUserFields(row: NewTwitterUser, u: EggUser, now: Time)
    ensures var r := RefreshUser(row, u, now);
      var withheld := if u.withheldInCountries.Some? then Some(Join(u.withheldInCountries.value, ", ")) else None;
      r == NewTwitterUser(
        sourceId := DecimalString(u.id),
        screenName := u.screenName,
        name := u.name,
        description := if u.description.Some? then u.description else row.description,
        location := if u.location.Some? then u.location else row.location,
        url := if u.url.Some? then u.url else row.url,
        isVerified := u.verified,
        isProtected := u.protected,
        isCoauthored := u.contributorsEnabled,
        isTranslator := u.isTranslator,
        statusesCount := u.statusesCount,
        followingCount := u.friendsCount,
        followersCount := u.followersCount,
        likesCount := u.favouritesCount,
        listedCount := u.listedCount,
        createdAt := u.createdAt,
        fetchedAt := now,
        blockedAt := row.blockedAt,
        mutedAt := row.mutedAt,
        missing := false,
        uiLanguage := if u.lang.Some? then u.lang else row.uiLanguage,
        uiTimezone := if u.timeZone.Some? then u.timeZone else row.uiTimezone,
        withheldIn := if withheld.Some? then withheld else row.withheldIn,
        withheldScope := if u.withheldScope.Some? then u.withheldScope else row.withheldScope)
  {
  }

  /** The users returned, by id; a later duplicate replaces an earlier one (`HashMap::insert`). */
  function UserMap(users: seq<EggUser>): map<nat, EggUser> {
    if users == [] then map[]
    else
      var last := users[|users| - 1];
      UserMap(users[..|users| - 1])[last.id := last]
  }

  /** The map holds exactly the ids returned, each under its own id. */
  lemma {:induction false} UserMapMeaning(users: seq<EggUser>)
    ensures forall k :: k in UserMap(users) <==> exists u <- users :: u.id == k
    ensures forall k | k in UserMap(users) :: UserMap(users)[k].id == k && UserMap(users)[k] in users
  {
    if users != [] {
      var init := users[..|users| - 1];
      UserMapMeaning(init);
      assert users == init + [users[|users| - 1]];
      assert forall u <- init :: u in users;
    }
  }

  /** Building the map, one `insert` per returned user. */
  method BuildUserMap(users: seq<EggUser>) returns (m: map<nat, EggUser>)
    ensures m == UserMap(users)
  {
    m := map[];
    var i := 0;
    while i < |users|
      invariant 0 <= i <= |users|
      invariant m == UserMap(users[..i])
    {
      assert users[..i + 1][..i] == users[..i];
      m := m[users[i].id := users[i]];
      i := i + 1;
    }
    assert users[..i] == users;
  }

  /** A user row reconciled: refreshed when its id was returned, flagged missing otherwise. */
  function ReconciledUser(row: NewTwitterUser, found: map<nat, EggUser>, now: Time): NewTwitterUser
    requires ParseU64(row.sourceId).Some?
  {
    var sid := ParseU64(row.sourceId).value;
    if sid in found then RefreshUser(row, found[sid], now) else MarkMissing(row, now)
  }

  function HydrateUserRow(t: Tables, id: nat, found: map<nat, EggUser>, now: Time): Tables
    requires id in t.users && ParseU64(t.users[id].sourceId).Some?
  {
    t.(users := t.users[id := ReconciledUser(t.users[id], found, now)])
  }

  /** The rows of a batch reconciled in turn. */
  function HydrateUserRows(t: Tables, ids: seq<nat>, found: map<nat, EggUser>, now: Time): Tables
    requires Distinct(ids)
    requires forall id <- ids :: id in t.users && ParseU64(t.users[id].sourceId).Some?
    decreases |ids|
  {
    if ids == [] then t
    else
      var t1 := HydrateUserRow(t, ids[0], found, now);
      DistinctTail(ids);
      HydrateUserRows(t1, ids[1..], found, now)
  }

  /** A found user's id is the key it is filed under. */
  ghost predicate FilesOwnIds(found: map<nat, EggUser>) {
    forall k | k in found :: found[k].id == k
  }

  /**
   * Reconciling a user keeps the store valid (the refreshed row keeps its
   * source id) and touches that row alone.
   */
  lemma HydrateUserRowValid(t: Tables, id: nat, found: map<nat, EggUser>, now: Time)
    requires ValidTables(t) && id in t.users && FilesOwnIds(found)
    ensures ParseU64(t.users[id].sourceId).Some?
    ensures var t' := HydrateUserRow(t, id, found, now);
      && ValidTables(t')
      && t' == t.(users := t'.users)
      && t'.users.Keys == t.users.Keys
      && (forall k | k in t.users && k != id :: t'.users[k] == t.users[k])
  {
    var row := t.users[id];
    assert IsCanonicalU64(row.sourceId);
    var sid := ParseU64(row.sourceId).value;
    var v := ReconciledUser(row, found, now);
    if sid in found {
      assert found[sid].id == sid;
    }
    assert v.sourceId == row.sourceId;
    UpdateUserValid(t, id, v);
  }

  /** Every user row is a row whose source id parses. */
  lemma UserIdsParse(t: Tables, ids: seq<nat>)
    requires ValidTables(t)
    requires forall id <- ids :: id in t.users
    ensures forall id <- ids :: ParseU64(t.users[id].sourceId).Some?
  {
    forall id <- ids ensures ParseU64(t.users[id].sourceId).Some? {
      assert IsCanonicalU64(t.users[id].sourceId);
    }
  }

  /** Reconciling a batch keeps the store valid and changes only the batch's user rows. */
  lemma {:induction false} HydrateUserRowsValid(t: Tables, ids: seq<nat>, found: map<nat, EggUser>, now: Time)
    requires ValidTables(t) && FilesOwnIds(found) && Distinct(ids)
    requires forall id <- ids :: id in t.users
    ensures forall id <- ids :: ParseU64(t.users[id].sourceId).Some?
    ensures var t' := HydrateUserRows(t, ids, found, now);
      && ValidTables(t')
      && t' == t.(users := t'.users)
      && t'.users.Keys == t.users.Keys
      && (forall k | k in t.users && k !in ids :: t'.users[k] == t.users[k])
    decreases |ids|
  {
    UserIdsParse(t, ids);
    if ids != [] {
      var t1 := HydrateUserRow(t, ids[0], found, now);
      HydrateUserRowValid(t, ids[0], found, now);
      DistinctTail(ids);
      HydrateUserRowsValid(t1, ids[1..], found, now);
    }
  }

  /** Each row of the batch ends refreshed from its upstream user, or flagged missing when none came back. */
  lemma {:induction false} HydrateUserRowsResult(t: Tables, ids: seq<nat>, found: map<nat, EggUser>, now: Time, k: nat)
    requires Distinct(ids)
    requires forall id <- ids :: id in t.users && ParseU64(t.users[id].sourceId).Some?
    requires k in ids
    ensures var r := HydrateUserRows(t, ids, found, now);
      k in r.users && r.users[k] == ReconciledUser(t.users[k], found, now)
    decreases |ids|
  {
    var t1 := HydrateUserRow(t, ids[0], found, now);
    DistinctTail(ids);
    if k != ids[0] {
      HydrateUserRowsResult(t1, ids[1..], found, now, k);
    } else {
      assert k !in ids[1..];
      HydrateUserRowsKeep(t1, ids[1..], found, now, k);
    }
  }

  /** Rows outside the batch are left as they were. */
  lemma {:induction false} HydrateUserRowsKeep(t: Tables, ids: seq<nat>, found: map<nat, EggUser>, now: Time, k: nat)
    requires Distinct(ids)
    requires forall id <- ids :: id in t.users && ParseU64(t.users[id].sourceId).Some?
    requires k in t.users && k !in ids
    ensures var r := HydrateUserRows(t, ids, found, now);
      k in r.users && r.users[k] == t.users[k]
    decreases |ids|
  {
    if ids != [] {
      var t1 := HydrateUserRow(t, ids[0], found, now);
      DistinctTail(ids);
      HydrateUserRowsKeep(t1, ids[1..], found, now, k);
    }
  }

  /** The first row of a batch reconciled: the rest of the batch is still ready. */
  lemma HydrateUserRowsStep(t: Tables, ids: seq<nat>, found: map<nat, EggUser>, now: Time)
    requires ValidTables(t) && FilesOwnIds(found) && Distinct(ids) && ids != []
    requires forall id <- ids :: id in t.users
    ensures forall id <- ids :: ParseU64(t.users[id].sourceId).Some?
    ensures var t1 := HydrateUserRow(t, ids[0], found, now);
      && ValidTables(t1) && Distinct(ids[1..])
      && (forall id <- ids[1..] :: id in t1.users && ParseU64(t1.users[id].sourceId).Some?)
      && HydrateUserRows(t, ids, found, now) == HydrateUserRows(t1, ids[1..], found, now)
  {
    UserIdsParse(t, ids);
    DistinctTail(ids);
    HydrateUserRowValid(t, ids[0], found, now);
    var t1 := HydrateUserRow(t, ids[0], found, now);
    UserIdsParse(t1, ids[1..]);
  }

  /** `hydrate_batch_users`' reconciliation loop. */
  method HydrateUsers(db: Db, ids: seq<nat>, found: map<nat, EggUser>, now: Time)
    requires db.Valid() && FilesOwnIds(found) && Distinct(ids)
    requires forall id <- ids :: id in db.tables.users
    modifies db
    ensures db.Valid()
    ensures forall id <- ids :: ParseU64(old(db.tables).users[id].sourceId).Some?
    ensures db.tables == HydrateUserRows(old(db.tables), ids, found, now)
  {
    UserIdsParse(db.tables, ids);
    var i := 0;
    while i < |ids|
      invariant 0 <= i <= |ids|
      invariant ValidTables(db.tables) && Distinct(ids[i..])
      invariant forall id <- ids[i..] :: id in db.tables.users
      invariant HydrateUserRows(old(db.tables), ids, found, now) == HydrateUserRows(db.tables, ids[i..], found, now)
    {
      assert ids[i..][0] == ids[i] && ids[i..][1..] == ids[i + 1..];
      HydrateUserRowsStep(db.tables, ids[i..], found, now);
      HydrateUser(db, ids[i], found, now);
      i := i + 1;
    }
  }

  /** One row of the loop: refreshed from the user returned under its source id, or flagged missing. */
  method HydrateUser(db: Db, id: nat, found: map<nat, EggUser>, now: Time)
    requires id in db.tables.users && ParseU64(db.tables.users[id].sourceId).Some?
    modifies db
    ensures db.tables == HydrateUserRow(old(db.tables), id, found, now)
  {
    var row := db.tables.users[id];
    var sid := ParseU64(row.sourceId).value;
    if sid in found {
      db.tables := db.tables.(users := db.tables.users[id := RefreshUser(row, found[sid], now)]);
    } else {
      db.tables := db.tables.(users := db.tables.users[id := MarkMissing(row, now)]);
    }
  }

  /**
   * `hydrate_batch_users`: the source ids of the batch are looked up; a
   * failed lookup returns at once; otherwise the users returned are filed
   * by id, every row of the batch reconciled, and the batch paused.
   */
  method HydrateUserBatch(db: Db, batch: seq<nat>, lookup: set<nat> -> Option<seq<EggUser>>, now: Time, elapsed: nat)
    returns (r: BatchResult)
    requires db.Valid() && Distinct(batch)
    modifies db
    ensures db.Valid()
    ensures var answer := lookup(SourceIdsOf(old(db.tables).users, UserKey, batch));
      && (answer.None? ==> r == LookupFailed && db.tables == old(db.tables))
      && (answer.Some? ==>
            && r == Stored(RateLimitPause(elapsed))
            && var rows := Present(old(db.tables).users, batch);
            && Distinct(rows)
            && (forall id <- rows :: ParseU64(old(db.tables).users[id].sourceId).Some?)
            && db.tables == HydrateUserRows(old(db.tables), rows, UserMap(answer.value), now))
  {
    var sourceIds := SourceIdsOf(db.tables.users, UserKey, batch);
    var answer := lookup(sourceIds);
    if answer.None? {
      return LookupFailed;
    }
    var found := BuildUserMap(answer.value);
    UserMapMeaning(answer.value);
    var rows := Present(db.tables.users, batch);
    PresentDistinct(db.tables.users, batch);
    HydrateUsers(db, rows, found, now);
    r := Stored(RateLimitPause(elapsed));
  }

  // ---------------------------------------------------------------------
  // Statuses

  /** A found tweet as the row it writes: converted, and marked as fetched through hydration. */
  function Rehydrated(tweet: Tweet, now: Time): NewStatus
    requires Convertible(tweet)
  {
    StatusFromTweet(tweet, now).(fetchedVia := Some(TwitterArchive))
  }

  /** The media of a found tweet, as entities (none without `extended_entities`). */
  function TweetEntities(tweet: Tweet, now: Time): seq<NewEntity>
    requires Convertible(tweet)
  {
    if tweet.extendedMedia.Some? then EntitiesFromMedia(tweet.extendedMedia.value, now) else []
  }

  /** A tweet not found upstream: its row loses its author and is marked deleted now. */
  function MarkGone(row: NewStatus, now: Time): NewStatus {
    row.(sourceAuthor := "", deletedAt := Some(now))
  }

  /**
   * The row a hydrated tweet's entities belong to: the slim row itself when
   * the source ids agree, otherwise the row holding the original tweet
   * (the one already there, or the one the insert creates).
   */
  ghost function Owner(t: Tables, id: nat, insert: NewStatus): nat
    requires id in t.statuses
  {
    if t.statuses[id].sourceId == insert.sourceId then id
    else if HasKey(t.statuses, StatusKey, insert.sourceId) then IdOf(t.statuses, StatusKey, insert.sourceId)
    else t.nextStatus
  }

  /**
   * One slim row reconciled with what the lookup returned for it: not found
   * marks it gone; a tweet under the same source id overwrites it; a
   * retweet (whose row is the original's) inserts the original, ignoring a
   * conflict, and deletes the slim row; then the tweet's media are inserted,
   * owned by the row that now holds the tweet.
   */
  ghost function HydrateTweetRow(t: Tables, id: nat, found: Option<Tweet>, now: Time): Tables
    requires Below(t.statuses, t.nextStatus) && Below(t.entities, t.nextEntity)
    requires id in t.statuses && (found.Some? ==> Convertible(found.value))
  {
    if found.None? then t.(statuses := t.statuses[id := MarkGone(t.statuses[id], now)])
    else
      var insert := Rehydrated(found.value, now);
      InsertEntities(PlaceStatus(t, id, insert), Owned(TweetEntities(found.value, now), Owner(t, id, insert))).0
  }

  /**
   * The status half of a found row: the same source id overwrites the row;
   * another (a retweet's original) is inserted unless stored, and the slim
   * row deleted.
   */
  ghost function PlaceStatus(t: Tables, id: nat, insert: NewStatus): Tables
    requires Below(t.statuses, t.nextStatus) && id in t.statuses
  {
    if t.statuses[id].sourceId == insert.sourceId then t.(statuses := t.statuses[id := insert])
    else
      var t0 := InsertStatuses(t, [insert]).0;
      t0.(statuses := t0.statuses - {id})
  }

  /** After placing, the owner row holds the inserted source id. */
  lemma PlaceStatusOwner(t: Tables, id: nat, insert: NewStatus)
    requires Below(t.statuses, t.nextStatus) && id in t.statuses
    ensures var t1 := PlaceStatus(t, id, insert);
      var owner := Owner(t, id, insert);
      && Below(t1.entities, t1.nextEntity) == Below(t.entities, t.nextEntity)
      && owner in t1.statuses && t1.statuses[owner].sourceId == insert.sourceId
      && (t.statuses[id].sourceId == insert.sourceId ==> owner == id && t1.statuses[id] == insert)
      && (t.statuses[id].sourceId != insert.sourceId ==> id !in t1.statuses)
      && (t.statuses[id].sourceId != insert.sourceId && !HasKey(t.statuses, StatusKey, insert.sourceId) ==>
            t1.statuses[owner] == insert)
  {
    if t.statuses[id].sourceId != insert.sourceId {
      InsertOneStatus(t, insert);
      var t0 := InsertStatuses(t, [insert]).0;
      assert Owner(t, id, insert) in t0.statuses && t0.statuses[Owner(t, id, insert)].sourceId == insert.sourceId;
      assert Owner(t, id, insert) != id;
    }
  }

  /**
   * Inserting one status: when its source id is stored, no row but a used-up
   * serial value; else a new row under the next id.
   */
  lemma InsertOneStatus(t: Tables, s: NewStatus)
    requires Below(t.statuses, t.nextStatus)
    ensures InsertStatuses(t, [s]) ==
      if HasKey(t.statuses, StatusKey, s.sourceId) then (t.(nextStatus := t.nextStatus + 1), [])
      else (t.(statuses := t.statuses[t.nextStatus := s], nextStatus := t.nextStatus + 1), [t.nextStatus])
  {
    assert [s][0] == s && [s][1..] == [];
    var n := t.nextStatus;
    if !HasKey(t.statuses, StatusKey, s.sourceId) {
      assert InsertIgnore(t.statuses[n := s], n + 1, [], StatusKey) == Inserted(t.statuses[n := s], n + 1, []);
      assert InsertIgnore(t.statuses, n, [s], StatusKey) == Inserted(t.statuses[n := s], n + 1, [n] + []);
      assert [n] + [] == [n];
    } else {
      assert InsertIgnore(t.statuses, n, [s], StatusKey) == InsertIgnore(t.statuses, n + 1, [], StatusKey);
    }
  }

  /** Removing a row keeps the invariant. */
  lemma RemoveStatusValid(t: Tables, id: nat)
    requires ValidTables(t)
    ensures ValidTables(t.(statuses := t.statuses - {id}))
  {
    var st := t.statuses - {id};
    forall a, b | a in st && b in st && StatusKey(st[a]) == StatusKey(st[b]) ensures a == b {
      assert st[a] == t.statuses[a] && st[b] == t.statuses[b];
    }
  }

  /**
   * Reconciling a row keeps the store valid, changes no user and no
   * deletion request, leaves every other existing status as it was, and
   * never brings back an id that was free.
   */
  lemma HydrateTweetRowValid(t: Tables, id: nat, found: Option<Tweet>, now: Time)
    requires ValidTables(t) && id in t.statuses && (found.Some? ==> Convertible(found.value))
    ensures var r := HydrateTweetRow(t, id, found, now);
      && ValidTables(r)
      && r.users == t.users && r.deletions == t.deletions
      && t.nextStatus <= r.nextStatus
      && (forall k | k in t.statuses && k != id :: k in r.statuses && r.statuses[k] == t.statuses[k])
      && (forall k | k !in t.statuses && k < t.nextStatus :: k !in r.statuses)
  {
    if found.None? {
      UpdateSameKey(t.statuses, t.nextStatus, id, MarkGone(t.statuses[id], now), StatusKey);
    } else {
      var insert := Rehydrated(found.value, now);
      var t1;
      if t.statuses[id].sourceId == insert.sourceId {
        UpdateSameKey(t.statuses, t.nextStatus, id, insert, StatusKey);
        t1 := t.(statuses := t.statuses[id := insert]);
      } else {
        InsertOneStatus(t, insert);
        InsertStatusesValid(t, [insert]);
        var t0 := InsertStatuses(t, [insert]).0;
        RemoveStatusValid(t0, id);
        t1 := t0.(statuses := t0.statuses - {id});
      }
      InsertEntitiesValid(t1, Owned(TweetEntities(found.value, now), Owner(t, id, insert)));
    }
  }

  /** A tweet not found upstream leaves its row in place, authorless and deleted as of now, and stores no entity. */
  lemma HydrateTweetGone(t: Tables, id: nat, now: Time)
    requires ValidTables(t) && id in t.statuses
    ensures var r := HydrateTweetRow(t, id, None, now);
      && id in r.statuses && r.statuses[id].sourceAuthor == "" && r.statuses[id].deletedAt == Some(now)
      && r.statuses[id] == t.statuses[id].(sourceAuthor := "", deletedAt := Some(now))
      && r.entities == t.entities
  {
  }

  /**
   * A found tweet: its converted row is stored, marked as fetched through
   * hydration, under the slim row's id when the source ids agree and in
   * place of the slim row otherwise; the row holding it (its owner) is
   * present; and every media entity of the tweet is stored.
   */
  lemma HydrateTweetFound(t: Tables, id: nat, tweet: Tweet, now: Time)
    requires ValidTables(t) && id in t.statuses && Convertible(tweet)
    ensures var r := HydrateTweetRow(t, id, Some(tweet), now);
      var insert := Rehydrated(tweet, now);
      var owner := Owner(t, id, insert);
      && insert.fetchedVia == Some(TwitterArchive)
      && ParseU64(insert.sourceId) == Some(Original(tweet).id)
      && owner in r.statuses && r.statuses[owner].sourceId == insert.sourceId
      && (t.statuses[id].sourceId == insert.sourceId ==> owner == id && r.statuses[id] == insert)
      && (t.statuses[id].sourceId != insert.sourceId ==> id !in r.statuses)
      && (t.statuses[id].sourceId != insert.sourceId && !HasKey(t.statuses, StatusKey, insert.sourceId) ==>
            r.statuses[owner] == insert)
      && (forall e <- Owned(TweetEntities(tweet, now), owner) :: HasKey(r.entities, EntityKey, e.sourceId))
  {
    var insert := Rehydrated(tweet, now);
    StatusFromTweetIdentity(tweet, now);
    PlaceStatusOwner(t, id, insert);
    var t1 := PlaceStatus(t, id, insert);
    var bag := Owned(TweetEntities(tweet, now), Owner(t, id, insert));
    InsertEntitiesCovers(t1, bag);
    InsertEntitiesFrame(t1, bag);
  }

  /** Afterwards every entity of the bag is stored. */
  lemma InsertEntitiesCovers(t: Tables, bag: seq<NewEntity>)
    requires Below(t.entities, t.nextEntity)
    ensures forall e <- bag :: HasKey(InsertEntities(t, bag).0.entities, EntityKey, e.sourceId)
  {
    var rows := seq(|bag|, i requires 0 <= i < |bag| => EntityRow(bag[i], None));
    InsertIgnoreCovers(t.entities, t.nextEntity, rows, EntityKey);
    forall e <- bag ensures HasKey(InsertEntities(t, bag).0.entities, EntityKey, e.sourceId) {
      var i :| 0 <= i < |bag| && bag[i] == e;
      assert rows[i] in rows && EntityKey(rows[i]) == e.sourceId;
    }
  }

  /** Inserting entities touches no other table. */
  lemma InsertEntitiesFrame(t: Tables, bag: seq<NewEntity>)
    requires Below(t.entities, t.nextEntity)
    ensures var t' := InsertEntities(t, bag).0;
      t' == t.(entities := t'.entities, nextEntity := t'.nextEntity)
  {
  }

  /** Every tweet the lookup returned converts. */
  ghost predicate FoundConvertible(found: map<nat, Option<Tweet>>) {
    forall k | k in found && found[k].Some? :: Convertible(found[k].value)
  }

  /** The row's source id parses and the lookup answered for it (else the source panics). */
  predicate Listed(row: NewStatus, found: map<nat, Option<Tweet>>) {
    ParseU64(row.sourceId).Some? && ParseU64(row.sourceId).value in found
  }

  /** What the lookup returned for the row. */
  function Found(row: NewStatus, found: map<nat, Option<Tweet>>): Option<Tweet>
    requires Listed(row, found)
  {
    found[ParseU64(row.sourceId).value]
  }

  /** The rows to reconcile: distinct, stored, and answered for. */
  ghost predicate TweetsReady(t: Tables, ids: seq<nat>, found: map<nat, Option<Tweet>>) {
    && Distinct(ids) && FoundConvertible(found)
    && forall id <- ids :: id in t.statuses && Listed(t.statuses[id], found)
  }

  lemma DistinctTail(ids: seq<nat>)
    requires Distinct(ids) && ids != []
    ensures Distinct(ids[1..])
    ensures forall id <- ids[1..] :: id in ids && id != ids[0]
  {
    forall id <- ids[1..] ensures id in ids && id != ids[0] {
      var j :| 1 <= j < |ids| && ids[j] == id;
    }
  }

  /** The rows of a batch reconciled in turn. */
  ghost function HydrateTweetRows(t: Tables, ids: seq<nat>, found: map<nat, Option<Tweet>>, now: Time): Tables
    requires ValidTables(t) && TweetsReady(t, ids, found)
    decreases |ids|
  {
    if ids == [] then t
    else
      var f := Found(t.statuses[ids[0]], found);
      var t1 := HydrateTweetRow(t, ids[0], f, now);
      HydrateTweetRowValid(t, ids[0], f, now);
      DistinctTail(ids);
      HydrateTweetRows(t1, ids[1..], found, now)
  }

  /**
   * Reconciling a batch keeps the store valid, changes no user and no
   * deletion request, leaves every status outside the batch as it was, and
   * never brings back an id that was free.
   */
  lemma {:induction false} HydrateTweetRowsValid(t: Tables, ids: seq<nat>, found: map<nat, Option<Tweet>>, now: Time)
    requires ValidTables(t) && TweetsReady(t, ids, found)
    ensures var r := HydrateTweetRows(t, ids, found, now);
      && ValidTables(r)
      && r.users == t.users && r.deletions == t.deletions
      && t.nextStatus <= r.nextStatus
      && (forall k | k in t.statuses && k !in ids :: k in r.statuses && r.statuses[k] == t.statuses[k])
      && (forall k | k !in t.statuses && k < t.nextStatus :: k !in r.statuses)
    decreases |ids|
  {
    if ids != [] {
      var f := Found(t.statuses[ids[0]], found);
      var t1 := HydrateTweetRow(t, ids[0], f, now);
      HydrateTweetRowValid(t, ids[0], f, now);
      DistinctTail(ids);
      HydrateTweetRowsValid(t1, ids[1..], found, now);
    }
  }

  /**
   * Each row of the batch ends as its own reconciliation left it: marked
   * gone when the tweet was not found, overwritten by the tweet when the
   * source ids agree, deleted when the tweet is a retweet stored under its
   * original.
   */
  lemma {:induction false} HydrateTweetRowsResult(t: Tables, ids: seq<nat>, found: map<nat, Option<Tweet>>, now: Time, k: nat)
    requires ValidTables(t) && TweetsReady(t, ids, found) && k in ids
    ensures var r := HydrateTweetRows(t, ids, found, now);
      var row := t.statuses[k];
      var f := Found(row, found);
      && (f.None? ==> k in r.statuses && r.statuses[k] == MarkGone(row, now))
      && (f.Some? && Rehydrated(f.value, now).sourceId == row.sourceId ==>
            k in r.statuses && r.statuses[k] == Rehydrated(f.value, now))
      && (f.Some? && Rehydrated(f.value, now).sourceId != row.sourceId ==> k !in r.statuses)
    decreases |ids|
  {
    var f0 := Found(t.statuses[ids[0]], found);
    var t1 := HydrateTweetRow(t, ids[0], f0, now);
    HydrateTweetRowValid(t, ids[0], f0, now);
    DistinctTail(ids);
    if k != ids[0] {
      HydrateTweetRowsResult(t1, ids[1..], found, now, k);
    } else {
      assert k !in ids[1..];
      HydrateTweetRowsValid(t1, ids[1..], found, now);
      if f0.Some? {
        HydrateTweetFound(t, k, f0.value, now);
      }
    }
  }

  /** One iteration of `hydrate_batch_tweets`' loop, in its transaction. */
  method HydrateTweet(db: Db, id: nat, found: Option<Tweet>, now: Time)
    requires db.Valid() && id in db.tables.statuses && (found.Some? ==> Convertible(found.value))
    modifies db
    ensures db.tables == HydrateTweetRow(old(db.tables), id, found, now)
  {
    var row := db.tables.statuses[id];
    if found.None? {
      db.tables := db.tables.(statuses := db.tables.statuses[id := MarkGone(row, now)]);
      return;
    }
    var tweet := found.value;
    var insert := Rehydrated(tweet, now);
    var entitybag := TweetEntities(tweet, now);
    var newId;
    if row.sourceId == insert.sourceId {
      db.tables := db.tables.(statuses := db.tables.statuses[id := insert]);
      newId := id;
    } else {
      // Hydrating to a retweet: insert the original, then drop the slim row.
      InsertOneStatus(db.tables, insert);
      var (t0, nids) := InsertStatuses(db.tables, [insert]);
      if nids != [] {
        newId := nids[0];
      } else {
        newId :| newId in t0.statuses && t0.statuses[newId].sourceId == insert.sourceId;
        assert newId == IdOf(db.tables.statuses, StatusKey, insert.sourceId);
      }
      db.tables := t0.(statuses := t0.statuses - {id});
    }
    db.tables := InsertEntities(db.tables, Owned(entitybag, newId)).0;
  }

  /** `hydrate_batch_tweets`' reconciliation loop. */
  method HydrateTweets(db: Db, ids: seq<nat>, found: map<nat, Option<Tweet>>, now: Time)
    requires db.Valid() && TweetsReady(db.tables, ids, found)
    modifies db
    ensures db.Valid()
    ensures db.tables == HydrateTweetRows(old(db.tables), ids, found, now)
  {
    var i := 0;
    while i < |ids|
      invariant 0 <= i <= |ids|
      invariant ValidTables(db.tables) && TweetsReady(db.tables, ids[i..], found)
      invariant HydrateTweetRows(old(db.tables), ids, found, now) == HydrateTweetRows(db.tables, ids[i..], found, now)
    {
      var id := ids[i];
      assert ids[i..][0] == id && ids[i..][1..] == ids[i + 1..];
      DistinctTail(ids[i..]);
      var f := Found(db.tables.statuses[id], found);
      HydrateTweetRowValid(db.tables, id, f, now);
      HydrateTweet(db, id, f, now);
      i := i + 1;
    }
    HydrateTweetRowsValid(old(db.tables), ids, found, now);
  }

  /** The lookup answers for every id asked, with tweets that convert (else the source panics). */
  ghost predicate LookupSound(lookup: set<nat> -> Option<map<nat, Option<Tweet>>>) {
    forall ids: set<nat> :: lookup(ids).Some? ==> ids <= lookup(ids).value.Keys && FoundConvertible(lookup(ids).value)
  }

  /**
   * `hydrate_batch_tweets`: the source ids of the batch are looked up; a
   * failed lookup returns at once; otherwise every row of the batch is
   * reconciled, and the batch paused.
   */
  method HydrateTweetBatch(db: Db, batch: seq<nat>, lookup: set<nat> -> Option<map<nat, Option<Tweet>>>,
                           now: Time, elapsed: nat)
    returns (r: BatchResult)
    requires db.Valid() && Distinct(batch) && BatchParses(db.tables.statuses, StatusKey, batch)
    requires LookupSound(lookup)
    modifies db
    ensures db.Valid()
    ensures var answer := lookup(SourceIdsOf(old(db.tables).statuses, StatusKey, batch));
      && (answer.None? ==> r == LookupFailed && db.tables == old(db.tables))
      && (answer.Some? ==>
            && r == Stored(RateLimitPause(elapsed))
            && var rows := Present(old(db.tables).statuses, batch);
            && TweetsReady(old(db.tables), rows, answer.value)
            && db.tables == HydrateTweetRows(old(db.tables), rows, answer.value, now))
  {
    var sourceIds := SourceIdsOf(db.tables.statuses, StatusKey, batch);
    var answer := lookup(sourceIds);
    if answer.None? {
      return LookupFailed;
    }
    var found := answer.value;
    var rows := Present(db.tables.statuses, batch);
    PresentDistinct(db.tables.statuses, batch);
    forall id <- rows ensures Listed(db.tables.statuses[id], found) {
      assert ParseU64(StatusKey(db.tables.statuses[id])).value in sourceIds;
    }
    HydrateTweets(db, rows, found, now);
    r := Stored(RateLimitPause(elapsed));
  }

  // ---------------------------------------------------------------------
  // Batches and the whole run

  lemma DistinctSplit(a: seq<nat>, b: seq<nat>)
    requires Distinct(a + b)
    ensures Distinct(a) && Distinct(b) && forall x <- a :: x !in b
  {
    forall i, j | 0 <= i < j < |a| ensures a[i] != a[j] {
      assert (a + b)[i] == a[i] && (a + b)[j] == a[j];
    }
    forall i, j | 0 <= i < j < |b| ensures b[i] != b[j] {
      assert (a + b)[|a| + i] == b[i] && (a + b)[|a| + j] == b[j];
    }
    forall i, j | 0 <= i < |a| && 0 <= j < |b| ensures a[i] != b[j] {
      assert (a + b)[i] == a[i] && (a + b)[|a| + j] == b[j];
    }
  }

  /** Once the lookup answered, the rows of the batch are ready to reconcile. */
  lemma BatchReady(t: Tables, batch: seq<nat>, found: map<nat, Option<Tweet>>)
    requires Distinct(batch) && BatchParses(t.statuses, StatusKey, batch) && FoundConvertible(found)
    requires SourceIdsOf(t.statuses, StatusKey, batch) <= found.Keys
    ensures TweetsReady(t, Present(t.statuses, batch), found)
  {
    PresentDistinct(t.statuses, batch);
    forall id <- Present(t.statuses, batch) ensures Listed(t.statuses[id], found) {
      assert ParseU64(StatusKey(t.statuses[id])).value in SourceIdsOf(t.statuses, StatusKey, batch);
    }
  }

  /** One batch of statuses: nothing when the lookup fails, else every stored row of it reconciled. */
  ghost function HydrateTweetStep(t: Tables, batch: seq<nat>, lookup: set<nat> -> Option<map<nat, Option<Tweet>>>,
                                  now: Time): Tables
    requires ValidTables(t) && Distinct(batch) && BatchParses(t.statuses, StatusKey, batch) && LookupSound(lookup)
  {
    var answer := lookup(SourceIdsOf(t.statuses, StatusKey, batch));
    if answer.None? then t
    else
      BatchReady(t, batch, answer.value);
      HydrateTweetRows(t, Present(t.statuses, batch), answer.value, now)
  }

  /** The slim statuses: from Twitter, with the slim marker as author. */
  predicate IsSlimStatus(s: NewStatus) {
    s.source == Twitter && s.sourceAuthor == SLIM_MARK
  }

  /** The ids the slim-status query returns: each slim status once, in some order. */
  ghost predicate SlimStatusIds(t: Tables, ids: seq<nat>) {
    && Distinct(ids)
    && forall k :: k in ids <==> k in t.statuses && IsSlimStatus(t.statuses[k])
  }

  /** A rehydrated row is no longer slim: its author is empty or ends in ` (ID)`. */
  lemma RehydratedNotSlim(tweet: Tweet, now: Time)
    requires Convertible(tweet)
    ensures !IsSlimStatus(Rehydrated(tweet, now))
  {
    var a := Rehydrated(tweet, now).sourceAuthor;
    StatusFromTweetAuthor(tweet, now);
    if Original(tweet).user.Some? {
      var suffix := AuthorSuffix(Original(tweet).user.value.id);
      assert a[|a| - 1] == suffix[|suffix| - 1] == ')';
      assert SLIM_MARK[|SLIM_MARK| - 1] == '~';
    }
  }

  /**
   * After a batch is reconciled, none of its rows that remain is slim: a
   * second run does not fetch them again.
   */
  lemma HydratedNotSlim(t: Tables, ids: seq<nat>, found: map<nat, Option<Tweet>>, now: Time, k: nat)
    requires ValidTables(t) && TweetsReady(t, ids, found) && k in ids
    ensures var r := HydrateTweetRows(t, ids, found, now);
      k in r.statuses ==> !IsSlimStatus(r.statuses[k])
  {
    HydrateTweetRowsResult(t, ids, found, now, k);
    var f := Found(t.statuses[k], found);
    if f.Some? {
      RehydratedNotSlim(f.value, now);
    }
  }

  /** Statuses still to hydrate, batch by batch: distinct, stored, with numeric source ids. */
  ghost predicate TweetChunksReady(t: Tables, chunks: seq<seq<nat>>) {
    && Distinct(Flatten(chunks))
    && forall id <- Flatten(chunks) :: id in t.statuses && ParseU64(t.statuses[id].sourceId).Some?
  }

  /**
   * After one batch, the rest of the batches are still ready: their rows
   * were not touched.
   */
  lemma TweetChunksStep(t: Tables, chunks: seq<seq<nat>>, lookup: set<nat> -> Option<map<nat, Option<Tweet>>>,
                        now: Time)
    requires ValidTables(t) && LookupSound(lookup) && TweetChunksReady(t, chunks) && chunks != []
    ensures Distinct(chunks[0]) && BatchParses(t.statuses, StatusKey, chunks[0])
    ensures var r := HydrateTweetStep(t, chunks[0], lookup, now);
      ValidTables(r) && r.users == t.users && r.deletions == t.deletions && TweetChunksReady(r, chunks[1..])
  {
    assert Flatten(chunks) == chunks[0] + Flatten(chunks[1..]);
    DistinctSplit(chunks[0], Flatten(chunks[1..]));
    var answer := lookup(SourceIdsOf(t.statuses, StatusKey, chunks[0]));
    if answer.Some? {
      BatchReady(t, chunks[0], answer.value);
      HydrateTweetRowsValid(t, Present(t.statuses, chunks[0]), answer.value, now);
    }
  }

  /** The statuses hydrated batch after batch. */
  ghost function HydrateTweetChunks(t: Tables, chunks: seq<seq<nat>>, lookup: set<nat> -> Option<map<nat, Option<Tweet>>>,
                                    now: Time): (r: Tables)
    requires ValidTables(t) && LookupSound(lookup) && TweetChunksReady(t, chunks)
    ensures ValidTables(r) && r.users == t.users && r.deletions == t.deletions
    decreases |chunks|
  {
    if chunks == [] then t
    else
      TweetChunksStep(t, chunks, lookup, now);
      HydrateTweetChunks(HydrateTweetStep(t, chunks[0], lookup, now), chunks[1..], lookup, now)
  }

  /** One batch of users: nothing when the lookup fails, else every stored row of it reconciled. */
  function HydrateUserStep(t: Tables, batch: seq<nat>, lookup: set<nat> -> Option<seq<EggUser>>, now: Time): Tables
    requires Distinct(batch)
    requires forall id <- batch :: id in t.users ==> ParseU64(t.users[id].sourceId).Some?
  {
    var answer := lookup(SourceIdsOf(t.users, UserKey, batch));
    if answer.None? then t
    else
      PresentDistinct(t.users, batch);
      HydrateUserRows(t, Present(t.users, batch), UserMap(answer.value), now)
  }

  /** A batch of users keeps the store valid and changes the user table alone, keeping its ids. */
  lemma HydrateUserStepValid(t: Tables, batch: seq<nat>, lookup: set<nat> -> Option<seq<EggUser>>, now: Time)
    requires ValidTables(t) && Distinct(batch)
    ensures forall id <- batch :: id in t.users ==> ParseU64(t.users[id].sourceId).Some?
    ensures var r := HydrateUserStep(t, batch, lookup, now);
      ValidTables(r) && r == t.(users := r.users) && r.users.Keys == t.users.Keys
  {
    UserIdsParse(t, Present(t.users, batch));
    var answer := lookup(SourceIdsOf(t.users, UserKey, batch));
    if answer.Some? {
      UserMapMeaning(answer.value);
      PresentDistinct(t.users, batch);
      HydrateUserRowsValid(t, Present(t.users, batch), UserMap(answer.value), now);
    }
  }

  /** The users hydrated batch after batch. */
  ghost function HydrateUserChunks(t: Tables, chunks: seq<seq<nat>>, lookup: set<nat> -> Option<seq<EggUser>>,
                                   now: Time): (r: Tables)
    requires ValidTables(t) && Distinct(Flatten(chunks))
    ensures ValidTables(r) && r == t.(users := r.users) && r.users.Keys == t.users.Keys
    decreases |chunks|
  {
    if chunks == [] then t
    else
      assert Flatten(chunks) == chunks[0] + Flatten(chunks[1..]);
      DistinctSplit(chunks[0], Flatten(chunks[1..]));
      HydrateUserStepValid(t, chunks[0], lookup, now);
      HydrateUserChunks(HydrateUserStep(t, chunks[0], lookup, now), chunks[1..], lookup, now)
  }

  /** The slim users: the slim marker as screen name. */
  predicate IsSlimUser(u: NewTwitterUser) {
    u.screenName == SLIM_MARK
  }

  /** The ids the slim-user query returns: each slim user once, in some order. */
  ghost predicate SlimUserIds(t: Tables, ids: seq<nat>) {
    && Distinct(ids)
    && forall k :: k in ids <==> k in t.users && IsSlimUser(t.users[k])
  }

  /** A run over slim status ids: their batches of 100 hydrated in turn. */
  ghost function HydrateTweetRun(t: Tables, ids: seq<nat>, lookup: set<nat> -> Option<map<nat, Option<Tweet>>>,
                                 now: Time): (r: Tables)
    requires ValidTables(t) && LookupSound(lookup)
    requires Distinct(ids) && forall id <- ids :: id in t.statuses && ParseU64(t.statuses[id].sourceId).Some?
    ensures ValidTables(r) && r.users == t.users && r.deletions == t.deletions
  {
    ChunksFlatten(ids, BATCH_SIZE);
    HydrateTweetChunks(t, Chunks(ids, BATCH_SIZE), lookup, now)
  }

  /** A run over slim user ids: their batches of 100 hydrated in turn. */
  ghost function HydrateUserRun(t: Tables, ids: seq<nat>, lookup: set<nat> -> Option<seq<EggUser>>, now: Time): (r: Tables)
    requires ValidTables(t) && Distinct(ids)
    ensures ValidTables(r) && r == t.(users := r.users) && r.users.Keys == t.users.Keys
  {
    ChunksFlatten(ids, BATCH_SIZE);
    HydrateUserChunks(t, Chunks(ids, BATCH_SIZE), lookup, now)
  }

  /**
   * The statuses half of `main`: the slim ids in batches of 100, each
   * hydrated in turn; `elapsed(i)` is how long batch `i` took before its pause.
   */
  method HydrateAllTweets(db: Db, ids: seq<nat>, lookup: set<nat> -> Option<map<nat, Option<Tweet>>>,
                          now: Time, elapsed: nat -> nat)
    returns (results: seq<BatchResult>)
    requires db.Valid() && LookupSound(lookup)
    requires Distinct(ids) && forall id <- ids :: id in db.tables.statuses && ParseU64(db.tables.statuses[id].sourceId).Some?
    modifies db
    ensures db.Valid()
    ensures db.tables == HydrateTweetRun(old(db.tables), ids, lookup, now)
    ensures |results| == |Chunks(ids, BATCH_SIZE)|
    ensures forall i | 0 <= i < |results| :: results[i] in {LookupFailed, Stored(RateLimitPause(elapsed(i)))}
  {
    var chunks := Chunks(ids, BATCH_SIZE);
    ChunksFlatten(ids, BATCH_SIZE);
    results := [];
    var i := 0;
    while i < |chunks|
      invariant 0 <= i <= |chunks| && |results| == i
      invariant ValidTables(db.tables) && TweetChunksReady(db.tables, chunks[i..])
      invariant HydrateTweetChunks(old(db.tables), chunks, lookup, now) == HydrateTweetChunks(db.tables, chunks[i..], lookup, now)
      invariant forall j | 0 <= j < i :: results[j] in {LookupFailed, Stored(RateLimitPause(elapsed(j)))}
    {
      assert chunks[i..][1..] == chunks[i + 1..];
      var r := HydrateTweetChunk(db, chunks[i..], lookup, now, elapsed(i));
      results := results + [r];
      i := i + 1;
    }
  }

  /** One pass of the batch loop: the first batch hydrated, leaving the run over the rest. */
  method HydrateTweetChunk(db: Db, chunks: seq<seq<nat>>, lookup: set<nat> -> Option<map<nat, Option<Tweet>>>,
                           now: Time, elapsed: nat)
    returns (r: BatchResult)
    requires db.Valid() && LookupSound(lookup) && TweetChunksReady(db.tables, chunks) && chunks != []
    modifies db
    ensures db.Valid() && TweetChunksReady(db.tables, chunks[1..])
    ensures HydrateTweetChunks(old(db.tables), chunks, lookup, now) == HydrateTweetChunks(db.tables, chunks[1..], lookup, now)
    ensures r in {LookupFailed, Stored(RateLimitPause(elapsed))}
  {
    TweetChunksStep(db.tables, chunks, lookup, now);
    r := HydrateTweetBatch(db, chunks[0], lookup, now, elapsed);
  }

  /** The users half of `main`: the slim ids in batches of 100, each hydrated in turn. */
  method HydrateAllUsers(db: Db, ids: seq<nat>, lookup: set<nat> -> Option<seq<EggUser>>, now: Time, elapsed: nat -> nat)
    returns (results: seq<BatchResult>)
    requires db.Valid() && Distinct(ids)
    modifies db
    ensures db.Valid()
    ensures db.tables == HydrateUserRun(old(db.tables), ids, lookup, now)
    ensures |results| == |Chunks(ids, BATCH_SIZE)|
    ensures forall i | 0 <= i < |results| :: results[i] in {LookupFailed, Stored(RateLimitPause(elapsed(i)))}
  {
    var chunks := Chunks(ids, BATCH_SIZE);
    ChunksFlatten(ids, BATCH_SIZE);
    results := [];
    var i := 0;
    while i < |chunks|
      invariant 0 <= i <= |chunks| && |results| == i
      invariant ValidTables(db.tables) && Distinct(Flatten(chunks[i..]))
      invariant HydrateUserChunks(old(db.tables), chunks, lookup, now) == HydrateUserChunks(db.tables, chunks[i..], lookup, now)
      invariant forall j | 0 <= j < i :: results[j] in {LookupFailed, Stored(RateLimitPause(elapsed(j)))}
    {
      assert chunks[i..][1..] == chunks[i + 1..];
      var r := HydrateUserChunk(db, chunks[i..], lookup, now, elapsed(i));
      results := results + [r];
      i := i + 1;
    }
  }

  /** One pass of the users' batch loop: the first batch hydrated, leaving the run over the rest. */
  method HydrateUserChunk(db: Db, chunks: seq<seq<nat>>, lookup: set<nat> -> Option<seq<EggUser>>, now: Time, elapsed: nat)
    returns (r: BatchResult)
    requires db.Valid() && Distinct(Flatten(chunks)) && chunks != []
    modifies db
    ensures db.Valid() && Distinct(Flatten(chunks[1..]))
    ensures HydrateUserChunks(old(db.tables), chunks, lookup, now) == HydrateUserChunks(db.tables, chunks[1..], lookup, now)
    ensures r in {LookupFailed, Stored(RateLimitPause(elapsed))}
  {
    assert Flatten(chunks) == chunks[0] + Flatten(chunks[1..]);
    DistinctSplit(chunks[0], Flatten(chunks[1..]));
    HydrateUserStepValid(db.tables, chunks[0], lookup, now);
    r := HydrateUserBatch(db, chunks[0], lookup, now, elapsed);
  }

  /**
   * `main` after connecting: the chosen targets, statuses first, then
   * users. Hydrating statuses leaves the user table alone, so the slim
   * users are the same before and after it.
   */
  method Hydrate(db: Db, users: bool, tweets: bool,
                 tweetIds: seq<nat>, tweetLookup: set<nat> -> Option<map<nat, Option<Tweet>>>, tweetElapsed: nat -> nat,
                 userIds: seq<nat>, userLookup: set<nat> -> Option<seq<EggUser>>, userElapsed: nat -> nat,
                 now: Time)
    returns (tweetResults: seq<BatchResult>, userResults: seq<BatchResult>)
    requires db.Valid() && LookupSound(tweetLookup)
    requires SlimStatusIds(db.tables, tweetIds) && SlimUserIds(db.tables, userIds)
    requires forall id <- tweetIds :: ParseU64(db.tables.statuses[id].sourceId).Some?
    modifies db
    ensures db.Valid()
    ensures var (doUsers, doTweets) := Targets(users, tweets);
      && |tweetResults| == (if doTweets then |Chunks(tweetIds, BATCH_SIZE)| else 0)
      && |userResults| == (if doUsers then |Chunks(userIds, BATCH_SIZE)| else 0)
    ensures var (doUsers, doTweets) := Targets(users, tweets);
      var t1 := if doTweets then HydrateTweetRun(old(db.tables), tweetIds, tweetLookup, now) else old(db.tables);
      && SlimUserIds(t1, userIds)
      && db.tables == if doUsers then HydrateUserRun(t1, userIds, userLookup, now) else t1
  {
    var (doUsers, doTweets) := Targets(users, tweets);
    tweetResults, userResults := [], [];
    if doTweets && tweetIds != [] {
      tweetResults := HydrateAllTweets(db, tweetIds, tweetLookup, now, tweetElapsed);
    }
    if doUsers && userIds != [] {
      userResults := HydrateAllUsers(db, userIds, userLookup, now, userElapsed);
    }
  }
}
