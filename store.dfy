/**
 * The record store as the core sees it: four tables, each statement an
 * atomic transition on their contents. `Db` is the connection the
 * operations share; every operation reassigns its `tables`.
 */
module Store {
  import opened Wrappers
  import opened Text
  import opened Types
  import opened Table

  function StatusKey(s: NewStatus): string { s.sourceId }

  function EntityKey(e: EntityRow): string { e.entity.sourceId }

  function UserKey(u: NewTwitterUser): string { u.sourceId }

  /**
   * The contents of the store: statuses, entities and users keyed by
   * internal id, with the next id each table's serial column hands out, and
   * the deletion requests in insertion order.
   */
  datatype Tables = Tables(
    statuses: map<nat, NewStatus>,
    entities: map<nat, EntityRow>,
    users: map<nat, NewTwitterUser>,
    deletions: seq<NewDeletion>,
    nextStatus: nat,
    nextEntity: nat,
    nextUser: nat)

  /**
   * The store's invariant: `source_id` unique per table, ids below their
   * serial, and user rows keyed by the canonical rendering of a u64 (the only
   * way user rows are written).
   */
  ghost predicate ValidTables(t: Tables) {
    && UniqueKeys(t.statuses, StatusKey) && Below(t.statuses, t.nextStatus)
    && UniqueKeys(t.entities, EntityKey) && Below(t.entities, t.nextEntity)
    && UniqueKeys(t.users, UserKey) && Below(t.users, t.nextUser)
    && forall k | k in t.users :: IsCanonicalU64(t.users[k].sourceId)
  }

  /** `insert_into(statuses).values(bag).on_conflict(source_id).do_nothing()`, returning the new ids. */
  function InsertStatuses(t: Tables, bag: seq<NewStatus>): (Tables, seq<nat>)
    requires Below(t.statuses, t.nextStatus)
  {
    var r := InsertIgnore(t.statuses, t.nextStatus, bag, StatusKey);
    (t.(statuses := r.table, nextStatus := r.next), r.ids)
  }

  /** The same statement on `entities`; a new entity has no blob yet. Returns how many were inserted. */
  function InsertEntities(t: Tables, bag: seq<NewEntity>): (Tables, nat)
    requires Below(t.entities, t.nextEntity)
  {
    var rows := seq(|bag|, i requires 0 <= i < |bag| => EntityRow(bag[i], None));
    var r := InsertIgnore(t.entities, t.nextEntity, rows, EntityKey);
    (t.(entities := r.table, nextEntity := r.next), |r.ids|)
  }

  /**
   * A user row inserted from a `NewTwitterUserID`: the columns it does not
   * set take their column defaults, modelled as empty, false and zero.
   */
  function SlimUserRow(u: NewTwitterUserID): NewTwitterUser {
    NewTwitterUser(
      u.sourceId, u.screenName, u.name, None, None, None, false, false, false, false,
      0, 0, 0, 0, 0, u.createdAt, u.fetchedAt, None, None, false, None, None, None, None)
  }

  /** The same statement on `twitter_users`. Returns how many were inserted. */
  function InsertUserIds(t: Tables, bag: seq<NewTwitterUserID>): (Tables, nat)
    requires Below(t.users, t.nextUser)
  {
    var rows := seq(|bag|, i requires 0 <= i < |bag| => SlimUserRow(bag[i]));
    var r := InsertIgnore(t.users, t.nextUser, rows, UserKey);
    (t.(users := r.table, nextUser := r.next), |r.ids|)
  }

  /** Inserting statuses keeps the invariant and leaves every other table alone. */
  lemma InsertStatusesValid(t: Tables, bag: seq<NewStatus>)
    requires ValidTables(t)
    ensures var (t', ids) := InsertStatuses(t, bag);
      ValidTables(t') && t'.entities == t.entities && t'.users == t.users && t'.deletions == t.deletions
  {
    InsertIgnoreFrame(t.statuses, t.nextStatus, bag, StatusKey);
    InsertIgnoreUnique(t.statuses, t.nextStatus, bag, StatusKey);
  }

  lemma InsertEntitiesValid(t: Tables, bag: seq<NewEntity>)
    requires ValidTables(t)
    ensures var (t', n) := InsertEntities(t, bag);
      ValidTables(t') && t'.statuses == t.statuses && t'.users == t.users && t'.deletions == t.deletions
  {
    var rows := seq(|bag|, i requires 0 <= i < |bag| => EntityRow(bag[i], None));
    InsertIgnoreFrame(t.entities, t.nextEntity, rows, EntityKey);
    InsertIgnoreUnique(t.entities, t.nextEntity, rows, EntityKey);
  }

  /** Inserting ids given as canonical numerals keeps the invariant. */
  lemma InsertUserIdsValid(t: Tables, bag: seq<NewTwitterUserID>)
    requires ValidTables(t)
    requires forall u <- bag :: IsCanonicalU64(u.sourceId)
    ensures var (t', n) := InsertUserIds(t, bag);
      ValidTables(t') && t'.statuses == t.statuses && t'.entities == t.entities && t'.deletions == t.deletions
  {
    var rows := seq(|bag|, i requires 0 <= i < |bag| => SlimUserRow(bag[i]));
    InsertIgnoreFrame(t.users, t.nextUser, rows, UserKey);
    InsertIgnoreUnique(t.users, t.nextUser, rows, UserKey);
    InsertIgnoreNew(t.users, t.nextUser, rows, UserKey);
  }

  /**
   * Inserting ids in two statements stores what one statement over both
   * bags stores, and the two counts add up.
   */
  lemma InsertUserIdsAppend(t: Tables, a: seq<NewTwitterUserID>, b: seq<NewTwitterUserID>)
    requires Below(t.users, t.nextUser)
    ensures var (t1, n1) := InsertUserIds(t, a);
      Below(t1.users, t1.nextUser)
      && var (t2, n2) := InsertUserIds(t1, b);
      InsertUserIds(t, a + b) == (t2, n1 + n2)
  {
    var ra := seq(|a|, i requires 0 <= i < |a| => SlimUserRow(a[i]));
    var rb := seq(|b|, i requires 0 <= i < |b| => SlimUserRow(b[i]));
    var rab := seq(|a + b|, i requires 0 <= i < |a + b| => SlimUserRow((a + b)[i]));
    assert rab == ra + rb;
    InsertIgnoreAppend(t.users, t.nextUser, ra, rb, UserKey);
  }

  /**
   * Inserting statuses in two statements stores what one statement over
   * both bags stores, and returns the same ids.
   */
  lemma InsertStatusesAppend(t: Tables, a: seq<NewStatus>, b: seq<NewStatus>)
    requires Below(t.statuses, t.nextStatus)
    ensures var (t1, ids1) := InsertStatuses(t, a);
      Below(t1.statuses, t1.nextStatus)
      && var (t2, ids2) := InsertStatuses(t1, b);
      InsertStatuses(t, a + b) == (t2, ids1 + ids2)
  {
    InsertIgnoreAppend(t.statuses, t.nextStatus, a, b, StatusKey);
  }

  /** Rewriting a user row without changing its source id keeps the invariant. */
  lemma UpdateUserValid(t: Tables, id: nat, v: NewTwitterUser)
    requires ValidTables(t) && id in t.users && v.sourceId == t.users[id].sourceId
    ensures ValidTables(t.(users := t.users[id := v]))
  {
    UpdateSameKey(t.users, t.nextUser, id, v, UserKey);
    var users := t.users[id := v];
    forall k | k in users ensures IsCanonicalU64(users[k].sourceId) {
      assert users[k].sourceId == t.users[k].sourceId;
    }
  }

  /** The database connection shared by the operations. */
  class Db {
    var tables: Tables

    ghost predicate Valid()
      reads this
    {
      ValidTables(tables)
    }

    constructor (initial: Tables)
      requires ValidTables(initial)
      ensures Valid() && tables == initial
    {
      tables := initial;
    }
  }
}
