/**
 * A store table: rows keyed by internal id, with a unique `source_id`
 * column. `InsertIgnore` is the statement
 * `INSERT ... ON CONFLICT (source_id) DO NOTHING RETURNING ...` that every
 * bulk insert of the system issues: rows are taken in order, a row whose
 * source id is already present (in the table or earlier in the same
 * statement) is skipped. The serial column's default is drawn for every
 * proposed row before the conflict is seen, so the row at position `j` of the
 * bag would get `next + j`, and a skipped row still uses up its value.
 */
module Table {

  /** No two rows share a source id. */
  ghost predicate UniqueKeys<T>(t: map<nat, T>, key: T -> string) {
    forall a, b | a in t && b in t && key(t[a]) == key(t[b]) :: a == b
  }

  /** Every internal id in use is below the next one to be assigned. */
  predicate Below<T>(t: map<nat, T>, next: nat) {
    forall k | k in t :: k < next
  }

  predicate HasKey<T>(t: map<nat, T>, key: T -> string, sid: string) {
    exists k | k in t :: key(t[k]) == sid
  }

  /** The internal id of the row holding `sid`, when there is one. */
  ghost function IdOf<T>(t: map<nat, T>, key: T -> string, sid: string): (r: nat)
    requires HasKey(t, key, sid)
    ensures r in t && key(t[r]) == sid
  {
    var k :| k in t && key(t[k]) == sid; k
  }

  /** The table after the statement, the next free id, and the ids of the inserted rows in order. */
  datatype Inserted<T> = Inserted(table: map<nat, T>, next: nat, ids: seq<nat>)

  function InsertIgnore<T>(t: map<nat, T>, next: nat, bag: seq<T>, key: T -> string): Inserted<T>
    requires Below(t, next)
    decreases |bag|
  {
    if bag == [] then Inserted(t, next, [])
    else if HasKey(t, key, key(bag[0])) then InsertIgnore(t, next + 1, bag[1..], key)
    else
      var rest := InsertIgnore(t[next := bag[0]], next + 1, bag[1..], key);
      Inserted(rest.table, rest.next, [next] + rest.ids)
  }

  predicate Increasing(ids: seq<nat>) {
    forall i, j | 0 <= i < j < |ids| :: ids[i] < ids[j]
  }

  /**
   * Every proposed row uses up one serial value; the returned ids are fresh
   * and increasing, and the row under id `next + j` is the bag's row `j`.
   */
  lemma {:induction false} InsertIgnoreIds<T>(t: map<nat, T>, next: nat, bag: seq<T>, key: T -> string)
    requires Below(t, next)
    ensures var r := InsertIgnore(t, next, bag, key);
      && r.next == next + |bag| && |r.ids| <= |bag|
      && Increasing(r.ids)
      && (forall i | 0 <= i < |r.ids| ::
            next <= r.ids[i] < r.next && r.ids[i] in r.table && r.table[r.ids[i]] == bag[r.ids[i] - next])
    decreases |bag|
  {
    if bag == [] {
    } else if HasKey(t, key, key(bag[0])) {
      InsertIgnoreIds(t, next + 1, bag[1..], key);
    } else {
      var t' := t[next := bag[0]];
      InsertIgnoreIds(t', next + 1, bag[1..], key);
      InsertIgnoreKeeps(t', next + 1, bag[1..], key);
      var rest := InsertIgnore(t', next + 1, bag[1..], key);
      assert next in t' && rest.table[next] == bag[0];
    }
  }

  /** Existing rows are untouched, and every id stays below the new next id. */
  lemma {:induction false} InsertIgnoreKeeps<T>(t: map<nat, T>, next: nat, bag: seq<T>, key: T -> string)
    requires Below(t, next)
    ensures var r := InsertIgnore(t, next, bag, key);
      && Below(r.table, r.next)
      && (forall k | k in t :: k in r.table && r.table[k] == t[k])
    decreases |bag|
  {
    if bag == [] {
    } else if HasKey(t, key, key(bag[0])) {
      InsertIgnoreKeeps(t, next + 1, bag[1..], key);
    } else {
      InsertIgnoreKeeps(t[next := bag[0]], next + 1, bag[1..], key);
    }
  }

  /** The new rows are exactly those under the returned ids. */
  lemma {:induction false} InsertIgnoreKeys<T>(t: map<nat, T>, next: nat, bag: seq<T>, key: T -> string)
    requires Below(t, next)
    ensures var r := InsertIgnore(t, next, bag, key);
      r.table.Keys == t.Keys + (set x | x in r.ids)
    decreases |bag|
  {
    if bag == [] {
    } else if HasKey(t, key, key(bag[0])) {
      InsertIgnoreKeys(t, next + 1, bag[1..], key);
    } else {
      var t' := t[next := bag[0]];
      InsertIgnoreKeys(t', next + 1, bag[1..], key);
      var rest := InsertIgnore(t', next + 1, bag[1..], key);
      var r := InsertIgnore(t, next, bag, key);
      assert r.ids == [next] + rest.ids;
      assert (set x | x in r.ids) == {next} + (set x | x in rest.ids);
      assert t'.Keys == t.Keys + {next};
    }
  }

  /**
   * Existing rows are untouched and the new rows are exactly those under the
   * returned ids.
   */
  lemma InsertIgnoreFrame<T>(t: map<nat, T>, next: nat, bag: seq<T>, key: T -> string)
    requires Below(t, next)
    ensures var r := InsertIgnore(t, next, bag, key);
      && Below(r.table, r.next)
      && (forall k | k in t :: k in r.table && r.table[k] == t[k])
      && r.table.Keys == t.Keys + (set x | x in r.ids)
  {
    InsertIgnoreKeeps(t, next, bag, key);
    InsertIgnoreKeys(t, next, bag, key);
  }

  /** Each inserted row is a row of the bag whose source id was not in the table before. */
  lemma {:induction false} InsertIgnoreNew<T>(t: map<nat, T>, next: nat, bag: seq<T>, key: T -> string)
    requires Below(t, next)
    ensures var r := InsertIgnore(t, next, bag, key);
      forall id | id in r.ids :: id in r.table && r.table[id] in bag && !HasKey(t, key, key(r.table[id]))
    decreases |bag|
  {
    InsertIgnoreFrame(t, next, bag, key);
    if bag == [] {
    } else if HasKey(t, key, key(bag[0])) {
      var tail := bag[1..];
      InsertIgnoreNew(t, next + 1, tail, key);
      assert var r := InsertIgnore(t, next + 1, tail, key);
        forall id | id in r.ids :: id in r.table && r.table[id] in tail && !HasKey(t, key, key(r.table[id]));
      var r := InsertIgnore(t, next + 1, tail, key);
      assert InsertIgnore(t, next, bag, key) == r;
      forall id | id in r.ids
        ensures id in r.table && r.table[id] in bag && !HasKey(t, key, key(r.table[id]))
      {
        var j :| 0 <= j < |tail| && tail[j] == r.table[id];
        assert bag[j + 1] == tail[j];
      }
    } else {
      var t' := t[next := bag[0]];
      InsertIgnoreNew(t', next + 1, bag[1..], key);
      InsertIgnoreFrame(t', next + 1, bag[1..], key);
      var rest := InsertIgnore(t', next + 1, bag[1..], key);
      var r := InsertIgnore(t, next, bag, key);
      assert r.table == rest.table;
      forall id | id in r.ids
        ensures id in r.table && r.table[id] in bag && !HasKey(t, key, key(r.table[id]))
      {
        if id != next {
          assert id in rest.ids;
          var v := r.table[id];
          assert !HasKey(t', key, key(v));
          forall k | k in t ensures key(t[k]) != key(v) {
            assert k in t' && t'[k] == t[k];
          }
        } else {
          assert next in t' && rest.table[next] == t'[next];
        }
      }
    }
  }

  /** The statement keeps source ids unique. */
  lemma {:induction false} InsertIgnoreUnique<T>(t: map<nat, T>, next: nat, bag: seq<T>, key: T -> string)
    requires Below(t, next) && UniqueKeys(t, key)
    ensures UniqueKeys(InsertIgnore(t, next, bag, key).table, key)
    decreases |bag|
  {
    if bag == [] {
    } else if HasKey(t, key, key(bag[0])) {
      InsertIgnoreUnique(t, next + 1, bag[1..], key);
    } else {
      var t' := t[next := bag[0]];
      assert forall k | k in t :: key(t[k]) != key(bag[0]);
      InsertIgnoreUnique(t', next + 1, bag[1..], key);
    }
  }

  /** Replacing a row by one with the same source id keeps source ids unique and ids below the serial. */
  lemma UpdateSameKey<T>(t: map<nat, T>, next: nat, k: nat, v: T, key: T -> string)
    requires UniqueKeys(t, key) && Below(t, next) && k in t && key(v) == key(t[k])
    ensures UniqueKeys(t[k := v], key) && Below(t[k := v], next)
  {
    var t' := t[k := v];
    forall a, b | a in t' && b in t' && key(t'[a]) == key(t'[b]) ensures a == b {
      assert key(t'[a]) == key(t[a]) && key(t'[b]) == key(t[b]);
    }
  }

  /** Afterwards every source id of the bag is present. */
  lemma {:induction false} InsertIgnoreCovers<T>(t: map<nat, T>, next: nat, bag: seq<T>, key: T -> string)
    requires Below(t, next)
    ensures forall b | b in bag :: HasKey(InsertIgnore(t, next, bag, key).table, key, key(b))
    decreases |bag|
  {
    if bag != [] {
      var r := InsertIgnore(t, next, bag, key);
      if HasKey(t, key, key(bag[0])) {
        InsertIgnoreCovers(t, next + 1, bag[1..], key);
        InsertIgnoreFrame(t, next + 1, bag[1..], key);
        var k := IdOf(t, key, key(bag[0]));
        assert k in r.table && key(r.table[k]) == key(bag[0]);
      } else {
        var t' := t[next := bag[0]];
        InsertIgnoreCovers(t', next + 1, bag[1..], key);
        InsertIgnoreFrame(t', next + 1, bag[1..], key);
        assert next in r.table && r.table[next] == bag[0];
      }
      forall b | b in bag ensures HasKey(r.table, key, key(b)) {
        if b != bag[0] { assert b in bag[1..]; }
      }
    }
  }

  /**
   * A bag whose source ids are all present inserts nothing and changes no
   * row; only the serial moves on, by one value per proposed row.
   */
  lemma {:induction false} InsertIgnoreNothingNew<T>(t: map<nat, T>, next: nat, bag: seq<T>, key: T -> string)
    requires Below(t, next)
    requires forall b | b in bag :: HasKey(t, key, key(b))
    ensures InsertIgnore(t, next, bag, key) == Inserted(t, next + |bag|, [])
    decreases |bag|
  {
    if bag != [] {
      assert bag[0] in bag;
      InsertIgnoreNothingNew(t, next + 1, bag[1..], key);
    }
  }

  /** Running the same statement twice: the second run inserts nothing and changes no row. */
  lemma InsertIgnoreIdempotent<T>(t: map<nat, T>, next: nat, bag: seq<T>, key: T -> string)
    requires Below(t, next)
    ensures var r := InsertIgnore(t, next, bag, key);
      Below(r.table, r.next) && InsertIgnore(r.table, r.next, bag, key) == Inserted(r.table, r.next + |bag|, [])
  {
    InsertIgnoreFrame(t, next, bag, key);
    InsertIgnoreCovers(t, next, bag, key);
    var r := InsertIgnore(t, next, bag, key);
    InsertIgnoreNothingNew(r.table, r.next, bag, key);
  }

  /**
   * Inserting `a + b` in one statement is inserting `a`, then `b`: a load cut
   * into batches stores the same rows and returns the same ids.
   */
  lemma {:induction false} InsertIgnoreAppend<T>(t: map<nat, T>, next: nat, a: seq<T>, b: seq<T>, key: T -> string)
    requires Below(t, next)
    ensures var r1 := InsertIgnore(t, next, a, key);
      Below(r1.table, r1.next)
      && var r2 := InsertIgnore(r1.table, r1.next, b, key);
      InsertIgnore(t, next, a + b, key) == Inserted(r2.table, r2.next, r1.ids + r2.ids)
    decreases |a|
  {
    InsertIgnoreFrame(t, next, a, key);
    if a != [] {
      assert (a + b)[0] == a[0] && (a + b)[1..] == a[1..] + b;
      if HasKey(t, key, key(a[0])) {
        InsertIgnoreAppend(t, next + 1, a[1..], b, key);
      } else {
        InsertIgnoreAppend(t[next := a[0]], next + 1, a[1..], b, key);
        var r1 := InsertIgnore(t[next := a[0]], next + 1, a[1..], key);
        var r2 := InsertIgnore(r1.table, r1.next, b, key);
        assert [next] + (r1.ids + r2.ids) == ([next] + r1.ids) + r2.ids;
      }
    } else {
      assert a + b == b;
    }
  }
}
