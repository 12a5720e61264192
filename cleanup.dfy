/**
 * The cleanup pass (src/bin/omelette-cleanup.rs): statuses of the account
 * that carry a `#cleanup` hashtag are turned into deletion requests, one
 * thread per tagged status (the status and, through `in_reply_to_status`,
 * each of the account's own statuses it replies to), all due after a delay
 * read from the tag.
 *
 * The two queries are parameters: `requests` is the rows the first query
 * returns and `pick` answers the parent lookup; `RequestsFaithful` and
 * `ParentQueryFaithful` say what the store must return for them. The
 * hashtag extractor is the parameter `hasTag`.
 */
module Cleanup {
  import opened Wrappers
  import opened Text
  import opened Types
  import opened Store
  import opened Inserts
  import opened Seqs

  const TAG: string := "#cleanup"

  /** The default delay in seconds: fifteen minutes. */
  const DEFAULT_DELAY: nat := 900

  /** The characters `\s` matches: Unicode White_Space. */
  predicate IsSpace(c: char) {
    || '\t' <= c <= '\r' || c == ' ' || c == '\U{0085}' || c == '\U{00A0}' || c == '\U{1680}'
    || '\U{2000}' <= c <= '\U{200A}' || c == '\U{2028}' || c == '\U{2029}' || c == '\U{202F}'
    || c == '\U{205F}' || c == '\U{3000}'
  }

  predicate IsUnit(c: char) {
    c == 's' || c == 'm' || c == 'h' || c == 'd'
  }

  /** The length of the longest prefix of `s` made of characters satisfying `p` (a greedy `+` or `*`). */
  function Span(s: string, p: char -> bool): (n: nat)
    ensures n <= |s|
    ensures forall i | 0 <= i < n :: p(s[i])
    ensures n < |s| ==> !p(s[n])
  {
    if s == [] || !p(s[0]) then 0 else 1 + Span(s[1..], p)
  }

  lemma {:induction false} SpanOf(a: string, b: string, p: char -> bool)
    requires forall i | 0 <= i < |a| :: p(a[i])
    requires b != [] ==> !p(b[0])
    ensures Span(a + b, p) == |a|
  {
    if a != [] {
      assert (a + b)[0] == a[0];
      assert (a + b)[1..] == a[1..] + b;
      SpanOf(a[1..], b, p);
    } else {
      assert a + b == b;
    }
  }

  /** The two capture groups of `(?:\s+(\d+)(s|m|h|d))?`: the amount and the unit. */
  datatype Duration = Duration(amount: string, unit: char)

  /**
   * The first match of `#cleanup(?:\s+(\d+)(s|m|h|d))?`: `None` when the text
   * has no `#cleanup`, `Some(None)` when the optional duration did not match
   * after the first one, `Some(Some(d))` with its two groups otherwise. Both
   * `+` are greedy and a shorter run can never be followed by what comes
   * next, so the groups are the maximal runs.
   */
  function FirstMatch(text: string): (m: Option<Option<Duration>>)
    ensures m.Some? <==> Contains(text, TAG)
    ensures m.Some? && m.value.Some? ==>
      m.value.value.amount != [] && AllDigits(m.value.value.amount) && IsUnit(m.value.value.unit)
  {
    var at := IndexOf(text, TAG, 0);
    if at.None? then None else Some(Capture(text[at.value + |TAG|..]))
  }

  /** The optional group `(?:\s+(\d+)(s|m|h|d))?` tried right after the tag. */
  function Capture(rest: string): (d: Option<Duration>)
    ensures d.Some? ==> d.value.amount != [] && AllDigits(d.value.amount) && IsUnit(d.value.unit)
  {
    var ws := Span(rest, IsSpace);
    var ds := Span(rest[ws..], IsDigit);
    if ws > 0 && ds > 0 && ws + ds < |rest| && IsUnit(rest[ws + ds])
    then Some(Duration(rest[ws..ws + ds], rest[ws + ds]))
    else None
  }

  /** A text that starts with the tag matches it there. */
  lemma FirstMatchAtStart(text: string)
    requires StartsWith(text, TAG)
    ensures FirstMatch(text) == Some(Capture(text[|TAG|..]))
  {
    assert OccursAt(text, TAG, 0) by {
      assert text[0..|TAG|] == text[..|TAG|];
    }
  }

  /** The seconds one unit stands for; anything else counts as seconds. */
  function Multiplier(unit: string): nat {
    if unit == "d" then 86400 else if unit == "h" then 3600 else if unit == "m" then 60 else 1
  }

  /**
   * The delay as the source computes it: the unit is looked up in the first
   * group (the amount) instead of the second, so a matched duration always
   * counts in seconds.
   */
  function DelayAsWritten(m: Option<Option<Duration>>): nat {
    if m.None? then DEFAULT_DELAY
    else
      var group1 := if m.value.Some? then Some(m.value.value.amount) else None;
      var multiplier := Multiplier(group1.UnwrapOr("m"));
      var n := ParseU32(group1.UnwrapOr("15"));
      if n.Some? then n.value * multiplier else DEFAULT_DELAY
  }

  /** The delay in seconds the tag asks for: the amount times its unit, fifteen minutes without one. */
  function Delay(m: Option<Option<Duration>>): nat {
    if m.None? then DEFAULT_DELAY
    else
      var unit := if m.value.Some? then [m.value.value.unit] else "m";
      var amount := if m.value.Some? then m.value.value.amount else "15";
      var n := ParseU32(amount);
      if n.Some? then n.value * Multiplier(unit) else DEFAULT_DELAY
  }

  /** The text of a tag followed by a duration, as a user writes it. */
  function TagWith(n: nat, unit: char, rest: string): string {
    TAG + (" " + (DecimalString(n) + ([unit] + rest)))
  }

  /** After a space, a run of digits followed by a unit is captured whole. */
  lemma CaptureOf(digits: string, unit: char, rest: string)
    requires digits != [] && AllDigits(digits) && IsUnit(unit)
    ensures Capture(" " + (digits + ([unit] + rest))) == Some(Duration(digits, unit))
  {
    var after := " " + (digits + ([unit] + rest));
    SpanOf(" ", digits + ([unit] + rest), IsSpace);
    assert after[1..] == digits + ([unit] + rest);
    SpanOf(digits, [unit] + rest, IsDigit);
    assert after[1..1 + |digits|] == digits;
    assert after[1 + |digits|] == unit;
  }

  /** A text made of the tag and what follows is matched at the start, on what follows. */
  lemma FirstMatchOfTag(after: string)
    ensures FirstMatch(TAG + after) == Some(Capture(after))
  {
    var text := TAG + after;
    assert text[..|TAG|] == TAG && text[|TAG|..] == after;
    FirstMatchAtStart(text);
  }

  lemma TagWithMatch(n: nat, unit: char, rest: string)
    requires IsUnit(unit)
    ensures FirstMatch(TagWith(n, unit, rest)) == Some(Some(Duration(DecimalString(n), unit)))
  {
    var digits := DecimalString(n);
    FirstMatchOfTag(" " + (digits + ([unit] + rest)));
    CaptureOf(digits, unit, rest);
  }

  /** A tag with a duration asks for the amount times its unit, or the default when the amount overflows a u32. */
  lemma DelayOfTag(n: nat, unit: char, rest: string)
    requires IsUnit(unit)
    ensures Delay(FirstMatch(TagWith(n, unit, rest))) ==
      if n < U32_LIMIT then n * Multiplier([unit]) else DEFAULT_DELAY
  {
    TagWithMatch(n, unit, rest);
    ParseDecimalString(n, U32_LIMIT);
  }

  /** As written, the same tag yields the bare amount in seconds, whatever the unit. */
  lemma DelayAsWrittenOfTag(n: nat, unit: char, rest: string)
    requires IsUnit(unit)
    ensures DelayAsWritten(FirstMatch(TagWith(n, unit, rest))) == if n < U32_LIMIT then n else DEFAULT_DELAY
  {
    TagWithMatch(n, unit, rest);
    ParseDecimalString(n, U32_LIMIT);
    DelayAsWrittenOfDuration(Duration(DecimalString(n), unit));
  }

  /** A matched duration counts its amount in seconds as written: the amount is all digits, never a unit. */
  lemma DelayAsWrittenOfDuration(d: Duration)
    requires d.amount != [] && AllDigits(d.amount)
    ensures var n := ParseU32(d.amount);
      DelayAsWritten(Some(Some(d))) == if n.Some? then n.value else DEFAULT_DELAY
  {
    assert Multiplier(d.amount) == 1 by {
      assert IsDigit(d.amount[0]);
      assert d.amount != "d" && d.amount != "h" && d.amount != "m";
    }
  }

  /** `#cleanup 2h` waits two seconds as written, two hours as intended. */
  lemma TwoHoursAsWritten()
    ensures DelayAsWritten(FirstMatch("#cleanup 2h")) == 2
    ensures Delay(FirstMatch("#cleanup 2h")) == 7200
  {
    assert TagWith(2, 'h', "") == "#cleanup 2h";
    DelayAsWrittenOfTag(2, 'h', "");
    DelayOfTag(2, 'h', "");
  }

  /** A bare tag (not followed by whitespace) waits the default fifteen minutes, as written and as intended. */
  lemma DelayBare(rest: string)
    requires rest != [] ==> !IsSpace(rest[0])
    ensures FirstMatch(TAG + rest) == Some(None)
    ensures Delay(FirstMatch(TAG + rest)) == DEFAULT_DELAY
    ensures DelayAsWritten(FirstMatch(TAG + rest)) == DEFAULT_DELAY
  {
    var text := TAG + rest;
    assert text[..|TAG|] == TAG && text[|TAG|..] == rest;
    FirstMatchAtStart(text);
    assert Span(rest, IsSpace) == 0;
    assert ParseU32("15") == Some(15) by {
      DecimalStringValue(15);
      assert DecimalString(15) == "15";
    }
  }

  /**
   * For any match `FirstMatch` returns, the source's delay and the intended
   * one agree exactly when no duration matched, the unit is seconds, the
   * amount is zero or the amount does not fit a u32.
   */
  lemma DelayAgreement(m: Option<Option<Duration>>)
    requires m.Some? && m.value.Some? ==>
      m.value.value.amount != [] && AllDigits(m.value.value.amount) && IsUnit(m.value.value.unit)
    ensures DelayAsWritten(m) == Delay(m) <==>
      || m.None? || m.value.None? || m.value.value.unit == 's'
      || ParseU32(m.value.value.amount).None? || ParseU32(m.value.value.amount).value == 0
  {
    if m.Some? && m.value.Some? {
      var d := m.value.value;
      DelayAsWrittenOfDuration(d);
      var n := ParseU32(d.amount);
      if n.Some? {
        assert Delay(m) == n.value * Multiplier([d.unit]);
        assert [d.unit] != "s" ==> Multiplier([d.unit]) >= 60;
      }
    }
  }

  /**
   * The moment the thread of a tagged status may be deleted, with the delay
   * as the source computes it (a matched duration counts in seconds).
   */
  function NotBefore(text: string, now: Time): Time {
    now + DelayAsWritten(FirstMatch(text))
  }

  /**
   * A thread tagged `#cleanup <n><unit>` is due `n` seconds from now,
   * whatever the unit (fifteen minutes when `n` overflows a u32).
   */
  lemma NotBeforeOfTag(n: nat, unit: char, rest: string, now: Time)
    requires IsUnit(unit)
    ensures NotBefore(TagWith(n, unit, rest), now) == now + if n < U32_LIMIT then n else DEFAULT_DELAY
  {
    DelayAsWrittenOfTag(n, unit, rest);
  }

  /** One row of `statuses LEFT JOIN entities`. */
  datatype JoinRow = JoinRow(status: Status, entity: Option<Entity>)

  /** `row` is a row of the left join over the store: a status with each of its entities, or alone when it has none. */
  ghost predicate InJoin(t: Tables, row: JoinRow) {
    && row.status.id in t.statuses && t.statuses[row.status.id] == row.status.row
    && (row.entity.Some? ==>
      && row.entity.value.id in t.entities && t.entities[row.entity.value.id] == row.entity.value.row
      && row.entity.value.row.entity.statusId == row.status.id)
    && (row.entity.None? ==> forall e | e in t.entities :: t.entities[e].entity.statusId != row.status.id)
  }

  /** A live status of the account: present, not deleted, authored as `% (uid)`. */
  ghost predicate OwnLive(t: Tables, uid: U64, id: nat) {
    && id in t.statuses && t.statuses[id].deletedAt.None?
    && EndsWith(t.statuses[id].sourceAuthor, AuthorSuffix(uid))
  }

  /** The filters of the first query. */
  ghost predicate IsRequest(t: Tables, uid: U64, row: JoinRow) {
    && InJoin(t, row)
    && row.status.row.deletedAt.None?
    && (row.entity.None? || row.entity.value.row.blobHash.Some?)
    && EndsWith(row.status.row.sourceAuthor, AuthorSuffix(uid))
    && Contains(row.status.row.text, TAG)
  }

  /** `requests` is what the first query returns: every row that passes its filters, once each. */
  ghost predicate RequestsFaithful(t: Tables, uid: U64, requests: seq<JoinRow>) {
    && (forall row <- requests :: IsRequest(t, uid, row))
    && (forall row | IsRequest(t, uid, row) :: row in requests)
    && (forall i, j | 0 <= i < j < |requests| :: requests[i] != requests[j])
  }

  /** The filters of the parent query. */
  ghost predicate IsParentRow(t: Tables, uid: U64, source: Source, parentId: string, row: JoinRow) {
    && InJoin(t, row)
    && row.status.row.deletedAt.None?
    && row.status.row.source == source
    && EndsWith(row.status.row.sourceAuthor, AuthorSuffix(uid))
    && row.status.row.sourceId == parentId
  }

  /** `pick` answers the parent query with `LIMIT 1`: some row passing its filters, or none when there is none. */
  ghost predicate ParentQueryFaithful(t: Tables, uid: U64, pick: (Source, string) -> Option<JoinRow>) {
    forall source, parentId ::
      && (pick(source, parentId).Some? ==> IsParentRow(t, uid, source, parentId, pick(source, parentId).value))
      && (pick(source, parentId).None? ==> forall row :: !IsParentRow(t, uid, source, parentId, row))
  }

  datatype Threading = Stop | Abort | Parent(status: Status)

  /**
   * `own_parent`: stop at a status that replies to nothing or whose parent is
   * not a live status of the account; abort the thread when the parent row
   * found has an entity not yet fetched (no blob).
   */
  function OwnParent(pick: (Source, string) -> Option<JoinRow>, s: Status): Threading {
    if s.row.inReplyToStatus.None? then Stop
    else
      var found := pick(s.row.source, s.row.inReplyToStatus.value);
      if found.None? then Stop
      else if found.value.entity.Some? && found.value.entity.value.row.blobHash.None? then Abort
      else Parent(found.value.status)
  }

  lemma OwnParentMeaning(t: Tables, uid: U64, pick: (Source, string) -> Option<JoinRow>, s: Status)
    requires ParentQueryFaithful(t, uid, pick)
    ensures OwnParent(pick, s).Stop? <==>
      s.row.inReplyToStatus.None?
      || forall row :: !IsParentRow(t, uid, s.row.source, s.row.inReplyToStatus.value, row)
    ensures OwnParent(pick, s).Parent? ==>
      var p := OwnParent(pick, s).status;
      && OwnLive(t, uid, p.id) && t.statuses[p.id] == p.row
      && p.row.source == s.row.source && Some(p.row.sourceId) == s.row.inReplyToStatus
    ensures OwnParent(pick, s).Abort? ==>
      exists row :: IsParentRow(t, uid, s.row.source, s.row.inReplyToStatus.value, row)
        && row.entity.Some? && row.entity.value.row.blobHash.None?
  {
    if s.row.inReplyToStatus.Some? {
      var found := pick(s.row.source, s.row.inReplyToStatus.value);
      if found.Some? {
        assert IsParentRow(t, uid, s.row.source, s.row.inReplyToStatus.value, found.value);
      }
    }
  }

  /** How a thread walk ends: the parents in order, a thin parent, or a chain longer than the fuel. */
  datatype Walk = Walked(parents: seq<Status>) | Aborted | Hung

  /**
   * The thread walk of the source's inner `loop`. The loop has no bound;
   * `fuel` caps the number of parents, and a walk that would go further is
   * `Hung`. With fuel for as many parents as there are statuses, `Hung`
   * means a reply cycle (`HungForever`).
   */
  function WalkFrom(pick: (Source, string) -> Option<JoinRow>, s: Status, fuel: nat): Walk
    decreases fuel
  {
    var next := OwnParent(pick, s);
    if next.Stop? then Walked([])
    else if next.Abort? then Aborted
    else if fuel == 0 then Hung
    else Extend([next.status], WalkFrom(pick, next.status, fuel - 1))
  }

  function Extend(parents: seq<Status>, w: Walk): Walk {
    if w.Walked? then Walked(parents + w.parents) else w
  }

  /** Each parent of a finished walk is the own parent of the one before, and the last has none. */
  lemma {:induction false} WalkChain(pick: (Source, string) -> Option<JoinRow>, s: Status, fuel: nat)
    requires WalkFrom(pick, s, fuel).Walked?
    ensures var ps := WalkFrom(pick, s, fuel).parents;
      && |ps| <= fuel
      && (ps != [] ==> OwnParent(pick, s) == Parent(ps[0]))
      && (forall i | 0 <= i < |ps| - 1 :: OwnParent(pick, ps[i]) == Parent(ps[i + 1]))
      && OwnParent(pick, if ps == [] then s else ps[|ps| - 1]) == Stop
    decreases fuel
  {
    var next := OwnParent(pick, s);
    if next.Parent? {
      WalkChain(pick, next.status, fuel - 1);
      var rest := WalkFrom(pick, next.status, fuel - 1).parents;
      var ps := [next.status] + rest;
      assert WalkFrom(pick, s, fuel).parents == ps;
      forall i | 0 <= i < |ps| - 1 ensures OwnParent(pick, ps[i]) == Parent(ps[i + 1]) {
        if i > 0 {
          assert ps[i] == rest[i - 1] && ps[i + 1] == rest[i];
        }
      }
    }
  }

  /** More fuel changes nothing once a walk ends without running out. */
  lemma {:induction false} WalkFuelMonotone(pick: (Source, string) -> Option<JoinRow>, s: Status, fuel: nat, more: nat)
    requires !WalkFrom(pick, s, fuel).Hung?
    requires fuel <= more
    ensures WalkFrom(pick, s, more) == WalkFrom(pick, s, fuel)
    decreases fuel
  {
    var next := OwnParent(pick, s);
    if next.Parent? {
      WalkFuelMonotone(pick, next.status, fuel - 1, more - 1);
    }
  }

  /** Every parent a walk collects is a live status of the account. */
  lemma {:induction false} WalkOwned(t: Tables, uid: U64, pick: (Source, string) -> Option<JoinRow>, s: Status, fuel: nat)
    requires ParentQueryFaithful(t, uid, pick)
    requires WalkFrom(pick, s, fuel).Walked?
    ensures forall p <- WalkFrom(pick, s, fuel).parents :: OwnLive(t, uid, p.id)
    decreases fuel
  {
    var next := OwnParent(pick, s);
    if next.Parent? {
      OwnParentMeaning(t, uid, pick, s);
      WalkOwned(t, uid, pick, next.status, fuel - 1);
    }
  }

  /** The status `k` own-parent steps above `s`, when each of those steps finds a parent. */
  function Ancestor(pick: (Source, string) -> Option<JoinRow>, s: Status, k: nat): Option<Status>
    decreases k
  {
    if k == 0 then Some(s)
    else
      var next := OwnParent(pick, s);
      if next.Parent? then Ancestor(pick, next.status, k - 1) else None
  }

  /** A walk runs out of fuel exactly when there is a parent one step beyond the fuel. */
  lemma {:induction false} HungAncestor(pick: (Source, string) -> Option<JoinRow>, s: Status, fuel: nat)
    ensures WalkFrom(pick, s, fuel).Hung? <==> Ancestor(pick, s, fuel + 1).Some?
    decreases fuel
  {
    var next := OwnParent(pick, s);
    if next.Parent? && fuel > 0 {
      HungAncestor(pick, next.status, fuel - 1);
    }
  }

  lemma {:induction false} AncestorPrefix(pick: (Source, string) -> Option<JoinRow>, s: Status, i: nat, j: nat)
    requires i <= j && Ancestor(pick, s, j).Some?
    ensures Ancestor(pick, s, i).Some?
    decreases i
  {
    if i > 0 {
      AncestorPrefix(pick, OwnParent(pick, s).status, i - 1, j - 1);
    }
  }

  lemma {:induction false} AncestorCompose(pick: (Source, string) -> Option<JoinRow>, s: Status, i: nat, j: nat)
    requires Ancestor(pick, s, i).Some?
    ensures Ancestor(pick, s, i + j) == Ancestor(pick, Ancestor(pick, s, i).value, j)
    decreases i
  {
    if i > 0 {
      AncestorCompose(pick, OwnParent(pick, s).status, i - 1, j);
    }
  }

  /** A status that is its own `d`-th ancestor has ancestors at every depth. */
  lemma {:induction false} AncestorCycle(pick: (Source, string) -> Option<JoinRow>, x: Status, d: nat, m: nat)
    requires 0 < d && Ancestor(pick, x, d) == Some(x)
    ensures Ancestor(pick, x, m).Some?
    decreases m
  {
    if m < d {
      AncestorPrefix(pick, x, m, d);
    } else {
      AncestorCompose(pick, x, d, m - d);
      AncestorCycle(pick, x, d, m - d);
    }
  }

  /** Every ancestor above the status itself is a live status of the account, as stored. */
  lemma {:induction false} AncestorOwned(t: Tables, uid: U64, pick: (Source, string) -> Option<JoinRow>, s: Status, k: nat)
    requires ParentQueryFaithful(t, uid, pick)
    requires 0 < k && Ancestor(pick, s, k).Some?
    ensures var a := Ancestor(pick, s, k).value;
      OwnLive(t, uid, a.id) && t.statuses[a.id] == a.row
    decreases k
  {
    OwnParentMeaning(t, uid, pick, s);
    if k > 1 {
      AncestorOwned(t, uid, pick, OwnParent(pick, s).status, k - 1);
    }
  }

  /**
   * More than `|ids|` ancestors with ids in `ids` repeat a status: two
   * rows with one id are the one stored row.
   */
  lemma {:induction false} AncestorsRepeat(t: Tables, uid: U64, pick: (Source, string) -> Option<JoinRow>, s: Status,
                                           n: nat, ids: set<nat>)
    requires ParentQueryFaithful(t, uid, pick)
    requires Ancestor(pick, s, n).Some? && n > |ids|
    requires forall k | 1 <= k <= n :: Ancestor(pick, s, k).Some? ==> Ancestor(pick, s, k).value.id in ids
    ensures exists i, j :: 1 <= i < j <= n && Ancestor(pick, s, i) == Ancestor(pick, s, j)
  {
    var last := Ancestor(pick, s, n).value;
    AncestorOwned(t, uid, pick, s, n);
    if k :| 1 <= k < n && Ancestor(pick, s, k).Some? && Ancestor(pick, s, k).value.id == last.id {
      AncestorOwned(t, uid, pick, s, k);
      assert Ancestor(pick, s, k) == Ancestor(pick, s, n);
    } else {
      AncestorPrefix(pick, s, n - 1, n);
      AncestorsRepeat(t, uid, pick, s, n - 1, ids - {last.id});
    }
  }

  /** Once an ancestor comes back, the ancestors go on at every depth. */
  lemma RepeatGoesOn(pick: (Source, string) -> Option<JoinRow>, s: Status, i: nat, j: nat, m: nat)
    requires 1 <= i < j && Ancestor(pick, s, j).Some? && Ancestor(pick, s, i) == Ancestor(pick, s, j)
    ensures Ancestor(pick, s, m).Some?
  {
    AncestorPrefix(pick, s, i, j);
    var x := Ancestor(pick, s, i).value;
    AncestorCompose(pick, s, i, j - i);
    if m <= i {
      AncestorPrefix(pick, s, m, i);
    } else {
      AncestorCycle(pick, x, j - i, m - i);
      AncestorCompose(pick, s, i, m - i);
    }
  }

  /**
   * `own_parent`'s loop has no cycle guard. A walk still finding parents
   * after as many steps as there are statuses has met one of them twice, so
   * the loop never ends: the walk is hung at every fuel.
   */
  lemma HungForever(t: Tables, uid: U64, pick: (Source, string) -> Option<JoinRow>, s: Status, fuel: nat, n: nat)
    requires ParentQueryFaithful(t, uid, pick)
    requires fuel >= |t.statuses| && WalkFrom(pick, s, fuel).Hung?
    ensures WalkFrom(pick, s, n).Hung?
  {
    HungAncestor(pick, s, fuel);
    forall k | 1 <= k <= fuel + 1 && Ancestor(pick, s, k).Some?
      ensures Ancestor(pick, s, k).value.id in t.statuses.Keys
    {
      AncestorOwned(t, uid, pick, s, k);
    }
    AncestorsRepeat(t, uid, pick, s, fuel + 1, t.statuses.Keys);
    var i, j :| 1 <= i < j <= fuel + 1 && Ancestor(pick, s, i) == Ancestor(pick, s, j);
    AncestorPrefix(pick, s, j, fuel + 1);
    RepeatGoesOn(pick, s, i, j, n + 1);
    HungAncestor(pick, s, n);
  }

  /** The deletion requests of one thread: the tagged status first, then its parents, all due at `notBefore`. */
  function ThreadDeletions(trigger: Status, parents: seq<Status>, notBefore: Time): (r: seq<NewDeletion>)
    ensures |r| == |parents| + 1
  {
    [DeletionFromStatus(trigger, notBefore)]
      + seq(|parents|, i requires 0 <= i < |parents| => DeletionFromStatus(parents[i], notBefore))
  }

  lemma ThreadDeletionsShape(trigger: Status, parents: seq<Status>, notBefore: Time)
    ensures var r := ThreadDeletions(trigger, parents, notBefore);
      && r[0].statusId == trigger.id
      && (forall i | 0 <= i < |parents| :: r[i + 1].statusId == parents[i].id)
      && (forall d <- r :: d.notBefore == notBefore && d.sponsor == "omelette")
  {
  }

  datatype RowResult = Untagged | Dropped | Thread(deletions: seq<NewDeletion>) | RowHung

  /** What the `filter_map` closure makes of one row. */
  function RowOutcome(row: JoinRow, hasTag: string -> bool, pick: (Source, string) -> Option<JoinRow>, now: Time, fuel: nat): RowResult {
    var s := row.status;
    if !hasTag(s.row.text) then Untagged
    else
      var w := WalkFrom(pick, s, fuel);
      if w.Walked? then Thread(ThreadDeletions(s, w.parents, NotBefore(s.row.text, now)))
      else if w.Aborted? then Dropped
      else RowHung
  }

  /** The threads collected from `requests` in order; `None` when a walk hangs. */
  function Matches(requests: seq<JoinRow>, hasTag: string -> bool, pick: (Source, string) -> Option<JoinRow>, now: Time, fuel: nat)
    : (r: Option<seq<seq<NewDeletion>>>)
    ensures r.Some? ==> |r.value| <= |requests|
  {
    if requests == [] then Some([])
    else
      var here := RowOutcome(requests[0], hasTag, pick, now, fuel);
      var rest := Matches(requests[1..], hasTag, pick, now, fuel);
      if here.RowHung? || rest.None? then None
      else if here.Thread? then Some([here.deletions] + rest.value)
      else rest
  }

  /** Rows without the hashtag yield nothing. */
  lemma {:induction false} UntaggedYieldNothing(requests: seq<JoinRow>, hasTag: string -> bool, pick: (Source, string) -> Option<JoinRow>, now: Time, fuel: nat)
    requires forall row <- requests :: !hasTag(row.status.row.text)
    ensures Matches(requests, hasTag, pick, now, fuel) == Some([])
  {
    if requests != [] {
      assert requests[0] in requests;
      assert forall row <- requests[1..] :: row in requests;
      UntaggedYieldNothing(requests[1..], hasTag, pick, now, fuel);
    }
  }

  /**
   * Every thread starts at a tagged request, and every deletion it holds is
   * due at that request's delay, sponsored by "omelette", for a live
   * status of the account.
   */
  lemma {:induction false} MatchesShape(t: Tables, uid: U64, requests: seq<JoinRow>, hasTag: string -> bool,
                                        pick: (Source, string) -> Option<JoinRow>, now: Time, fuel: nat)
    requires forall row <- requests :: IsRequest(t, uid, row)
    requires ParentQueryFaithful(t, uid, pick)
    requires Matches(requests, hasTag, pick, now, fuel).Some?
    ensures forall thread: seq<NewDeletion> <- Matches(requests, hasTag, pick, now, fuel).value ::
      && thread != []
      && (exists row <- requests :: hasTag(row.status.row.text) && thread[0].statusId == row.status.id
           && forall d <- thread :: d.notBefore == NotBefore(row.status.row.text, now))
      && (forall d <- thread :: d.sponsor == "omelette" && OwnLive(t, uid, d.statusId))
  {
    if requests != [] {
      var row := requests[0];
      assert row in requests;
      assert forall r <- requests[1..] :: r in requests;
      MatchesShape(t, uid, requests[1..], hasTag, pick, now, fuel);
      var here := RowOutcome(row, hasTag, pick, now, fuel);
      if here.Thread? {
        var s := row.status;
        var w := WalkFrom(pick, s, fuel);
        var nb := NotBefore(s.row.text, now);
        WalkOwned(t, uid, pick, s, fuel);
        ThreadDeletionsShape(s, w.parents, nb);
        var thread := here.deletions;
        forall d <- thread ensures d.sponsor == "omelette" && OwnLive(t, uid, d.statusId) {
          var i :| 0 <= i < |thread| && thread[i] == d;
          if i > 0 {
            assert d.statusId == w.parents[i - 1].id;
            assert w.parents[i - 1] in w.parents;
          }
        }
      }
    }
  }

  /** A tagged request whose walk ends is requested, with its whole thread. */
  lemma {:induction false} TaggedRequestIncluded(requests: seq<JoinRow>, hasTag: string -> bool,
                                                 pick: (Source, string) -> Option<JoinRow>, now: Time, fuel: nat, row: JoinRow)
    requires row in requests && hasTag(row.status.row.text)
    requires WalkFrom(pick, row.status, fuel).Walked?
    requires Matches(requests, hasTag, pick, now, fuel).Some?
    ensures ThreadDeletions(row.status, WalkFrom(pick, row.status, fuel).parents, NotBefore(row.status.row.text, now))
      in Matches(requests, hasTag, pick, now, fuel).value
  {
    if requests[0] != row {
      assert row in requests[1..];
      TaggedRequestIncluded(requests[1..], hasTag, pick, now, fuel, row);
    }
  }

  /** A thread with a thin parent is left out whole; no other row is affected. */
  lemma AbortedDropsThread(requests: seq<JoinRow>, hasTag: string -> bool,
                           pick: (Source, string) -> Option<JoinRow>, now: Time, fuel: nat, row: JoinRow)
    requires hasTag(row.status.row.text) && WalkFrom(pick, row.status, fuel).Aborted?
    ensures Matches([row] + requests, hasTag, pick, now, fuel) == Matches(requests, hasTag, pick, now, fuel)
  {
    assert ([row] + requests)[1..] == requests;
  }

  /**
   * Fuel for as many parents as there are statuses is enough: any more
   * gives the same threads, and a walk hung at that fuel hangs at every
   * fuel, as the source's unguarded loop never ends.
   */
  lemma {:induction false} MatchesBeyondFuel(t: Tables, uid: U64, requests: seq<JoinRow>, hasTag: string -> bool,
                                             pick: (Source, string) -> Option<JoinRow>, now: Time, fuel: nat, n: nat)
    requires ParentQueryFaithful(t, uid, pick) && fuel >= |t.statuses|
    ensures n >= fuel ==> Matches(requests, hasTag, pick, now, n) == Matches(requests, hasTag, pick, now, fuel)
    ensures Matches(requests, hasTag, pick, now, fuel).None? ==> Matches(requests, hasTag, pick, now, n).None?
    decreases |requests|
  {
    if requests != [] {
      MatchesBeyondFuel(t, uid, requests[1..], hasTag, pick, now, fuel, n);
      var s := requests[0].status;
      if WalkFrom(pick, s, fuel).Hung? {
        HungForever(t, uid, pick, s, fuel, n);
      } else if n >= fuel {
        WalkFuelMonotone(pick, s, fuel, n);
      } else if !WalkFrom(pick, s, n).Hung? {
        WalkFuelMonotone(pick, s, n, fuel);
      }
    }
  }

  /** The threads collected from a prefix, followed by those still to come. */
  function Continue(done: seq<seq<NewDeletion>>, rest: Option<seq<seq<NewDeletion>>>): Option<seq<seq<NewDeletion>>> {
    if rest.None? then None else Some(done + rest.value)
  }

  /** One step up the thread moves the parent from the walk still to come to the walk done. */
  lemma WalkStep(pick: (Source, string) -> Option<JoinRow>, s: Status, fuel: nat, parents: seq<Status>)
    requires OwnParent(pick, s).Parent? && fuel > 0
    ensures var p := OwnParent(pick, s).status;
      Extend(parents, WalkFrom(pick, s, fuel)) == Extend(parents + [p], WalkFrom(pick, p, fuel - 1))
  {
    var p := OwnParent(pick, s).status;
    var rest := WalkFrom(pick, p, fuel - 1);
    if rest.Walked? {
      assert parents + ([p] + rest.parents) == (parents + [p]) + rest.parents;
    }
  }

  /** One more parent adds its deletion at the end. */
  lemma ThreadDeletionsPush(trigger: Status, parents: seq<Status>, p: Status, notBefore: Time)
    ensures ThreadDeletions(trigger, parents + [p], notBefore)
      == ThreadDeletions(trigger, parents, notBefore) + [DeletionFromStatus(p, notBefore)]
  {
    var a := ThreadDeletions(trigger, parents + [p], notBefore);
    var b := ThreadDeletions(trigger, parents, notBefore) + [DeletionFromStatus(p, notBefore)];
    assert |a| == |b|;
    forall i | 0 <= i < |a| ensures a[i] == b[i] {
      if 0 < i <= |parents| {
        assert (parents + [p])[i - 1] == parents[i - 1];
      }
    }
  }

  /** The inner `loop`: walks up the thread, pushing one deletion per parent. */
  method FollowThread(pick: (Source, string) -> Option<JoinRow>, trigger: Status, notBefore: Time, fuel: nat)
    returns (w: Walk, thread: seq<NewDeletion>)
    ensures w == WalkFrom(pick, trigger, fuel)
    ensures w.Walked? ==> thread == ThreadDeletions(trigger, w.parents, notBefore)
  {
    thread := [DeletionFromStatus(trigger, notBefore)];
    var parents: seq<Status> := [];
    var stat := trigger;
    var left := fuel;
    while true
      invariant WalkFrom(pick, trigger, fuel) == Extend(parents, WalkFrom(pick, stat, left))
      invariant thread == ThreadDeletions(trigger, parents, notBefore)
      decreases left
    {
      var next := OwnParent(pick, stat);
      if next.Stop? {
        assert parents + [] == parents;
        return Walked(parents), thread;
      }
      if next.Abort? {
        return Aborted, thread;
      }
      if left == 0 {
        return Hung, thread;
      }
      WalkStep(pick, stat, left, parents);
      ThreadDeletionsPush(trigger, parents, next.status, notBefore);
      stat := next.status;
      parents := parents + [stat];
      thread := thread + [DeletionFromStatus(stat, notBefore)];
      left := left - 1;
    }
  }

  /** One more request row: a hung walk ends the collection, a thread is appended, anything else is skipped. */
  lemma MatchesStep(requests: seq<JoinRow>, i: nat, done: seq<seq<NewDeletion>>, hasTag: string -> bool,
                    pick: (Source, string) -> Option<JoinRow>, now: Time, fuel: nat)
    requires i < |requests|
    ensures var here := RowOutcome(requests[i], hasTag, pick, now, fuel);
      && (here.RowHung? ==> Matches(requests[i..], hasTag, pick, now, fuel).None?)
      && (!here.RowHung? ==>
            Continue(done, Matches(requests[i..], hasTag, pick, now, fuel))
            == Continue(if here.Thread? then done + [here.deletions] else done, Matches(requests[i + 1..], hasTag, pick, now, fuel)))
  {
    assert requests[i..][0] == requests[i] && requests[i..][1..] == requests[i + 1..];
    var here := RowOutcome(requests[i], hasTag, pick, now, fuel);
    var rest := Matches(requests[i + 1..], hasTag, pick, now, fuel);
    if here.Thread? && rest.Some? {
      assert done + ([here.deletions] + rest.value) == (done + [here.deletions]) + rest.value;
    }
  }

  /** The body of the `filter_map` closure, over one request row. */
  method RowThread(row: JoinRow, hasTag: string -> bool, pick: (Source, string) -> Option<JoinRow>, now: Time, fuel: nat)
    returns (r: RowResult)
    ensures r == RowOutcome(row, hasTag, pick, now, fuel)
  {
    var status := row.status;
    if !hasTag(status.row.text) {
      return Untagged;
    }
    var notBefore := NotBefore(status.row.text, now);
    var w, thread := FollowThread(pick, status, notBefore, fuel);
    if w.Walked? {
      r := Thread(thread);
    } else if w.Aborted? {
      r := Dropped;
    } else {
      r := RowHung;
    }
  }

  datatype CleanupOutcome = NoRequests | NoMatches | Requested(matching: nat, deletes: nat) | NeverEnds

  /**
   * The pass: with no request rows nothing happens; otherwise each tagged
   * row's thread is collected in order, a thread with a thin parent is
   * dropped, and when any thread was found all their deletion requests are
   * inserted in one statement. Each walk may take as many parents as there
   * are statuses, which is enough (`MatchesBeyondFuel`); a walk that goes
   * further is in a reply cycle, where the source loops forever, and the
   * model reports `NeverEnds` and writes nothing.
   */
  method Cleanup(db: Db, requests: seq<JoinRow>, hasTag: string -> bool,
                 pick: (Source, string) -> Option<JoinRow>, now: Time) returns (r: CleanupOutcome)
    requires db.Valid()
    modifies db
    ensures db.Valid()
    ensures requests == [] ==> r == NoRequests
    ensures r.NoRequests? || r.NoMatches? || r.NeverEnds? ==> db.tables == old(db.tables)
    ensures var ms := Matches(requests, hasTag, pick, now, |old(db.tables).statuses|);
      && (requests != [] && ms.None? ==> r == NeverEnds)
      && (requests != [] && ms == Some([]) ==> r == NoMatches)
      && (ms.Some? && ms.value != [] ==>
            && r == Requested(|ms.value|, |Flatten(ms.value)|)
            && db.tables == old(db.tables).(deletions := old(db.tables).deletions + Flatten(ms.value)))
  {
    if requests == [] {
      return NoRequests;
    }
    var fuel := |db.tables.statuses|;
    var matches: seq<seq<NewDeletion>> := [];
    var i := 0;
    assert requests[0..] == requests;
    assert Matches(requests, hasTag, pick, now, fuel).Some? ==>
      [] + Matches(requests, hasTag, pick, now, fuel).value == Matches(requests, hasTag, pick, now, fuel).value;
    while i < |requests|
      invariant 0 <= i <= |requests|
      invariant db.tables == old(db.tables)
      invariant Matches(requests, hasTag, pick, now, fuel) == Continue(matches, Matches(requests[i..], hasTag, pick, now, fuel))
    {
      var here := RowThread(requests[i], hasTag, pick, now, fuel);
      MatchesStep(requests, i, matches, hasTag, pick, now, fuel);
      if here.RowHung? {
        return NeverEnds;
      }
      if here.Thread? {
        matches := matches + [here.deletions];
      }
      i := i + 1;
    }
    assert requests[i..] == [];
    assert matches + [] == matches;
    if matches == [] {
      return NoMatches;
    }
    var deletes := Flatten(matches);
    db.tables := db.tables.(deletions := db.tables.deletions + deletes);
    r := Requested(|matches|, |deletes|);
  }
}
