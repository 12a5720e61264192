/**
 * The archive loaders (src/bin/omelette-twitter-archive.rs and
 * src/bin/omelette-import-twitter-archive.rs): the records of a Twitter
 * archive's `tweets.csv` become placeholder ("slim") statuses, saved in
 * batches of 1000 with `ON CONFLICT DO NOTHING`.
 *
 * CSV and ZIP reading and MIME sniffing are not modelled: a file is its
 * sniffed kind and its records, a record its fields. Date parsing is an
 * oracle, and the fetch time a parameter.
 */
module Archive {
  import opened Wrappers
  import opened Text
  import opened Types
  import opened Table
  import opened Store
  import Hydrate

  // ---------------------------------------------------------------------
  // The source application field

  const ANCHOR_OPEN: string := "<a href=\""
  const ANCHOR_CLOSE: string := "</a>"

  /** The link of a `source` field: its target and its text. */
  datatype Anchor = Anchor(url: string, name: string)

  /** The length of the run of characters other than `"` that starts `s`. */
  function QuoteFree(s: string): (n: nat)
    ensures n <= |s| && (forall i | 0 <= i < n :: s[i] != '"') && (n < |s| ==> s[n] == '"')
  {
    if s == [] || s[0] == '"' then 0 else 1 + QuoteFree(s[1..])
  }

  /** The last `>` strictly before `end`. */
  function LastGt(s: string, end: nat): (r: Option<nat>)
    requires end <= |s|
    ensures r.Some? ==> r.value < end && s[r.value] == '>' && forall i | r.value < i < end :: s[i] != '>'
    ensures r.None? ==> forall i | 0 <= i < end :: s[i] != '>'
  {
    if end == 0 then None
    else if s[end - 1] == '>' then Some(end - 1)
    else LastGt(s, end - 1)
  }

  /**
   * The regular expression `^<a href="([^"]+)".*>(.+)</a>$`, as a leftmost
   * greedy match without multi-line mode (`.` stops at a line feed, `$` is
   * the end of the text): the url is the longest quote-free run after
   * `<a href="`, which a quote must end; what follows must end in `</a>`
   * with no line feed before it, and the name is what follows the last `>`
   * that leaves it at least one character.
   */
  function MatchAnchor(field: string): (r: Option<Anchor>)
    ensures r.Some? ==> r.value.url != [] && '"' !in r.value.url && r.value.name != []
  {
    if !StartsWith(field, ANCHOR_OPEN) then None else MatchUrl(field[|ANCHOR_OPEN|..])
  }

  /** The url: a non-empty quote-free run, which a quote must end. */
  function MatchUrl(rest: string): (r: Option<Anchor>)
    ensures r.Some? ==> r.value.url != [] && '"' !in r.value.url && r.value.name != []
  {
    var n := QuoteFree(rest);
    if n == 0 || n == |rest| then None else MatchName(rest[..n], rest[n + 1..])
  }

  /** The name: after the last `>` of the line that precedes the closing `</a>`. */
  function MatchName(url: string, tail: string): (r: Option<Anchor>)
    ensures r.Some? ==> r.value.url == url && r.value.name != []
  {
    if !EndsWith(tail, ANCHOR_CLOSE) then None
    else
      var body := tail[..|tail| - |ANCHOR_CLOSE|];
      if |body| < 2 || '\n' in body then None
      else
        match LastGt(body, |body| - 1)
        case None => None
        case Some(p) => Some(Anchor(url, body[p + 1..]))
  }

  /** `format!("{} <{}>", name, url)` on a match, the empty string otherwise. */
  function SourceApp(field: string): string {
    match MatchAnchor(field)
    case Some(a) => a.name + " <" + a.url + ">"
    case None => ""
  }

  /** A link as a tweet archive writes it, with `attrs` after the quoted url. */
  function AnchorText(url: string, attrs: string, name: string): string {
    ANCHOR_OPEN + url + "\"" + attrs + ">" + name + ANCHOR_CLOSE
  }

  /** A match is a link: the field is the url and name found, with attributes free of line feeds between. */
  lemma MatchAnchorSound(field: string) returns (attrs: string)
    requires MatchAnchor(field).Some?
    ensures var a := MatchAnchor(field).value;
      '\n' !in a.name && '\n' !in attrs && field == AnchorText(a.url, attrs, a.name)
  {
    var a := MatchAnchor(field).value;
    var rest := field[|ANCHOR_OPEN|..];
    assert field == ANCHOR_OPEN + rest;
    var n := QuoteFree(rest);
    var tail := rest[n + 1..];
    assert rest == a.url + "\"" + tail;
    attrs := MatchNameSound(a.url, tail);
    AnchorTextParts(a.url, attrs, a.name);
  }

  lemma AnchorTextParts(url: string, attrs: string, name: string)
    ensures AnchorText(url, attrs, name) == ANCHOR_OPEN + ((url + "\"") + (attrs + ">" + name + ANCHOR_CLOSE))
  {
  }

  /** The part after the url's quote, when it matches, is attributes, `>`, the name and `</a>`. */
  lemma MatchNameSound(url: string, tail: string) returns (attrs: string)
    requires MatchName(url, tail).Some?
    ensures var name := MatchName(url, tail).value.name;
      '\n' !in name && '\n' !in attrs && tail == attrs + ">" + name + ANCHOR_CLOSE
  {
    var body := tail[..|tail| - |ANCHOR_CLOSE|];
    var p := LastGt(body, |body| - 1).value;
    var name := body[p + 1..];
    attrs := body[..p];
    assert body == attrs + ">" + name;
    assert tail == body + ANCHOR_CLOSE;
    assert forall c <- attrs :: c in body;
    assert forall c <- name :: c in body;
  }

  /**
   * Every link with a non-empty quote-free url and a non-empty name free of
   * `>` is recognised, attributes and all, as long as no line feed follows
   * the url: the application reads `NAME <URL>`.
   */
  lemma SourceAppOfAnchor(url: string, attrs: string, name: string)
    requires url != [] && '"' !in url
    requires name != [] && '>' !in name && '\n' !in name && '\n' !in attrs
    ensures MatchAnchor(AnchorText(url, attrs, name)) == Some(Anchor(url, name))
    ensures SourceApp(AnchorText(url, attrs, name)) == name + " <" + url + ">"
  {
    var field := AnchorText(url, attrs, name);
    var tail := attrs + ">" + name + ANCHOR_CLOSE;
    var rest := url + "\"" + tail;
    AnchorTextParts(url, attrs, name);
    assert rest == url + ("\"" + tail);
    assert field[..|ANCHOR_OPEN|] == ANCHOR_OPEN && field[|ANCHOR_OPEN|..] == rest;
    QuoteFreeOf(url, "\"" + tail);
    assert rest[..|url|] == url && rest[|url| + 1..] == tail;
    MatchNameOf(url, attrs, name);
  }

  lemma MatchNameOf(url: string, attrs: string, name: string)
    requires name != [] && '>' !in name && '\n' !in name && '\n' !in attrs
    ensures MatchName(url, attrs + ">" + name + ANCHOR_CLOSE) == Some(Anchor(url, name))
  {
    var body := attrs + ">" + name;
    var tail := body + ANCHOR_CLOSE;
    assert tail == attrs + ">" + name + ANCHOR_CLOSE;
    assert tail[|tail| - |ANCHOR_CLOSE|..] == ANCHOR_CLOSE && tail[..|tail| - |ANCHOR_CLOSE|] == body;
    assert '\n' !in body by {
      forall i | 0 <= i < |body| ensures body[i] != '\n' {
        if i < |attrs| { assert body[i] == attrs[i]; }
        else if i > |attrs| { assert body[i] == name[i - |attrs| - 1]; }
      }
    }
    forall i | |attrs| < i < |body| - 1 ensures body[i] != '>' {
      assert body[i] == name[i - |attrs| - 1];
    }
    LastGtAfter(body, |body| - 1, |attrs|);
    assert body[|attrs| + 1..] == name;
  }

  lemma {:induction false} QuoteFreeOf(url: string, rest: string)
    requires '"' !in url && rest != [] && rest[0] == '"'
    ensures QuoteFree(url + rest) == |url|
  {
    if url == [] {
      assert url + rest == rest;
    } else {
      assert (url + rest)[0] == url[0] && (url + rest)[1..] == url[1..] + rest;
      QuoteFreeOf(url[1..], rest);
    }
  }

  /** With no `>` between `p` and `end`, the last one before `end` is at `p`. */
  lemma {:induction false} LastGtAfter(s: string, end: nat, p: nat)
    requires p < end <= |s| && s[p] == '>'
    requires forall i | p < i < end :: s[i] != '>'
    ensures LastGt(s, end) == Some(p)
  {
    if end - 1 != p {
      LastGtAfter(s, end - 1, p);
    }
  }

  /**
   * A field yields an application exactly when it matches, and it matches
   * only if it starts with `<a href="` and ends with `</a>`.
   */
  lemma SourceAppShape(field: string)
    ensures SourceApp(field) != "" <==> MatchAnchor(field).Some?
    ensures MatchAnchor(field).Some? ==> StartsWith(field, ANCHOR_OPEN) && EndsWith(field, ANCHOR_CLOSE)
  {
    if MatchAnchor(field).Some? {
      var a := MatchAnchor(field).value;
      var suffix := ">" + a.name + ANCHOR_CLOSE;
      assert field[|field| - |suffix|..] == suffix;
      assert field[|field| - |ANCHOR_CLOSE|..] == suffix[|suffix| - |ANCHOR_CLOSE|..] == ANCHOR_CLOSE;
      var prefix := ANCHOR_OPEN + a.url + "\"";
      assert field[..|ANCHOR_OPEN|] == prefix[..|ANCHOR_OPEN|] == ANCHOR_OPEN;
    }
  }

  // ---------------------------------------------------------------------
  // Loading the records

  /** A CSV record: its fields. */
  datatype Record = Record(fields: seq<string>)

  /** Rows are saved whenever this many are pending. */
  const SAVE_BATCH: nat := 1000

  /**
   * The placeholder row of an archive record (id, reply-to id, reply-to
   * user, timestamp, source, text, ...): `author` is the loader's marker.
   */
  function SlimStatus(record: Record, postedAt: Time, now: Time, author: string): NewStatus
    requires |record.fields| >= 6
  {
    var f := record.fields;
    NewStatus(
      text := f[5], authorId := None, postedAt := postedAt, fetchedAt := now,
      fetchedVia := Some(TwitterArchive), deletedAt := None, isRepost := false, repostedAt := None,
      isMarked := false, markedAt := None, source := Twitter, sourceId := f[0],
      sourceAuthor := author, sourceApp := SourceApp(f[4]),
      inReplyToStatus := Some(f[1]), inReplyToUser := None, quotingStatus := None, public := true)
  }

  /** The record has the six fields read and a timestamp that parses (else the loader panics). */
  predicate ReadableRecord(record: Record, parseDate: string -> Option<Time>) {
    |record.fields| >= 6 && parseDate(record.fields[3]).Some?
  }

  predicate Readable(records: seq<Record>, parseDate: string -> Option<Time>) {
    forall r <- records :: ReadableRecord(r, parseDate)
  }

  /** The row of one readable record. */
  function SlimRow(record: Record, parseDate: string -> Option<Time>, now: Time, author: string): NewStatus
    requires ReadableRecord(record, parseDate)
  {
    SlimStatus(record, parseDate(record.fields[3]).value, now, author)
  }

  /** The rows the loader builds, one per record, in order. */
  function SlimRows(records: seq<Record>, parseDate: string -> Option<Time>, now: Time, author: string): (rows: seq<NewStatus>)
    requires Readable(records, parseDate)
    ensures |rows| == |records|
  {
    seq(|records|, i requires 0 <= i < |records| => SlimRow(records[i], parseDate, now, author))
  }

  /** The store and the ids returned are those of inserting `rows` into `start`. */
  predicate Saved(t: Tables, ids: seq<nat>, start: Tables, rows: seq<NewStatus>)
    requires Below(start.statuses, start.nextStatus)
  {
    (t, ids) == InsertStatuses(start, rows)
  }

  /** One `insert_into(statuses).values(&bag)...returning(id)`, its ids appended to those so far. */
  method SaveBag(db: Db, ghost start: Tables, ghost saved: seq<NewStatus>, bag: seq<NewStatus>, ids: seq<nat>)
    returns (ids': seq<nat>)
    requires Below(start.statuses, start.nextStatus)
    requires Saved(db.tables, ids, start, saved)
    modifies db
    ensures Saved(db.tables, ids', start, saved + bag)
  {
    InsertStatusesAppend(start, saved, bag);
    var (t, results) := InsertStatuses(db.tables, bag);
    db.tables := t;
    ids' := ids + results;
  }

  /** Building rows distributes over concatenation of the records. */
  lemma SlimRowsAppend(a: seq<Record>, b: seq<Record>, parseDate: string -> Option<Time>, now: Time, author: string)
    requires Readable(a, parseDate) && Readable(b, parseDate)
    ensures Readable(a + b, parseDate)
    ensures SlimRows(a + b, parseDate, now, author) == SlimRows(a, parseDate, now, author) + SlimRows(b, parseDate, now, author)
  {
  }

  /** The bag after pushing record `i` holds the rows of the records since the last save, `i` included. */
  lemma BagPush(records: seq<Record>, saved: nat, i: nat, parseDate: string -> Option<Time>, now: Time, author: string)
    requires Readable(records, parseDate) && saved <= i < |records|
    ensures SlimRows(records[saved..i], parseDate, now, author) + [SlimRow(records[i], parseDate, now, author)]
         == SlimRows(records[saved..i + 1], parseDate, now, author)
  {
    assert records[saved..i + 1] == records[saved..i] + [records[i]];
    SlimRowsAppend(records[saved..i], [records[i]], parseDate, now, author);
    assert SlimRows([records[i]], parseDate, now, author) == [SlimRow(records[i], parseDate, now, author)];
  }

  /** Saving the bag of the records from `saved` to `upto`: the store then holds the rows of every record before `upto`. */
  method SaveRecords(db: Db, ghost start: Tables, records: seq<Record>, ghost saved: nat, upto: nat, bag: seq<NewStatus>,
                     ids: seq<nat>, parseDate: string -> Option<Time>, now: Time, author: string)
    returns (ids': seq<nat>)
    requires Below(start.statuses, start.nextStatus) && Readable(records, parseDate) && saved <= upto <= |records|
    requires bag == SlimRows(records[saved..upto], parseDate, now, author)
    requires Saved(db.tables, ids, start, SlimRows(records[..saved], parseDate, now, author))
    modifies db
    ensures Saved(db.tables, ids', start, SlimRows(records[..upto], parseDate, now, author))
  {
    assert records[..upto] == records[..saved] + records[saved..upto];
    SlimRowsAppend(records[..saved], records[saved..upto], parseDate, now, author);
    ids' := SaveBag(db, start, SlimRows(records[..saved], parseDate, now, author), bag, ids);
  }

  /**
   * `slim_load`'s loop: rows are built record by record into a bag, and a
   * full bag of 1000 is saved and emptied. What is left in the bag is the
   * rows not saved yet.
   */
  method LoadRecords(db: Db, records: seq<Record>, parseDate: string -> Option<Time>, now: Time, author: string)
    returns (ids: seq<nat>, bag: seq<NewStatus>, batch: nat)
    requires db.Valid() && Readable(records, parseDate)
    modifies db
    ensures batch * SAVE_BATCH + |bag| == |records| && |bag| < SAVE_BATCH
    ensures Saved(db.tables, ids, old(db.tables), SlimRows(records[..batch * SAVE_BATCH], parseDate, now, author))
    ensures bag == SlimRows(records[batch * SAVE_BATCH..], parseDate, now, author)
  {
    ghost var start := db.tables;
    ghost var saved := 0;
    ids := [];
    bag := [];
    batch := 0;
    var i := 0;
    assert records[..0] == [] && records[0..0] == [];
    while i < |records|
      invariant 0 <= saved <= i <= |records|
      invariant saved == batch * SAVE_BATCH && |bag| < SAVE_BATCH && saved + |bag| == i
      invariant bag == SlimRows(records[saved..i], parseDate, now, author)
      invariant Saved(db.tables, ids, start, SlimRows(records[..saved], parseDate, now, author))
    {
      var record := records[i];
      BagPush(records, saved, i, parseDate, now, author);
      bag := bag + [SlimRow(record, parseDate, now, author)];
      if |bag| >= SAVE_BATCH {
        ids := SaveRecords(db, start, records, saved, i + 1, bag, ids, parseDate, now, author);
        bag := [];
        batch := batch + 1;
        saved := i + 1;
        assert records[saved..saved] == [];
      }
      i := i + 1;
    }
  }

  /**
   * `slim_load`: the records loaded in batches of 1000, then what remains
   * saved at the end. Saving in batches stores what one statement over all
   * rows would, and the ids returned are those of the newly inserted rows,
   * in order. The count of processed entries is the number of records.
   */
  method SlimLoad(db: Db, records: seq<Record>, parseDate: string -> Option<Time>, now: Time, author: string)
    returns (ids: seq<nat>, processed: nat)
    requires db.Valid() && Readable(records, parseDate)
    modifies db
    ensures db.Valid()
    ensures (db.tables, ids) == InsertStatuses(old(db.tables), SlimRows(records, parseDate, now, author))
    ensures processed == |records|
  {
    var bag, batch;
    ids, bag, batch := LoadRecords(db, records, parseDate, now, author);
    ghost var done := records[..batch * SAVE_BATCH];
    assert records == done + records[batch * SAVE_BATCH..];
    SlimRowsAppend(done, records[batch * SAVE_BATCH..], parseDate, now, author);
    if bag != [] {
      ids := SaveBag(db, old(db.tables), SlimRows(done, parseDate, now, author), bag, ids);
    } else {
      assert SlimRows(done, parseDate, now, author) + bag == SlimRows(done, parseDate, now, author);
    }
    InsertStatusesValid(old(db.tables), SlimRows(records, parseDate, now, author));
    processed := batch * SAVE_BATCH + |bag|;
  }

  /**
   * What a load leaves: every record's tweet id is stored; the ids returned
   * increase, are at most one per record, and each holds a new row built
   * from a record whose tweet id was not stored before; and such a row is
   * slim (a target of hydration) exactly when the loader's marker is the
   * slim marker.
   */
  lemma SlimLoadStored(t: Tables, records: seq<Record>, parseDate: string -> Option<Time>, now: Time, author: string)
    requires ValidTables(t) && Readable(records, parseDate)
    ensures var rows := SlimRows(records, parseDate, now, author);
      var (t', ids) := InsertStatuses(t, rows);
      && (forall r <- records :: HasKey(t'.statuses, StatusKey, r.fields[0]))
      && Increasing(ids) && |ids| <= |records|
      && (forall id <- ids ::
            && id in t'.statuses && t'.statuses[id] in rows
            && !HasKey(t.statuses, StatusKey, t'.statuses[id].sourceId)
            && (Hydrate.IsSlimStatus(t'.statuses[id]) <==> author == SLIM_MARK))
  {
    var rows := SlimRows(records, parseDate, now, author);
    InsertIgnoreCovers(t.statuses, t.nextStatus, rows, StatusKey);
    InsertIgnoreIds(t.statuses, t.nextStatus, rows, StatusKey);
    InsertIgnoreNew(t.statuses, t.nextStatus, rows, StatusKey);
    forall r <- records ensures HasKey(InsertStatuses(t, rows).0.statuses, StatusKey, r.fields[0]) {
      var i :| 0 <= i < |records| && records[i] == r;
      assert rows[i] in rows && StatusKey(rows[i]) == r.fields[0];
    }
    forall s <- rows ensures s.source == Twitter && s.sourceAuthor == author {
      var i :| 0 <= i < |rows| && rows[i] == s;
    }
  }

  // ---------------------------------------------------------------------
  // The two programs

  /** The passes to run, as (slim, hydrate), from `--only-slim` and `--only-hydrate`; both flags is an error. */
  function Passes(onlySlim: bool, onlyHydrate: bool): (r: Option<(bool, bool)>)
    ensures r.None? <==> onlySlim && onlyHydrate
    ensures r.Some? ==> (r.value.0 || r.value.1) && (r.value.0 && r.value.1 <==> !onlySlim && !onlyHydrate)
    ensures r.Some? ==> r.value == (!onlyHydrate, !onlySlim)
  {
    if onlySlim && onlyHydrate then None else Some((!onlyHydrate, !onlySlim))
  }

  /**
   * An archive file as the programs see it: whether it sniffs as a zip or
   * a CSV, whether its extension is `.csv`, whether (as a zip) it holds a
   * `tweets.csv`, and the records read from that CSV.
   */
  datatype ArchiveFile = ArchiveFile(isZip: bool, isCsv: bool, extCsv: bool, hasTweetsCsv: bool, records: seq<Record>)

  /** Only a zip, a CSV, or a file named `.csv` is read. */
  predicate Accepted(f: ArchiveFile) {
    f.isZip || f.isCsv || f.extCsv
  }

  /** How a run ends: an exit before any change, or the ids of the new slim rows. */
  datatype LoadOutcome = ConflictingPasses | MissingPath | NotCsvOrZip | NotTwitterArchive | Loaded(ids: seq<nat>)

  /**
   * Loading a file: refused before any change unless it is a zip, a CSV
   * or a `.csv`, and a zip without `tweets.csv` likewise; otherwise its
   * records are loaded.
   */
  ghost predicate LoadedFile(t: Tables, t': Tables, outcome: LoadOutcome, file: ArchiveFile,
                             parseDate: string -> Option<Time>, now: Time, author: string)
    requires Below(t.statuses, t.nextStatus) && Readable(file.records, parseDate)
  {
    && (!Accepted(file) ==> outcome == NotCsvOrZip && t' == t)
    && (Accepted(file) && file.isZip && !file.hasTweetsCsv ==> outcome == NotTwitterArchive && t' == t)
    && (Accepted(file) && !(file.isZip && !file.hasTweetsCsv) ==>
          outcome.Loaded? && (t', outcome.ids) == InsertStatuses(t, SlimRows(file.records, parseDate, now, author)))
  }

  method LoadFile(db: Db, file: ArchiveFile, parseDate: string -> Option<Time>, now: Time, author: string)
    returns (outcome: LoadOutcome)
    requires db.Valid() && Readable(file.records, parseDate)
    modifies db
    ensures db.Valid()
    ensures LoadedFile(old(db.tables), db.tables, outcome, file, parseDate, now, author)
  {
    if !Accepted(file) {
      return NotCsvOrZip;
    }
    if file.isZip && !file.hasTweetsCsv {
      return NotTwitterArchive;
    }
    var ids, processed := SlimLoad(db, file.records, parseDate, now, author);
    outcome := Loaded(ids);
  }

  /**
   * omelette-import-twitter-archive: the file loaded with an empty author,
   * so that none of its rows is slim.
   */
  method ImportArchive(db: Db, file: ArchiveFile, parseDate: string -> Option<Time>, now: Time)
    returns (outcome: LoadOutcome)
    requires db.Valid() && Readable(file.records, parseDate)
    modifies db
    ensures db.Valid()
    ensures LoadedFile(old(db.tables), db.tables, outcome, file, parseDate, now, "")
  {
    outcome := LoadFile(db, file, parseDate, now, "");
  }

  /**
   * omelette-twitter-archive: both `--only` flags exit; the slim pass needs
   * a file and loads it with the slim marker as author; without it nothing
   * is stored. (The hydrate pass only loads the credentials.)
   */
  method ArchiveProgram(db: Db, onlySlim: bool, onlyHydrate: bool, file: Option<ArchiveFile>,
                        parseDate: string -> Option<Time>, now: Time)
    returns (outcome: LoadOutcome)
    requires db.Valid() && (file.Some? ==> Readable(file.value.records, parseDate))
    modifies db
    ensures db.Valid()
    ensures var passes := Passes(onlySlim, onlyHydrate);
      && (passes.None? ==> outcome == ConflictingPasses && db.tables == old(db.tables))
      && (passes.Some? && !passes.value.0 ==> outcome == Loaded([]) && db.tables == old(db.tables))
      && (passes.Some? && passes.value.0 && file.None? ==> outcome == MissingPath && db.tables == old(db.tables))
      && (passes.Some? && passes.value.0 && file.Some? ==>
            LoadedFile(old(db.tables), db.tables, outcome, file.value, parseDate, now, SLIM_MARK))
  {
    var passes := Passes(onlySlim, onlyHydrate);
    if passes.None? {
      return ConflictingPasses;
    }
    var (doSlim, doHydrate) := passes.value;
    outcome := Loaded([]);
    if doSlim {
      if file.None? {
        return MissingPath;
      }
      outcome := LoadFile(db, file.value, parseDate, now, SLIM_MARK);
    }
  }
}
