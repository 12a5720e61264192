# omelette, modelled in Dafny

omelette archives a person's own Twitter activity in a Postgres store and
acts on it. This project models the decision logic at its core and proves
properties of it:

- **Cleanup scheduler** (`Cleanup`, src/bin/omelette-cleanup.rs): finds own
  statuses carrying a `#cleanup` hashtag, reads an optional delay
  (`#cleanup 2h`), walks the reply chain of own parents, and queues one
  deletion request per status of each thread, all with the same
  `not_before`. A parent whose media is not yet downloaded aborts its whole
  thread.
- **Timeline sync** (`Twitter`, src/sources/twitter.rs; `LegacySources`,
  src/sources.rs): picks the two newest stored tweet ids, pages the timeline
  back to the newest one, stores the tweets oldest first with
  insert-or-ignore, attaches media entities to the rows that were actually
  inserted, and prints a hint. Also covers deleting or un-retweeting one
  status, and storing the block list in batches of 4000.
- **Hydration reconciler** (`Hydrate`, src/bin/omelette-twitter-hydrate.rs):
  re-fetches the slim rows (archive imports and block-list ids) in batches
  of 100. Each status row is marked gone, refreshed in place, or replaced by
  its canonical row. Each user row is refreshed or marked missing.
- **Record conversions** (`Inserts`, src/inserts.rs): tweet to status,
  media to entity (URL choice), status to deletion request, and user to
  user row.
- **Archive slim import** (`Archive`, src/bin/omelette-twitter-archive.rs and
  src/bin/omelette-import-twitter-archive.rs): CSV records to slim statuses,
  saved in batches of 1000, with `source_app` taken from an HTML anchor.
- **Source registry and errors** (`Sources`, src/sources/mod.rs).

The store (`Store`) holds four tables: statuses, entities, users and
deletions. Each is a map from internal id to record, with a next-id
counter. Its invariant is that `source_id` is unique per table. Every
`insert ... on_conflict(source_id).do_nothing()` of the program is the one
function `Table.InsertIgnore`. `Store.Db` is the shared connection: a class
whose `tables` field each state-changing method reassigns.

Remote calls are parameters: the timeline pages, the tweet and user
lookups, the block list, delete/unretweet, and environment variables. So
are the clock (`now`), the batch timings, the hashtag tokenizer and the
archive's date parser. A data condition on which the program panics
(`expect` on an id that does not parse, on a missing reply author, and so
on) is a precondition.

Modules: `Wrappers`, `Text` (u32/u64 parsing and decimal rendering), `Seqs`
(chunking and flattening), `Types` (the records of src/models.rs and
src/inserts.rs), `Table`, `Store`, `Inserts`, `Sources`, `Twitter`,
`LegacySources`, `Cleanup`, `Hydrate` and `Archive`.

## Model

| member | source | states |
|---|---|---|
| Text.DecimalString | src/inserts.rs:73 | `format!("{}", id)` yields a non-empty string of ASCII digits with no leading zero |
| Text.ParseDecimalString | src/sources/twitter.rs:68 | parsing the rendering of `n` with a bound gives back `n` exactly when `n` is below the bound, and fails otherwise |
| Text.DecimalStringInjective | src/inserts.rs:227 | distinct numeric ids render to distinct `source_id`s |
| Text.DecimalStringIsCanonical | src/inserts.rs:268 | the rendering of any u64 is a canonical u64 numeral, which is what the user table's invariant asks |
| Seqs.ChunksFlatten | src/bin/omelette-twitter-hydrate.rs:50 | `chunks(n)` covers the whole id list in order: concatenating the chunks gives the list back |
| Seqs.ChunksSizes | src/bin/omelette-twitter-hydrate.rs:50 | every chunk is non-empty and has at most `n` ids, and every chunk but the last has exactly `n` |
| Seqs.ChunksCount | src/bin/omelette-twitter-hydrate.rs:66 | the number of chunks is the ceiling of length / `n` |
| Seqs.FlattenMembers | src/bin/omelette-cleanup.rs:129 | a request is in the flattened list exactly when it is in one of the threads |
| Seqs.FlattenAppend | src/bin/omelette-cleanup.rs:129 | flattening distributes over concatenation, so threads can be flattened one at a time |
| Table.InsertIgnoreIds | src/sources/twitter.rs:203-211 | every proposed row uses up one serial value, conflicting or not, as Postgres draws the `id` default before the conflict check. The returned ids are strictly increasing and fresh, at most one per bag row, and the row under id `old serial + j` is the bag's row `j` |
| Table.InsertIgnoreKeeps | src/sources/twitter.rs:203-211 | existing rows are untouched and every id stays below the serial |
| Table.InsertIgnoreKeys | src/sources/twitter.rs:203-211 | the new table's ids are the old ids plus exactly the returned ids |
| Table.InsertIgnoreFrame | src/sources/twitter.rs:203-211 | both of the above in one statement |
| Table.InsertIgnoreNew | src/sources/twitter.rs:203-211 | each returned id holds a bag row whose `source_id` was not stored before, so conflicting rows add nothing |
| Table.InsertIgnoreUnique | src/sources/twitter.rs:206 | `on_conflict(source_id).do_nothing()` keeps `source_id` unique |
| Table.InsertIgnoreCovers | src/sources/twitter.rs:203-211 | afterwards every `source_id` of the bag is stored |
| Table.InsertIgnoreNothingNew | src/sources/twitter.rs:203-211 | a bag whose `source_id`s are all stored inserts nothing and changes no row; the serial moves on by the bag's length |
| Table.InsertIgnoreIdempotent | src/sources/twitter.rs:203-211 | running the same insert twice: the second run inserts 0 and changes no row (only the serial moves on) |
| Table.InsertIgnoreAppend | src/bin/omelette-twitter-archive.rs:146-178 | inserting `a + b` in one statement equals inserting `a` and then `b`, with the ids concatenated, so batching does not change what is stored |
| Table.UpdateSameKey | src/bin/omelette-twitter-hydrate.rs:158-163 | an in-place update that keeps `source_id` keeps it unique |
| Store.InsertStatusesValid | src/sources/twitter.rs:203-211 | inserting statuses keeps the store invariant and leaves entities, users and deletions alone |
| Store.InsertEntitiesValid | src/sources/twitter.rs:227-235 | inserting entities keeps the invariant and leaves the other tables alone |
| Store.InsertUserIdsValid | src/sources/twitter.rs:93-100 | inserting canonical user ids keeps the invariant and leaves the other tables alone |
| Store.InsertUserIdsAppend | src/sources/twitter.rs:114-124 | two user-id inserts equal one over both bags, and their counts add up |
| Store.InsertStatusesAppend | src/bin/omelette-import-twitter-archive.rs:120-152 | two status inserts equal one over both bags, with the same ids in order |
| Store.UpdateUserValid | src/bin/omelette-twitter-hydrate.rs:275-285 | rewriting a user row that keeps its `source_id` keeps the invariant |
| Inserts.StatusFromTweetIdentity | src/inserts.rs:39-110 | `is_repost` holds iff `retweeted_status` is present, and `reposted_at` is `Some(outer created_at)` exactly then. `source_id` parses to the original tweet's id. Text and `posted_at` come from the original. The source is Twitter, with no `deleted_at` and no `fetched_via` |
| Inserts.StatusFromTweetAuthor | src/inserts.rs:66-107 | `source_author` ends in ` (<user id>)` and `public` is `!protected` when there is a user. Otherwise the author is `""` and the status is not public. `is_marked` holds iff `favorited == Some(true)` |
| Inserts.MaxBitrateIndex | src/inserts.rs:138-145 | picks a variant whose bitrate, with None counted as 0, is maximal |
| Inserts.FirstZeroBitrate | src/inserts.rs:130-136 | finds the first variant with bitrate `Some(0)`, or reports that there is none |
| Inserts.MediaUrlSelection | src/inserts.rs:125-161 | a photo gets `media_url_https`. A GIF gets the first bitrate-0 variant's URL. A video gets a maximal-bitrate variant's URL, or `media_url_https` when it has no variants |
| Inserts.EntitiesFromMediaShape | src/inserts.rs:163-175 | one entity per media item, in order, with `ordering = Some(index)`, `status_id` placeholder 0, and the media's id and type |
| Inserts.UserFromEggFields | src/inserts.rs:224-253 | a user row has `blocked_at`/`muted_at` None, `missing` false and `fetched_at = now`. Its `source_id` is the canonical rendering of the user id, and `withheld_in` is present iff the countries are |
| Inserts.UserIdFromU64Fields | src/inserts.rs:265-275 | an id-only user row has screen name `~slim~`, an empty name and a canonical `source_id` parsing to the id |
| Sources.ErrorConversions | src/sources/mod.rs:32-61 | the `From` conversions wrap env, database and Twitter errors losslessly. Database and Twitter errors never collide with each other or with `AlreadyDone`/`WrongSource`/`Unimplemented` |
| Sources.LoadTwitter | src/sources/twitter.rs:30-52 | loading fails iff one of the five variables is unset. On success the user id is the parsed `TWITTER_USER_ID` |
| Sources.LoadedSources | src/sources/mod.rs:8-24 | never more sources than attempts |
| Sources.LoadedSourcesExact | src/sources/mod.rs:8-24 | a source is kept exactly when its load succeeded |
| Sources.AllAvailable | src/sources/mod.rs:8-24 | never fails. The loaded sources are kept in order and each failure is reported instead. Kept plus reported equals the number of attempts |
| Sources.AvailableSources | src/sources/mod.rs:8-24 | with the one registered source, the list is empty exactly when its load fails |
| Twitter.Latest2 | src/sources/twitter.rs:54-73 | the anchors are the two numerically largest ids among Twitter, non-repost, non-deleted rows, popped as (penultimate, latest). With one row, latest is None and penultimate is that id |
| Twitter.LatestIdIsMax | src/sources/twitter.rs:147-148 | `latest.or(penultimate).unwrap_or(0)` is 0 with no candidate row. Otherwise it is a candidate's id and no candidate's id exceeds it |
| Twitter.Reverse | src/sources/twitter.rs:193 | `reverse` puts element `i` at position `len - 1 - i` |
| Twitter.PagingStopsOnce | src/sources/twitter.rs:162-191 | the stopping call count is unique |
| Twitter.PagingBounded | src/sources/twitter.rs:188 | the 3200 cap bounds the number of pages read |
| Twitter.EntityBagKeys | src/sources/twitter.rs:174-176 | every bag key is the id of a page tweet with extended media, filed with that tweet's entities |
| Twitter.AttachOwned | src/sources/twitter.rs:215-223 | every attached entity belongs to a newly inserted row and comes from the bag entry under that row's `source_id`, tagged with the row's id |
| Twitter.AttachComplete | src/sources/twitter.rs:215-223 | for inserted rows with distinct `source_id`s, every entity under an inserted row's key is attached to that row |
| Twitter.SyncHintMeaning | src/sources/twitter.rs:237-243 | with at most as many inserted as fetched, the hint is "as expected" iff inserted = fetched − 1, "something's odd" iff inserted = fetched (including an empty bag, where `len() - 1` wraps in a release build; a debug build panics there), and "some duplicates" otherwise |
| Twitter.PushTweet | src/sources/twitter.rs:170-181 | reading one more tweet appends its status and, when it has media, files them under its id |
| Twitter.ReadTweet | src/sources/twitter.rs:170-181 | the loop body for one tweet, proved equal to the specification functions of the tweets read so far, and `contains_latest` true iff the latest id was among them |
| Twitter.ReadPage | src/sources/twitter.rs:168-186 | after one page, the bags are those of all tweets read so far. `contains_latest` holds iff the page holds the latest id, and `ntweets` is the page length |
| Twitter.FetchTimeline | src/sources/twitter.rs:162-191 | stops exactly when a page holds the latest id, is empty, or the bag reaches 3200. The bags are those of every page up to that one, in order. A failed call is reported |
| Twitter.AttachEntities | src/sources/twitter.rs:215-223 | the entity sack is the specification `Attach` of the inserted ids, each bag entry consumed at most once |
| Twitter.Sync | src/sources/twitter.rs:146-251 | the anchors are those of the old store. A failed timeline call writes nothing. Otherwise the store is the old one plus the reversed statuses, then the reversed attached entities. The counts and hint are those of that insert, and inserted ≤ fetched |
| Twitter.PlanDelete | src/sources/twitter.rs:253-270 | `AlreadyDone` iff `deleted_at` is set. Otherwise `WrongSource` iff the source is not Twitter. Otherwise a remote call on the parsed id: unretweet iff the status is a repost |
| Twitter.MarkDeletedValid | src/sources/twitter.rs:272-277 | setting `deleted_at` keeps the invariant and changes only that row's `deleted_at`. A second delete is then refused as `AlreadyDone` |
| Twitter.Delete | src/sources/twitter.rs:253-280 | refusals and a failed remote call leave the store unchanged. `deleted_at = now` is set only after the remote call succeeds, and a failed update reports `Database` |
| Twitter.BlockRows | src/sources/twitter.rs:87 | the bag holds one id-only user row per block id, in order |
| Twitter.BlockPauseAsWrittenOverflows | src/sources/twitter.rs:105-107 | as written, in a release build, a 61-second batch computes a sleep of 2^64 − 1 seconds (a debug build panics on the subtraction) |
| Twitter.BlockPauseBounded | src/sources/twitter.rs:105-107 | the corrected pause is at most 60 s, brings the batch up to 60 s, and agrees with the source whenever the batch took ≤ 60 s |
| Twitter.BlockRowsSplit | src/sources/twitter.rs:89-124 | saving a prefix and then the next slice equals saving both at once |
| Twitter.BlockRowsCanonical | src/inserts.rs:265-275 | every block row's `source_id` is canonical, so block inserts keep the user-table invariant |
| Twitter.SaveBlockBag | src/sources/twitter.rs:114-124 | one bag save is the insert-or-ignore of the bag, and its count is the number inserted |
| Twitter.SaveFullBatch | src/sources/twitter.rs:89-108 | the flush at every 4000th id keeps the running invariant: everything up to the flush is stored, and the pause recorded for the flush is the as-written `60 - elapsed` in u64 |
| Twitter.BlockPauseStalls | src/sources/twitter.rs:105-107 | as written, in a release build, a batch over 60 s computes a pause of 2^64 + 60 − elapsed seconds, which is over 60 s |
| Twitter.OnBlockId | src/sources/twitter.rs:84-112 | one streamed id keeps the running invariant (every id streamed so far is stored or in the bag, one pause per flush). It stalls exactly when the flush it triggered took over 60 s: the bag is then empty, everything streamed is stored, and every earlier flush took at most 60 s |
| Twitter.StreamBlockIds | src/sources/twitter.rs:84-112 | the stream loop ends with every id streamed and no flush over 60 s, or stalls right after the first flush over 60 s with exactly the ids up to it stored |
| Twitter.FetchBlockIds | src/sources/twitter.rs:76-127 | finishes iff no full batch of 4000 took over 60 s, and then returns (all ids streamed, newly inserted) with the store the insert-or-ignore of every block id, as if in one statement, and one as-written pause per full batch. If the stream fails after its ids (no batch over 60 s), the pass stops with the full batches stored and the pending bag lost. Otherwise it stalls at the first batch over 60 s (the source sleeps about 2^64 s, or panics in a debug build) with only the ids up to that batch stored |
| LegacySources.LoadLegacy | src/sources.rs:19-41 | the older loader succeeds exactly as the current one does, with the same source |
| LegacySources.LegacyReadPage | src/sources.rs:102-113 | the same page loop without entities: the bag is the statuses of all tweets so far, and `contains_latest` holds iff the page holds the latest id |
| LegacySources.LegacyFetchTimeline | src/sources.rs:94-118 | the same stop rule: contains latest, empty page, or ≥ 3200 |
| LegacySources.LegacySync | src/sources.rs:79-145 | anchors filter Twitter and non-repost rows, deleted ones included. The bag is inserted in fetch order, with no reversal and no entities, and the hint is the same three-way hint |
| Cleanup.Span | src/bin/omelette-cleanup.rs:53 | the longest prefix of characters in a class, as `\s+` and `\d+` match |
| Cleanup.FirstMatch | src/bin/omelette-cleanup.rs:53-62 | the regex finds a match iff the text contains `#cleanup`. A captured duration is digits followed by a unit among s, m, h, d |
| Cleanup.Capture | src/bin/omelette-cleanup.rs:53 | the optional group captures non-empty digits and a unit letter |
| Cleanup.FirstMatchAtStart | src/bin/omelette-cleanup.rs:53 | for text that starts with the tag, the match is at position 0 with the capture of what follows |
| Cleanup.CaptureOf | src/bin/omelette-cleanup.rs:53 | whitespace, digits and a unit are captured as that duration |
| Cleanup.TagWithMatch | src/bin/omelette-cleanup.rs:53 | `#cleanup <n><unit>` matches with amount the decimal of `n` and that unit |
| Cleanup.DelayOfTag | src/bin/omelette-cleanup.rs:62-91 | corrected (not used by the pass): `#cleanup <n><unit>` delays `n` × the unit's seconds, or 900 s when `n` overflows u32 |
| Cleanup.DelayAsWrittenOfTag | src/bin/omelette-cleanup.rs:62-91 | as written: `#cleanup <n><unit>` delays `n` seconds whatever the unit, or 900 s when `n` overflows u32 |
| Cleanup.DelayAsWrittenOfDuration | src/bin/omelette-cleanup.rs:68-81 | as written, a matched duration is its amount read as u32, or 900 s when that does not parse |
| Cleanup.TwoHoursAsWritten | src/bin/omelette-cleanup.rs:68-73 | `#cleanup 2h` waits 2 s as written; the intended delay is 7200 s |
| Cleanup.DelayBare | src/bin/omelette-cleanup.rs:62-91 | with no duration after the tag, both versions delay 15 × 60 = 900 s |
| Cleanup.DelayAgreement | src/bin/omelette-cleanup.rs:62-91 | the as-written and corrected delays agree iff there is no duration, the unit is `s`, or the amount is 0 or fails to parse |
| Cleanup.OwnParentMeaning | src/bin/omelette-cleanup.rs:149-186 | Stop iff there is no reply id or no live own status with that source id. Parent returns that live own status. Abort iff the parent's joined entity has no blob |
| Cleanup.WalkChain | src/bin/omelette-cleanup.rs:100-114 | a finished walk is a chain: each status's own parent is the next, and the last one Stops |
| Cleanup.WalkFuelMonotone | src/bin/omelette-cleanup.rs:100-114 | a walk that ends gives the same result with more fuel |
| Cleanup.HungAncestor | src/bin/omelette-cleanup.rs:100-114 | a walk runs out of fuel iff `own_parent` finds a parent one step beyond the fuel |
| Cleanup.AncestorsRepeat | src/bin/omelette-cleanup.rs:149-186 | a chain of own parents longer than the stored statuses meets one status twice, since a parent is the stored row of its id |
| Cleanup.HungForever | src/bin/omelette-cleanup.rs:100-114 | a walk still finding parents after as many steps as there are statuses is in a reply cycle: it finds parents at every fuel, so the unguarded `loop` never ends |
| Cleanup.WalkOwned | src/bin/omelette-cleanup.rs:100-114 | every parent in a walk is a live own status |
| Cleanup.ThreadDeletions | src/bin/omelette-cleanup.rs:94-107 | a thread has one request per walked status plus the trigger |
| Cleanup.NotBeforeOfTag | src/bin/omelette-cleanup.rs:62-93 | as the pass computes it, a thread tagged `#cleanup <n><unit>` is due `n` seconds from now whatever the unit, or 900 s when `n` overflows u32 |
| Cleanup.ThreadDeletionsShape | src/bin/omelette-cleanup.rs:93-107 | the trigger comes first, then the ancestors in walk order. All share one `not_before` and the sponsor "omelette" (`NewDeletion::from_status`, src/inserts.rs:185-193) |
| Cleanup.Matches | src/bin/omelette-cleanup.rs:56-121 | never more threads than request rows |
| Cleanup.UntaggedYieldNothing | src/bin/omelette-cleanup.rs:59-61 | rows without a true `#cleanup` hashtag yield no thread, even when the substring matched the query |
| Cleanup.MatchesShape | src/bin/omelette-cleanup.rs:34-121 | every thread is non-empty and starts with a tagged request. Every entry is a live own status sponsored by omelette, with that request's `not_before`: now plus the delay as written (a duration counts in seconds) |
| Cleanup.TaggedRequestIncluded | src/bin/omelette-cleanup.rs:94-116 | a tagged request whose walk finishes contributes exactly its thread |
| Cleanup.AbortedDropsThread | src/bin/omelette-cleanup.rs:104 | an aborted walk drops that thread only; the others are unaffected |
| Cleanup.FollowThread | src/bin/omelette-cleanup.rs:94-116 | the loop reassigning `stat` and pushing onto `thread` computes the walk and its deletions |
| Cleanup.RowThread | src/bin/omelette-cleanup.rs:57-120 | the closure for one request row computes that row's outcome |
| Cleanup.MatchesBeyondFuel | src/bin/omelette-cleanup.rs:56-121 | with fuel for as many parents as there are statuses, any more fuel gives the same threads, and a pass that hangs there hangs at every fuel |
| Cleanup.Cleanup | src/bin/omelette-cleanup.rs:34-140 | each walk may take as many parents as there are statuses, which loses nothing (MatchesBeyondFuel). NeverEnds, with nothing written, exactly when a tagged row's walk is in a reply cycle. No request rows, or no surviving thread, changes nothing. Otherwise all deletions are appended in one insert, each due at the as-written `not_before` of its thread, their count is the sum of the thread lengths, and the thread count is reported |
| Hydrate.Targets | src/bin/omelette-twitter-hydrate.rs:29-34 | at least one target. With no flag both are hydrated, otherwise exactly the flagged ones |
| Hydrate.EstimateBounds | src/bin/omelette-twitter-hydrate.rs:76-93 | with seconds = n·5/100, hours = seconds/3600 and the minutes are always in 1..60. The estimate is within 30 s below and 60 s above the seconds |
| Hydrate.HydrateEst | src/bin/omelette-twitter-hydrate.rs:76-93 | "M minutes" when hours = 0, else "H hours M minutes", with H and M the decimal hours and minutes of the estimate |
| Hydrate.RateLimitPause | src/bin/omelette-twitter-hydrate.rs:215-217 | sleeps iff the batch took at most 5 s, and then exactly up to 5 s |
| Hydrate.Present | src/bin/omelette-twitter-hydrate.rs:112-121 | the rows the batch query finds are exactly the batch ids present in the table |
| Hydrate.PresentDistinct | src/bin/omelette-twitter-hydrate.rs:131-137 | distinct batch ids give distinct rows |
| Hydrate.RefreshUserFields | src/bin/omelette-twitter-hydrate.rs:275-285 | a found user's row is stated field by field: every plain field comes from upstream, it keeps `blocked_at`/`muted_at`, it is not missing and `fetched_at = now`. Each optional field that upstream leaves `None` keeps the stored value (no `treat_none_as_null`) |
| Hydrate.UserMapMeaning | src/bin/omelette-twitter-hydrate.rs:256-260 | the map holds exactly the looked-up users' ids, each to a user with that id |
| Hydrate.BuildUserMap | src/bin/omelette-twitter-hydrate.rs:256-260 | the loop filling the HashMap builds that map |
| Hydrate.HydrateUserRowValid | src/bin/omelette-twitter-hydrate.rs:270-295 | reconciling one user row keeps the invariant, touches only that row and only the users table |
| Hydrate.HydrateUserRowsValid | src/bin/omelette-twitter-hydrate.rs:270-295 | reconciling the batch keeps the invariant and leaves rows outside the batch alone |
| Hydrate.HydrateUserRowsResult | src/bin/omelette-twitter-hydrate.rs:275-293 | each batch row ends up refreshed when found, else `missing = true` with `fetched_at = now` |
| Hydrate.HydrateUserRowsKeep | src/bin/omelette-twitter-hydrate.rs:270-295 | rows outside the batch are unchanged |
| Hydrate.HydrateUsers | src/bin/omelette-twitter-hydrate.rs:270-295 | the row loop computes the batch reconciliation |
| Hydrate.HydrateUser | src/bin/omelette-twitter-hydrate.rs:271-294 | one loop iteration computes that row's reconciliation |
| Hydrate.HydrateUserBatch | src/bin/omelette-twitter-hydrate.rs:220-300 | a failed lookup returns at once with the store unchanged and no sleep. Otherwise every present row is reconciled and the pause is `max(0, 5 s − elapsed)` |
| Hydrate.HydrateTweetRowValid | src/bin/omelette-twitter-hydrate.rs:139-213 | one reconciliation keeps the invariant, touches only the statuses and entities, and leaves other status rows alone |
| Hydrate.HydrateTweetGone | src/bin/omelette-twitter-hydrate.rs:204-212 | a status not found gets `source_author = ""` and `deleted_at = now`, and is otherwise unchanged, as are the entities |
| Hydrate.HydrateTweetFound | src/bin/omelette-twitter-hydrate.rs:146-203 | a found status comes back with `fetched_via = TwitterArchive`. With the same `source_id` it is updated in place. With a different one the slim row is deleted and the canonical row inserted, or the existing one reused. Its entities are then stored under the owning row |
| Hydrate.HydrateTweetRowsValid | src/bin/omelette-twitter-hydrate.rs:139-213 | the batch keeps the invariant and leaves rows outside it alone |
| Hydrate.HydrateTweetRowsResult | src/bin/omelette-twitter-hydrate.rs:139-213 | each batch row ends up marked gone, replaced in place, or removed (identity collapse) |
| Hydrate.HydrateTweet | src/bin/omelette-twitter-hydrate.rs:142-212 | one loop iteration, a single transaction, computes that row's reconciliation |
| Hydrate.HydrateTweets | src/bin/omelette-twitter-hydrate.rs:139-213 | the row loop computes the batch reconciliation |
| Hydrate.HydrateTweetBatch | src/bin/omelette-twitter-hydrate.rs:95-218 | a failed lookup returns at once, store unchanged. Otherwise every present row is reconciled and the pause is `max(0, 5 s − elapsed)` |
| Hydrate.BatchReady | src/bin/omelette-twitter-hydrate.rs:123-143 | a lookup answering every requested id gives every present row an answer |
| Hydrate.RehydratedNotSlim | src/bin/omelette-twitter-hydrate.rs:146-147 | a refreshed status never matches the slim filter again |
| Hydrate.HydratedNotSlim | src/bin/omelette-twitter-hydrate.rs:139-213 | after a batch, no surviving row of it is slim |
| Hydrate.HydrateTweetChunks | src/bin/omelette-twitter-hydrate.rs:50-53 | batch after batch keeps the invariant and never touches users or deletions |
| Hydrate.HydrateUserStepValid | src/bin/omelette-twitter-hydrate.rs:66-69 | a user batch keeps the invariant and touches only the users table, keeping its ids |
| Hydrate.HydrateUserChunks | src/bin/omelette-twitter-hydrate.rs:66-69 | the user batches together touch only the users table, keeping its ids |
| Hydrate.HydrateTweetRun | src/bin/omelette-twitter-hydrate.rs:39-55 | the tweets pass keeps the invariant and never touches users or deletions |
| Hydrate.HydrateUserRun | src/bin/omelette-twitter-hydrate.rs:57-71 | the users pass touches only the users table |
| Hydrate.HydrateAllTweets | src/bin/omelette-twitter-hydrate.rs:39-55 | the chunk loop computes the tweets pass, with one result per chunk of 100: a failed lookup or that batch's pause |
| Hydrate.HydrateTweetChunk | src/bin/omelette-twitter-hydrate.rs:50-53 | one chunk iteration advances the pass by one batch |
| Hydrate.HydrateAllUsers | src/bin/omelette-twitter-hydrate.rs:57-71 | the chunk loop computes the users pass, with one result per chunk |
| Hydrate.HydrateUserChunk | src/bin/omelette-twitter-hydrate.rs:66-69 | one chunk iteration advances the pass by one batch |
| Hydrate.Hydrate | src/bin/omelette-twitter-hydrate.rs:18-75 | the tweets pass, then the users pass, each run iff selected. The tweets pass leaves the slim users as they were |
| Archive.QuoteFree | src/bin/omelette-twitter-archive.rs:93 | `[^"]+` stops at the first quote |
| Archive.LastGt | src/bin/omelette-twitter-archive.rs:93 | the greedy `.*>` ends at the last `>` before the name |
| Archive.MatchAnchor | src/bin/omelette-twitter-archive.rs:93 | a match has a non-empty quote-free URL and a non-empty name |
| Archive.MatchAnchorSound | src/bin/omelette-twitter-archive.rs:93 | a matched field is exactly `<a href="URL"` + attributes + `>NAME</a>`, with no newline after the URL |
| Archive.MatchNameSound | src/bin/omelette-twitter-archive.rs:93 | the tail after the URL splits as attributes, `>`, name, `</a>` |
| Archive.SourceAppOfAnchor | src/bin/omelette-twitter-archive.rs:113-116 | every well-formed anchor is matched, and `source_app` is `NAME <URL>` |
| Archive.MatchNameOf | src/bin/omelette-twitter-archive.rs:93 | a name without `>` after any attributes is recovered |
| Archive.SourceAppShape | src/bin/omelette-twitter-archive.rs:113-116 | `source_app` is non-empty iff the field matches, and a match starts with `<a href="` and ends with `</a>` |
| Archive.SlimRows | src/bin/omelette-twitter-archive.rs:101-144 | one slim row per record |
| Archive.SlimRowsAppend | src/bin/omelette-twitter-archive.rs:101-163 | the rows of two record runs are the rows of each, concatenated |
| Archive.SaveBag | src/bin/omelette-twitter-archive.rs:151-159 | saving a bag extends what is saved, and its ids, by the bag |
| Archive.SaveRecords | src/bin/omelette-twitter-archive.rs:146-162 | the flush at 1000 records saves exactly the records read so far |
| Archive.LoadRecords | src/bin/omelette-twitter-archive.rs:101-163 | after the loop, batches × 1000 records are saved and the remainder (< 1000) is in the bag |
| Archive.SlimLoad | src/bin/omelette-twitter-archive.rs:89-186 | the store is the insert-or-ignore of all slim rows, as one statement. The ids returned are the new rows' ids in order. The processed count is the number of records |
| Archive.SlimLoadStored | src/bin/omelette-twitter-archive.rs:123-144 | every record's id is stored afterwards. Each returned id is a new row from the records, in increasing order, whose id was not stored before. It is slim for the hydrator iff the author is `~slim~`, so import rows (author `""`) never are |
| Archive.Passes | src/bin/omelette-twitter-archive.rs:41-47 | both flags is an error. Otherwise the slim pass runs iff `--only-hydrate` is absent and the hydrate pass iff `--only-slim` is absent, so at least one runs and both run iff no flag is given |
| Archive.LoadFile | src/bin/omelette-twitter-archive.rs:52-76 | neither zip nor csv aborts with no change. So does a zip without `tweets.csv`. Otherwise the records are slim-loaded |
| Archive.ImportArchive | src/bin/omelette-import-twitter-archive.rs:28-61 | the same checks, then a slim load with author `""` |
| Archive.ArchiveProgram | src/bin/omelette-twitter-archive.rs:41-86 | conflicting flags, a hydrate-only run and a missing path leave the store unchanged. Otherwise the file is loaded with author `~slim~` |

## Left out

- Postgres and Diesel are abstract maps. Each statement or transaction is one atomic update. `RETURNING` rows come back in insertion order. Each table's serial is a counter that every proposed insert row advances, whether the row is inserted or skipped on conflict. SQL ordering by `to_number` is numeric order on ids. Store errors are not modelled except the update in `delete`.
- Network calls are oracle parameters: the timeline, `lookup`/`lookup_map`, `blocks_ids`, `delete`/`unretweet` and the environment. So are `Utc::now`, `Instant`/`sleep` (durations are parameters in whole units) and tokio.
- Hashtag tokenisation (`egg_mode_text::entities`) is an uninterpreted predicate. `\s` is the Unicode White_Space set, but `\d` is the ASCII digits only, not the Unicode decimal-digit class of the `regex` crate.
- The cleanup query's left join yields one row per (status, entity). The model takes the rows as given, so a trigger with several entities is handled once per row, as in the source.
- Cleanup.Cleanup: `own_parent` has no cycle guard, so on a reply cycle the source loops forever. The model bounds each walk by the number of stored statuses, proves that a walk hung at that bound is in a cycle (HungForever), and reports NeverEnds without writing.
- Cleanup.DelayOfTag: `n * multiplier` is not wrapped to u32. This only concerns the corrected delay: as written the multiplier for a matched duration is always 1, so the source cannot overflow there.
- Twitter.SyncHint, Twitter.BlockPauseAsWritten: take release-build semantics, where the u64 subtraction wraps. A debug build (`cfg!(debug_assertions)`) panics there instead.
- Twitter.FetchBlockIds: a release build sleeps about 2^64 s after a batch over 60 s, and a debug build panics there. Both are modelled as the Stalled outcome, with nothing after that batch stored.
- Twitter.FetchBlockIds: the `blocks_ids` stream is the sequence of ids it yields plus whether it then fails. A failure is the panic at src/sources/twitter.rs:112, modelled as the BlocksFailed outcome.
- LegacySources.LegacySync: a failed timeline call is a panic at src/sources.rs:96-97. The model reports LegacyTimelineFailed and writes nothing.
- Hydrate.Present: rows are reconciled in batch order. The source's `eq_any` load has no ORDER BY, so the database may return them in another order, and then the serial values that canonical inserts draw can differ.
- CSV and ZIP reading and MIME sniffing are abstracted as flags on the file and a sequence of records. Date parsing is an oracle, and an unparsable date or a short record (a panic in the source) is a precondition.
- The archive program's hydrate pass only loads credentials and does nothing else, so it is not modelled.
- Logging output other than the sync hint and the returned counts is not modelled.
- src/store.rs (media download and blob storage) is not part of this model: only its effect, a `blob_hash` on an entity, matters here.
- src/sources/twitter_archive.rs is a stub and not part of this model. Neither are src/bin/omelette-delete.rs and the other entry points, which are plumbing.
- `geolocation_lat`/`lon` (floating point) are not modelled.
- Inserts.UserFromEggFields: states that `withheld_in` is present iff the countries are, not that it is their `", "` join.
- Hydrate.HydrateTweetBatch: requires the lookup to answer every requested id and the slim ids to parse. The source panics otherwise.
- Hydrate.Hydrate: the users pass runs on the slim user ids given at the start. The tweets pass leaves users unchanged, so the source's query after it returns the same ids.
- Twitter.Sync: a failed timeline call is a panic in the source. The model reports it and writes nothing.
- Twitter.Sync: an entity bag is keyed by the outer tweet id, so a retweet's media, filed under the retweet's id, never attach to the row keyed by the original id. This is modelled as written.

## Findings

| source | as written | input that shows it | evidently intended | confidence | as-written member | corrected member |
|---|---|---|---|---|---|---|
| src/bin/omelette-cleanup.rs:68-73 | the unit is looked up in capture group 1, which holds the digits, so the multiplier is always 1 | `#cleanup 2h` waits 2 s (the pass models this) | look up group 2, so `2h` waits 7200 s | not executed | Cleanup.TwoHoursAsWritten | Cleanup.DelayOfTag |
| src/sources/twitter.rs:105-107 | `60 - elapsed` is a u64 subtraction that wraps in a release build (a debug build panics) when a batch took longer than 60 s | in a release build a batch taking 61 s sleeps 2^64 − 1 s, so the block list is never finished | sleep `max(0, 60 − elapsed)` | not executed | Twitter.BlockPauseAsWrittenOverflows | Twitter.BlockPauseBounded |
