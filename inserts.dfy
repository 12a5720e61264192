/**
 * Conversions from remote records to insertable rows (src/inserts.rs).
 * `Utc::now()` inside a conversion is the parameter `now`.
 */
module Inserts {
  import opened Wrappers
  import opened Text
  import opened Types

  /** The tweet a status is built from: the retweeted one for a retweet. */
  function Original(t: Tweet): Tweet {
    if t.retweetedStatus.Some? then t.retweetedStatus.value else t
  }

  /** The conversion unwraps the reply user id whenever a reply screen name is present. */
  predicate ReplyUserKnown(t: Tweet) {
    t.inReplyToScreenName.Some? ==> t.inReplyToUserId.Some?
  }

  /** `"NAME" <@SCREEN> (ID)`, the author string of a full status. */
  function AuthorOf(u: TweetUser): string {
    "\"" + u.name + "\" <@" + u.screenName + "> (" + DecimalString(u.id) + ")"
  }

  /** The suffix the queries match an author against: ` (ID)`. */
  function AuthorSuffix(uid: U64): string {
    " (" + DecimalString(uid) + ")"
  }

  function OptDecimal(n: Option<U64>): Option<string> {
    if n.Some? then Some(DecimalString(n.value)) else None
  }

  /** `From<&Tweet> for NewStatus`. */
  function StatusFromTweet(tweet: Tweet, now: Time): NewStatus
    requires ReplyUserKnown(Original(tweet))
  {
    var isRepost := tweet.retweetedStatus.Some?;
    var o := Original(tweet);
    NewStatus(
      text := o.text,
      authorId := None,
      postedAt := o.createdAt,
      fetchedAt := now,
      fetchedVia := None,
      deletedAt := None,
      isRepost := isRepost,
      repostedAt := if isRepost then Some(tweet.createdAt) else None,
      isMarked := tweet.favorited.UnwrapOr(false),
      markedAt := None,
      source := Twitter,
      sourceId := DecimalString(o.id),
      sourceAuthor := if o.user.Some? then AuthorOf(o.user.value) else "",
      sourceApp := o.source.name + " <" + o.source.url + ">",
      inReplyToStatus := OptDecimal(o.inReplyToStatusId),
      inReplyToUser :=
        if o.inReplyToScreenName.Some?
        then Some(o.inReplyToScreenName.value + " <@" + DecimalString(o.inReplyToUserId.value) + ">")
        else None,
      quotingStatus := OptDecimal(o.quotedStatusId),
      public := if o.user.Some? then !o.user.value.protected else false)
  }

  /**
   * A status is a repost exactly when the tweet retweets another; it then
   * carries the ORIGINAL's id, text and date, and the retweet's date as
   * `repostedAt`. Its native id reads back as a u64.
   */
  lemma StatusFromTweetIdentity(tweet: Tweet, now: Time)
    requires ReplyUserKnown(Original(tweet))
    ensures var s := StatusFromTweet(tweet, now);
      && (s.isRepost <==> tweet.retweetedStatus.Some?)
      && (s.repostedAt.Some? <==> s.isRepost)
      && (s.isRepost ==> s.repostedAt == Some(tweet.createdAt))
      && ParseU64(s.sourceId) == Some(Original(tweet).id)
      && (s.isRepost ==> ParseU64(s.sourceId) == Some(tweet.retweetedStatus.value.id))
      && s.text == Original(tweet).text && s.postedAt == Original(tweet).createdAt
      && s.source == Twitter && s.deletedAt.None? && s.fetchedVia.None?
  {
    ParseDecimalString(Original(tweet).id, U64_LIMIT);
  }

  /**
   * A status whose original tweet has a user matches that user's author
   * filter (` (ID)` at the end), is public exactly when the user is not
   * protected; without a user its author is empty and it is not public.
   */
  lemma StatusFromTweetAuthor(tweet: Tweet, now: Time)
    requires ReplyUserKnown(Original(tweet))
    ensures var s := StatusFromTweet(tweet, now); var u := Original(tweet).user;
      && (u.Some? ==> EndsWith(s.sourceAuthor, AuthorSuffix(u.value.id)) && s.public == !u.value.protected)
      && (u.None? ==> s.sourceAuthor == "" && !s.public)
      && (s.isMarked <==> tweet.favorited == Some(true))
  {
  }

  /** `Vec::sort_unstable_by_key(|v| v.bitrate.unwrap_or(0))`'s key. */
  function BitrateKey(v: VideoVariant): int {
    v.bitrate.UnwrapOr(0)
  }

  /** The index of a variant of maximal bitrate key (the last of the sorted variants). */
  function MaxBitrateIndex(vs: seq<VideoVariant>): (r: nat)
    requires vs != []
    ensures r < |vs|
    ensures forall j | 0 <= j < |vs| :: BitrateKey(vs[j]) <= BitrateKey(vs[r])
  {
    if |vs| == 1 then 0
    else
      var k := MaxBitrateIndex(vs[1..]) + 1;
      if BitrateKey(vs[0]) > BitrateKey(vs[k]) then 0 else k
  }

  /** The first variant whose bitrate is exactly `Some(0)`, as `Iterator::find` returns it. */
  function FirstZeroBitrate(vs: seq<VideoVariant>): (r: Option<nat>)
    ensures r.Some? ==> r.value < |vs| && vs[r.value].bitrate == Some(0)
    ensures r.Some? ==> forall j | 0 <= j < r.value :: vs[j].bitrate != Some(0)
    ensures r.None? ==> forall j | 0 <= j < |vs| :: vs[j].bitrate != Some(0)
  {
    if vs == [] then None
    else if vs[0].bitrate == Some(0) then Some(0)
    else
      var k := FirstZeroBitrate(vs[1..]);
      if k.Some? then Some(k.value + 1) else None
  }

  /** The conversion unwraps `video_info` of videos and GIFs, and a GIF must have a bitrate-0 variant. */
  predicate MediaConvertible(m: MediaEntity) {
    match m.mediaType
    case Photo => true
    case Video => m.videoVariants.Some?
    case Gif => m.videoVariants.Some? && FirstZeroBitrate(m.videoVariants.value).Some?
  }

  function MediaUrl(m: MediaEntity): string
    requires MediaConvertible(m)
  {
    match m.mediaType
    case Photo => m.mediaUrlHttps
    case Gif => m.videoVariants.value[FirstZeroBitrate(m.videoVariants.value).value].url
    case Video =>
      var vs := m.videoVariants.value;
      if vs == [] then m.mediaUrlHttps else vs[MaxBitrateIndex(vs)].url
  }

  /** `From<&MediaEntity> for NewEntity`. */
  function EntityFromMedia(m: MediaEntity, now: Time): NewEntity
    requires MediaConvertible(m)
  {
    NewEntity(
      fetchedAt := now,
      statusId := 0,
      ordering := None,
      mediaType := m.mediaType,
      sourceId := DecimalString(m.id),
      sourceUrl := MediaUrl(m),
      originalStatusSourceId := OptDecimal(m.sourceStatusId),
      originalStatusSourceUrl := Some(m.url))
  }

  /**
   * URL selection: a photo keeps its https URL; a GIF takes the first
   * variant of bitrate 0; a video takes a variant of maximal bitrate (no
   * bitrate counting as 0), or the https URL when it has no variants.
   */
  lemma MediaUrlSelection(m: MediaEntity, now: Time)
    requires MediaConvertible(m)
    ensures var u := EntityFromMedia(m, now).sourceUrl;
      && (m.mediaType == Photo ==> u == m.mediaUrlHttps)
      && (m.mediaType == Gif ==> exists i | 0 <= i < |m.videoVariants.value| ::
            m.videoVariants.value[i].bitrate == Some(0) && u == m.videoVariants.value[i].url
            && forall j | 0 <= j < i :: m.videoVariants.value[j].bitrate != Some(0))
      && (m.mediaType == Video && m.videoVariants.value == [] ==> u == m.mediaUrlHttps)
      && (m.mediaType == Video && m.videoVariants.value != [] ==>
            exists i | 0 <= i < |m.videoVariants.value| :: u == m.videoVariants.value[i].url
              && forall j | 0 <= j < |m.videoVariants.value| ::
                   BitrateKey(m.videoVariants.value[j]) <= BitrateKey(m.videoVariants.value[i]))
  {
    if m.mediaType == Gif {
      var i := FirstZeroBitrate(m.videoVariants.value).value;
      assert m.videoVariants.value[i].bitrate == Some(0);
    } else if m.mediaType == Video && m.videoVariants.value != [] {
      var i := MaxBitrateIndex(m.videoVariants.value);
      assert i < |m.videoVariants.value|;
    }
  }

  /** `NewEntity::from_extended`: one entity per media item, `ordering` its position. */
  function EntitiesFromMedia(media: seq<MediaEntity>, now: Time): seq<NewEntity>
    requires forall m <- media :: MediaConvertible(m)
  {
    seq(|media|, i requires 0 <= i < |media| => EntityFromMedia(media[i], now).(ordering := Some(i)))
  }

  /** One entity per media item, in order, numbered from 0, each still owned by the placeholder status 0. */
  lemma EntitiesFromMediaShape(media: seq<MediaEntity>, now: Time)
    requires forall m <- media :: MediaConvertible(m)
    ensures var es := EntitiesFromMedia(media, now);
      && |es| == |media|
      && forall i | 0 <= i < |es| ::
           es[i].ordering == Some(i) && es[i].statusId == 0
           && es[i].sourceId == DecimalString(media[i].id) && es[i].mediaType == media[i].mediaType
  {
  }

  /** `NewDeletion::from_status`. */
  function DeletionFromStatus(status: Status, notBefore: Time): NewDeletion {
    NewDeletion(notBefore, status.id, "omelette")
  }

  /** `From<&EggUser> for NewTwitterUser`. */
  function UserFromEgg(u: EggUser, now: Time): NewTwitterUser {
    NewTwitterUser(
      sourceId := DecimalString(u.id),
      screenName := u.screenName,
      name := u.name,
      description := u.description,
      location := u.location,
      url := u.url,
      isVerified := u.verified,
      isProtected := u.protected,
      isCoauthored := u.contributorsEnabled,
      isTranslator := u.isTranslator,
      statusesCount := u.statusesCount,
      followingCount := u.friendsCount,
      followersCount := u.followersCount,
      likesCount := u.favouritesCount,
      listedCount := u.listedCount,
      createdAt := u.createdAt,
      fetchedAt := now,
      blockedAt := None,
      mutedAt := None,
      missing := false,
      uiLanguage := u.lang,
      uiTimezone := u.timeZone,
      withheldIn := if u.withheldInCountries.Some? then Some(Join(u.withheldInCountries.value, ", ")) else None,
      withheldScope := u.withheldScope)
  }

  /**
   * A fresh user row is present, neither blocked nor muted, keyed by the
   * canonical rendering of the user's id.
   */
  lemma UserFromEggFields(u: EggUser, now: Time)
    ensures var r := UserFromEgg(u, now);
      && r.blockedAt.None? && r.mutedAt.None? && !r.missing && r.fetchedAt == now
      && ParseU64(r.sourceId) == Some(u.id) && IsCanonicalU64(r.sourceId)
      && (u.withheldInCountries.Some? <==> r.withheldIn.Some?)
  {
    DecimalStringIsCanonical(u.id);
    ParseDecimalString(u.id, U64_LIMIT);
  }

  /** `From<u64> for NewTwitterUserID`. */
  function UserIdFromU64(uid: U64, now: Time): NewTwitterUserID {
    NewTwitterUserID(DecimalString(uid), SLIM_MARK, "", now, now)
  }

  /** A blocked-id placeholder is a slim user whose key reads back as the id. */
  lemma UserIdFromU64Fields(uid: U64, now: Time)
    ensures var r := UserIdFromU64(uid, now);
      r.screenName == "~slim~" && r.name == "" && ParseU64(r.sourceId) == Some(uid)
      && IsCanonicalU64(r.sourceId)
  {
    DecimalStringIsCanonical(uid);
    ParseDecimalString(uid, U64_LIMIT);
  }
}
