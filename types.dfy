/**
 * The records of the archive: the rows of the four tables (statuses,
 * entities, deletions, twitter_users), the insertable records built from
 * remote data, and the remote API's own records (tweets, media, users)
 * reduced to the fields the conversions read.
 */
module Types {
  import opened Wrappers

  /** A UTC timestamp, in seconds since the Unix epoch. */
  type Time = int

  /** The range of Rust's `u64`: native Twitter ids. */
  type U64 = n: nat | n < 0x1_0000_0000_0000_0000

  /** Author (status) or screen name (user) of a placeholder row. */
  const SLIM_MARK: string := "~slim~"

  datatype Source = Twitter | MastodonSocial

  datatype IntermediarySource = TwitterArchive

  datatype MediaType = Photo | Video | Gif

  /**
   * An insertable status. It is also the content of a `statuses` row: the
   * table maps each internal id to one of these (geolocation is not kept).
   */
  datatype NewStatus = NewStatus(
    text: string,
    authorId: Option<int>,
    postedAt: Time,
    fetchedAt: Time,
    fetchedVia: Option<IntermediarySource>,
    deletedAt: Option<Time>,
    isRepost: bool,
    repostedAt: Option<Time>,
    isMarked: bool,
    markedAt: Option<Time>,
    source: Source,
    sourceId: string,
    sourceAuthor: string,
    sourceApp: string,
    inReplyToStatus: Option<string>,
    inReplyToUser: Option<string>,
    quotingStatus: Option<string>,
    public: bool)

  /** A stored status: its internal id and its row. */
  datatype Status = Status(id: nat, row: NewStatus)

  /** An insertable media entity; `statusId` is 0 until the owner is known. */
  datatype NewEntity = NewEntity(
    fetchedAt: Time,
    statusId: nat,
    ordering: Option<nat>,
    mediaType: MediaType,
    sourceId: string,
    sourceUrl: string,
    originalStatusSourceId: Option<string>,
    originalStatusSourceUrl: Option<string>)

  /** An `entities` row: the inserted entity and the hash of its downloaded bytes, if any. */
  datatype EntityRow = EntityRow(entity: NewEntity, blobHash: Option<string>)

  /** A stored entity: its internal id and its row. */
  datatype Entity = Entity(id: nat, row: EntityRow)

  /** An insertable deletion request; it is also a `deletions` row. */
  datatype NewDeletion = NewDeletion(notBefore: Time, statusId: nat, sponsor: string)

  /** An insertable user; it is also the content of a `twitter_users` row. */
  datatype NewTwitterUser = NewTwitterUser(
    sourceId: string,
    screenName: string,
    name: string,
    description: Option<string>,
    location: Option<string>,
    url: Option<string>,
    isVerified: bool,
    isProtected: bool,
    isCoauthored: bool,
    isTranslator: bool,
    statusesCount: int,
    followingCount: int,
    followersCount: int,
    likesCount: int,
    listedCount: int,
    createdAt: Time,
    fetchedAt: Time,
    blockedAt: Option<Time>,
    mutedAt: Option<Time>,
    missing: bool,
    uiLanguage: Option<string>,
    uiTimezone: Option<string>,
    withheldIn: Option<string>,
    withheldScope: Option<string>)

  /** A placeholder user known only by id (a blocked account). */
  datatype NewTwitterUserID = NewTwitterUserID(
    sourceId: string,
    screenName: string,
    name: string,
    createdAt: Time,
    fetchedAt: Time)

  // The remote API's records.

  datatype TweetSource = TweetSource(name: string, url: string)

  datatype TweetUser = TweetUser(id: U64, name: string, screenName: string, protected: bool)

  datatype VideoVariant = VideoVariant(bitrate: Option<int>, url: string)

  /** A media item; `videoVariants` is the `video_info` (absent for photos). */
  datatype MediaEntity = MediaEntity(
    id: U64,
    mediaType: MediaType,
    mediaUrlHttps: string,
    url: string,
    videoVariants: Option<seq<VideoVariant>>,
    sourceStatusId: Option<U64>)

  /** A tweet; `extendedMedia` is the media list of `extended_entities`. */
  datatype Tweet = Tweet(
    id: U64,
    createdAt: Time,
    text: string,
    favorited: Option<bool>,
    user: Option<TweetUser>,
    source: TweetSource,
    inReplyToStatusId: Option<U64>,
    inReplyToScreenName: Option<string>,
    inReplyToUserId: Option<U64>,
    quotedStatusId: Option<U64>,
    retweetedStatus: Option<Tweet>,
    extendedMedia: Option<seq<MediaEntity>>)

  datatype EggUser = EggUser(
    id: U64,
    screenName: string,
    name: string,
    description: Option<string>,
    location: Option<string>,
    url: Option<string>,
    verified: bool,
    protected: bool,
    contributorsEnabled: bool,
    isTranslator: bool,
    statusesCount: int,
    friendsCount: int,
    followersCount: int,
    favouritesCount: int,
    listedCount: int,
    createdAt: Time,
    lang: Option<string>,
    timeZone: Option<string>,
    withheldInCountries: Option<seq<string>>,
    withheldScope: Option<string>)
}
