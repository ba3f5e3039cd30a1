/**
 * The record side of the `TweetCleaner` class: which tweets survive
 * (`get_cleaned_tweet`), which fields of a survivor are kept, and how a
 * retweet carries its cleaned original (the decision inside `clean_tweets`).
 */
module TweetRecords {
  import opened TweetCleaner

  datatype Option<T> = None | Some(value: T)

  /** A JSON value, for the fields that are copied without being looked at. */
  datatype Json =
    | Null
    | Bool(b: bool)
    | Number(n: int)
    | Str(s: string)
    | Array(items: seq<Json>)
    | Object(fields: map<string, Json>)

  /** The `user` object of a tweet; `otherFields` holds every key that is
      not copied. */
  datatype User = User(
    id: Json,
    name: Json,
    screenName: Json,
    followersCount: Json,
    otherFields: map<string, Json>)

  /** A tweet as read from one input line. `createdAt` is `None` when the key
      is absent (a deletion notice); `retweetedStatus` is `None` when the key
      is absent (not a retweet). */
  datatype Tweet = Tweet(
    createdAt: Option<Json>,
    id: Json,
    text: string,
    lang: Json,
    inReplyToStatusId: Json,
    inReplyToUserId: Json,
    user: User,
    geo: Json,
    coordinates: Json,
    place: Json,
    retweetCount: Json,
    entities: Json,
    retweetedStatus: Option<Tweet>,
    otherFields: map<string, Json>)

  datatype CleanedUser = CleanedUser(id: Json, name: Json, screenName: Json, followersCount: Json)

  /** The record written out: the kept fields only; `retweetedStatus` is
      `None` when the key is absent. */
  datatype CleanedTweet = CleanedTweet(
    createdAt: Json,
    id: Json,
    text: string,
    user: CleanedUser,
    coordinates: Json,
    place: Json,
    retweetCount: Json,
    entities: Json,
    retweetedStatus: Option<CleanedTweet>)

  /** The three drop tests of lines 106-108 all pass: not a deletion
      notice, in English, and not a reply. */
  predicate IsCandidate(t: Tweet)
  {
    && t.createdAt.Some?
    && t.lang == Str("en")
    && t.inReplyToStatusId == Null
    && t.inReplyToUserId == Null
  }

  /** `get_cleaned_tweet`. */
  function GetCleanedTweet(c: Cleaner, t: Tweet): (r: Option<CleanedTweet>)
    ensures r.Some? <==> IsCandidate(t) && GetCleanedText(c, t.text) != []
    ensures r.Some? ==> r.value.text == GetCleanedText(c, t.text) && r.value.text != []
    ensures r.Some? ==> r.value.retweetedStatus.None?
  {
    if t.createdAt.None? then None
    else if t.lang != Str("en") then None
    else if t.inReplyToStatusId != Null || t.inReplyToUserId != Null then None
    else
      var cleanedText := GetCleanedText(c, t.text);
      if cleanedText == [] then None
      else
        Some(CleanedTweet(
          t.createdAt.value,
          t.id,
          cleanedText,
          CleanedUser(t.user.id, t.user.name, t.user.screenName, t.user.followersCount),
          t.coordinates,
          t.place,
          t.retweetCount,
          t.entities,
          None))
  }

  /** A surviving tweet keeps exactly the listed fields, copied unchanged. */
  lemma CleanedTweetFields(c: Cleaner, t: Tweet)
    requires GetCleanedTweet(c, t).Some?
    ensures var ct := GetCleanedTweet(c, t).value;
      && Some(ct.createdAt) == t.createdAt
      && ct.id == t.id
      && ct.user.id == t.user.id
      && ct.user.name == t.user.name
      && ct.user.screenName == t.user.screenName
      && ct.user.followersCount == t.user.followersCount
      && ct.coordinates == t.coordinates
      && ct.place == t.place
      && ct.retweetCount == t.retweetCount
      && ct.entities == t.entities
  {
  }

  /** Each drop condition alone drops the tweet. */
  lemma DropConditions(c: Cleaner, t: Tweet)
    ensures t.createdAt.None? ==> GetCleanedTweet(c, t).None?
    ensures t.lang != Str("en") ==> GetCleanedTweet(c, t).None?
    ensures t.inReplyToStatusId != Null || t.inReplyToUserId != Null ==> GetCleanedTweet(c, t).None?
    ensures GetCleanedText(c, t.text) == [] ==> GetCleanedTweet(c, t).None?
  {
  }

  /** A cleaner that removes retweets drops every retweet. */
  lemma RetweetsRemoved(c: Cleaner, t: Tweet)
    requires c.removeRetweets && IsRetweet(Normalize(t.text))
    ensures GetCleanedTweet(c, t).None?
  {
  }

  /** A cleaner that keeps retweets keeps every candidate retweet, even one
      whose text after the marker cleans to nothing: the emptiness test sees
      the marker. */
  lemma RetweetsKept(c: Cleaner, t: Tweet)
    requires !c.removeRetweets && IsCandidate(t) && IsRetweet(Normalize(t.text))
    ensures GetCleanedTweet(c, t).Some?
    ensures var n := Normalize(t.text);
      n[..RetweetCut(n)] <= GetCleanedTweet(c, t).value.text
  {
    RetweetKept(c, t.text);
  }

  /** What `clean_tweets` writes for one input tweet: the cleaned tweet, with
      the cleaned original attached when it is a retweet; nothing when
      either is dropped. */
  function CleanTweetLine(c: Cleaner, t: Tweet): (r: Option<CleanedTweet>)
    ensures r.Some? <==>
      && GetCleanedTweet(c, t).Some?
      && (t.retweetedStatus.Some? ==> GetCleanedTweet(c, t.retweetedStatus.value).Some?)
    ensures r.Some? ==> (r.value.retweetedStatus.Some? <==> t.retweetedStatus.Some?)
  {
    match GetCleanedTweet(c, t)
    case None => None
    case Some(ct) =>
      match t.retweetedStatus
      case None => Some(ct)
      case Some(original) =>
        match GetCleanedTweet(c, original)
        case None => None
        case Some(co) => Some(ct.(retweetedStatus := Some(co)))
  }

  /** The written record is the cleaned tweet, with at most one level of
      nesting: the attached original is the cleaned `retweeted_status` and
      carries no original of its own. */
  lemma CleanTweetLineNesting(c: Cleaner, t: Tweet)
    requires CleanTweetLine(c, t).Some?
    ensures var r := CleanTweetLine(c, t).value;
      && r.(retweetedStatus := None) == GetCleanedTweet(c, t).value
      && (r.retweetedStatus.Some? ==>
            && Some(r.retweetedStatus.value) == GetCleanedTweet(c, t.retweetedStatus.value)
            && r.retweetedStatus.value.retweetedStatus.None?)
  {
  }

  /** A retweet whose original is dropped is dropped as well, whatever its
      own text. */
  lemma DroppedOriginalDropsRetweet(c: Cleaner, t: Tweet)
    requires t.retweetedStatus.Some? && GetCleanedTweet(c, t.retweetedStatus.value).None?
    ensures CleanTweetLine(c, t).None?
  {
  }
}
