/** The tweet payload models: the content bound declared on TweetIn, the
    TweetOut response shape that extends it, and the parsing of a JSON body. */
module TweetModel {
  import opened Wrappers
  import opened Errors
  import opened UserModel

  /** A point in time; the model only compares timestamps for equality. */
  type Timestamp = int

  const ContentMinLength: nat := 1
  const ContentMaxLength: nat := 256

  /** The body of a post or an edit. */
  datatype TweetIn = TweetIn(content: string)

  /** A tweet in a response. It extends TweetIn (so `content` has the same
      bound), and embeds its owner as a UserOut, which has no password field.
      `id` is optional and `updatedAt` defaults to None. */
  datatype TweetOut = TweetOut(
    content: string,
    id: Option<int>,
    postedBy: UserOut,  // the `by` key
    createdAt: Timestamp,
    updatedAt: Option<Timestamp>)

  /** A JSON body as received: the `content` key may be missing. */
  datatype TweetPayload = TweetPayload(content: Option<string>)

  predicate ContentOk(s: string)
  {
    ContentMinLength <= |s| <= ContentMaxLength
  }

  predicate ValidTweetIn(t: TweetIn)
  {
    ContentOk(t.content)
  }

  /** The constraints a TweetOut inherits from TweetIn, plus those of its owner. */
  predicate ValidTweetOut(t: TweetOut, emailStr: string -> Option<string>)
  {
    ValidTweetIn(TweetIn(t.content)) && ValidUserOut(t.postedBy, emailStr)
  }

  /** Validates a body as a TweetIn: content is required, 1 to 256 characters. */
  function ParseTweetIn(p: TweetPayload): (r: Result<TweetIn, Error>)
    ensures r.Ok? <==> p.content.Some? && ContentMinLength <= |p.content.value| <= ContentMaxLength
    ensures r.Ok? ==> r.value.content == p.content.value && ValidTweetIn(r.value)
    ensures r.Err? ==> r.error == Unprocessable({"content"})
    ensures p.content.Some? && |p.content.value| == 0 ==> r.Err?
    ensures p.content.Some? && |p.content.value| == 257 ==> r.Err?
  {
    if p.content.Some? && ContentOk(p.content.value) then
      Ok(TweetIn(p.content.value))
    else
      Err(Unprocessable({"content"}))
  }
}
