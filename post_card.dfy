/**
 * The values a post card derives from a listed post: the link target, the
 * name shown, the content preview and the two counters.
 */
module PostCard {
  import opened JsString
  import opened Options

  /** A row of the ranked listing as the card reads it; missing and `null` columns are `None`. */
  datatype ListedPost = ListedPost(
    id: Text, title: Text, content: Text, personName: Option<Text>, likes: Option<int>, views: Option<int>)

  const PREVIEW_LIMIT: nat := 200

  function PostPathPrefix(): (p: Text)
    ensures |p| == 6
  {
    Str("/post/")
  }

  function Ellipsis(): (e: Text)
    ensures |e| == 3
  {
    Str("...")
  }

  function UnknownName(): (n: Text)
    ensures |n| == 7
  {
    Str("Unknown")
  }

  /** `` `/post/${post.id}` ``. */
  function PostUrl(post: ListedPost): (url: Text)
    ensures |url| == 6 + |post.id|
    ensures url[..6] == PostPathPrefix() && url[6..] == post.id
  {
    PostPathPrefix() + post.id
  }

  /** Two posts with different ids link to different pages. */
  lemma PostUrlInjective(p: ListedPost, q: ListedPost)
    requires PostUrl(p) == PostUrl(q)
    ensures p.id == q.id
  {
    assert p.id == PostUrl(p)[6..];
  }

  /** `post.person_name || 'Unknown'`: a missing, `null` or empty name shows as `Unknown`. */
  function DisplayName(post: ListedPost): (name: Text)
    ensures name != []
    ensures post.personName.Some? && post.personName.value != [] ==> name == post.personName.value
    ensures post.personName.None? || post.personName.value == [] ==> name == UnknownName()
  {
    if post.personName.Some? && post.personName.value != [] then post.personName.value else UnknownName()
  }

  /**
   * `content.substring(0, 200)` followed by `...` when the content is
   * longer than 200 code units.
   */
  function Preview(post: ListedPost): (p: Text)
    ensures |post.content| <= PREVIEW_LIMIT ==> p == post.content
    ensures |post.content| > PREVIEW_LIMIT ==>
      |p| == PREVIEW_LIMIT + 3 && p[..PREVIEW_LIMIT] == post.content[..PREVIEW_LIMIT] && p[PREVIEW_LIMIT..] == Ellipsis()
    ensures |p| <= PREVIEW_LIMIT + 3
    ensures Prefix(post.content, PREVIEW_LIMIT) <= p
  {
    Prefix(post.content, PREVIEW_LIMIT) + (if |post.content| > PREVIEW_LIMIT then Ellipsis() else [])
  }

  /** `post.likes || 0` and `post.views || 0`: a missing or `null` counter shows as zero. */
  function CounterShown(value: Option<int>): (shown: int)
    ensures value.Some? ==> shown == value.value
    ensures value.None? ==> shown == 0
  {
    if value.Some? then value.value else 0
  }

}
