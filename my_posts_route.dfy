/**
 * src/app/api/posts/my/route.ts: the signed-in author's own posts, newest
 * first, without pagination.
 */
module MyPostsRoute {
  import opened Wrappers
  import opened Store
  import PostsRoute

  /** `'all'` and absent or unknown values mean no filter; `'true'` and `'false'` filter. */
  function MyStatusFilter(published: Option<string>): (f: PublishedFilter)
    ensures f == PublishedOnly <==> published == Some("true")
    ensures f == DraftsOnly <==> published == Some("false")
  {
    if published == Some("all") then AnyStatus
    else if published == Some("true") then PublishedOnly
    else if published == Some("false") then DraftsOnly
    else AnyStatus
  }

  predicate MyCondition(p: Post, userId: string, published: Option<string>) {
    p.authorId == userId && Admits(MyStatusFilter(published), p)
  }

  function MyMatches(posts: seq<Post>, userId: string, published: Option<string>): seq<Post> {
    Filter(posts, p => MyCondition(p, userId, published))
  }

  /** GET /api/posts/my. */
  function MyPosts(posts: seq<Post>, session: Session, published: Option<string>): (r: Response<seq<Post>>)
    ensures SessionUserId(session).None? <==> r == Failure(401, UnauthorizedMessage)
    ensures r.Success? ==> r.status == 200
    ensures r.Success? ==> forall p :: p in r.body ==> p in posts && p.authorId == session.value.id
    ensures r.Success? && published == Some("true") ==> forall p :: p in r.body ==> p.published
    ensures r.Success? && published == Some("false") ==> forall p :: p in r.body ==> !p.published
    ensures r.Success? ==> NewestFirst(r.body)
    ensures r.Success? ==> multiset(r.body) == multiset(MyMatches(posts, session.value.id, published))
  {
    var userId := SessionUserId(session);
    if userId.None? then Failure(401, UnauthorizedMessage)
    else
      var all := MyMatches(posts, userId.value, published);
      SortKeepsMembers(all);
      Success(200, SortNewestFirst(all))
  }

  /** Every post of the author that passes the status filter is returned. */
  lemma NoPagination(posts: seq<Post>, session: Session, published: Option<string>, p: Post)
    requires SessionUserId(session).Some?
    requires p in posts && MyCondition(p, session.value.id, published)
    ensures p in MyPosts(posts, session, published).body
  {
    var r := MyPosts(posts, session, published);
    assert p in multiset(MyMatches(posts, session.value.id, published));
    assert p in multiset(r.body);
  }

  /** The two listings read an unrecognised `published` value in opposite ways:
      the public listing shows only published posts, the author's listing applies no filter. */
  lemma UnknownStatusReadDifferently(value: string)
    requires value != "all" && value != "true" && value != "false"
    ensures PostsRoute.ListingFilter(Some(value)) == PublishedOnly
    ensures MyStatusFilter(Some(value)) == AnyStatus
  {
  }
}
