/**
 * src/app/api/posts/search/route.ts: full-text search over published posts,
 * optionally restricted to one author, newest first and paginated.
 */
module SearchRoute {
  import opened Wrappers
  import opened Text
  import opened Store

  /** `!query || query.trim().length === 0`. */
  predicate IsBlankQuery(q: Option<string>) {
    q.None? || q.value == "" || IsBlank(q.value)
  }

  /** The `OR` of the search condition: the query (untrimmed) inside the title,
      the content or the excerpt ignoring case, or the lowercased query among the tags. */
  predicate MatchesQuery(p: Post, query: string) {
    || ContainsIgnoringCase(p.title, query)
    || ContainsIgnoringCase(p.content, query)
    || (p.excerpt.Some? && ContainsIgnoringCase(p.excerpt.value, query))
    || ToLower(query) in p.tags
  }

  /** The whole `where`: `published: true`, the `OR`, and `authorId` when that parameter is truthy. */
  predicate SearchCondition(p: Post, query: string, authorId: Option<string>) {
    p.published && MatchesQuery(p, query) && (authorId.Some? && authorId.value != "" ==> p.authorId == authorId.value)
  }

  function SearchMatches(posts: seq<Post>, query: string, authorId: Option<string>): seq<Post> {
    Filter(posts, p => SearchCondition(p, query, authorId))
  }

  /** GET /api/posts/search. */
  function SearchPosts(posts: seq<Post>, q: Option<string>, authorId: Option<string>,
                       limit: Option<nat>, offset: Option<nat>): (page: Page)
    ensures IsBlankQuery(q) ==> page == Page([], 0, false)
    ensures forall p :: p in page.posts ==> p in posts && p.published
    ensures !IsBlankQuery(q) ==> forall p :: p in page.posts ==> MatchesQuery(p, q.value)
    ensures authorId.Some? && authorId.value != "" ==> forall p :: p in page.posts ==> p.authorId == authorId.value
    ensures !IsBlankQuery(q) ==> page.total == |SearchMatches(posts, q.value, authorId)|
    ensures NewestFirst(page.posts)
    ensures limit.Some? ==> |page.posts| <= limit.value
    ensures !IsBlankQuery(q) && limit.None? && offset.GetOr(0) == 0 ==>
              multiset(page.posts) == multiset(SearchMatches(posts, q.value, authorId))
    ensures page.hasMore <==> offset.GetOr(0) + |page.posts| < page.total
  {
    if IsBlankQuery(q) then Page([], 0, false)
    else
      PageContents(SearchMatches(posts, q.value, authorId), limit, offset);
      Paginate(SearchMatches(posts, q.value, authorId), limit, offset)
  }

  /** The case-insensitive `contains` holds exactly when the query, lowercased,
      occurs at some position of the lowercased field. */
  lemma MatchesAtSomePosition(field: string, query: string)
    ensures ContainsIgnoringCase(field, query) <==>
            exists i :: OccursAt(ToLower(query), ToLower(field), i)
  {
    ContainsIffOccurs(ToLower(field), ToLower(query));
  }

  /** Matching ignores the case of the query: a query and its lowercase select the same posts. */
  lemma {:induction false} QueryCaseIrrelevant(p: Post, query: string)
    ensures MatchesQuery(p, query) <==> MatchesQuery(p, ToLower(query))
  {
    ToLowerIdempotent(query);
  }

  /** A post with a tag equal to the lowercased query is found, whatever its title and content,
      provided it is published (a draft is never found, not even by its own author). */
  lemma TagMatchFound(posts: seq<Post>, p: Post, query: string, authorId: Option<string>)
    requires !IsBlankQuery(Some(query))
    requires p in posts && ToLower(query) in p.tags
    ensures p.published && (authorId.None? || authorId.value == "" || authorId.value == p.authorId)
            <==> p in SearchMatches(posts, query, authorId)
  {
  }

  /** Without a limit or offset the search returns every match: a post that matches is on the page. */
  lemma EveryMatchReturned(posts: seq<Post>, q: string, authorId: Option<string>, p: Post)
    requires !IsBlankQuery(Some(q))
    requires p in posts && SearchCondition(p, q, authorId)
    ensures p in SearchPosts(posts, Some(q), authorId, None, None).posts
  {
    var page := SearchPosts(posts, Some(q), authorId, None, None);
    assert p in multiset(SearchMatches(posts, q, authorId));
    assert p in multiset(page.posts);
  }
}
