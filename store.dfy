/**
 * The blog's data: the Post, User and Settings tables of the database, held
 * in memory, with the listing primitives every route shares (filter,
 * newest-first ordering, the `take`/`skip` window and the `hasMore` flag).
 */
module Store {
  import opened Wrappers
  import opened Permissions

  /** Milliseconds since the epoch. */
  type Timestamp = int

  datatype Post = Post(
    slug: string,
    title: string,
    content: string,
    excerpt: Option<string>,
    published: bool,
    featured: bool,
    tags: seq<string>,
    readTime: nat,
    coverImage: Option<string>,
    publishedAt: Option<Timestamp>,
    authorId: string,
    createdAt: Timestamp)

  datatype User = User(email: string, name: string, password: string, role: Role)

  datatype Setting = Setting(value: string, description: Option<string>)

  /** The fields of an upsert's `update` part; `None` is Prisma's `undefined`: leave the column as it is. */
  datatype SettingUpdate = SettingUpdate(value: Option<string>, description: Option<string>)

  /** The signed-in user as the session provider reports it. */
  datatype SessionUser = SessionUser(id: string, role: Option<Role>)

  type Session = Option<SessionUser>

  /** `session?.user?.id` when it is truthy (present and not empty). */
  function SessionUserId(session: Session): (id: Option<string>)
    ensures id.Some? <==> session.Some? && session.value.id != ""
    ensures id.Some? ==> id.value == session.value.id
  {
    if session.Some? && session.value.id != "" then Some(session.value.id) else None
  }

  /** A route's reply: a status code with a body, or a status code with a message. */
  datatype Response<T> = Success(status: nat, body: T) | Failure(status: nat, message: string)

  const UnauthorizedMessage := "Unauthorized"

  /** The `{ posts, total, hasMore }` body of the listing routes. */
  datatype Page = Page(posts: seq<Post>, total: nat, hasMore: bool)

  // ---------------------------------------------------------------------
  // Tables

  class PostTable {
    var rows: seq<Post>

    constructor ()
      ensures rows == []
    {
      rows := [];
    }

    /** `prisma.post.create`. */
    method Create(p: Post)
      modifies this
      ensures rows == old(rows) + [p]
    {
      rows := rows + [p];
    }
  }

  class UserTable {
    var rows: seq<User>

    constructor ()
      ensures rows == []
    {
      rows := [];
    }

    /** `prisma.user.create`. */
    method Create(u: User)
      modifies this
      ensures rows == old(rows) + [u]
    {
      rows := rows + [u];
    }
  }

  class SettingsTable {
    var entries: map<string, Setting>

    constructor ()
      ensures entries == map[]
    {
      entries := map[];
    }

    /** `prisma.settings.upsert({ where: { key }, update, create })`. */
    method Upsert(key: string, update: SettingUpdate, create: Setting)
      modifies this
      ensures entries == UpsertEntries(old(entries), key, update, create)
    {
      entries := UpsertEntries(entries, key, update, create);
    }
  }

  function ApplyUpdate(s: Setting, u: SettingUpdate): (r: Setting)
    ensures r.value == u.value.GetOr(s.value)
    ensures r.description == if u.description.Some? then u.description else s.description
  {
    Setting(u.value.GetOr(s.value), if u.description.Some? then u.description else s.description)
  }

  /** An upsert touches only `key`: an existing row is updated, a missing one is created. */
  function UpsertEntries(m: map<string, Setting>, key: string, update: SettingUpdate, create: Setting)
    : (r: map<string, Setting>)
    ensures r.Keys == m.Keys + {key}
    ensures key in m ==> r[key] == ApplyUpdate(m[key], update)
    ensures key !in m ==> r[key] == create
    ensures forall k :: k in m && k != key ==> r[k] == m[k]
  {
    m[key := if key in m then ApplyUpdate(m[key], update) else create]
  }

  /** The same upsert twice leaves what one upsert left, provided its update, applied to the row it
      would create, changes nothing (true of both upserts in the source). */
  lemma UpsertIdempotent(m: map<string, Setting>, key: string, update: SettingUpdate, create: Setting)
    requires ApplyUpdate(create, update) == create
    ensures UpsertEntries(UpsertEntries(m, key, update, create), key, update, create)
         == UpsertEntries(m, key, update, create)
  {
    var once := UpsertEntries(m, key, update, create);
    var twice := UpsertEntries(once, key, update, create);
    assert twice[key] == once[key];
    assert twice.Keys == once.Keys;
  }

  function Slugs(posts: seq<Post>): (s: set<string>)
    ensures forall p :: p in posts ==> p.slug in s
    ensures forall x :: x in s ==> exists p :: p in posts && p.slug == x
  {
    set p | p in posts :: p.slug
  }

  /** The database's unique index on `Post.slug`. */
  predicate UniqueSlugs(posts: seq<Post>) {
    forall i, j :: 0 <= i < j < |posts| ==> posts[i].slug != posts[j].slug
  }

  // ---------------------------------------------------------------------
  // Listing primitives

  /** A `where` on the published column; `AnyStatus` is `published: undefined`. */
  datatype PublishedFilter = AnyStatus | PublishedOnly | DraftsOnly

  predicate Admits(f: PublishedFilter, p: Post) {
    match f
    case AnyStatus => true
    case PublishedOnly => p.published
    case DraftsOnly => !p.published
  }

  /** The rows a `where` selects, in table order. */
  function Filter(posts: seq<Post>, keep: Post -> bool): (r: seq<Post>)
    ensures |r| <= |posts|
    ensures forall p :: p in r <==> p in posts && keep(p)
    ensures multiset(r) <= multiset(posts)
    ensures forall p :: multiset(r)[p] == if keep(p) then multiset(posts)[p] else 0
    decreases |posts|
  {
    if posts == [] then []
    else
      assert posts == [posts[0]] + posts[1..];
      (if keep(posts[0]) then [posts[0]] else []) + Filter(posts[1..], keep)
  }

  /** `orderBy: { createdAt: 'desc' }`. */
  predicate NewestFirst(s: seq<Post>) {
    forall i, j :: 0 <= i < j < |s| ==> s[i].createdAt >= s[j].createdAt
  }

  function InsertByDate(p: Post, s: seq<Post>): (r: seq<Post>)
    requires NewestFirst(s)
    ensures NewestFirst(r)
    ensures multiset(r) == multiset(s) + multiset{p}
    ensures |r| == |s| + 1
    ensures r[0] == p || (s != [] && r[0] == s[0])
    decreases |s|
  {
    if s == [] || p.createdAt >= s[0].createdAt then
      ConsNewestFirst(p, s);
      [p] + s
    else
      var rest := InsertByDate(p, s[1..]);
      assert s == [s[0]] + s[1..];
      ConsNewestFirst(s[0], rest);
      [s[0]] + rest
  }

  /** A post no older than the head of a newest-first list can go in front of it. */
  lemma ConsNewestFirst(p: Post, s: seq<Post>)
    requires NewestFirst(s)
    requires s == [] || p.createdAt >= s[0].createdAt
    ensures NewestFirst([p] + s)
  {
    forall i, j | 0 <= i < j < |[p] + s| ensures ([p] + s)[i].createdAt >= ([p] + s)[j].createdAt {
      if i == 0 && j > 1 {
        assert s[0].createdAt >= s[j - 1].createdAt;
      }
    }
  }

  /** The rows newest first: sorted by `createdAt` descending, a permutation of the input. */
  function SortNewestFirst(s: seq<Post>): (r: seq<Post>)
    ensures NewestFirst(r)
    ensures multiset(r) == multiset(s)
    ensures |r| == |s|
    decreases |s|
  {
    if s == [] then []
    else
      assert s == [s[0]] + s[1..];
      InsertByDate(s[0], SortNewestFirst(s[1..]))
  }

  /** Sorting neither adds nor loses a row. */
  lemma SortKeepsMembers(s: seq<Post>)
    ensures forall p :: p in SortNewestFirst(s) <==> p in s
  {
    var r := SortNewestFirst(s);
    forall p ensures p in r <==> p in s {
      assert p in r <==> p in multiset(r);
      assert p in s <==> p in multiset(s);
    }
  }

  /** Prisma's `skip: offset, take: limit` on an ordered list: the entries from
      `offset` on, at most `limit` of them (all of them when there is no limit). */
  function Window(s: seq<Post>, offset: nat, limit: Option<nat>): (r: seq<Post>)
    ensures |r| == if offset >= |s| then 0
                   else if limit.Some? && limit.value < |s| - offset then limit.value
                   else |s| - offset
    ensures forall i :: 0 <= i < |r| ==> r[i] == s[offset + i]
  {
    var start := if offset <= |s| then offset else |s|;
    var stop := if limit.Some? && start + limit.value < |s| then start + limit.value else |s|;
    s[start..stop]
  }

  /** The response every paginated route builds from the rows its `where` selects:
      the page, the `count` of the same `where`, and
      `hasMore: offset ? parseInt(offset) + posts.length < total : posts.length < total`. */
  function Paginate(matching: seq<Post>, limit: Option<nat>, offset: Option<nat>): (page: Page)
    ensures page.total == |matching|
    ensures limit.Some? ==> |page.posts| <= limit.value
    ensures offset.GetOr(0) >= page.total ==> page.posts == [] && !page.hasMore
    ensures offset.GetOr(0) < page.total ==> offset.GetOr(0) + |page.posts| <= page.total
    ensures page.hasMore <==> offset.GetOr(0) + |page.posts| < page.total
    ensures page.hasMore <==> limit.Some? && offset.GetOr(0) + limit.value < page.total
  {
    var all := SortNewestFirst(matching);
    var items := Window(all, offset.GetOr(0), limit);
    Page(items, |matching|,
         if offset.Some? then offset.value + |items| < |matching| else |items| < |matching|)
  }

  /** What a page holds: rows of the `where` only, newest first, and — without a limit
      or an offset — every one of them. */
  lemma PageContents(matching: seq<Post>, limit: Option<nat>, offset: Option<nat>)
    ensures forall p :: p in Paginate(matching, limit, offset).posts ==> p in matching
    ensures NewestFirst(Paginate(matching, limit, offset).posts)
    ensures limit.None? && offset.GetOr(0) == 0 ==>
              multiset(Paginate(matching, limit, offset).posts) == multiset(matching)
  {
    var all := SortNewestFirst(matching);
    PagePosts(matching, limit, offset);
    SortKeepsMembers(matching);
    WindowMembers(all, offset.GetOr(0), limit);
    WindowKeepsOrder(all, offset.GetOr(0), limit);
    assert |all| == |multiset(all)| == |multiset(matching)| == |matching|;
    assert limit.None? && offset.GetOr(0) == 0 ==> Window(all, offset.GetOr(0), limit) == all;
  }

  lemma WindowMembers(s: seq<Post>, offset: nat, limit: Option<nat>)
    ensures forall p :: p in Window(s, offset, limit) ==> p in s
  {
    var w := Window(s, offset, limit);
    forall p | p in w ensures p in s {
      var i :| 0 <= i < |w| && w[i] == p;
      assert p == s[offset + i];
    }
  }

  lemma WindowKeepsOrder(s: seq<Post>, offset: nat, limit: Option<nat>)
    requires NewestFirst(s)
    ensures NewestFirst(Window(s, offset, limit))
  {
    var w := Window(s, offset, limit);
    forall i, j | 0 <= i < j < |w| ensures w[i].createdAt >= w[j].createdAt {
      assert w[i] == s[offset + i] && w[j] == s[offset + j];
    }
  }

  /** The posts of a page are the window of the sorted rows. */
  lemma PagePosts(matching: seq<Post>, limit: Option<nat>, offset: Option<nat>)
    ensures Paginate(matching, limit, offset).posts == Window(SortNewestFirst(matching), offset.GetOr(0), limit)
  {
  }

  /** Two windows of `limit` entries, one after the other, make the window of twice the size. */
  lemma AdjacentWindows(s: seq<Post>, offset: nat, limit: nat)
    ensures Window(s, offset, Some(limit)) + Window(s, offset + limit, Some(limit)) == Window(s, offset, Some(2 * limit))
  {
    var a := Window(s, offset, Some(limit));
    var b := Window(s, offset + limit, Some(limit));
    var c := Window(s, offset, Some(2 * limit));
    assert |a + b| == |c|;
    forall i | 0 <= i < |c| ensures (a + b)[i] == c[i] {
      if i < |a| {
        assert (a + b)[i] == s[offset + i];
      } else {
        assert (a + b)[i] == b[i - |a|];
      }
    }
  }

  /** Pages that follow each other cover the ordered rows without gap or overlap:
      the page at `offset` followed by the page at `offset + limit` is the window of twice the size. */
  lemma {:induction false} ConsecutivePages(matching: seq<Post>, offset: nat, limit: nat)
    ensures Paginate(matching, Some(limit), Some(offset)).posts
          + Paginate(matching, Some(limit), Some(offset + limit)).posts
         == Paginate(matching, Some(2 * limit), Some(offset)).posts
  {
    var all := SortNewestFirst(matching);
    calc {
      Paginate(matching, Some(limit), Some(offset)).posts
        + Paginate(matching, Some(limit), Some(offset + limit)).posts;
      { PagePosts(matching, Some(limit), Some(offset));
        PagePosts(matching, Some(limit), Some(offset + limit)); }
      Window(all, offset, Some(limit)) + Window(all, offset + limit, Some(limit));
      { AdjacentWindows(all, offset, limit); }
      Window(all, offset, Some(2 * limit));
      { PagePosts(matching, Some(2 * limit), Some(offset)); }
      Paginate(matching, Some(2 * limit), Some(offset)).posts;
    }
  }
}
