/**
 * src/app/admin/page.tsx: the logic of the admin dashboard — page count,
 * page offset, the five-button page-number window, the state transitions of
 * the posts tab, the endpoint it fetches, and the registration toggle.
 */
module AdminPage {
  import opened Wrappers
  import opened Text
  import opened Store
  import PostsRoute
  import SearchRoute
  import SettingsRoute
  import RegistrationRoute

  const PostsPerPage := 10

  /** `Math.ceil(totalPosts / postsPerPage)`. */
  function TotalPages(totalPosts: nat): (pages: nat)
    ensures pages == 0 <==> totalPosts == 0
    ensures pages * PostsPerPage >= totalPosts
    ensures pages > 0 ==> (pages - 1) * PostsPerPage < totalPosts
  {
    (totalPosts + PostsPerPage - 1) / PostsPerPage
  }

  /** `(currentPage - 1) * postsPerPage`. */
  function PageOffset(currentPage: int): (offset: int)
    ensures currentPage >= 1 ==> offset >= 0 && offset % PostsPerPage == 0
  {
    (currentPage - 1) * PostsPerPage
  }

  /** On the dashboard's page `currentPage` the listing reports more posts exactly when
      it is not the last page. */
  lemma HasMoreUntilLastPage(matching: seq<Post>, currentPage: int)
    requires currentPage >= 1
    ensures Paginate(matching, Some(PostsPerPage), Some(PageOffset(currentPage))).hasMore
            <==> currentPage < TotalPages(|matching|)
  {
    var pages := TotalPages(|matching|);
    assert PageOffset(currentPage) + PostsPerPage == currentPage * PostsPerPage;
    if currentPage < pages {
      assert currentPage * PostsPerPage <= (pages - 1) * PostsPerPage;
    }
  }

  /** Every page from the first to the last starts inside the list: none of them is empty. */
  lemma PagesWithinTotal(totalPosts: nat, currentPage: int)
    requires 1 <= currentPage <= TotalPages(totalPosts)
    ensures 0 <= PageOffset(currentPage) < totalPosts
  {
    var pages := TotalPages(totalPosts);
    assert (pages - 1) * PostsPerPage < totalPosts;
    assert (currentPage - 1) * PostsPerPage <= (pages - 1) * PostsPerPage;
  }

  /** The number on the `i`-th button of the window. */
  function PageNumber(i: nat, currentPage: int, totalPages: nat): int {
    if totalPages <= 5 then i + 1
    else if currentPage <= 3 then i + 1
    else if currentPage >= totalPages - 2 then totalPages - 4 + i
    else currentPage - 2 + i
  }

  /** `Array.from({ length: Math.min(5, totalPages) }, …)`: the page-number buttons. */
  function PageWindow(currentPage: int, totalPages: nat): (window: seq<int>)
    ensures |window| == if totalPages < 5 then totalPages else 5
    ensures forall i :: 0 <= i < |window| ==> window[i] == window[0] + i
    ensures forall i :: 0 <= i < |window| ==> window[i] >= 1
  {
    var n := if totalPages < 5 then totalPages else 5;
    seq(n, i requires 0 <= i < n => PageNumber(i, currentPage, totalPages))
  }

  /** For a current page between 1 and the last page the window holds only real pages
      and includes the current one. */
  lemma WindowWellFormed(currentPage: int, totalPages: nat)
    requires 1 <= currentPage <= totalPages
    ensures forall p :: p in PageWindow(currentPage, totalPages) ==> 1 <= p <= totalPages
    ensures currentPage in PageWindow(currentPage, totalPages)
  {
    var w := PageWindow(currentPage, totalPages);
    var at :=
      if totalPages <= 5 || currentPage <= 3 then currentPage - 1
      else if currentPage >= totalPages - 2 then currentPage - (totalPages - 4)
      else 2;
    assert w[at] == currentPage;
  }

  /** Past the first three pages and before the last two, the current page sits in the middle. */
  lemma WindowCentred(currentPage: int, totalPages: nat)
    requires totalPages > 5 && 3 < currentPage < totalPages - 2
    ensures PageWindow(currentPage, totalPages)[2] == currentPage
  {
  }

  datatype Tab = UsersTab | PostsTab | SettingsTab

  /** The request the posts tab sends: the search endpoint with the untrimmed query,
      or the listing with `published=all`. */
  datatype PostsRequest =
    | SearchRequest(q: string, limit: nat, offset: int)
    | ListingRequest(published: string, limit: nat, offset: int)

  /** `searchQuery.trim() ? search : listing`. */
  function PostsEndpoint(searchQuery: string, currentPage: int): (req: PostsRequest)
    ensures req.SearchRequest? <==> !IsBlank(searchQuery)
    ensures req.SearchRequest? ==> req.q == searchQuery
    ensures req.ListingRequest? ==> req.published == "all"
    ensures req.limit == PostsPerPage && req.offset == PageOffset(currentPage)
  {
    if Trim(searchQuery) != [] then SearchRequest(searchQuery, PostsPerPage, PageOffset(currentPage))
    else ListingRequest("all", PostsPerPage, PageOffset(currentPage))
  }

  /** The dashboard's choice agrees with the routes: the search route never sees a query
      it would answer with an empty page, and the listing shows drafts as well as published posts. */
  lemma EndpointAgreesWithRoutes(searchQuery: string, currentPage: int)
    ensures PostsEndpoint(searchQuery, currentPage).SearchRequest? ==> !SearchRoute.IsBlankQuery(Some(searchQuery))
    ensures PostsEndpoint(searchQuery, currentPage).ListingRequest? ==>
              PostsRoute.ListingFilter(Some(PostsEndpoint(searchQuery, currentPage).published)) == AnyStatus
  {
  }

  /** `data.reduce((acc, s) => { acc[s.key] = s.value; return acc }, {})`. */
  function ReduceSettings(rows: seq<(string, string)>): (values: map<string, string>)
    ensures forall k :: k in values <==> exists i :: 0 <= i < |rows| && rows[i].0 == k
  {
    if rows == [] then map[]
    else
      var last := rows[|rows| - 1];
      var before := ReduceSettings(rows[..|rows| - 1]);
      assert forall i :: 0 <= i < |rows| - 1 ==> rows[..|rows| - 1][i] == rows[i];
      before[last.0 := last.1]
  }

  /** A key takes the value of its last row: later rows overwrite earlier ones. */
  lemma {:induction false} ReduceLastWins(rows: seq<(string, string)>, i: nat)
    requires i < |rows|
    requires forall j :: i < j < |rows| ==> rows[j].0 != rows[i].0
    ensures ReduceSettings(rows)[rows[i].0] == rows[i].1
  {
    if i < |rows| - 1 {
      var prefix := rows[..|rows| - 1];
      assert prefix[i] == rows[i];
      ReduceLastWins(prefix, i);
    }
  }

  /** The value the registration switch sends: `'false'` when it reads `'true'`, else `'true'`. */
  function ToggleValue(values: map<string, string>): (next: string)
    ensures next == "false" <==> RegistrationRoute.AllowRegistrationKey in values &&
                                 values[RegistrationRoute.AllowRegistrationKey] == "true"
    ensures next == "true" || next == "false"
  {
    if RegistrationRoute.AllowRegistrationKey in values && values[RegistrationRoute.AllowRegistrationKey] == "true"
    then "false" else "true"
  }

  const RegistrationDescription := "Allow new user registrations"

  /** The values the settings tab shows of a table. */
  function ValuesOf(entries: map<string, Setting>): map<string, string> {
    map k | k in entries :: entries[k].value
  }

  /** Saving the toggle's value flips whether registration is open. */
  lemma ToggleFlipsRegistration(entries: map<string, Setting>)
    ensures RegistrationRoute.AllowRegistration(
              SettingsRoute.SaveEntries(entries, RegistrationRoute.AllowRegistrationKey,
                                        ToggleValue(ValuesOf(entries)), Some(RegistrationDescription)))
            == !RegistrationRoute.AllowRegistration(entries)
  {
    SettingsRoute.SaveSetsKeyOnly(entries, RegistrationRoute.AllowRegistrationKey,
                                  ToggleValue(ValuesOf(entries)), Some(RegistrationDescription));
  }

  /** The dashboard state that drives the posts tab. */
  class AdminDashboard {
    var activeTab: Tab
    var currentPage: int
    var searchQuery: string
    var totalPosts: nat
    var postsOnPage: nat
    var settingsValues: map<string, string>

    /** The page never drops below the first. */
    predicate Valid()
      reads this
    {
      currentPage >= 1
    }

    /** The initial `useState` values. */
    constructor ()
      ensures Valid()
      ensures activeTab == UsersTab && currentPage == 1 && searchQuery == ""
      ensures totalPosts == 0 && postsOnPage == 0 && settingsValues == map[]
    {
      activeTab := UsersTab;
      currentPage := 1;
      searchQuery := "";
      totalPosts := 0;
      postsOnPage := 0;
      settingsValues := map[];
    }

    function TotalPagesNow(): nat
      reads this
    {
      TotalPages(totalPosts)
    }

    /** The request the posts tab sends in this state. */
    function Request(): (req: PostsRequest)
      reads this
      requires Valid()
      ensures req.offset >= 0
    {
      PostsEndpoint(searchQuery, currentPage)
    }

    /** `handleTabChange`: switching to the posts tab starts at its first page. */
    method HandleTabChange(tab: Tab)
      requires Valid()
      modifies this
      ensures Valid()
      ensures activeTab == tab
      ensures currentPage == if tab == PostsTab then 1 else old(currentPage)
      ensures searchQuery == old(searchQuery) && totalPosts == old(totalPosts)
      ensures postsOnPage == old(postsOnPage) && settingsValues == old(settingsValues)
    {
      activeTab := tab;
      if tab == PostsTab {
        currentPage := 1;
      }
    }

    /** `handleSearch`: a new query starts at the first page. */
    method HandleSearch(query: string)
      requires Valid()
      modifies this
      ensures Valid()
      ensures searchQuery == query && currentPage == 1
      ensures activeTab == old(activeTab) && totalPosts == old(totalPosts)
      ensures postsOnPage == old(postsOnPage) && settingsValues == old(settingsValues)
    {
      searchQuery := query;
      currentPage := 1;
    }

    /** `handlePageChange`. */
    method HandlePageChange(page: int)
      modifies this
      ensures currentPage == page
      ensures activeTab == old(activeTab) && searchQuery == old(searchQuery) && totalPosts == old(totalPosts)
      ensures postsOnPage == old(postsOnPage) && settingsValues == old(settingsValues)
    {
      currentPage := page;
    }

    /** The Previous button: shown only with more than one page, disabled on page 1. */
    method ClickPrevious()
      requires Valid()
      modifies this
      ensures Valid()
      ensures currentPage == if old(TotalPagesNow()) > 1 && old(currentPage) != 1 then old(currentPage) - 1
                             else old(currentPage)
      ensures activeTab == old(activeTab) && searchQuery == old(searchQuery) && totalPosts == old(totalPosts)
      ensures postsOnPage == old(postsOnPage) && settingsValues == old(settingsValues)
    {
      if TotalPagesNow() > 1 && currentPage != 1 {
        HandlePageChange(currentPage - 1);
      }
    }

    /** The Next button: shown only with more than one page, disabled on the last page. */
    method ClickNext()
      requires Valid()
      modifies this
      ensures Valid()
      ensures currentPage == if old(TotalPagesNow()) > 1 && old(currentPage) != old(TotalPagesNow())
                             then old(currentPage) + 1 else old(currentPage)
      ensures old(currentPage) <= old(TotalPagesNow()) ==> currentPage <= TotalPagesNow()
      ensures activeTab == old(activeTab) && searchQuery == old(searchQuery) && totalPosts == old(totalPosts)
      ensures postsOnPage == old(postsOnPage) && settingsValues == old(settingsValues)
    {
      if TotalPagesNow() > 1 && currentPage != TotalPagesNow() {
        HandlePageChange(currentPage + 1);
      }
    }

    /** A page-number button: the `i`-th of the window. */
    method ClickPageNumber(i: nat)
      requires Valid()
      requires TotalPagesNow() > 1 && i < |PageWindow(currentPage, TotalPagesNow())|
      modifies this
      ensures Valid()
      ensures old(currentPage) <= old(TotalPagesNow()) ==> currentPage <= TotalPagesNow()
      ensures currentPage == PageWindow(old(currentPage), old(TotalPagesNow()))[i]
      ensures activeTab == old(activeTab) && searchQuery == old(searchQuery) && totalPosts == old(totalPosts)
      ensures postsOnPage == old(postsOnPage) && settingsValues == old(settingsValues)
    {
      var window := PageWindow(currentPage, TotalPagesNow());
      if currentPage <= TotalPagesNow() {
        WindowWellFormed(currentPage, TotalPagesNow());
        assert window[i] in window;
      }
      HandlePageChange(window[i]);
    }

    /** `setPosts(data.posts || [])` and `setTotalPosts(data.total || 0)` after a posts fetch. */
    method LoadPosts(count: nat, total: nat)
      modifies this
      ensures postsOnPage == count && totalPosts == total
      ensures activeTab == old(activeTab) && searchQuery == old(searchQuery) && currentPage == old(currentPage)
      ensures settingsValues == old(settingsValues)
    {
      postsOnPage := count;
      totalPosts := total;
    }

    /** `setSettings(settingsObj)` after a settings fetch. */
    method LoadSettings(rows: seq<(string, string)>)
      modifies this
      ensures settingsValues == ReduceSettings(rows)
      ensures activeTab == old(activeTab) && searchQuery == old(searchQuery) && currentPage == old(currentPage)
      ensures postsOnPage == old(postsOnPage) && totalPosts == old(totalPosts)
    {
      settingsValues := ReduceSettings(rows);
    }

    /** A successful delete: when the page held its last post and is not the first, step back
        a page (the page change itself triggers the refetch); otherwise refetch in place. */
    method DeleteSucceeded() returns (refetch: bool)
      requires Valid()
      modifies this
      ensures Valid()
      ensures old(postsOnPage) == 1 && old(currentPage) > 1 ==> currentPage == old(currentPage) - 1 && !refetch
      ensures !(old(postsOnPage) == 1 && old(currentPage) > 1) ==> currentPage == old(currentPage) && refetch
      ensures activeTab == old(activeTab) && searchQuery == old(searchQuery) && totalPosts == old(totalPosts)
      ensures postsOnPage == old(postsOnPage) && settingsValues == old(settingsValues)
    {
      if postsOnPage == 1 && currentPage > 1 {
        currentPage := currentPage - 1;
        refetch := false;
      } else {
        refetch := true;
      }
    }
  }
}
