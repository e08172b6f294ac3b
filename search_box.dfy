/**
 * src/components/ui/search.tsx: the search box. It keeps the text as typed
 * in `query`, remembers whether a search was submitted in `isSearching`, and
 * reports searches through the `onSearch` callback. Each handler below returns
 * what it passes to `onSearch` (`None` when it does not call it).
 */
module SearchBox {
  import opened Wrappers
  import opened Text
  import AdminPage

  class Search {
    var query: string
    var isSearching: bool

    /** `useState('')` and `useState(false)`. */
    constructor ()
      ensures query == [] && !isSearching
    {
      query := [];
      isSearching := false;
    }

    /** `handleSearch`: the text is kept as typed and its trim is reported. */
    method HandleSearch(searchQuery: string) returns (emitted: string)
      modifies this
      ensures query == searchQuery && isSearching == old(isSearching)
      ensures emitted == Trim(searchQuery) && IsTrimmed(emitted)
    {
      query := searchQuery;
      emitted := Trim(searchQuery);
    }

    /** `handleSubmit`: a blank query is ignored; any other query marks the box
        as searching and reports the query's trim, leaving `query` untrimmed. */
    method HandleSubmit() returns (emitted: Option<string>)
      modifies this
      ensures IsBlank(old(query)) ==>
                emitted.None? && query == old(query) && isSearching == old(isSearching)
      ensures !IsBlank(old(query)) ==>
                && emitted == Some(Trim(old(query)))
                && emitted.value != [] && IsTrimmed(emitted.value)
                && query == old(query) && isSearching
    {
      if Trim(query) != [] {
        isSearching := true;
        var e := HandleSearch(query);
        emitted := Some(e);
      } else {
        emitted := None;
      }
    }

    /** `handleClear`: empties the box, ends the search and reports `''`. */
    method HandleClear() returns (emitted: string)
      modifies this
      ensures query == [] && !isSearching && emitted == []
    {
      query := [];
      isSearching := false;
      emitted := [];
    }

    /** `handleInputChange`: the new text replaces `query`; when it is blank
        the box is cleared, which reports `''`. */
    method HandleInputChange(value: string) returns (emitted: Option<string>)
      modifies this
      ensures IsBlank(value) ==> query == [] && !isSearching && emitted == Some([])
      ensures !IsBlank(value) ==>
                query == value && isSearching == old(isSearching) && emitted.None?
    {
      query := value;
      if Trim(value) == [] {
        var e := HandleClear();
        emitted := Some(e);
      } else {
        emitted := None;
      }
    }
  }

  /** A trimmed string is blank only when it is empty. */
  lemma TrimmedBlankIsEmpty(s: string)
    requires IsTrimmed(s)
    ensures IsBlank(s) <==> s == []
  {
    if s != [] {
      assert !IsSpace(s[0]);
    }
  }

  /** What the box reports reaches the admin page, whose posts request
      searches exactly when the typed text is not blank, for the trimmed text. */
  lemma {:induction false} ReportedQuerySelectsSearch(typed: string, currentPage: int)
    ensures AdminPage.PostsEndpoint(Trim(typed), currentPage).SearchRequest? <==> !IsBlank(typed)
    ensures !IsBlank(typed) ==> AdminPage.PostsEndpoint(Trim(typed), currentPage).q == Trim(typed)
  {
    TrimmedBlankIsEmpty(Trim(typed));
  }
}
