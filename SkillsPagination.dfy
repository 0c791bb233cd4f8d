/** The paging state of the skills list (src/routes/skills/index.tsx): in list
    mode pages are fetched by cursor and accumulated; in search mode the
    result limit grows by a page at a time. */
module SkillsPagination {
  import opened Wrappers
  import SkillsListing

  /** The number of entries asked for per page, and the search limit step. */
  const PageSize: int := 50

  /** A cursor as JavaScript tests it: present and not the empty string. */
  predicate CursorIsTruthy(c: Option<string>) {
    c.Some? && c.value != []
  }

  /** The state the list keeps between renders. `hasQuery` (a non-blank
      query) and whether the current list page is still being fetched are
      passed in where they matter. */
  class Pager {
    var pages: seq<SkillsListing.Entry>
    var cursor: Option<string>
    var nextCursor: Option<string>
    var searchResults: seq<SkillsListing.Entry>
    var searchLimit: int
    var isSearching: bool

    /** The search limit is always a positive whole number of pages. */
    ghost predicate Valid()
      reads this
    {
      searchLimit >= PageSize && searchLimit % PageSize == 0
    }

    /** The initial state: nothing loaded, no cursor, a one-page search limit. */
    constructor()
      ensures Valid()
      ensures pages == [] && cursor == None && nextCursor == None
      ensures searchResults == [] && searchLimit == PageSize && !isSearching
    {
      pages := [];
      cursor := None;
      nextCursor := None;
      searchResults := [];
      searchLimit := PageSize;
      isSearching := false;
    }

    /** Entering list mode (the query became blank) starts the list over. */
    method ResetList()
      modifies this
      requires Valid()
      ensures Valid()
      ensures pages == [] && cursor == None && nextCursor == None
      ensures searchResults == old(searchResults) && searchLimit == old(searchLimit)
      ensures isSearching == old(isSearching)
    {
      pages := [];
      cursor := None;
      nextCursor := None;
    }

    /** A list page arrived: its next cursor is kept, and its entries are
        appended when it was fetched with a cursor, or replace the pages when
        it is the first page. */
    method ReceivePage(items: seq<SkillsListing.Entry>, next: Option<string>)
      modifies this
      requires Valid()
      ensures Valid()
      ensures nextCursor == next
      ensures pages == if CursorIsTruthy(old(cursor)) then old(pages) + items else items
      ensures cursor == old(cursor) && searchResults == old(searchResults)
      ensures searchLimit == old(searchLimit) && isSearching == old(isSearching)
    {
      nextCursor := next;
      if CursorIsTruthy(cursor) {
        pages := pages + items;
      } else {
        pages := items;
      }
    }

    /** The search key (query and highlighted flag) changed: the results are
        cleared; with no query the search stops, otherwise the limit goes
        back to one page. */
    method SearchKeyChanged(searchKey: string)
      modifies this
      requires Valid()
      ensures Valid()
      ensures searchResults == []
      ensures searchKey == [] ==> !isSearching && searchLimit == old(searchLimit)
      ensures searchKey != [] ==> isSearching == old(isSearching) && searchLimit == PageSize
      ensures pages == old(pages) && cursor == old(cursor) && nextCursor == old(nextCursor)
    {
      searchResults := [];
      if searchKey == [] {
        isSearching := false;
      } else {
        searchLimit := PageSize;
      }
    }

    /** A search request was sent. */
    method StartSearch()
      modifies this
      requires Valid()
      ensures Valid()
      ensures isSearching
      ensures pages == old(pages) && cursor == old(cursor) && nextCursor == old(nextCursor)
      ensures searchResults == old(searchResults) && searchLimit == old(searchLimit)
    {
      isSearching := true;
    }

    /** The latest search request answered with `data`. */
    method FinishSearch(data: seq<SkillsListing.Entry>)
      modifies this
      requires Valid()
      ensures Valid()
      ensures searchResults == data && !isSearching
      ensures pages == old(pages) && cursor == old(cursor) && nextCursor == old(nextCursor)
      ensures searchLimit == old(searchLimit)
    {
      searchResults := data;
      isSearching := false;
    }

    /** canLoadMore: in search mode, when no search is running and the last
        answer filled the limit; in list mode, when there is a next cursor. */
    function CanLoadMore(hasQuery: bool): (r: bool)
      reads this
      ensures hasQuery ==> (r <==> !isSearching && 0 < |searchResults| == searchLimit)
      ensures !hasQuery ==> (r <==> nextCursor.Some?)
    {
      if hasQuery then !isSearching && |searchResults| == searchLimit && |searchResults| > 0
      else nextCursor.Some?
    }

    /** isLoadingMore: a search running over shown results, or a further
        list page being fetched. */
    function IsLoadingMore(hasQuery: bool, listPagePending: bool): (r: bool)
      reads this
      ensures hasQuery ==> (r <==> isSearching && |searchResults| > 0)
      ensures !hasQuery ==> (r <==> listPagePending && |pages| > 0)
      ensures hasQuery && r ==> !CanLoadMore(hasQuery)
    {
      if hasQuery then isSearching && |searchResults| > 0
      else listPagePending && |pages| > 0
    }

    /** loadMore: nothing while loading or when nothing more can be loaded;
        otherwise one more page of search results is asked for, or the next
        cursor becomes the cursor. */
    method LoadMore(hasQuery: bool, listPagePending: bool)
      modifies this
      requires Valid()
      ensures Valid()
      ensures old(IsLoadingMore(hasQuery, listPagePending) || !CanLoadMore(hasQuery)) ==>
                searchLimit == old(searchLimit) && cursor == old(cursor)
      ensures old(!IsLoadingMore(hasQuery, listPagePending) && CanLoadMore(hasQuery)) && hasQuery ==>
                searchLimit == old(searchLimit) + PageSize && cursor == old(cursor)
      ensures old(!IsLoadingMore(hasQuery, listPagePending) && CanLoadMore(hasQuery)) && !hasQuery ==>
                searchLimit == old(searchLimit)
                && cursor == if CursorIsTruthy(old(nextCursor)) then old(nextCursor) else old(cursor)
      ensures pages == old(pages) && nextCursor == old(nextCursor)
      ensures searchResults == old(searchResults) && isSearching == old(isSearching)
    {
      if IsLoadingMore(hasQuery, listPagePending) || !CanLoadMore(hasQuery) {
        return;
      }
      if hasQuery {
        searchLimit := searchLimit + PageSize;
      } else if CursorIsTruthy(nextCursor) {
        cursor := nextCursor;
      }
    }
  }
}
