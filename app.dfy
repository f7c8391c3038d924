/**
 * The application's orchestration: the log of issued search URLs, the
 * stories state it dispatches actions to, and the persisted search term.
 * The HTTP request itself is not modelled; its outcome is an input.
 */
module App {
  import opened Stories
  import opened Urls
  import opened Persistence

  /** What the request for the last URL came back with: hits and page, or an error. */
  datatype FetchOutcome = Fetched(hits: seq<Story>, page: int) | Failed

  const SearchKey := "search"
  const DefaultTerm := "React"

  class App {
    var stories: StoriesState
    var urls: seq<string>
    const search: SemiPersistentState

    /** The log of URLs is never empty, so "the last URL" always exists. */
    ghost predicate Valid()
      reads this
    {
      |urls| > 0
    }

    /** The first render: empty stories, the stored (or default) term, and a log with its page-0 URL. */
    constructor (storage: map<string, string>)
      ensures Valid()
      ensures stories == InitialState
      ensures fresh(search)
      ensures search.key == SearchKey && !search.isMounted && search.storage == storage
      ensures search.value == LoadOr(storage, SearchKey, DefaultTerm)
      ensures urls == [GetUrl(search.value, 0)]
    {
      stories := InitialState;
      var persisted := new SemiPersistentState(SearchKey, DefaultTerm, storage);
      search := persisted;
      urls := [GetUrl(persisted.value, 0)];
    }

    /**
     * `handleFetchStories`: dispatch INIT, request the last URL of the log,
     * then dispatch SUCCESS with the response's hits and page, or FAILURE.
     * `requested` is the URL requested and `whileLoading` the state between
     * the two dispatches.
     */
    method HandleFetchStories(outcome: FetchOutcome) returns (requested: string, whileLoading: StoriesState)
      requires Valid()
      modifies this
      ensures Valid() && urls == old(urls)
      ensures requested == urls[|urls| - 1]
      ensures whileLoading == Reduce(old(stories), FetchInit(0))
      ensures whileLoading.isLoading && !whileLoading.isError
      ensures whileLoading.data == old(stories).data && whileLoading.page == old(stories).page
      ensures outcome.Fetched? ==> stories == Reduce(whileLoading, FetchSuccess(outcome.hits, outcome.page))
      ensures outcome.Failed? ==> stories == Reduce(whileLoading, FetchFailure)
      ensures !stories.isLoading && stories.isError == outcome.Failed?
    {
      stories := Reduce(stories, FetchInit(0));
      whileLoading := stories;
      requested := urls[|urls| - 1];
      match outcome
      case Fetched(hits, page) =>
        stories := Reduce(stories, FetchSuccess(hits, page));
      case Failed =>
        stories := Reduce(stories, FetchFailure);
    }

    /** `handleRemoveStory`: dispatch REMOVE_STORY for the item. */
    method HandleRemoveStory(item: Story)
      modifies this
      ensures stories == Reduce(old(stories), RemoveStory(item))
      ensures urls == old(urls)
    {
      stories := Reduce(stories, RemoveStory(item));
    }

    /** `handleSearch`: append the URL for the term and page; nothing already logged changes. */
    method HandleSearch(searchTerm: string, page: int)
      requires Valid()
      modifies this
      ensures Valid()
      ensures urls == old(urls) + [GetUrl(searchTerm, page)]
      ensures stories == old(stories)
    {
      urls := urls + [GetUrl(searchTerm, page)];
    }

    /** `handleSearchInput`: the typed text becomes the persisted term; no URL is logged. */
    method HandleSearchInput(value: string)
      modifies search
      ensures search.value == value
      ensures search.isMounted == old(search.isMounted) && search.storage == old(search.storage)
    {
      search.SetValue(value);
    }

    /** `handleSearchSubmit`: search the current term from page 0. */
    method HandleSearchSubmit()
      requires Valid()
      modifies this
      ensures Valid()
      ensures urls == old(urls) + [GetUrl(search.value, 0)]
      ensures stories == old(stories)
    {
      HandleSearch(search.value, 0);
    }

    /** `handleLastSearch`: make a past term the current one and search it from page 0. */
    method HandleLastSearch(searchTerm: string)
      requires Valid()
      modifies this, search
      ensures Valid()
      ensures search.value == searchTerm
      ensures search.isMounted == old(search.isMounted) && search.storage == old(search.storage)
      ensures urls == old(urls) + [GetUrl(searchTerm, 0)]
      ensures stories == old(stories)
    {
      search.SetValue(searchTerm);
      HandleSearch(searchTerm, 0);
    }

    /** `handleMore`: search the term of the last URL again, one page after the current one. */
    method HandleMore()
      requires Valid()
      modifies this
      ensures Valid()
      ensures urls == old(urls) + [GetUrl(ExtractSearchTerm(old(urls)[|old(urls)| - 1]), old(stories).page + 1)]
      ensures stories == old(stories)
    {
      var lastUrl := urls[|urls| - 1];
      var searchTerm := ExtractSearchTerm(lastUrl);
      HandleSearch(searchTerm, stories.page + 1);
    }

    /** The recent-searches view derived from the log. */
    function LastSearches(): (r: seq<string>)
      reads this
      requires Valid()
      ensures r != []
    {
      LastSearchesShape(urls);
      GetLastSearches(urls)
    }

    /** The comment count shown in the heading. */
    function SumComments(): (r: int)
      reads this
      ensures r == TotalComments(stories.data)
    {
      GetSumComments(stories)
    }
  }

  /**
   * "More" after a search for a term without `?` asks for the same term at
   * the next page: the URL it logs is the one a search for that term and page builds.
   */
  lemma MoreContinuesSearch(searchTerm: string, page: int, currentPage: int)
    requires '?' !in searchTerm
    ensures GetUrl(ExtractSearchTerm(GetUrl(searchTerm, page)), currentPage + 1) == GetUrl(searchTerm, currentPage + 1)
  {
    RoundTrip(searchTerm, page);
  }

  /**
   * A session: mount, fetch page 0, press "More", fetch page 1. The log holds
   * the first URL and the next page's URL, and the list holds both pages in order.
   */
  method SearchThenMore(storage: map<string, string>, first: seq<Story>, second: seq<Story>)
    returns (urls: seq<string>, data: seq<Story>, page: int)
    requires '?' !in LoadOr(storage, SearchKey, DefaultTerm)
    ensures urls == [GetUrl(LoadOr(storage, SearchKey, DefaultTerm), 0), GetUrl(LoadOr(storage, SearchKey, DefaultTerm), 1)]
    ensures data == first + second
    ensures page == 1
  {
    var app := new App(storage);
    var term := app.search.value;
    var requested, pending := app.HandleFetchStories(Fetched(first, 0));
    ghost var firstUrl := GetUrl(term, 0);
    assert app.stories.page == 0 && app.urls == [firstUrl];
    RoundTrip(term, 0);
    assert ExtractSearchTerm(app.urls[|app.urls| - 1]) == term;
    app.HandleMore();
    assert app.urls == [firstUrl, GetUrl(term, 1)];
    requested, pending := app.HandleFetchStories(Fetched(second, 1));
    urls, data, page := app.urls, app.stories.data, app.stories.page;
  }
}
