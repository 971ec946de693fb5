/** The page component: its four pieces of state, the one-shot redirect run
    when the page loads, the search box handler, and the click on a result.
    Browser effects are not performed; the methods return them as values. */
module Redirector {
  import opened Types
  import opened Text
  import opened Resolver

  /** An effect on the browser: replacing the page by a URL, or opening a URL
      in a new tab. */
  datatype Effect = Navigate(url: string) | OpenInNewTab(url: string)

  /** The result list is shown when there is at least one result. */
  predicate ShowsResultList(results: seq<UserData>)
  {
    |results| > 0
  }

  /** The "no results" notice is shown when the query is not blank and there
      are no results. */
  predicate ShowsNoResultsNotice(query: string, results: seq<UserData>)
  {
    Trim(query) != "" && |results| == 0
  }

  /** After a search, the notice appears exactly when the query is not blank
      and no record matches it, and never together with the result list; a
      blank query shows neither, so "not searched" stays distinct from
      "searched, zero matches". */
  lemma NoticeExactlyWhenNothingMatches(table: seq<UserData>, query: string)
    ensures ShowsNoResultsNotice(query, Search(table, query)) <==>
      !AllWhitespace(query) && forall i :: 0 <= i < |table| ==> !QueryMatches(table[i], query)
    ensures !(ShowsNoResultsNotice(query, Search(table, query)) && ShowsResultList(Search(table, query)))
    ensures AllWhitespace(query) ==>
      !ShowsNoResultsNotice(query, Search(table, query)) && !ShowsResultList(Search(table, query))
  {
    TrimEmptyIffBlank(query);
    if !AllWhitespace(query) {
      SearchEmptyIff(table, query);
    }
  }

  /** The page component. `data` is the redirect table it was built with. */
  class App {
    const data: seq<UserData>
    var status: Status
    var targetName: string
    var searchQuery: string
    var searchResults: seq<UserData>

    /** The results always are the search for the current query, and a
        status that names a key says how that key resolved. */
    ghost predicate Valid()
      reads this
    {
      && searchResults == Search(data, searchQuery)
      && (status == Redirecting ==> targetName != "" && FindExact(data, targetName).Some?)
      && (status == NotFound ==> targetName != "" && FindExact(data, targetName).None?)
    }

    /** The initial state: idle, no key, no query, no results. */
    constructor (data: seq<UserData>)
      ensures Valid()
      ensures this.data == data
      ensures status == Idle && targetName == "" && searchQuery == "" && searchResults == []
    {
      this.data := data;
      status := Idle;
      targetName := "";
      searchQuery := "";
      searchResults := [];
    }

    /** The redirect run once when the page loads with the given path. */
    method PageLoad(path: string) returns (effect: Option<Effect>)
      requires Valid()
      modifies this
      ensures Valid()
      ensures searchQuery == old(searchQuery) && searchResults == old(searchResults)
      ensures KeyFromPath(path) == "" ==>
        status == Home && targetName == old(targetName) && effect == None
      ensures KeyFromPath(path) != "" ==> targetName == KeyFromPath(path)
      ensures KeyFromPath(path) != "" && FindExact(data, KeyFromPath(path)).Some? ==>
        status == Redirecting && effect == Some(Navigate(FindExact(data, KeyFromPath(path)).value.link))
      ensures KeyFromPath(path) != "" && FindExact(data, KeyFromPath(path)).None? ==>
        status == NotFound && effect == None
    {
      var key := KeyFromPath(path);
      if key == "" {
        status := Home;
        return None;
      }
      targetName := key;
      status := Redirecting;
      var user := FindExact(data, key);
      if user.Some? {
        effect := Some(Navigate(user.value.link));
      } else {
        status := NotFound;
        effect := None;
      }
    }

    /** The search box handler: records the query as typed and recomputes
        the results. */
    method HandleSearch(query: string)
      requires Valid()
      modifies this
      ensures Valid()
      ensures searchQuery == query
      ensures searchResults == Search(data, query)
      ensures status == old(status) && targetName == old(targetName)
    {
      searchQuery := query;
      if Trim(query) == "" {
        searchResults := [];
      } else {
        searchResults := Filter(data, query);
      }
      assert searchResults == Search(data, searchQuery);
    }

    /** On a page in a consistent state, the search panel's "no results"
        notice condition holds exactly when the stored query is not blank
        and no record of the page's table matches it, and never together
        with the result list. The panel itself is drawn only on the home
        screen. */
    lemma NoticeOnPage()
      requires Valid()
      ensures ShowsNoResultsNotice(searchQuery, searchResults) <==>
        !AllWhitespace(searchQuery) && forall i :: 0 <= i < |data| ==> !QueryMatches(data[i], searchQuery)
      ensures !(ShowsNoResultsNotice(searchQuery, searchResults) && ShowsResultList(searchResults))
    {
      NoticeExactlyWhenNothingMatches(data, searchQuery);
    }

    /** A click on a result opens its link in a new tab and changes no state. */
    method HandleRedirect(link: string) returns (effect: Effect)
      ensures effect == OpenInNewTab(link)
    {
      effect := OpenInNewTab(link);
    }
  }
}
