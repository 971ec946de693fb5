/** The page component run on the shipped table: the sample paths and
    queries, each as a client that builds a fresh page and reports what it
    ends up showing and doing. */
module Scenarios {
  import opened Types
  import opened Text
  import opened Resolver
  import opened Links
  import opened Redirector

  /** "MARTHIN" lowers to the stored name. */
  lemma UpperMarthinLowers()
    ensures Lower("MARTHIN") == "marthin"
  {
  }

  /** Loading "/MARTHIN" keeps the key as typed, shows the redirecting
      screen and sends the browser to the portfolio. */
  method LoadUpperMarthin() returns (status: Status, target: string, effect: Option<Effect>)
    ensures status == Redirecting && target == "MARTHIN"
    ensures effect == Some(Navigate("https://alfreinsco.fun"))
  {
    var app := new App(Data);
    KeyFromPathInverse("MARTHIN");
    UpperMarthinLowers();
    ResolveMarthin("MARTHIN");
    effect := app.PageLoad("/MARTHIN");
    status, target := app.status, app.targetName;
  }

  /** Loading an unknown name shows the not-found screen for that name and
      goes nowhere. */
  method LoadUnknown() returns (status: Status, target: string, effect: Option<Effect>)
    ensures status == NotFound && target == "unknown-user-xyz" && effect == None
  {
    var app := new App(Data);
    KeyFromPathInverse("unknown-user-xyz");
    ResolveUnknown();
    effect := app.PageLoad("/unknown-user-xyz");
    status, target := app.status, app.targetName;
  }

  /** Loading the root shows the home screen with an empty search. */
  method LoadRoot() returns (status: Status, target: string, results: seq<UserData>, effect: Option<Effect>)
    ensures status == Home && target == "" && results == [] && effect == None
  {
    var app := new App(Data);
    KeyFromPathInverse("");
    effect := app.PageLoad("/");
    status, target, results := app.status, app.targetName, app.searchResults;
  }

  /** On the home screen, typing "kkr" lists the third record; clearing the
      box empties the list without the "no results" notice. */
  method SearchThenClear() returns (found: seq<UserData>, cleared: seq<UserData>, notice: bool, status: Status)
    ensures found == [Data[2]]
    ensures cleared == [] && !notice
    ensures status == Home
  {
    var app := new App(Data);
    KeyFromPathInverse("");
    var _ := app.PageLoad("/");
    SearchKkr();
    app.HandleSearch("kkr");
    found := app.searchResults;
    app.HandleSearch("");
    cleared := app.searchResults;
    notice := ShowsNoResultsNotice(app.searchQuery, app.searchResults);
    status := app.status;
  }

  /** On the home screen, typing "marthin" twice gives the same two
      records, in table order. */
  method SearchTwice() returns (first: seq<UserData>, second: seq<UserData>)
    ensures first == second == [Data[0], Data[1]]
  {
    var app := new App(Data);
    KeyFromPathInverse("");
    var _ := app.PageLoad("/");
    SearchMarthin();
    app.HandleSearch("marthin");
    first := app.searchResults;
    app.HandleSearch("marthin");
    second := app.searchResults;
  }

  /** On the home screen, clicking a result after a search opens its link
      in a new tab and leaves the results and the home screen as they were. */
  method ClickResult() returns (effect: Effect, results: seq<UserData>, status: Status)
    ensures effect == OpenInNewTab("https://docs.google.com/forms/d/e/1FAIpQLSf70xwp4CQ2tS5CV3pk1NPgw-wF_HzImvTLFOGhqMhZekDknQ/viewform")
    ensures results == [Data[2]] && status == Home
  {
    var app := new App(Data);
    KeyFromPathInverse("");
    var _ := app.PageLoad("/");
    SearchKkr();
    app.HandleSearch("kkr");
    effect := app.HandleRedirect(app.searchResults[0].link);
    results, status := app.searchResults, app.status;
  }
}
