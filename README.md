# url-redirector, modelled in Dafny

The url-redirector is a single-page React app that works as a short-link
service. The page reads the path it was loaded at, takes the part after the
leading slash as a name, and looks that name up, ignoring letter case, in a
static table of records (`nama`, `link`, `deskripsi`). If the name is found,
the browser goes to the record's link. If not, the page shows a "not found"
screen. A bare `/` shows the home screen. The home screen has a search box
that filters the table by a case-insensitive substring of the name or the
description. Clicking a result opens its link in a new tab.

This project models that core:

- `types.dfy` (module `Types`): the record, the four page statuses and an
  `Option`.
- `text.dfy` (module `Text`): the three JavaScript string built-ins the page
  relies on. `Lower` is `toLowerCase` on ASCII letters. `Trim` is `trim` over
  ECMAScript's WhiteSpace and LineTerminator code points. `Includes` is
  `includes`.
- `resolver.dfy` (module `Resolver`): the path-to-name step, the exact
  case-insensitive lookup (`FindExact`, the table's `find`), and the search
  filter (`Filter` and `Search`).
- `links.dfy` (module `Links`): the shipped table and what lookup and search
  give on it.
- `redirector.dfy` (module `Redirector`): the page as a class `App`. Its four
  state fields are the four `useState` hooks. Its methods are the redirect
  run at load (`PageLoad`), the search handler (`HandleSearch`) and the click
  handler (`HandleRedirect`). Browser effects come back as `Effect` values
  and are not performed.
- `scenarios.dfy` (module `Scenarios`): clients that build a fresh page over
  the shipped table and run the sample paths and queries.

## Model

| member | source | states |
|---|---|---|
| Types.UserData | types.ts:2-6 | a record of the table: its name, its link and its description |
| Types.Status | types.ts:8-13 | the four page statuses: idle, redirecting, not found and home |
| Links.Data | data/links.ts:3-19 | the shipped table: its three records, field by field, in source order |
| Redirector.App.constructor | App.tsx:8-11 | the page starts idle, with no target name, an empty query and no results, and this state is valid |
| Resolver.KeyFromPath | App.tsx:20 | the key is the path without its one leading slash, so `"/" + key` is the path; a path without a leading slash is its own key |
| Resolver.KeyFromPathInverse | App.tsx:20 | `"/" + k` gives back `k` for every `k`; only one slash is removed, so `"//x"` gives `"/x"`; `"/"` gives the empty key |
| Resolver.NameMatches | App.tsx:34 | the lookup's test: the record's name equals the key once both are lowered |
| Resolver.FindExact | App.tsx:33-35 | a record it returns is in the table and its name matches the key after lowering both |
| Resolver.FindExactFirstMatch | App.tsx:33-35 | the lookup finds nothing exactly when no name equals the key after lowering both; otherwise it returns the first record, in table order, whose name matches |
| Resolver.FindExactIgnoresCase | App.tsx:33-35 | two keys that lower to the same string resolve to the same record or both to nothing |
| Resolver.FindExactUnique | App.tsx:33-35 | in a table whose lowered names are distinct, a key matching record i resolves to record i |
| Redirector.App.PageLoad | App.tsx:14-50 | an empty key shows the home screen, keeps the target name and goes nowhere; any other key becomes the target name; a found key shows the redirecting screen and navigates to that record's link; a missing key shows the not-found screen and goes nowhere; the search fields are unchanged and the status stays consistent with how the target resolved |
| Resolver.QueryMatches | App.tsx:64-66 | the search's test: the lowered query occurs in the lowered name or in the lowered description |
| Resolver.Filter | App.tsx:63-67 | the filtered list is never longer than the table |
| Resolver.FilterSpec | App.tsx:63-67 | the filtered list is a subsequence of the table in table order; every record in it matches the query in its lowered name or lowered description; every matching record is in it, as many times as the table holds it, so together with the subsequence clause the result is fixed |
| Resolver.FilterCounts | App.tsx:63-67 | each matching record occurs in the filtered list exactly as often as in the table, and any other record not at all |
| Resolver.FilterAppend | App.tsx:63-67 | filtering a concatenated table is the concatenation of the filtered parts, so each record is judged on its own |
| Resolver.FilterIdempotent | App.tsx:63-67 | filtering an already filtered list by the same query changes nothing |
| Resolver.FilterIgnoresCase | App.tsx:63-67 | queries that lower to the same string filter identically |
| Resolver.Search | App.tsx:58-67 | the results are never longer than the table |
| Resolver.SearchSpec | App.tsx:58-67 | a query that is all whitespace yields no results; any other query yields exactly the filter, with its subsequence, soundness and completeness properties and with every matching record kept as often as the table holds it |
| Resolver.SearchIsSubsequence | App.tsx:58-67 | search results are always an order-preserving subsequence of the table |
| Resolver.SearchIdempotent | App.tsx:58-67 | searching the results again with the same query gives the same results |
| Resolver.SearchEmptyIff | App.tsx:58-67 | for a non-blank query the results are empty exactly when no record matches |
| Resolver.SearchIgnoresCase | App.tsx:58-67 | queries that lower to the same string give the same results |
| Resolver.SubsequenceMember | App.tsx:63-67 | every element of a subsequence is an element of the sequence it was taken from |
| Redirector.App.HandleSearch | App.tsx:56-69 | the query is stored exactly as typed; the results become the search of the table for it; the status and target name are unchanged |
| Redirector.Effect | App.tsx:42 | the two browser effects: replacing the page by a URL (here), and opening a URL in a new tab (App.tsx:72) |
| Redirector.App.HandleRedirect | App.tsx:71-73 | clicking a result opens exactly its link in a new tab and changes no page state |
| Redirector.ShowsResultList | App.tsx:132 | the result list is shown when there is at least one result |
| Redirector.ShowsNoResultsNotice | App.tsx:157 | the "no results" notice is shown when the trimmed query is not empty and there are no results |
| Redirector.App.NoticeOnPage | App.tsx:132-161 | on a page in a consistent state, the search panel's notice condition holds exactly when the stored query is not blank and no record of the page's table matches it, and never together with the result list; the panel is drawn only on the home screen (App.tsx:103-161), which this lemma does not state |
| Redirector.NoticeExactlyWhenNothingMatches | App.tsx:157 | after a search, the "no results" notice shows exactly when the query is not blank and no record matches; it never shows with the result list; a blank query shows neither |
| Text.Lower | App.tsx:34 | the lowered string has the same length, holds no upper-case letter, and agrees with the input at every position up to case |
| Text.LowerUnique | App.tsx:34 | those properties pin the result: any string of the same length with no upper-case letter that agrees with the input up to case is the lowered string |
| Text.LowerFolds | App.tsx:34 | lowering is idempotent, erases any prior upper-casing, and leaves no upper-case letter |
| Text.LowerFixesLowercase | App.tsx:34 | a string without upper-case letters lowers to itself, so lower-case names compare as written |
| Text.IsWhitespace | App.tsx:58 | the characters `trim` removes: ECMAScript's WhiteSpace and LineTerminator code points (tab, vertical tab, form feed, space, no-break space, byte-order mark, the space separators, line feed, carriage return, line and paragraph separators) |
| Text.Trim | App.tsx:58 | the trimmed string is never longer than the input |
| Text.TrimEmptyIffBlank | App.tsx:58 | the trimmed query is empty exactly when the query is all whitespace; a non-empty trimmed string neither starts nor ends with whitespace |
| Text.TrimDropsOnlyWhitespace | App.tsx:58 | the trimmed string is a contiguous stretch of the input, and everything dropped before and after it is whitespace |
| Text.LowerKeepsBlank | App.tsx:58-65 | lowering a string leaves it all whitespace exactly when it was all whitespace |
| Text.Includes | App.tsx:65-66 | a pattern that is included is no longer than the text |
| Text.IncludesIffOccurs | App.tsx:65-66 | `Includes(s, t)` holds exactly when `t` occurs in `s` at some position |
| Text.NotIncludedWithout | App.tsx:65-66 | a pattern holding a character the text lacks is not included in it |
| Text.AbsentAfterLower | App.tsx:65-66 | a lower-case letter absent from a string in both cases is absent from the lowered string |
| Links.DataShape | data/links.ts:3-19 | the table has three records, named alfreinsco, marthin and penjangkauan-kkr-kampus-2025, in that order |
| Links.DataFields | data/links.ts:3-19 | the name and description of each of the three records |
| Links.DataKeysDistinct | data/links.ts:5-15 | the three names are pairwise distinct after lowering |
| Links.NamesLowered | data/links.ts:5-15 | the three names are already lower-case |
| Links.ResolveMarthin | data/links.ts:5-11 | any casing of "marthin" resolves to the second record, whose link is https://alfreinsco.fun; "alfreinsco" resolves to the first record, which has the same link |
| Links.ResolveUnknown | data/links.ts:3-19 | "unknown-user-xyz" resolves to nothing |
| Links.FilterOfThree | App.tsx:63-67 | filtering a three-record table keeps each record exactly when it matches, in order |
| Links.MissingLetter | App.tsx:63-67 | a record matches no query holding a letter that is missing from both its lowered fields |
| Links.NoKNoKkr | App.tsx:63-67 | a record with no 'k' in either case in its name or description does not match "kkr" |
| Links.KkrMissesFirst | data/links.ts:4-8 | the first record does not match "kkr" |
| Links.KkrMissesSecond | data/links.ts:9-13 | the second record does not match "kkr" |
| Links.KkrHitsThird | data/links.ts:14-18 | the third record matches "kkr" |
| Links.MarthinHitsFirst | data/links.ts:4-8 | the first record matches "marthin", by its description |
| Links.MarthinHitsSecond | data/links.ts:9-13 | the second record matches "marthin", by its name |
| Links.MarthinMissesThird | data/links.ts:14-18 | the third record does not match "marthin" |
| Links.FilterKkr | data/links.ts:3-19 | filtering the table by "kkr" keeps only the third record |
| Links.FilterMarthin | data/links.ts:3-19 | filtering the table by "marthin" keeps the first two records, in order |
| Links.SearchKkr | data/links.ts:3-19 | searching "kkr" gives exactly the third record |
| Links.SearchMarthin | data/links.ts:3-19 | searching "marthin" gives exactly the first two records, in table order |
| Scenarios.LoadUpperMarthin | App.tsx:20-42 | loading "/MARTHIN" keeps "MARTHIN" as the target, shows the redirecting screen and navigates to https://alfreinsco.fun |
| Scenarios.LoadUnknown | App.tsx:20-48 | loading "/unknown-user-xyz" shows the not-found screen for that name and navigates nowhere |
| Scenarios.LoadRoot | App.tsx:20-26 | loading "/" shows the home screen with no target, no results and no navigation |
| Scenarios.SearchThenClear | App.tsx:56-69 | after loading "/", typing "kkr" lists the third record; clearing the box empties the list, does not show the "no results" notice and stays on the home screen |
| Scenarios.SearchTwice | App.tsx:56-69 | after loading "/", typing "marthin" twice gives the same two records, in table order |
| Scenarios.ClickResult | App.tsx:71-73 | after loading "/" and typing "kkr", clicking the result opens the form link in a new tab, and the results and the home screen stay as they were |

## Left out

- Rendering: the JSX, the status-to-screen mapping, the spinner and the icons, and the WhatsApp contact link are not modelled. Only the two display conditions of the search panel are: the result list (`ShowsResultList`) and the "no results" notice (`ShowsNoResultsNotice`).
- Console logging in the redirect is not modelled. It has no effect on state.
- Browser effects: the page does not navigate and does not open a tab. `PageLoad` and `HandleRedirect` return the effect as a value instead. The path is a parameter of `PageLoad`, not read from `window.location`.
- React scheduling: the state setters in the redirect are batched by React. `PageLoad` assigns the fields in the same order, in one synchronous call, and states the final state. Effects running only once on mount are not modelled either: a client calls `PageLoad` once.
- Text.Lower: only ASCII letters change case. JavaScript's `toLowerCase` also maps non-ASCII letters, and some of them to several characters.
- Text.Trim: works on code points, where JavaScript works on UTF-16 code units. The set of whitespace characters is the same.
- App.tsx has no static-asset path guard and no QR-code preview or download, so neither is modelled.
- Other tables: the shipped table is a constant of the model. Other tables are handled by the generic lemmas in `Resolver`, which take the table as a parameter.
