# Hacker News search client (road-to-react) — a verified model

The application searches Hacker News through the Algolia API and shows the
stories it finds. Its core logic is modelled here:

- the **stories reducer**, which folds fetch-init, fetch-success, fetch-failure and remove-story actions into the list state;
- the **URL helpers**, which build a search URL from a term and a page and read the term back;
- the **last-searches view**, derived from the log of issued URLs;
- the **comment total** shown in the heading;
- the **semi-persistent search term**, kept in browser storage;
- the **URL-log handlers** and the dispatch sequence of a fetch;
- in the list component, the **table of sort functions**, the list as shown for a sort state, and the **sort toggle** behind the column buttons.

Modules:

- `Seqs`: subsequences and reversal.
- `Stories`: the state, the actions, the reducer and the comment total.
- `JsText`: the JavaScript string built-ins the URL helpers use (`lastIndexOf`, `substring`, `replace`, number-to-text; `IndexOf` is the first-occurrence search `replace` performs), with the ECMAScript edge cases those uses reach: -1 for a missing character, clamped and swapped `substring` bounds, first-occurrence-only `replace`.
- `Urls`: `getUrl`, `extractSearchTerm` and `getLastSearches`.
- `Persistence`: `useSemiPersistentState`, as a class over a storage map.
- `App`: the application state (stories, URL log, search term) as a class whose methods are the event handlers.
- `ListSorts`: the sort table, the stable ascending sort that lodash's `sortBy` promises, `sortedList`, and the `handleSort` state as a class.

## Model

| member | source | states |
|---|---|---|
| Stories.Reduce | Tutorial/road-to-react/src/App.tsx:33-64 | Page changes only on success, to the payload page. After INIT the state is loading and not in error; after FAILURE it is in error and not loading; both keep data. SUCCESS clears both flags, replaces data on page 0 and appends in order otherwise. REMOVE_STORY keeps the flags and leaves a subsequence of the data. That subsequence holds every story whose id differs, each as often as before, and none whose id matches. |
| Stories.RemoveById | Tutorial/road-to-react/src/App.tsx:57-59 | The filter never lengthens the list. Every occurrence with the removed id is dropped; every other story keeps its number of occurrences. |
| Stories.RemoveSubsequence | Tutorial/road-to-react/src/App.tsx:57-59 | Removal keeps the survivors in their original relative order. |
| Stories.RemoveAbsent | Tutorial/road-to-react/src/App.tsx:57-59 | Removing an id no story carries leaves the list equal. |
| Stories.RemoveTwice | Tutorial/road-to-react/src/App.tsx:57-59 | Removing twice equals removing once. |
| Stories.ReduceRemoveAbsent | Tutorial/road-to-react/src/App.tsx:54-60 | A REMOVE_STORY for an absent id returns the state unchanged. |
| Stories.ReduceRemoveIdempotent | Tutorial/road-to-react/src/App.tsx:54-60 | Dispatching the same REMOVE_STORY twice equals dispatching it once. |
| Stories.ReducePagination | Tutorial/road-to-react/src/App.tsx:37-47 | Page 0 followed by a later page shows both lists in order, at the later page, with both flags clear. |
| Stories.ReduceFlagsExclusive | Tutorial/road-to-react/src/App.tsx:33-64 | No action makes the state both loading and in error. |
| Stories.RemoveStoryExample | Tutorial/road-to-react/src/App.test.tsx:32-54 | Removing the first of the two sample stories leaves the second; the page is kept. |
| Stories.StrictIdentity | Tutorial/road-to-react/src/App.tsx:58 | Ids are compared strictly: removing id "1" keeps the story with numeric id 1. |
| Stories.FoldComments | Tutorial/road-to-react/src/App.tsx:92 | The `reduce` left fold from an accumulator equals the accumulator plus the recursive sum of `num_comments`. |
| Stories.GetSumComments | Tutorial/road-to-react/src/App.tsx:91-93 | The total equals the sum of `num_comments` over the data; it is 0 for empty data. |
| Stories.TotalCommentsSplit | Tutorial/road-to-react/src/App.tsx:91-93 | The total is the total of the survivors of a removal plus the total of the removed stories. |
| Stories.RemoveLowersComments | Tutorial/road-to-react/src/App.tsx:54-60 | After REMOVE_STORY the total drops by exactly the comments of the removed stories. |
| JsText.LastIndexOfFindsLast | Tutorial/road-to-react/src/App.tsx:100 | `lastIndexOf` is -1 exactly when the character is absent; otherwise it points at that character, with none after it. |
| JsText.LastIndexOfSeparator | Tutorial/road-to-react/src/App.tsx:100 | In `x + c + y`, with no `c` in `y`, the last `c` is at position `|x|`. |
| JsText.IndexOfFindsFirst | Tutorial/road-to-react/src/App.tsx:101 | `indexOf` is -1 exactly when the pattern occurs nowhere; otherwise it is an occurrence with none before it. |
| JsText.ReplaceFirstShortens | Tutorial/road-to-react/src/App.tsx:101 | Replacing the first occurrence with the empty string never lengthens the string. |
| JsText.ReplaceFirstAbsent | Tutorial/road-to-react/src/App.tsx:101 | `replace` with a pattern that does not occur returns the string unchanged. |
| JsText.ReplaceFirstAtStart | Tutorial/road-to-react/src/App.tsx:101 | `replace` on a string that starts with the pattern removes exactly that first occurrence. |
| JsText.SubstringInRange | Tutorial/road-to-react/src/App.tsx:100 | `substring` with in-range bounds takes the slice between them, in whichever order they come. |
| JsText.IntToString | Tutorial/road-to-react/src/App.tsx:96 | The page text is non-empty and starts with '-' exactly for negative pages; after that sign, if any, every character is a decimal digit, with no leading zero (zero is rendered "0"). |
| JsText.NatToStringValue | Tutorial/road-to-react/src/App.tsx:96 | The digits of a natural number, read back as a decimal numeral, give that number. |
| JsText.IntToStringValue | Tutorial/road-to-react/src/App.tsx:96 | The page text is the decimal numeral of the page: its digits read back as the page's magnitude, with a minus sign exactly for negative pages. |
| Urls.GetUrl | Tutorial/road-to-react/src/App.tsx:95-96 | Builds base, path, `?query=<term>&page=<page>`. What it promises, that the term can be read back exactly when it holds no `?`, is carried by `Urls.RoundTripExactly`. |
| Urls.ExtractSearchTerm | Tutorial/road-to-react/src/App.tsx:98-101 | The term read from a URL is never longer than the URL. |
| Urls.ExtractAfterLastQuestion | Tutorial/road-to-react/src/App.tsx:98-101 | For a URL ending in `?<v>&page=<digits>` with no `?` in `v`, the term read is `v` with its first `query=` removed. |
| Urls.ExtractBetween | Tutorial/road-to-react/src/App.tsx:98-101 | Whatever precedes the `?`, a URL of the shape `getUrl` builds gives back its term when the term holds no `?`. |
| Urls.RoundTrip | Tutorial/road-to-react/src/App.tsx:95-101 | For every term without `?` and every page, `extractSearchTerm(getUrl(term, page)) == term`. |
| Urls.EmptyTermRoundTrip | Tutorial/road-to-react/src/App.tsx:95-101 | The empty term comes back empty. |
| Urls.QuestionMarkBreaksRoundTrip | Tutorial/road-to-react/src/App.tsx:95-101 | A term holding any `?` does not come back as itself: the last `?` of the URL is the term's own, and only the shorter part after it is read. |
| Urls.RoundTripExactly | Tutorial/road-to-react/src/App.tsx:95-101 | `extractSearchTerm(getUrl(term, page)) == term` holds exactly when the term holds no `?`. |
| Urls.Terms | Tutorial/road-to-react/src/App.tsx:104-105 | One term per URL of the log. |
| Urls.TermsAt | Tutorial/road-to-react/src/App.tsx:104-105 | The i-th term is the term read from the i-th URL. |
| Urls.KeepTerm | Tutorial/road-to-react/src/App.tsx:106-114 | One step of the `reduce` never drops a kept term and adds at most the new one. The first URL's term is always added. A later term equal to the last kept one is skipped, and a different one is appended. Either way the new term is last afterwards. |
| Urls.Collapse | Tutorial/road-to-react/src/App.tsx:104-115 | The fold is empty exactly for no terms, and never longer than its input. |
| Urls.CollapseShape | Tutorial/road-to-react/src/App.tsx:104-115 | The fold starts with the first term and ends with the last, has no equal neighbours, and is a subsequence of the terms. |
| Urls.GetLastSearches | Tutorial/road-to-react/src/App.tsx:103-115 | The view is empty exactly for an empty log and never longer than the log; its full shape is `Urls.LastSearchesShape`, its reference definition `Urls.CollapseDropsRepeats`. |
| Urls.LastSearchesShape | Tutorial/road-to-react/src/App.tsx:103-115 | The view is empty exactly for an empty log and never longer than it. It starts with the first URL's term and ends with the last URL's. No two neighbours are equal, and the entries are the log's terms in log order. |
| Urls.CollapseDropsRepeats | Tutorial/road-to-react/src/App.tsx:106-114 | Comparing with the last kept term equals the reference view: a term is shown when it is the first or differs from the previous URL's term. |
| Urls.CollapseExample | Tutorial/road-to-react/src/App.tsx:104-115 | Terms `[a, a, b]` with `a != b` give `[a, b]`. |
| Urls.LastSearchesExample | Tutorial/road-to-react/src/App.tsx:103-115 | A search for a term `a` without `?`, "more" on it, then a search for a different term `b` without `?` give the view `[a, b]`. |
| Persistence.LoadOr | Tutorial/road-to-react/src/App.tsx:72 | A stored non-empty string is loaded; a missing or empty one gives the default, so with a non-empty default the value is never empty. The next load after a write is `Persistence.ReloadAfterWrite`. |
| Persistence.ReloadAfterWrite | Tutorial/road-to-react/src/App.tsx:72 | The next load after a write finds the written value, or the default when the written value is empty. |
| Persistence.LoadIgnoresOtherKeys | Tutorial/road-to-react/src/App.tsx:72 | Writes under other keys do not change what a key loads. |
| Persistence.SemiPersistentState.constructor | Tutorial/road-to-react/src/App.tsx:71-72 | The value starts as the stored value when present and non-empty, otherwise the default. The component is not yet mounted and storage is untouched. |
| Persistence.SemiPersistentState.SetValue | Tutorial/road-to-react/src/App.tsx:72 | Only the value changes; storage waits for the effect. |
| Persistence.SemiPersistentState.Effect | Tutorial/road-to-react/src/App.tsx:80-86 | The first run only marks the component mounted and writes nothing. Every later run writes the current value under the key. No other key is touched. |
| Persistence.MountThenChange | Tutorial/road-to-react/src/App.tsx:66-89 | With each effect run made explicit, mounting leaves storage as it was; a later run after `setValue` writes the value under the key, and the next load reads it back. React re-runs the effect only when the value changed, so when `v` equals the loaded value the model's second write (which may add the key) is one the browser does not make. |
| App.App.constructor | Tutorial/road-to-react/src/App.tsx:118-125 | Empty stories at page 0 with clear flags. The term is loaded from storage under "search" with the default "React". The log is exactly `[getUrl(term, 0)]`, so it is never empty. |
| App.App.HandleFetchStories | Tutorial/road-to-react/src/App.tsx:130-145 | INIT is dispatched first: loading, no error, data and page kept. The last URL of the log is requested. Then SUCCESS with the response's hits and page, or FAILURE, is dispatched. The log is unchanged. |
| App.App.HandleRemoveStory | Tutorial/road-to-react/src/App.tsx:155-157 | Dispatches REMOVE_STORY for the item; the log is unchanged. |
| App.App.HandleSearch | Tutorial/road-to-react/src/App.tsx:159-162 | Appends exactly `getUrl(term, page)` and keeps the existing log as its prefix. |
| App.App.HandleSearchInput | Tutorial/road-to-react/src/App.tsx:164-166 | The typed text becomes the term; storage is not written by the handler. |
| App.App.HandleSearchSubmit | Tutorial/road-to-react/src/App.tsx:168-171 | Appends the URL for the current term at page 0. |
| App.App.HandleLastSearch | Tutorial/road-to-react/src/App.tsx:173-176 | Sets the term to the chosen past term and appends its URL at page 0. |
| App.App.HandleMore | Tutorial/road-to-react/src/App.tsx:178-182 | Appends the URL for the term read from the last URL, at the current page plus one. |
| App.App.LastSearches | Tutorial/road-to-react/src/App.tsx:184 | The view derived from a log, which is never empty, is never empty. |
| App.App.SumComments | Tutorial/road-to-react/src/App.tsx:186 | The heading's count is the sum of `num_comments` over the stories in the state, whether or not the list is shown while loading. |
| App.MoreContinuesSearch | Tutorial/road-to-react/src/App.tsx:178-182 | After a search for a term without `?`, "more" asks for that same term at the next page. |
| App.SearchThenMore | Tutorial/road-to-react/src/App.tsx:118-182 | Mounting, fetching page 0, pressing "more" and fetching page 1 logs the page-0 and page-1 URLs of the stored term, when it holds no `?`, and shows both pages in order at page 1. |
| ListSorts.StrLeTotal | Tutorial/road-to-react/src/List.tsx:19-20 | String order (as JavaScript's `<`) compares any two strings. |
| ListSorts.StrLeAntisymmetric | Tutorial/road-to-react/src/List.tsx:19-20 | Two strings ordered both ways are equal. |
| ListSorts.StrLeTransitive | Tutorial/road-to-react/src/List.tsx:19-20 | String order is transitive. |
| ListSorts.Insert | Tutorial/road-to-react/src/List.tsx:19-22 | Insertion adds exactly the one story. |
| ListSorts.InsertAscending | Tutorial/road-to-react/src/List.tsx:19-22 | Inserting into an ascending list keeps it ascending. |
| ListSorts.InsertKeepsTies | Tutorial/road-to-react/src/List.tsx:19-22 | The inserted story stays ahead of the stories with an equal value. |
| ListSorts.SortBy | Tutorial/road-to-react/src/List.tsx:19-22 | `sortBy(list, field)` is a permutation of the list, ascending by the field. |
| ListSorts.SortByKeepsTies | Tutorial/road-to-react/src/List.tsx:19-22 | The sort is stable: stories with equal values keep their input order. |
| ListSorts.StableSortIsUnique | Tutorial/road-to-react/src/List.tsx:19-22 | Any two ascending, tie-preserving arrangements are equal, so every stable ascending sort gives exactly `SortBy`. |
| ListSorts.WithKeyReverse | Tutorial/road-to-react/src/List.tsx:21-22 | Reversing a list reverses each group of equal values. |
| ListSorts.SortFunction | Tutorial/road-to-react/src/List.tsx:17-23 | Every entry of the table returns a permutation of its input. |
| ListSorts.SortFunctionOrder | Tutorial/road-to-react/src/List.tsx:17-23 | NONE returns the list itself. TITLE and AUTHOR are ascending and stable. COMMENT and POINT are descending, with each group of equal values in reverse input order. |
| ListSorts.SortedList | Tutorial/road-to-react/src/List.tsx:73-76 | The shown list has the input's length and the input's stories, each as often. |
| ListSorts.InitialSortKeepsOrder | Tutorial/road-to-react/src/List.tsx:63-66 | The initial sort state shows the list in its given order. |
| ListSorts.SortedListOrder | Tutorial/road-to-react/src/List.tsx:73-76 | For every key but NONE the shown list is ordered by the key's field. It is ascending for TITLE and AUTHOR, and descending for COMMENT and POINT; `isReverse` flips the direction. |
| ListSorts.NextSort | Tutorial/road-to-react/src/List.tsx:69-70 | The clicked key becomes active; a different key clears `isReverse`, the active key toggles it. `ListSorts.SortControl.HandleSort` applies it and `ListSorts.ClickTwiceRestores` shows two clicks cancel. |
| ListSorts.ClickTwiceRestores | Tutorial/road-to-react/src/List.tsx:68-71 | Clicking the active key twice returns to the same sort state. |
| ListSorts.CommentsClicks | Tutorial/road-to-react/src/List.tsx:68-76 | From the start, one click on "Comments" shows most comments first. A second click shows fewest first, which is exactly the stable ascending sort. |
| ListSorts.SortControl.constructor | Tutorial/road-to-react/src/List.tsx:63-66 | The sort state starts at NONE, not reversed. |
| ListSorts.SortControl.HandleSort | Tutorial/road-to-react/src/List.tsx:68-71 | The clicked key becomes active. A different key clears `isReverse`; the active key toggles it. |
| ListSorts.SortControl.Shown | Tutorial/road-to-react/src/List.tsx:73-76 | The list shown for the current state is a permutation of the input. |

## Left out

- The HTTP request (`axios.get`) and `console.log`: the request's outcome, hits and page or an error, is an input of `HandleFetchStories`.
- React's scheduling: `useEffect`, `useCallback`, `memo`, `useId`, re-renders, and the race between overlapping fetches. Handlers run one at a time, each to completion. The `App` handlers leave storage writes to `Persistence.SemiPersistentState.Effect`, which `App` does not run. So inside `App` a changed search term is never written to storage; the effect's writing is modelled and proved on its own.
- Persistence.MountThenChange: runs the effect a second time whatever `v` is, while React's dependency list `[value, key]` skips that run when the value did not change; the scenario's write is then one the browser does not make.
- Browser storage is a `map<string, string>`. Storage quotas, other tabs and unavailable storage are not modelled.
- JSX rendering, styling, the list items and the input component are presentational.
- JavaScript numbers are unbounded integers here: no floating point, `NaN` or rounding in `page`, `num_comments` or `points`.
- Strings are sequences of characters. JavaScript compares and indexes UTF-16 code units, so strings outside the Basic Multilingual Plane may order differently.
- The reducer's fallback `throw` for an unknown action type: the action datatype is closed, so that case cannot arise.
- The `page` of the init action is carried but ignored, as the reducer ignores it.
- A response without a `page` field, as in the test doubles, makes `undefined === 0` false in the reducer. Response pages here are always integers.
- ListSorts.SortBy: lodash's `sortBy` is not reimplemented. It is modelled as a stable insertion sort, and `StableSortIsUnique` shows that any stable ascending sort gives the same result. lodash's handling of `undefined`, `null`, `NaN` and symbols is not modelled, because a field's values all have one type.
- ListSorts.SortedList: the JavaScript `.reverse()` works in place. For NONE the array it reverses is the prop passed in, so the caller's array is reversed too. The model works on values and does not capture that aliasing. No column button selects NONE, so the state NONE with `isReverse` set is never reached.
- JsText.LastIndexOf: searches for one character, which is all `extractSearchTerm` uses.
- JsText.ReplaceFirst: inserts the replacement literally. JavaScript expands `$&`, `$'`, `` $` `` and `$$` in a replacement string; that is not modelled, because the only replacement used is the empty string.
- The tests' expected state after a removal omits `page`; the reducer keeps `page`, and the model follows the reducer.
