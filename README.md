# Recent searches and Riot ID search box

A Dafny model of the client-side logic of the League of Legends statistics
site's search page (`static/script.js`): the check applied to a Riot ID typed
into the search box, and the "recent searches" list that remembers the last
five IDs searched for.

- `text.dfy`, module `Text`: `String.prototype.trim` over the exact set of
  characters ECMAScript counts as white space or line terminators, and an
  ASCII case fold standing in for `toLowerCase`.
- `recent.dfy`, module `Recent`: the most-recently-used list. `Added` is the
  specification of one update (drop entries equal to the new ID ignoring
  case, put the new ID first, keep five); the class `RecentSearches` holds
  the list in a field, as the page holds it in browser storage, and its
  method `Add` performs the update step by step (filter loop, prepend,
  truncate) and is proved equal to `Added`. Lemmas show that an update keeps
  the surviving entries in order, keeps the list free of case-insensitive
  duplicates, and is idempotent.
- `search.dfy`, module `Search`: the guards of the search (trim, refuse
  empty, refuse without `#`) as the function `CheckRiotId`, characterised in
  terms of the raw input, and the search itself as a method that updates the
  recent list only for an accepted ID.

Browser storage is a field: reading `recentSearches` (absent meaning `[]`)
is reading `items`, and writing it back is assigning `items`. The page
navigation that follows a search is represented by the accepted ID the
search method returns.

## Model

| member | source | states |
|---|---|---|
| `Text.TrimStart` | static/script.js:5 | leading part of trimming: result is a suffix of the input, everything removed is whitespace, result does not start with whitespace |
| `Text.TrimEnd` | static/script.js:5 | trailing part of trimming: result is a prefix of the input, everything removed is whitespace, result does not end with whitespace |
| `Text.Trim` | static/script.js:5 | the trimmed ID is the contiguous middle part of the input, unchanged inside, preceded only by whitespace and followed only by whitespace, and it neither starts nor ends with whitespace |
| `Text.LeadingWhitespace` | static/script.js:5 | the number of leading whitespace characters: every character before it is whitespace and the one at it is not |
| `Text.TrimKeepsCharacters` | static/script.js:5 | trimming keeps every non-whitespace character and adds none, and leaves nothing exactly when the input is all whitespace |
| `Text.TrimIdempotent` | static/script.js:5 | trimming a trimmed ID changes nothing |
| `Text.LowerChar` | static/script.js:32 | ASCII upper-case letters map to their lower-case letter, every other character is unchanged |
| `Text.Lower` | static/script.js:32 | lowering keeps the length |
| `Text.LowerAt` | static/script.js:32 | lowering works character by character and leaves no upper-case ASCII letter |
| `Recent.WithoutId` | static/script.js:32 | an entry occurs in the filtered list exactly when it occurs in the input and differs from the new ID ignoring case |
| `Recent.WithoutIdCounts` | static/script.js:32 | the filter removes every occurrence of an entry naming the new ID and keeps every other entry exactly as often as it occurred |
| `Recent.Added` | static/script.js:30-35 | after an update the new ID is first, the list has at most 5 entries, no other entry equals the ID ignoring case, every entry is the ID or an old entry, the rest is a prefix of the filtered old list, and nothing is dropped unless the list is full |
| `Recent.WithoutIdIsSubsequence` | static/script.js:32 | the filter keeps its survivors in their original order |
| `Recent.AddedKeepsOrder` | static/script.js:32-34 | old entries that survive an update keep their relative order |
| `Recent.WithoutIdDistinct` | static/script.js:32 | filtering a list without case-insensitive duplicates leaves one without duplicates |
| `Recent.AddedDistinct` | static/script.js:32-34 | if the old list has no case-insensitive duplicates, neither has the updated list |
| `Recent.AddedIdempotent` | static/script.js:32-34 | searching for the same ID twice in a row leaves the list that searching once leaves |
| `Recent.RecentSearches.constructor` | static/script.js:31 | with nothing stored the list is empty (and trivially bounded and duplicate-free) |
| `Recent.RecentSearches.Restore` | static/script.js:31 | a stored list is read back as stored |
| `Recent.RecentSearches.Add` | static/script.js:30-35 | the stored list becomes `Added` of the old one: new ID first, at most 5 entries, no other entry naming the ID, old order kept, and the bounded duplicate-free invariant preserved |
| `Search.CheckRiotId` | static/script.js:5-15 | input is accepted exactly when it contains `#`, refused as empty exactly when it is all whitespace, refused for a missing `#` otherwise; an accepted ID is the trimmed input and carries no surrounding whitespace |
| `Search.HashSurvivesTrim` | static/script.js:5-12 | testing the trimmed input for `#` is the same as testing the raw input |
| `Search.SearchSummoner` | static/script.js:3-18 | a refused input leaves the recent list unchanged; an accepted one adds the trimmed ID, which becomes the head of the list |
| `Search.SearchSpecific` | static/script.js:24-27 | searching a suggested ID behaves exactly like typing it into the box |

## Left out

- `Text.LowerChar`, `Text.Lower`, `Text.LowerAt`: fold only the ASCII letters `A`-`Z`, because JavaScript's `toLowerCase` follows the full Unicode case mapping (for example Polish `Ł` to `ł`, and mappings that change the length). IDs that differ only in non-ASCII case are therefore distinct entries in the model and one entry in the page.
- Strings are sequences of Unicode scalar values, where JavaScript strings are sequences of UTF-16 code units; this does not affect trimming or the `#` test.
- `updateRecentSearchesUI` and the other DOM rendering (`loadSummonerData`, the match list, `showNotification` and its timers, the Enter-key handler): presentation only. The notification text of a refused search is represented by the `SearchError` reason.
- JSON parsing and serialisation of the stored list and the storage API itself: the list is a field holding a sequence. A stored value that is not a list of strings is not modelled.
- `encodeURIComponent` and the navigation to the profile page after an accepted search: a library call and browser I/O; the search returns the ID it would navigate to.
- The `fetch` calls in `loadSummonerData` and `requestAIAnalysis`: network I/O.
- The win rate shown on the profile page: rounding of a floating-point division.
- `main.py` (the web server's routes and the stubbed text-analysis call): request plumbing with no logic to model. The statistics-API aggregation the server is meant to perform is not part of this model.
