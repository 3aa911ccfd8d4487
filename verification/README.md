# Skill-Bridge search and bookmark engine in Dafny

Skill-Bridge is a static page that lists two catalogs, courses and
internships. Users can narrow the lists with a free-text box and two
drop-downs (category and level), and can save any card with a heart button.
All of its logic lives in one script, `index.html/css/js/main.js`.

This project models the decision logic of that script as pure functions over
immutable values. The DOM, the network and browser storage are left out.

- `Text` (`text.dfy`): the string built-ins the script uses. These are
  `toLowerCase` and `toUpperCase` (ASCII letters only), `trim` (the
  ECMAScript white-space and line-terminator code points), `includes`, and
  the `capitalizeFirst` utility.
- `ArrayOps` (`arrayops.dfy`): the array built-ins `filter`, `findIndex`,
  `find`, `some` and `splice(i, 1)`, plus the `[...new Set(xs)]` idiom.
- `Catalog` (`catalog.dfy`): the `Item` record, with `Course` and
  `Internship` variants, and the pair of loaded catalogs.
- `Search` (`search.dfy`): the text, category and level clauses of
  `performSearch`, the search over both catalogs, and
  `filterByMultipleCriteria`.
- `Bookmarks` (`bookmarks.dfy`): the bookmark list keyed by (id, type).
  It covers the per-card membership test and `toggleBookmark`.
- `Session` (`session.dfy`): the script's module-level state as one value.
  It holds the catalogs, the in-memory bookmark list and what the storage
  key `skillbridge_bookmarked` holds. It covers reading that key at start-up,
  the write after every toggle, runs of toggles, and `getStats`.
- `Scenarios` (`scenarios.dfy`): concrete scenarios on the built-in fallback
  records.

A bookmark entry is a snapshot of the catalog record taken when it is saved.
It records the type string the card passed and the save time, which is given
as a parameter. Nothing links the entry back to the catalog.

The source keeps two behaviours that a reader might not expect, and the model
keeps both:

- `toggleBookmark` looks in the internships for every type string other than
  `"course"`. The new entry keeps whatever string it was given (see
  `Scenarios.OtherTypeScenario`).
- The bookmark list is written back to storage on every toggle. This
  includes a toggle that found nothing to save.

Two more behaviours of the code matter for what the model promises:

- Unparsable stored text: line 4 does not catch the `JSON.parse` exception,
  so `Session.LoadBookmarks` fails. This is recorded under "Findings" below,
  and `Session.Start` uses the corrected loader.
- A failed catalog fetch replaces both catalogs with the fallback data.
  Loading is not part of this model (see below).

## Model

| member | source | states |
|---|---|---|
| Search.PerformSearch | index.html/css/js/main.js:253-295 | each filtered catalog is a subsequence of its input, in the original order; an item is in it exactly when it satisfies text AND category AND level, and every copy of such an item is kept |
| Search.Term | index.html/css/js/main.js:254 | the searched term is the trim of the lower-cased input, so it holds no upper-case letter; it is empty exactly when the typed text is all white space, so blank input matches everything |
| Search.BlankQueryShowsEverything | index.html/css/js/main.js:254-287 | blank text with both drop-downs empty returns both catalogs unchanged |
| Search.SearchIgnoresQueryCase | index.html/css/js/main.js:254 | the search result does not depend on the case of the typed text |
| Search.TextMatchesIffSearchableField | index.html/css/js/main.js:260-282 | the text clause holds iff the term is empty or occurs, case-insensitively, in the title, description, provider or company, location (internships), or one skill or requirement |
| Search.TextIgnoresOtherFields | index.html/css/js/main.js:260-282 | two records with the same searchable fields agree on the text clause; no other field plays a part |
| Search.MissingListMatchesNothing | index.html/css/js/main.js:264-282 | a missing skills or requirements list adds no match and behaves like an empty list; the other fields decide |
| Search.FilterByMultipleCriteria | index.html/css/js/main.js:397-404 | the result is a subsequence of the input holding exactly the items whose every criterion is falsy or equal to the property of that name, each as often as in the input |
| Search.FalsyCriteriaKeepEverything | index.html/css/js/main.js:397-404 | when every criterion is falsy (or there are none) nothing is filtered out |
| Search.SearchIsCriteriaFilter | index.html/css/js/main.js:267-268 | with blank text, each catalog's search result equals the criteria filter on `category` and `level` |
| Bookmarks.IsBookmarked | index.html/css/js/main.js:157 | the card's heart is filled iff some entry has the card's id and type |
| Bookmarks.Lookup | index.html/css/js/main.js:317-319 | finds the first record with the id in the catalog for the type (courses for "course", internships otherwise), or nothing when there is none |
| Bookmarks.Toggle | index.html/css/js/main.js:306-327 | a saved key loses exactly its first entry and the others keep their order; an unsaved key found in its catalog gains, at the end, a snapshot of the first record with that id, tagged with its type and date; otherwise the list is unchanged |
| Bookmarks.ToggleKeepsUnique | index.html/css/js/main.js:307-322 | a toggle preserves "at most one entry per (id, type)" |
| Bookmarks.ToggleFlipsMembership | index.html/css/js/main.js:307-322 | on a unique list, toggling a saved or catalogued key flips whether it is saved |
| Bookmarks.ToggleLeavesOtherKeys | index.html/css/js/main.js:307-322 | a toggle never changes whether any other key is saved |
| Bookmarks.ToggleTwiceRestoresMembership | index.html/css/js/main.js:306-327 | toggling one key twice restores the set of saved keys, not the dates; an unsaved key's list comes back identical |
| Bookmarks.ToggleTwiceLosesUncatalogued | index.html/css/js/main.js:317-321 | a saved key whose record is gone from the catalog is removed and cannot be re-added, so the catalog condition above is needed |
| Bookmarks.DuplicateSurvivesRemoval | index.html/css/js/main.js:307-311 | with two entries for a key, a toggle removes only the first and the key stays saved, so uniqueness is needed |
| Session.LoadBookmarks | index.html/css/js/main.js:4 | start-up fails exactly on an unparsable stored value; a non-empty result is exactly the saved list |
| Session.MalformedStorageAborts | index.html/css/js/main.js:4 | as written, unparsable stored text makes start-up throw |
| Session.LoadBookmarksRecovering | index.html/css/js/main.js:4 | corrected loader: a saved list is used as is, and anything else, unparsable text included, gives the empty list |
| Session.RecoveringAgreesWhenParsable | index.html/css/js/main.js:4 | the corrected loader agrees with line 4 whenever line 4 does not throw, and gives the empty list where it throws |
| Session.Start | index.html/css/js/main.js:1-4 | a fresh session keeps the catalogs and the stored value, and its list is whatever line 4 would have produced, or empty on unparsable text |
| Session.StartInSync | index.html/css/js/main.js:4 | a fresh session reads back from storage as its own list exactly when the stored text parses |
| Session.ToggleBookmark | index.html/css/js/main.js:306-330 | the outcome is the toggle's; storage is overwritten with the new in-memory list on every path, nothing found included, so it reads back as that list; the catalog is untouched |
| Session.ToggleAll | index.html/css/js/main.js:330 | after one or more toggles, storage reads back as the in-memory list |
| Session.UniqueAfterAnyClicks | index.html/css/js/main.js:306-331 | any sequence of toggles keeps a unique bookmark list unique |
| Session.GetStats | index.html/css/js/main.js:387-394 | the category count is the number of distinct category strings across both catalogs |
| Session.CountDistinctCategories | index.html/css/js/main.js:392 | a duplicate-free list holding exactly the categories of the records is as long as the set of those categories |
| Text.CapitalizeFirst | index.html/css/js/main.js:369-371 | same length, same tail, and a first character that is not lower-case but equal to the original ignoring case |
| Text.CapitalizeFirstIdempotent | index.html/css/js/main.js:369-371 | capitalising twice equals capitalising once; a string already starting without a lower-case letter is unchanged |
| Text.Trim | index.html/css/js/main.js:254 | the result is a contiguous slice of the input with only white space around it and no white space at its ends |
| Text.TrimEmptyIffBlank | index.html/css/js/main.js:254 | trimming leaves nothing exactly when the input is all white space |
| Text.TrimIdempotent | index.html/css/js/main.js:254 | trimming twice equals trimming once |
| Text.UpperChar | index.html/css/js/main.js:370 | `toUpperCase` on one character: a lower-case letter becomes its own upper-case letter (code point minus 32), any other character is unchanged, and the result is equal ignoring case |
| Text.Lower | index.html/css/js/main.js:254 | same length, no upper-case letter, each upper-case letter becomes its own lower-case letter (code point plus 32), and every other character is unchanged |
| Text.LowerIdempotent | index.html/css/js/main.js:254 | lower-casing twice equals lower-casing once |
| Text.Contains | index.html/css/js/main.js:261 | `includes` holds iff the needle occurs at some index of the haystack |
| ArrayOps.Filter | index.html/css/js/main.js:259-271 | `filter` returns a subsequence of its input keeping each element that satisfies the predicate, as often as it occurs, and nothing else |
| ArrayOps.FilterUnique | index.html/css/js/main.js:259-271 | that characterisation determines the result: any such subsequence is the filter's output |
| ArrayOps.Find | index.html/css/js/main.js:318-319 | `find` returns nothing exactly when no element satisfies the predicate, and otherwise the element at the first index that does |
| ArrayOps.Any | index.html/css/js/main.js:157 | `some` holds exactly when some element satisfies the predicate; the card test and the skill and requirement clauses use it |
| ArrayOps.FindIndex | index.html/css/js/main.js:307 | `findIndex` returns the first index satisfying the predicate, or -1 exactly when none does |
| ArrayOps.RemoveAt | index.html/css/js/main.js:311 | `splice(i, 1)` drops exactly element i; the earlier elements keep their places and the later ones shift down by one |
| ArrayOps.Distinct | index.html/css/js/main.js:392 | `[...new Set(xs)]` has no duplicates, the same elements as `xs`, and lists them in the order of their first index in `xs` |
| ArrayOps.DistinctCardinality | index.html/css/js/main.js:392 | a duplicate-free list is as long as the set of its elements |
| Scenarios.DesignCategoryScenario | index.html/css/js/main.js:63-129 | on the fallback records, the "design" category with empty text lists only the design course and the design internship |
| Scenarios.RequirementScenario | index.html/css/js/main.js:280-282 | an internship with no other field able to hold "react" does not match the term "react", and matches it once its requirements hold "React" |
| Scenarios.ToggleScenario | index.html/css/js/main.js:306-327 | saving course 1 on an empty list adds one entry; saving it again removes it and leaves the list empty |
| Scenarios.OtherTypeScenario | index.html/css/js/main.js:317-322 | an unknown type string looks in the internships and the new entry keeps that string |

## Findings

| source | as written | input that shows it | evidently intended | confidence | as-written member | corrected member |
|---|---|---|---|---|---|---|
| index.html/css/js/main.js:4 | `JSON.parse` of the stored bookmark text is not guarded, so unparsable text throws while the script loads and no handler is ever installed | stored value `Malformed` (text such as `{`) | the `\|\| []` fallback: start with no bookmarks | medium, not executed | Session.MalformedStorageAborts | Session.LoadBookmarksRecovering |

## Left out

- Rendering is not modelled: `displayCourses`, `displayInternships`, the card
  markup, `showTab`, `showNotification`, `scrollToSearch`, `showLoading`,
  `animateCards` and `updateResultsCount`. These only build HTML or log text.
  The only decision they contain is the bookmark test, modelled as
  `Bookmarks.IsBookmarked`.
- `loadAllData` and `loadFallbackData` are not modelled, because they are
  network fetches and JSON parsing. The fallback records appear only as the
  fixture in `Scenarios`.
- Browser storage and JSON are not modelled. The stored value is the
  already-parsed `Session.Stored`. The model assumes that serialising and
  parsing a bookmark list gives the same list back.
- `debounce` is not modelled, because it is timer-driven event plumbing.
- The clock is not modelled: `new Date().toISOString()` is the `now`
  parameter.
- The floating-point `rating` field is not part of `Item`. For the same
  reason, a `rating` criterion in `filterByMultipleCriteria` never matches in
  the model.
- Text.Lower, Text.UpperChar: upper- and lower-casing cover ASCII letters
  only. JavaScript also maps other Unicode letters, and can lengthen a string
  when upper-casing.
- Search.PerformSearch: the model applies the course text clause to
  `Course` records and the internship clause to `Internship` records,
  wherever each record sits. The source applies the course clause to every
  record in the course list. The two agree when each list holds its own
  kind. A record of the wrong kind can make the source throw, when evaluation
  reaches a missing `provider`, `company` or `location`; wherever the source
  returns, the two agree.
- Search.FieldOf: `NaN` and other floating-point criterion values are not
  modelled. `null` and `undefined` criteria are both `Nothing`, which is
  falsy and so never filters.
- Search.FieldOf: list-valued properties (`skills`, `requirements`) count as
  never equal to a criterion. In the source, `===` compares arrays by
  reference, so a criterion could only match one if it held the very same
  array object.
- Session.Stored: stored JSON that parses to a truthy value other than a list
  (`{}`, `1`, `"x"`) is not modelled. Line 4 keeps such a value as the
  bookmark list, and the first `.some` call on it (line 157) throws. Falsy
  values (`null`, `0`, `false`, `""`) are `FalsyValue` and give the empty list.
- Session.ToggleBookmark: the write to storage is assumed to succeed.
  `localStorage.setItem` can throw (for example when the quota is exceeded)
  after the in-memory list has changed, which leaves storage stale; the model
  does not promise the read-back in that case.
