# Favorites store and catalog client of a TV-show browser, in Dafny

This project models the two parts of the MiTVOnline web client that carry logic of
their own:

- **The favorites store** (`js/favorites.js`). This is an ordered list of favorite
  shows kept in one browser storage slot. Every operation reads the whole list and,
  when it changes something, writes the whole list back. Ids are unique and new
  entries go at the end. Removing or re-adding an entry changes nothing else.
- **The catalog client** (`js/api.js`). This is a thin layer over the remote
  show-catalog service. It turns transport failures into four user-facing errors in
  a fixed order. It refuses blank search queries, projects search hits to shows,
  downgrades cast and episode failures to empty lists, and selects the "popular
  shows": it filters the listing, sorts it by rating and keeps the first twelve.

Modules, one per file:

- `Wrappers`: the `Option` and `Result` datatypes.
- `JsText`: the JavaScript built-ins the two files rely on. These are `trim`, the
  global `parseInt` without a radix, and `String(n)` for an integral Number.
- `Sequences`: the subsequence relation used to say "order is kept".
- `Catalog`: the show record.
- `Favorites`: the entry type, pure specifications of add, remove and toggle, their
  lemmas, and the `Store` class.
- `Api`: the catalog client.

The store is imperative. `Store` has one field, `slot`, which stands for the storage
slot. Its methods read and reassign `slot`, and each method's `ensures` gives the
new slot in terms of the old one. The pure functions `Added`, `Removed` and
`Toggled` describe the resulting list, and the lemmas about the store are proved
about them. The catalog client is pure. Each operation takes what the transport
produced for its request (a body or a failure) and the browser's online flag.

Three modelling choices:

- **Failed storage writes.** `saveFavorites` swallows write failures such as an
  exceeded quota. Each mutator therefore takes a `writeOk` flag. When it is false
  the slot keeps its old value, but the operation still returns what the source
  returns. Properties such as "after adding, the show is a favorite" are stated
  under `writeOk`.
- **How ids are read.** `isFavorite` and `removeFromFavorites` read the id with
  `parseInt`. The model has the id as a Number or as text (`IdArg`) and applies a
  model of `parseInt`. That model skips leading whitespace, accepts one sign,
  switches to base 16 after `0x`, reads the longest run of digits and otherwise
  gives `NaN`. `ParseNumberText` proves that `parseInt(String(n))` is `n`, so
  `addToFavorites(show)` and `toggleFavorite(show)` test exactly `show.id`.
- **Ratings.** They are `real`, because the source only compares them.

Three points where the code's behaviour is easy to misread:

- Toggling agrees with `isFavorite` afterwards only when the write succeeds.
- A text id whose first non-whitespace characters, after an optional sign, are not
  a digit reads as `NaN` and is not a favorite. Leading whitespace and one sign are
  accepted, so `" 7"` and `"+7"` read as 7 and `"-7"` as -7. Trailing text is
  ignored, so `"12abc"` and `"0x0C"` read as 12.
- Sorting by rating is stable, as `Array.prototype.sort` is required to be.
  `SortStable` proves that shows with equal ratings keep their listing order.

## Model

| member | source | states |
|---|---|---|
| `Favorites.Store.constructor` | js/favorites.js:1-2 | the store starts over whatever the storage slot already holds |
| `Favorites.Store.Load` | js/favorites.js:4-12 | `loadFavorites` yields the stored list; an absent or unparsable slot yields the empty list |
| `Favorites.Store.SaveFavorites` | js/favorites.js:14-21 | a successful write replaces the slot and reloading gives back exactly the saved list; a failed write is swallowed and leaves the slot as it was |
| `Favorites.FavoriteOf` | js/favorites.js:30-43 | the recorded entry keeps the show's id and name and is stamped with the time of adding |
| `Favorites.HasId` | js/favorites.js:63-66 | true exactly when some stored entry has the id |
| `Favorites.ParseId` | js/favorites.js:53 | the id coercion; a Number id is read back as itself |
| `Favorites.Store.IsFavorite` | js/favorites.js:63-66 | true exactly when a stored entry's id equals the coerced id; `NaN` matches nothing |
| `Favorites.Store.AddToFavorites` | js/favorites.js:23-48 | returns true exactly when the id was absent; then the new list is the old list plus one new last entry, and otherwise the slot is untouched; afterwards the show is a favorite whatever was returned; unique ids stay unique |
| `Favorites.Without` | js/favorites.js:52-54 | the filter shrinks the list exactly when the id was present and returns the list itself otherwise |
| `Favorites.WithoutSelects` | js/favorites.js:52-54 | the filter keeps exactly the entries with another id, in their order |
| `Favorites.WithoutKeepsCopies` | js/favorites.js:52-54 | the filter keeps every copy of each entry with another id and no copy of an entry with the id (multiset counts) |
| `Favorites.WithoutPreservesUnique` | js/favorites.js:52-54 | the filter keeps ids unique |
| `Favorites.WithoutAppend` | js/favorites.js:52-54 | filtering a list with one more entry at the end gives the filtered list, followed by that entry when its id differs |
| `Favorites.Store.RemoveFromFavorites` | js/favorites.js:50-61 | returns true exactly when an entry had the coerced id; only then is anything written; afterwards no entry has that id; unique ids stay unique |
| `Favorites.Store.ToggleFavorite` | js/favorites.js:68-76 | returns the negation of the old membership, which after a successful write is the new membership; the slot holds the toggled list; unique ids stay unique |
| `Favorites.Store.GetAllFavorites` | js/favorites.js:78-80 | returns the loaded list |
| `Favorites.Store.GetFavoritesCount` | js/favorites.js:82-84 | returns the length of the loaded list |
| `Favorites.Store.ClearAllFavorites` | js/favorites.js:86-89 | always returns true; a successful write leaves the empty list |
| `Favorites.Added` | js/favorites.js:23-48 | the list after an add: as long as before when the id was present, one longer otherwise, with the old entries first and untouched |
| `Favorites.Removed` | js/favorites.js:50-61 | the list after a remove: never longer; unchanged for a `NaN` id; otherwise no entry keeps the id |
| `Favorites.Toggled` | js/favorites.js:68-76 | the list after a toggle: strictly shorter when the show was a favorite, exactly one longer when it was not |
| `Favorites.AddedAppends` | js/favorites.js:26-47 | after an add the id is present; a present id leaves the list unchanged; an absent one appends exactly one entry, with that id, after the untouched old entries |
| `Favorites.AddIdempotent` | js/favorites.js:26-28 | adding the same show twice gives the list a single add gives |
| `Favorites.AddPreservesUnique` | js/favorites.js:26-47 | adding keeps ids unique |
| `Favorites.RemovedDropsId` | js/favorites.js:50-61 | after removal no entry has the id, every other entry remains in its order with all its copies, and the list shrinks exactly when the id was present |
| `Favorites.RemoveDropsOne` | js/favorites.js:52-56 | with unique ids, removing a present id takes out exactly one entry |
| `Favorites.ToggleFlips` | js/favorites.js:68-76 | a toggle flips membership of the show's id |
| `Favorites.ToggleTwice` | js/favorites.js:68-76 | two toggles from a list without the show restore it exactly; from a list with it, the show ends up re-added as the last entry |
| `Favorites.MutationsPreserveUnique` | js/favorites.js:26-54 | add, remove and toggle all keep ids unique |
| `Favorites.RemoveScenario` | js/favorites.js:50-61 | with one entry of id 1 stored, removing id 2 reports false, then removing the text id "1" reports true and leaves no entries |
| `Favorites.AddTwice` | js/favorites.js:23-48 | a second add of the same show reports false and stores what one add stored |
| `Favorites.ToggleTwiceOn` | js/favorites.js:68-76 | two successive toggles return opposite values; starting from a list without the show, the stored list is restored |
| `Favorites.ClearThenCount` | js/favorites.js:82-89 | after clearing, the count is 0 whatever was stored |
| `JsText.TrimStartSpec` | js/api.js:29 | `trimStart` leaves the suffix that follows all leading whitespace, and that suffix starts with non-whitespace |
| `JsText.TrimEndSpec` | js/api.js:29 | `trimEnd` leaves the prefix that precedes all trailing whitespace, and that prefix ends with non-whitespace |
| `JsText.Trim` | js/api.js:29 | `trim` is never longer than its input and neither starts nor ends with whitespace |
| `JsText.TrimEmptyIffBlank` | js/api.js:29 | trimming gives the empty text exactly when every character is whitespace |
| `JsText.TrimIsSlice` | js/api.js:34 | the trimmed text is the contiguous part of the query that starts right after the leading whitespace |
| `JsText.TrimShape` | js/api.js:34 | what trimming drops at the end is whitespace, and the trimmed text neither starts nor ends with whitespace |
| `JsText.ParseNumberText` | js/favorites.js:65 | `parseInt` of an integer's decimal text is that integer |
| `JsText.ParseInt` | js/favorites.js:53 | `parseInt` of empty or all-whitespace text is `NaN` |
| `JsText.NoDigitIsNaN` | js/favorites.js:53 | text with no decimal digit, such as "undefined", parses to `NaN` |
| `Api.MessagesDistinct` | js/api.js:12-30 | every error has its own message |
| `Api.Message` | js/api.js:12-30 | every error carries a non-empty user-facing message (the five texts are those the source throws) |
| `Api.Classify` | js/api.js:12-24 | a timeout code always gives the timeout error, even offline or on a 404; otherwise being offline gives the offline error, even on a 404; otherwise a 404 gives not-found; all else gives the server error |
| `Api.Request` | js/api.js:4-25 | a delivered body is returned as is; a failure becomes its classified error, never the empty-query error |
| `Api.SearchTerm` | js/api.js:29-34 | there is no term exactly when the query is empty or all whitespace; otherwise the term is the trimmed query, non-empty and without whitespace at either end |
| `Api.ShowsOf` | js/api.js:36 | same length and order as the response, each element the hit's show |
| `Api.SearchShows` | js/api.js:28-37 | a blank query fails with the empty-query error whatever the network would have answered; a failed request propagates its classified error; otherwise the result is the shows of the response, in order |
| `Api.GetShowDetails` | js/api.js:39-41 | the fetched show, or exactly the request's classified error, never the empty-query error |
| `Api.GetShowCast` | js/api.js:43-50 | the fetched cast, or the empty list on any failure |
| `Api.GetShowEpisodes` | js/api.js:52-59 | the fetched episodes, or the empty list on any failure |
| `Api.Qualifies` | js/api.js:69-75 | a show that passes the filter has a truthy (non-zero) rating average of at least 7.0, so its sort key is that average |
| `Api.RatingKey` | js/api.js:76 | the sort key (`rating.average`, or 0 when that is falsy): 0 when the average is missing or falsy, and any non-zero key is the show's own average |
| `Api.KeepQualifying` | js/api.js:67-75 | keeps every qualifying show as often as the listing has it and nothing else, in listing order |
| `Api.Insert` | js/api.js:76 | inserting into a list sorted by rating keeps it sorted and adds exactly the one show |
| `Api.SortByRating` | js/api.js:76 | the result is sorted non-increasing by rating and is a permutation of the input |
| `Api.SortStable` | js/api.js:76 | shows with the same rating keep their relative listing order |
| `Api.TopRated` | js/api.js:67-77 | at most twelve shows, each qualifying, sorted by rating, all drawn from the listing |
| `Api.GetPopularShows` | js/api.js:62-82 | at most twelve shows, each with a rating of at least 7.0 and a medium image, sorted by rating, drawn from the listing; the empty list on any failure |
| `Api.PopularAreTopRated` | js/api.js:67-77 | exactly min(12, number of qualifying shows) are returned, and every qualifying show left out is rated no higher than every show kept |

## Left out

- DOM and view code is not modelled: `createFavoriteButton`, `updateFavoriteButtonState`, `updateFavoritesCounter`, `init`, `showFeedback` and the page controllers in `js/app.js`, `js/details.js`, `js/favorites-page.js` and `js/ui.js`. They render markup and run timers. `saveFavorites` also refreshes the header counter, which is omitted.
- `handleFavoriteClick` is not modelled. It is asynchronous glue: it may fetch the show with `getShowDetails`, then calls `toggleFavorite`.
- Browser storage, `JSON.parse` and `JSON.stringify` are foreign calls, and the `console.error` logging in `loadFavorites` and `saveFavorites` (js/favorites.js:9, js/favorites.js:19) is output only. The slot is modelled as absent, unparsable, or holding a list of entries.
- A slot whose text parses to JSON other than an array (such as `null`, `{}` or `5`) is not modelled. `loadFavorites` returns that value, and the operations then diverge:
  - `isFavorite`, `addToFavorites`, `removeFromFavorites` and `toggleFavorite` throw a TypeError from `.some` or `.filter` (js/favorites.js:52, js/favorites.js:65).
  - `getAllFavorites` returns the value itself (js/favorites.js:78-80).
  - `getFavoritesCount` returns its `length` property, which may be undefined, and throws for `null` (js/favorites.js:83).
  - `clearAllFavorites` overwrites the slot with `[]` (js/favorites.js:86-89).
- `Favorites.Store.SaveFavorites`: the cause of a failed write (quota, serialization) is not modelled. It is only the `writeOk` flag.
- `Favorites.Store.AddToFavorites`: the timestamp from `new Date().toISOString()` is the parameter `now`, not a clock reading.
- Other tabs or windows that write the same slot are not modelled. The source does not coordinate them, and the last write wins.
- `Favorites.ParseId`: a Number id is an integer. Fractional ids, and integers from 10^21 up that JavaScript prints in exponent form, are not modelled.
- `JsText.ParseNumberText`: digit runs longer than a double can hold exactly are read as exact integers, not rounded.
- `Api.Request`: axios, the base URL, endpoint strings and `encodeURIComponent` are not modelled. Logging is left out too. Each operation receives the transport's result for its request as a parameter.
- `Api.SearchShows`: the query is a string. An `undefined` or `null` query (also rejected by `!query`) is not modelled.
- Delivered bodies are assumed to have the shape the catalog documents: arrays for search, cast, episodes and the listing. Other shapes are not modelled:
  - A search response of another shape makes `data.map` throw a TypeError that escapes `searchShows` (js/api.js:36).
  - A listing of another shape makes `filter` throw, and `getPopularShows` returns `[]` from its catch (js/api.js:78-81).
  - A cast or episodes body of another shape is returned unchanged (js/api.js:45, js/api.js:54).
- `Api.RatingKey`: a show without a rating object gets key 0, where the source's `b.rating.average` throws a TypeError. The filter at js/api.js:70 removes such shows before the sort, so the listing's result is unaffected.
- `Api.GetPopularShows`: a `NaN` rating average is not modelled, because ratings are reals.
