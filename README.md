# Country finder: city prefix index and favourites store

A Dafny model of two parts of the country-finder Android app.

- **The city search index** (`CitySearchIndex`) is built once from the full city list. It sorts the cities by lowercased name, then by lowercased country. It keeps a parallel list of lowercased names (`keys`). It answers a user's prefix query with two binary searches over `keys` (`lowerBound`, `upperBound`) followed by an exact prefix filter of the slice between them.
- **The favourites store** (`FavoritesDataStore`) keeps the favourite city ids as a set of decimal strings in a string-set preference (`fav_ids`). `toggle(id)` adds an id when it is absent and removes it when it is present. `favoritesFlow` reads the preference with an empty default.

Files:

- `text.dfy` (module `Text`) covers Kotlin's `String.compareTo` as a recursive lexicographic order `Less`/`LessEq` on characters, `trim()` (using `Char.isWhitespace`), root-locale lowercasing of the Basic Latin and Latin-1 letters, and the query normalisation `prefix.trim().lowercase(Locale.ROOT)`.
- `city_search.dfy` (module `CitySearch`) holds:
  - the comparator as `Before`;
  - the stable `sortedWith` as an insertion sort, with its stability stated through `Ties`, the subsequence of cities tied with a given one;
  - the index as a value (`SearchIndex`), since the Kotlin class `CitySearchIndex` is immutable after construction;
  - `lowerBound`/`upperBound` as imperative binary-search methods proved equal to linear specification functions;
  - `findByPrefix` as a function, with a method that runs it as `CitySearchIndex.findByPrefix` does, with the two binary searches;
  - the theorems about what a query returns.
- `favorites.dfy` (module `Favorites`) holds `Long.toString`, proved injective; the edit `toggle` makes; and a `FavoritesStore` class whose field is the stored preference (absent or a set), updated in place by `Toggle`.
- `search_scenarios.dfy` (module `SearchScenarios`) proves the repository's "same name, different country" and "accents" search scenarios of the model. It also covers three one-city indexes at the upper key. A name that continues with U+FFFF and one more character is missed, in Kotlin too. A name that continues with a character outside the Basic Multilingual Plane is missed in the model only. A name that is exactly the query followed by U+FFFF is returned.

What is proved, in brief:

- **The sorted list.** `all()` is a sorted permutation of the input that keeps tied cities in input order. Any arrangement with those properties equals it.
- **The two binary searches.** Each returns exactly the partition point of the sorted keys.
- **What a query returns:**
  - It is always an initial part of the complete answer, meaning every city, in sorted order, whose lowercased name starts with the normalised query.
  - It is the complete answer unless some matching name continues with U+FFFF and at least one more character right after the query, or, in the model only, with a character above U+FFFF.
  - A blank query returns the whole list.
  - Case in the query does not matter.
  - The result is ordered, with same-named cities by country.
- **The favourites store.** Toggling flips exactly one id and leaves the rest unchanged. Toggling twice restores the set. Toggling distinct ids from empty yields exactly their set. Toggling one of them again removes only that one.

In `CitySearchIndex.kt`, `sortedWith` is the only sort, and it is stable. The model sorts by insertion. `CitySearch.AllIsTheStableOrder` proves that there is only one sorted, tie-preserving arrangement of a list. So any stable sort, the library's TimSort included, gives the same `all()`.

The repository's instrumented tests for the favourites store drive `toggle(Int): Boolean` and `observeIds()`. `FavoritesDataStore.kt` declares `toggle(id: Long)` returning `Unit` and `favoritesFlow`. The model follows `FavoritesDataStore.kt`. `Toggle`'s `added` result is what `set.add` reports inside the edit.

## Model

| member | source | states |
|---|---|---|
| Text.Less | app/src/main/java/com/example/countryfinder/domain/search/CitySearchIndex.kt:72 | `String.compareTo` below zero: at the first differing character the smaller character decides, otherwise the shorter string is smaller |
| Text.LessEq | app/src/main/java/com/example/countryfinder/domain/search/CitySearchIndex.kt:86 | `String.compareTo` at most zero: equal or `Less` |
| Text.IsWhitespace | app/src/main/java/com/example/countryfinder/domain/search/CitySearchIndex.kt:43 | `Char.isWhitespace`, the characters `trim()` drops: U+0009–U+000D, U+001C–U+0020, U+00A0, U+1680, U+2000–U+200A, U+2028, U+2029, U+202F, U+205F, U+3000 |
| Text.Trim | app/src/main/java/com/example/countryfinder/domain/search/CitySearchIndex.kt:43 | `trim()`: the leading then the trailing whitespace removed; the result is no longer than the input and is empty or has non-whitespace at both ends |
| Text.Normalize | app/src/main/java/com/example/countryfinder/domain/search/CitySearchIndex.kt:43 | The search key `prefix.trim().lowercase(Locale.ROOT)`: no longer than the input, no upper-case letter, and empty or with non-whitespace at both ends |
| Text.LowerStr | app/src/main/java/com/example/countryfinder/domain/search/CitySearchIndex.kt:19-25 | `lowercase(Locale.ROOT)` on a whole string, as at lines 19, 20, 25, 43 and 59, applied character by character: the result has the same length and contains no upper-case letter |
| Text.Lower | app/src/main/java/com/example/countryfinder/domain/search/CitySearchIndex.kt:19-20 | Root-locale lowercasing of a character: the result is never an upper-case Latin letter, and whitespace stays whitespace (so lowercasing commutes with `trim()`) |
| Text.TrimStart | app/src/main/java/com/example/countryfinder/domain/search/CitySearchIndex.kt:43 | The result is a suffix of the input, everything dropped is whitespace, and the result is empty or starts with non-whitespace |
| Text.TrimEnd | app/src/main/java/com/example/countryfinder/domain/search/CitySearchIndex.kt:43 | The result is a prefix of the input, everything dropped is whitespace, and the result is empty or ends with non-whitespace |
| Text.TrimEmptyIffBlank | app/src/main/java/com/example/countryfinder/domain/search/CitySearchIndex.kt:43-44 | `trim()` is empty exactly when every character of the query is whitespace (both directions) |
| Text.TrimLower | app/src/main/java/com/example/countryfinder/domain/search/CitySearchIndex.kt:43 | Trimming and lowercasing commute |
| Text.TrimKeepsInner | app/src/main/java/com/example/countryfinder/domain/search/CitySearchIndex.kt:43 | `trim()` leaves a string unchanged when neither end is whitespace |
| Text.NormalizeIgnoresCase | app/src/main/java/com/example/countryfinder/domain/search/CitySearchIndex.kt:43 | Lowercasing a query before normalising it changes nothing |
| Text.LessTransitive | app/src/main/java/com/example/countryfinder/domain/search/CitySearchIndex.kt:72 | The string order the binary search compares with is transitive |
| Text.LessTotal | app/src/main/java/com/example/countryfinder/domain/search/CitySearchIndex.kt:72 | Any two strings are equal or one is smaller |
| Text.LessIrreflexive | app/src/main/java/com/example/countryfinder/domain/search/CitySearchIndex.kt:72 | No string is smaller than itself |
| Text.PrefixNotAbove | app/src/main/java/com/example/countryfinder/domain/search/CitySearchIndex.kt:46-47 | A string that starts with the query is not below it, so the lower bound never skips a match |
| Text.LessThanExtension | app/src/main/java/com/example/countryfinder/domain/search/CitySearchIndex.kt:50-51 | The query is strictly below the query followed by U+FFFF |
| Text.PrefixBelowUpperKey | app/src/main/java/com/example/countryfinder/domain/search/CitySearchIndex.kt:50-54 | A string that starts with the query, and whose next character after it is below U+FFFF, is strictly below the upper key `query + U+FFFF` |
| CitySearch.NameKey | app/src/main/java/com/example/countryfinder/domain/search/CitySearchIndex.kt:19-25 | The first `compareBy` selector, which is also the element of `keys`: `name.lowercase(Locale.ROOT)` |
| CitySearch.CountryKey | app/src/main/java/com/example/countryfinder/domain/search/CitySearchIndex.kt:20 | The second `compareBy` selector: `country.lowercase(Locale.ROOT)` |
| CitySearch.Before | app/src/main/java/com/example/countryfinder/domain/search/CitySearchIndex.kt:18-21 | The comparator `compareBy(name.lowercase, country.lowercase)` does not put `a` after `b`: `a`'s lowercased name is smaller, or the names are equal and the lowercased country is not larger |
| CitySearch.All | app/src/main/java/com/example/countryfinder/domain/search/CitySearchIndex.kt:31 | `all()` returns the sorted list |
| CitySearch.MatchesPrefix | app/src/main/java/com/example/countryfinder/domain/search/CitySearchIndex.kt:57-59 | The filter predicate: the name is at least as long as the query, and its leading `min(length, query length)` characters, lowercased, equal the query |
| CitySearch.Matching | app/src/main/java/com/example/countryfinder/domain/search/CitySearchIndex.kt:57-60 | `filter` with that predicate, keeping order; the result is no longer than its input |
| CitySearch.FindByPrefix | app/src/main/java/com/example/countryfinder/domain/search/CitySearchIndex.kt:42-61 | `findByPrefix`: normalise the query; a blank query returns `all()`; otherwise take the lower bound of the query, return nothing when it is past the end, take the upper bound of the query followed by U+FFFF, and filter the slice between. The result is never longer than the index, and is `all()` when the normalised query is empty |
| CitySearch.BeforeTotal | app/src/main/java/com/example/countryfinder/domain/search/CitySearchIndex.kt:18-21 | The name-then-country comparator orders any two cities one way or the other |
| CitySearch.BeforeTransitive | app/src/main/java/com/example/countryfinder/domain/search/CitySearchIndex.kt:18-21 | The comparator is transitive |
| CitySearch.BeforeAntisymmetric | app/src/main/java/com/example/countryfinder/domain/search/CitySearchIndex.kt:18-21 | Two cities each of which may precede the other have the same lowercased name and country |
| CitySearch.Insert | app/src/main/java/com/example/countryfinder/domain/search/CitySearchIndex.kt:18 | One insertion step of the sort adds exactly the inserted city (multisets) |
| CitySearch.InsertSorted | app/src/main/java/com/example/countryfinder/domain/search/CitySearchIndex.kt:18-21 | Inserting into a sorted list keeps it sorted |
| CitySearch.InsertTies | app/src/main/java/com/example/countryfinder/domain/search/CitySearchIndex.kt:18-21 | Insertion puts the city ahead of every city it ties with |
| CitySearch.StableSort | app/src/main/java/com/example/countryfinder/domain/search/CitySearchIndex.kt:18-21 | `sortedWith`: the result is a permutation of the input and sorted by (lowercased name, lowercased country) |
| CitySearch.StableSortKeepsTies | app/src/main/java/com/example/countryfinder/domain/search/CitySearchIndex.kt:18-21 | Stability: cities that tie under the comparator keep their input order |
| CitySearch.SortedWithSameTiesUnique | app/src/main/java/com/example/countryfinder/domain/search/CitySearchIndex.kt:18-21 | Two sorted lists with the same tie classes in the same orders are equal, so every stable sort gives the same list |
| CitySearch.SameTiesSameHead | app/src/main/java/com/example/countryfinder/domain/search/CitySearchIndex.kt:18-21 | Two such lists start with the same city |
| CitySearch.NewIndex | app/src/main/java/com/example/countryfinder/domain/search/CitySearchIndex.kt:15-25 | The constructor: `sorted` is a sorted, stable permutation of the cities, and `keys[i]` is the lowercased name of `sorted[i]`, so `keys` is in order |
| CitySearch.ValidKeysSorted | app/src/main/java/com/example/countryfinder/domain/search/CitySearchIndex.kt:23-25 | The keys of a well-formed index are in ascending string order, as the binary searches need |
| CitySearch.AllIsTheStableOrder | app/src/main/java/com/example/countryfinder/domain/search/CitySearchIndex.kt:18-31 | `all()` equals every sorted arrangement of the input that keeps tied cities in input order |
| CitySearch.LeadingBelow | app/src/main/java/com/example/countryfinder/domain/search/CitySearchIndex.kt:63-75 | The reference answer for `lowerBound`: all entries before it are below the key, and the entry at it is not |
| CitySearch.LeadingAtMost | app/src/main/java/com/example/countryfinder/domain/search/CitySearchIndex.kt:77-89 | The reference answer for `upperBound`: all entries before it are at most the key, and the entry at it is above |
| CitySearch.BelowPartition | app/src/main/java/com/example/countryfinder/domain/search/CitySearchIndex.kt:63-66 | On sorted keys, no entry from the lower bound onwards is below the key |
| CitySearch.AtMostPartition | app/src/main/java/com/example/countryfinder/domain/search/CitySearchIndex.kt:77-80 | On sorted keys, every entry from the upper bound onwards is above the key |
| CitySearch.LeadingBoundsOrdered | app/src/main/java/com/example/countryfinder/domain/search/CitySearchIndex.kt:47-57 | The lower bound of the query never exceeds the upper bound of the larger upper key, so `subList(start, end)` is well formed |
| CitySearch.LowerBound | app/src/main/java/com/example/countryfinder/domain/search/CitySearchIndex.kt:67-75 | The binary search returns the index that splits the sorted keys into those below the key and those not below it; this is exactly `LeadingBelow` |
| CitySearch.UpperBound | app/src/main/java/com/example/countryfinder/domain/search/CitySearchIndex.kt:81-89 | The binary search returns the index that splits the sorted keys into those at most the key and those above it; this is exactly `LeadingAtMost` |
| CitySearch.MatchesPrefixIffKeyPrefix | app/src/main/java/com/example/countryfinder/domain/search/CitySearchIndex.kt:57-59 | The final filter accepts a city exactly when its lowercased name starts with the query (both directions) |
| CitySearch.MatchingAppend | app/src/main/java/com/example/countryfinder/domain/search/CitySearchIndex.kt:57 | Filtering distributes over concatenation |
| CitySearch.MatchingEmptyQuery | app/src/main/java/com/example/countryfinder/domain/search/CitySearchIndex.kt:57-59 | The filter with an empty query keeps everything |
| CitySearch.MatchingSubsequence | app/src/main/java/com/example/countryfinder/domain/search/CitySearchIndex.kt:57 | The filter keeps a subsequence of its input, in order |
| CitySearch.MatchingMembers | app/src/main/java/com/example/countryfinder/domain/search/CitySearchIndex.kt:57-59 | Everything the filter keeps comes from its input and passes the prefix test |
| CitySearch.MatchingSorted | app/src/main/java/com/example/countryfinder/domain/search/CitySearchIndex.kt:57 | Filtering a sorted list leaves it sorted |
| CitySearch.BelowQueryDoesNotMatch | app/src/main/java/com/example/countryfinder/domain/search/CitySearchIndex.kt:46-47 | A city whose key is below the query cannot match it |
| CitySearch.AboveUpperKeyDoesNotMatch | app/src/main/java/com/example/countryfinder/domain/search/CitySearchIndex.kt:50-54 | A city above the upper key cannot match unless its name continues with U+FFFF or above right after the query (and is longer than the query followed by U+FFFF) |
| CitySearch.NothingBelowMatches | app/src/main/java/com/example/countryfinder/domain/search/CitySearchIndex.kt:46-47 | No city before the lower bound matches the query |
| CitySearch.MatchingAtBounds | app/src/main/java/com/example/countryfinder/domain/search/CitySearchIndex.kt:47-57 | The complete answer is empty when the lower bound is past the end. Otherwise it is the answer of the slice between the bounds followed by the answer past the upper bound |
| CitySearch.RunFindByPrefix | app/src/main/java/com/example/countryfinder/domain/search/CitySearchIndex.kt:42-61 | `findByPrefix` run with the two binary searches returns what the specification `FindByPrefix` returns |
| CitySearch.FindByPrefixIsPrefixOfMatches | app/src/main/java/com/example/countryfinder/domain/search/CitySearchIndex.kt:42-61 | For every index and query, the result is an initial part of the complete answer: all cities in sorted order whose lowercased name starts with the normalised query |
| CitySearch.FindByPrefixComplete | app/src/main/java/com/example/countryfinder/domain/search/CitySearchIndex.kt:42-61 | The result is exactly the complete answer when every matching name either continues below U+FFFF right after the query, ends with the query, or is exactly the query followed by U+FFFF |
| CitySearch.FindByPrefixBlank | app/src/main/java/com/example/countryfinder/domain/search/CitySearchIndex.kt:43-44 | An empty or all-whitespace query returns the whole sorted list |
| CitySearch.FindByPrefixPastEnd | app/src/main/java/com/example/countryfinder/domain/search/CitySearchIndex.kt:47-48 | When the lower bound is past the end, the result is empty and so is the complete answer |
| CitySearch.FindByPrefixIgnoresCase | app/src/main/java/com/example/countryfinder/domain/search/CitySearchIndex.kt:43 | Lowercasing the query first gives the same result |
| CitySearch.SortedSameNameByCountry | app/src/main/java/com/example/countryfinder/domain/search/CitySearchIndex.kt:18-21 | In a sorted list, cities with the same lowercased name come in lowercased-country order |
| CitySearch.FindByPrefixOrdered | app/src/main/java/com/example/countryfinder/domain/search/CitySearchIndex.kt:42-61 | The result is a subsequence of `all()` and sorted, with same-named cities in country order, and every returned city's lowercased name starts with the query |
| SearchScenarios.CountryTiebreak | app/src/test/java/com/example/countryfinder/domain/search/CitySearchIndexTest.kt:136-160 | Paris FR, Paris US, Parintins, Paramaribo queried with "Par" give Paramaribo, Parintins, Paris FR, Paris US |
| SearchScenarios.AccentQuery | app/src/test/java/com/example/countryfinder/domain/search/CitySearchIndexTest.kt:164-178 | Ávila, Avila, äviken, Avignon queried with "a" give Avignon, Avila: the accented names sort after the plain ones and do not start with "a" |
| SearchScenarios.SentinelContinuationMissed | app/src/main/java/com/example/countryfinder/domain/search/CitySearchIndex.kt:50-54 | A city named "Par" U+FFFF "a" starts with "par" but is not returned for "Par", because it lies above the upper key |
| SearchScenarios.SupplementaryContinuationMissed | app/src/main/java/com/example/countryfinder/domain/search/CitySearchIndex.kt:50-54 | A city named "a" U+1F600 starts with "a" but is not returned for "a" in the model, because a character above U+FFFF lies above the upper key (Kotlin returns it; see "## Left out") |
| SearchScenarios.ExactUpperKeyReturned | app/src/main/java/com/example/countryfinder/domain/search/CitySearchIndex.kt:50-54 | A city named "a" U+FFFF equals the upper key for "a" and is returned, because `upperBound` keeps keys at most the upper key |
| SearchScenarios.LeadingRunMatches | app/src/main/java/com/example/countryfinder/domain/search/CitySearchIndex.kt:42-61 | When the sorted list is a run of matching cities followed by non-matching ones, the query returns that run |
| Favorites.LongToString | app/src/main/java/com/example/countryfinder/data/favorites/FavoritesDataStore.kt:23 | `Long.toString()`: non-empty, a leading `-` exactly for negative ids, and decimal digits after the first character |
| Favorites.StoredIds | app/src/main/java/com/example/countryfinder/data/favorites/FavoritesDataStore.kt:16-18 | The read default of `favoritesFlow`: a missing preference reads as the empty set, and a stored set reads as itself |
| Favorites.FavoritesStore.Favorites | app/src/main/java/com/example/countryfinder/data/favorites/FavoritesDataStore.kt:16-18 | The value `favoritesFlow` emits for the current stored preference |
| Favorites.Digits | app/src/main/java/com/example/countryfinder/data/favorites/FavoritesDataStore.kt:23 | The decimal digits of a number: non-empty, only digits, no leading zero, a single digit exactly below 10 |
| Favorites.DigitsInjective | app/src/main/java/com/example/countryfinder/data/favorites/FavoritesDataStore.kt:23 | Different numbers have different digit strings |
| Favorites.LongToStringInjective | app/src/main/java/com/example/countryfinder/data/favorites/FavoritesDataStore.kt:23 | `id.toString()` is injective on `Long`, so distinct ids are stored under distinct strings |
| Favorites.Toggled | app/src/main/java/com/example/countryfinder/data/favorites/FavoritesDataStore.kt:22-23 | The edit contains the key exactly when the old set did not, and agrees with the old set on every other key |
| Favorites.FavoritesStore.constructor | app/src/main/java/com/example/countryfinder/data/favorites/FavoritesDataStore.kt:14-18 | A never-written preference reads as no favourites |
| Favorites.FavoritesStore.Toggle | app/src/main/java/com/example/countryfinder/data/favorites/FavoritesDataStore.kt:20-26 | The stored preference becomes the toggled copy of the old read value (an empty set when missing). `added` is true exactly when the id was absent before, and exactly when it is present after |
| Favorites.ToggleTwiceRestores | app/src/main/java/com/example/countryfinder/data/favorites/FavoritesDataStore.kt:20-26 | Toggling the same id twice restores the set |
| Favorites.StillFresh | app/src/main/java/com/example/countryfinder/data/favorites/FavoritesDataStore.kt:20-26 | After toggling the first of several distinct ids that are not stored, the remaining ids are still not stored |
| Favorites.ToggleEachAddsFresh | app/src/main/java/com/example/countryfinder/data/favorites/FavoritesDataStore.kt:20-26 | Toggling distinct ids none of which is stored adds exactly their strings |
| Favorites.ToggleEachFromEmpty | app/src/main/java/com/example/countryfinder/data/favorites/FavoritesDataStore.kt:16-26 | From no favourites, toggling distinct ids yields exactly the set of their strings |
| Favorites.ToggleOneAgainRemovesOnlyIt | app/src/main/java/com/example/countryfinder/data/favorites/FavoritesDataStore.kt:20-26 | Toggling one of those ids again removes that id and no other |

## Left out

- CitySearch.FindByPrefixComplete: the comment at `CitySearchIndex.kt:50` says the upper key catches every name that starts with the query. Kotlin misses a matching name exactly when U+FFFF and at least one more character follow the query (`SearchScenarios.SentinelContinuationMissed`). The model also misses one that continues with a character above U+FFFF (`SearchScenarios.SupplementaryContinuationMissed`; see the `Text.Less` line). The precondition excludes both cases and admits the name that is exactly the query followed by U+FFFF, which both return (`SearchScenarios.ExactUpperKeyReturned`). U+FFFF is a Unicode noncharacter, so the model keeps the behaviour of `findByPrefix` rather than correcting it.
- Text.Lower: lowercases only `A`–`Z` and U+00C0–U+00DE except U+00D7, not the whole of `lowercase(Locale.ROOT)`. Other scripts are not modelled.
- Text.LowerStr: keeps the length of the string, whereas `lowercase(Locale.ROOT)` can lengthen it (U+0130 becomes `i` followed by U+0307). Such names are not modelled.
- Text.Less: Dafny characters are Unicode scalar values, while Kotlin compares UTF-16 code units. Names with characters outside the Basic Multilingual Plane, which Kotlin sees as surrogate pairs, may compare differently in the model. In particular, the model misses a name whose character right after the query is outside the BMP, as `SearchScenarios.SupplementaryContinuationMissed` shows, while Kotlin returns it: there the character is a high surrogate, which lies below U+FFFF.
- CitySearch.LowerBound, CitySearch.UpperBound: `(left + rightInclusive) ushr 1` is modelled as exact halving. The 32-bit sum may pass `Int.MAX_VALUE`, but `ushr` reads it as unsigned, so halving is exact for every list size.
- CitySearch.StableSort: the library's TimSort is replaced by insertion sort. `AllIsTheStableOrder` shows the result is the same for any stable sort. Running time is not modelled.
- The city's coordinates, and the id's `Long` width inside `City`, play no part in searching and are not modelled.
- Favorites.FavoritesStore.Toggle: the DataStore file, its asynchronous `edit` transaction, coroutines and the `Flow` stream are modelled as one field read and written synchronously. Persistence across processes and concurrent edits are not modelled.
- Favorites.FavoritesStore.Favorites: `favoritesFlow` is modelled as the value it emits for the current preferences, with no stream of later values.
- `ToggleFavoriteCityUseCase`, the repositories, the view-models, the activities, networking and dependency injection are outside this model. They call into the core but do not define its behaviour.
