# Favorites store of the HomEat web client

This project models the favorites store of the HomEat recipe client
(`src/composables/useFavorites.ts`). The store keeps one process-wide list
of favorite recipe ids. It copies that list to the `homeat_favorites` slot
of the browser's local storage, and it tells the backend to raise or lower a
recipe's like counter whenever the user toggles a favorite.

- `types.dfy` (module `Types`): the recipe record from `src/types.ts`, with
  JavaScript's `undefined` written as `Option`. It also holds the
  truthiness test the store applies to ids: `undefined` and `0` count as
  "no id".
- `favorite_list.dfy` (module `FavoriteList`): the list operations the store
  uses, on values. These are `includes`, the `filter` that drops an id, and
  the toggle that filters or pushes. The lemmas state what a toggle
  guarantees: membership flips for that id and no other, removal keeps the
  order and count of the other ids, no duplicate is introduced, and a
  double toggle restores membership.
- `favorites.dfy` (module `Favorites`): class `FavoritesStore`. It holds the
  list, the storage slot and a log of the effects the store has on the
  outside world, in order. Its methods are `LoadFavorites`, `IsFavorite`
  and `ToggleFavorite`. The like request's outcome is a parameter of
  `ToggleFavorite`: it threw, it was not ok, or it was ok with a body whose
  `likes` may be missing. The recipe whose `likes` the source overwrites in
  place is passed in and returned updated.

Three details of the code decide what the model promises:

- The favorites are a list, not a set. A list loaded from storage may hold
  duplicates, and a toggle-off removes every copy. "No duplicates" is
  therefore proved as an invariant that a toggle preserves, not as a
  property of every list.
- The guards `!recipe.id` (line 22 of `useFavorites.ts`) and `!id`
  (line 17) reject the id `0` as well as `undefined`. So toggling such a
  recipe does nothing, and `isFavorite(0)` is false even when `0` is in
  the list.
- `loadFavorites` replaces the list only when the stored text is non-empty.
  A stored `"[]"` is non-empty text, so it replaces the list. A missing key
  or an empty string does not.

## Model

| member | source | states |
|---|---|---|
| FavoriteList.Includes | src/composables/useFavorites.ts:18 | the scan done by `includes` is true exactly when the id occurs in the list |
| FavoriteList.Without | src/composables/useFavorites.ts:27 | the filtered list holds no occurrence of the id; every other id is in it exactly when it was in the input; it is no longer than the input |
| FavoriteList.Toggled | src/composables/useFavorites.ts:24-30 | after a toggle the id is in the list exactly when it was not before; every other id keeps its membership; when the id was absent it is appended at the end and every earlier entry stays in place |
| FavoriteList.WithoutCounts | src/composables/useFavorites.ts:27 | filtering removes every occurrence of the id and keeps the number of occurrences of every other id |
| FavoriteList.WithoutIsSubsequence | src/composables/useFavorites.ts:27 | filtering keeps the remaining ids in their relative order |
| FavoriteList.WithoutConcat | src/composables/useFavorites.ts:27 | filtering a concatenation is the concatenation of the filtered parts |
| FavoriteList.WithoutAbsent | src/composables/useFavorites.ts:27 | filtering out an absent id returns the list unchanged |
| FavoriteList.WithoutKeepsNoDuplicates | src/composables/useFavorites.ts:27 | filtering a duplicate-free list gives a duplicate-free list |
| FavoriteList.ToggleRemovesEveryOccurrence | src/composables/useFavorites.ts:26-27 | toggling off a present id removes all of its occurrences, keeps the counts of the other ids and keeps them in order |
| FavoriteList.ToggleKeepsNoDuplicates | src/composables/useFavorites.ts:24-30 | a duplicate-free list stays duplicate-free after a toggle, since the id is pushed only when absent |
| FavoriteList.ToggleTwiceRestoresMembership | src/composables/useFavorites.ts:24-30 | two toggles of one id restore the membership of every id; on a duplicate-free list they restore each id's count too |
| FavoriteList.ToggleTwiceRestoresListWhenAbsent | src/composables/useFavorites.ts:24-30 | toggling an absent id on and then off gives back exactly the original list |
| FavoriteList.ToggleOffOnMovesToEnd | src/composables/useFavorites.ts:26-30 | toggling a present id off and on again gives the list without that id followed by the id once, at the end |
| FavoriteList.ToggleTwiceMayReorder | src/composables/useFavorites.ts:26-30 | toggling a present id off and on moves it to the end: `[1, 2]` becomes `[2, 1]`, so list order is not restored in general |
| Favorites.FavoritesStore.constructor | src/composables/useFavorites.ts:4 | the store starts with an empty list and the device's storage as found |
| Favorites.FavoritesStore.LoadFavorites | src/composables/useFavorites.ts:9-14 | the list becomes the stored list when the slot holds non-empty text; a missing key or an empty string leaves the list unchanged |
| Favorites.FavoritesStore.IsFavorite | src/composables/useFavorites.ts:16-19 | false for `undefined` and `0`; otherwise true exactly when the id occurs in the list |
| Favorites.FavoritesStore.ToggleFavorite | src/composables/useFavorites.ts:21-47 | a recipe without a truthy id changes nothing and sends nothing. Otherwise the list becomes the toggled list and the recipe's favorite status flips, with every other id unchanged. Duplicate-freedom is kept. Storage then holds exactly the new list, and the write is logged before the like request. The request's increase flag is the negation of the old favorite status. `likes` takes the response's value only on an ok response, whatever the response the local toggle is kept, and no other recipe field changes |

## Left out

- The `fetch` call, the URL it builds and `res.json()`. The request is logged as an id and an increase flag, and its outcome is a parameter.
- `localStorage` and `JSON.parse`/`JSON.stringify`. The slot holds the list the JSON text encodes. Text that is not a JSON array of numbers, which makes `JSON.parse` throw or yields something other than a list of ids, is not modelled.
- Ids are integers. `NaN`, which `!id` also treats as no id, and non-integer numbers are not modelled.
- The storage calls can throw (storage full or disabled). `setItem` is outside the `try`, so in the source a failed write rejects the toggle after the list has changed, with no like request sent and `likes` untouched; a throwing `getItem` makes `loadFavorites` throw. The model's storage reads and writes always succeed.
- `push` extends the existing array in place while `filter` puts a new array in its place, so code holding the old array sees a toggle-on but not a toggle-off. The `seq` field holds values and does not capture this aliasing difference.
- Vue `ref` reactivity, and callers that change the exported `favoriteIds` directly, are not modelled.
- The `async` interleaving of overlapping toggles is not modelled. Each toggle runs to completion before the next, so the last-response-wins race on `likes` is not captured.
- Favorites.FavoritesStore.ToggleFavorite: the source assigns `likes` on the caller's recipe object in place. The model returns the updated recipe value, so aliasing of that object between views is not captured.
- The `console.error` call in the catch branch is not modelled; a thrown request is simply swallowed.
- The `useFavorites()` wrapper only returns the shared state and the three functions. The single `FavoritesStore` object plays the part of the module-level state.
- The HTTP adapters (`src/api.ts`, `src/services/api.ts`), routing and app bootstrap (`src/router/index.ts`, `src/main.ts`), type declarations (`env.d.ts`) and the component tests are not part of this model. They are I/O, wiring, or tests of view components whose source is not part of this model.
