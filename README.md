# Favorites store of RickPedia, in Dafny

RickPedia is a mobile client for browsing the characters of a public
catalogue. Users can mark characters as favorites. The favorites service
(`services/favoritesService.ts`) stores their integer ids as one JSON array
under the key `@RickAndMortyApp:favorites` in the device's key-value store
(AsyncStorage). It has four operations:

- `getFavorites` reads the array. It falls back to `[]` when the key is
  missing, the text is blank or does not parse, or the read fails.
- `isFavorite(id)` tests whether `id` is in that array.
- `addFavorite(id)` reads the array and writes it back with `id` appended,
  but only when `id` is new.
- `removeFavorite(id)` reads the array and always writes it back with every
  occurrence of `id` filtered out.

Errors from add and remove are caught and logged.

The model has three modules:

- `IdLists` (`id_lists.dfy`) defines `Without`, the service's
  `filter(favId => favId !== id)`. Membership (`includes`) and append
  (`[...favorites, id]`) are Dafny's own `in` and `+`. The module proves what
  these operations keep: order, contents, idempotence of the filter, and
  freedom from duplicates. `FirstOccurrences` is the reference order for
  reading back ids added one by one.
- `FavoritesService` (`favorites_service.dfy`) holds the store.
  - The store's contents are a `map<string, Text>`.
  - `Text` classifies a stored string by what `JSON.parse` makes of it:
    `Blank`, `Unparsable`, `NotAnArray` or `IdArray(ids)`.
  - `getFavorites` and `isFavorite` are functions of the contents.
  - `addFavorite` and `removeFavorite` are methods of the class `Store`,
    which holds the contents. Each method is specified by a function of the
    contents before the call (`AddEffect`, `RemoveEffect`).
  - Whether the store's `getItem` and `setItem` succeed is passed in as
    `readOk` and `writeOk`.
  - `AddWrite` and `RemoveWrite` give the list each operation hands to
    `setItem`, or none when it does not call it. `Store` logs these calls in
    a ghost field `setItemCalls`, so "no write" and "write back the same
    list" are told apart.
- `FavoriteSequences` (`favorite_sequences.dfy`) runs sequences of add and
  remove calls, each call taken as one atomic step. It proves:
  - the stored list never gains a duplicate;
  - when the record is not a non-array value and all I/O succeeds, the last
    add or remove of an id decides whether it is a favorite;
  - adding ids one by one to an empty store reads back each id once, in the
    order of its first addition.

The model keeps these behaviours of the code as written, which are stronger
or weaker than a plain "set of ids" would suggest:

- `removeFavorite` calls `setItem` even when `id` is absent, writing the list
  back unchanged. On a missing, blank or corrupt record it therefore leaves a
  valid `[]` behind.
- `addFavorite` does not call `setItem` when `id` is already present.
- Inside add and remove, a failed read is taken for `[]`. A successful write
  then replaces every stored favorite: add leaves `[id]` and remove leaves
  `[]` (`ReadFailureReplacesList`).
- A record that parses to a non-array value (for example `null`) is returned
  as is by `getFavorites`. `isFavorite` then rejects with a TypeError, while
  add and remove catch the TypeError and write nothing (`NotAnArrayRecord`).

So, unlike a set of ids, the store writes on removing a non-member, and
`isFavorite` can reject.

## Model

| member | source | states |
|---|---|---|
| `FavoritesService.GetFavorites` | services/favoritesService.ts:7-15 | a stored id array is read back as that list; a non-empty result is always the array stored under the key, read successfully; a non-list result happens exactly when the stored text parses to a non-array; otherwise (missing key, blank, unparsable, failed read) the result is `[]`, never a failure |
| `FavoritesService.IsFavorite` | services/favoritesService.ts:18-21 | resolves exactly when `getFavorites` gives a list, and then is true exactly when `id` is an element of that list; otherwise rejects |
| `FavoritesService.AddEffect` | services/favoritesService.ts:24-34 | only the favorites key can change; a failed write changes nothing; any change is the read list with the new `id` appended |
| `FavoritesService.RemoveEffect` | services/favoritesService.ts:37-45 | only the favorites key can change; a failed write or a non-array record changes nothing; otherwise the read list without `id` is written, whether or not `id` was in it |
| `FavoritesService.AddWrite` | services/favoritesService.ts:26-29 | `setItem` is called exactly when the read gave a list without `id`, and then with that list followed by `id` |
| `FavoritesService.RemoveWrite` | services/favoritesService.ts:39-41 | `setItem` is called exactly when the read gave a list, whether or not `id` is in it, and then with that list without `id` |
| `FavoritesService.Store.AddFavorite` | services/favoritesService.ts:24-34 | the store's new contents are `AddEffect` of the old contents, and `setItemCalls` grows by the list `AddWrite` gives, if any |
| `FavoritesService.Store.RemoveFavorite` | services/favoritesService.ts:37-45 | the store's new contents are `RemoveEffect` of the old contents, and `setItemCalls` grows by the list `RemoveWrite` gives, if any |
| `FavoritesService.NeverWrittenReadsEmpty` | services/favoritesService.ts:9-10 | a missing or blank record, or any record when the read fails, reads as `[]`, and no id is a favorite |
| `FavoritesService.CorruptReadsEmpty` | services/favoritesService.ts:8-14 | a record that does not parse reads as `[]` rather than a failure |
| `FavoritesService.AddAppends` | services/favoritesService.ts:26-29 | adding a new id writes the read list followed by `id`; afterwards `id` is a favorite and every other id keeps the status the read gave it (its stored status when the read succeeds) |
| `FavoritesService.AddPresentWritesNothing` | services/favoritesService.ts:27-30 | adding an id already in the read list does not call `setItem`, and the store is unchanged |
| `FavoritesService.AddIdempotent` | services/favoritesService.ts:26-30 | once an add has gone through, a second add of the same id whose read succeeds leaves the store unchanged |
| `FavoritesService.AddKeepsWellFormed` | services/favoritesService.ts:27-29 | adding never puts a duplicate into the stored list, whatever the I/O outcomes |
| `FavoritesService.RemoveFilters` | services/favoritesService.ts:39-41 | removing writes the read list without `id`, as an order-preserving subsequence; afterwards `id` is not a favorite and every other id keeps the status the read gave it (its stored status when the read succeeds) |
| `FavoritesService.RemoveAlwaysWrites` | services/favoritesService.ts:39-41 | whenever the read gives a list, remove calls `setItem`, even with the unchanged list when `id` is absent; a successful remove leaves an id array under the key, `[]` from a missing, blank or corrupt record |
| `FavoritesService.RemoveIdempotent` | services/favoritesService.ts:39-41 | once a remove has gone through, a second remove of the same id whose read succeeds leaves the store unchanged |
| `FavoritesService.RemoveKeepsWellFormed` | services/favoritesService.ts:39-41 | removing never puts a duplicate into the stored list, whatever the I/O outcomes |
| `FavoritesService.ReadFailureReplacesList` | services/favoritesService.ts:24-45 | when the read inside add or remove fails and the write succeeds, the stored list becomes `[id]` after an add and `[]` after a remove |
| `FavoritesService.NotAnArrayRecord` | services/favoritesService.ts:10-21 | a record that parses to a non-array makes `isFavorite` reject, while add and remove leave the store unchanged |
| `IdLists.Without` | services/favoritesService.ts:40 | the filtered list holds exactly the elements other than `id`, with their multiplicities, in their original order |
| `IdLists.WithoutAbsent` | services/favoritesService.ts:40 | filtering out an id that does not occur returns the list unchanged |
| `IdLists.WithoutIdempotent` | services/favoritesService.ts:40 | filtering out the same id twice equals filtering it once |
| `IdLists.WithoutKeepsNoDuplicates` | services/favoritesService.ts:40 | filtering keeps a duplicate-free list duplicate-free |
| `IdLists.AppendKeepsNoDuplicates` | services/favoritesService.ts:28 | appending an id that is not in a duplicate-free list keeps it duplicate-free |
| `IdLists.FirstOccurrences` | services/favoritesService.ts:27-28 | the reference order for ids added one by one: it holds exactly the ids of its input, each once |
| `FavoriteSequences.RunKeepsWellFormed` | services/favoritesService.ts:24-45 | any sequence of adds and removes, with any I/O outcomes, keeps the stored list duplicate-free |
| `FavoriteSequences.RunMembership` | services/favoritesService.ts:18-45 | starting from a record that is not a non-array value, and with every read and write succeeding, an id is a favorite after a sequence of calls exactly when the last add or remove of it was an add, or there was none and it was a favorite before |
| `FavoriteSequences.AddAllRoundTrip` | services/favoritesService.ts:24-30 | adding ids one by one to a never-written store and reading back gives `FirstOccurrences(ids)`: each id once, in the order of its first addition |

## Left out

- The AsyncStorage calls and the JSON text format are abstracted. A stored string is represented only by what `JSON.parse` makes of it. A written integer array is taken to read back as the same array.
- JSON values that parse to a string are not represented, and neither are arrays holding anything other than integers. Ids are unbounded integers, so `NaN` and fractional numbers are out of scope; for `NaN`, `includes` and `!==` would disagree. The source's ids are JavaScript doubles, which do not tell apart integers above 2^53; the model does.
- The `console.error` logging in the three catch blocks is left out. It has no effect on the stored favorites.
- Interleaving of concurrent calls is not modelled: each call is one atomic step. This leaves out the lost update when two screens read and write the record at the same time.
- The screens that use the service, such as the character detail toggle and the favorites list with its remote fetch, are not part of this model. So is the app's navigation layout (`app/_layout.tsx`).
- FavoritesService.AddIdempotent: states idempotence only once the first call's write has gone through and when the second call's read succeeds. If the first write fails, a second call may still write; if the second read fails, the second add replaces the list with `[id]`.
- FavoritesService.RemoveIdempotent: states idempotence only once the first call's write has gone through and when the second call's read succeeds. If the first write fails, a second call may still write; if the second read fails, the second remove replaces the list with `[]`.
