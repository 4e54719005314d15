# Favorites sync engine and cart service, in Dafny

This project models two pieces of state logic from an Angular application and
proves properties of them.

- **The favorites synchronisation engine** (`FavoritesService`). It has three parts:
  - a snapshot of favorites that every consumer observes;
  - a device-local list of `{mealId, addedAt}` records, used while no one is signed in;
  - a one-shot merge of that local list into the signed-in account, with a
    latch that records whether a merge has succeeded.

  The class `Favorites.FavoritesService` holds the snapshot, the local store
  and the latch as fields. The local store is `None` when the storage key is
  absent.
  - The anonymous add and remove operations rewrite the local list and the
    snapshot.
  - The signed-in add and remove operations change the snapshot only when the
    remote write succeeds. The outcome of that write is a boolean parameter.
  - The merge is a loop (`Favorites.BuildMerged`) proved against the
    specification function `Favorites.MergedList`. Lemmas about that function
    prove that the merge loses no meal and creates no duplicate meal.
- **The shopping cart of the menu service** (`Menu.MenuService`). It is a
  list of `{menuItem, quantity}` entries. Add and update-quantity change an
  entry, or the published list, in place; remove and clear publish new
  lists. The item count and the total are left folds, each proved equal to a
  sum stated independently. The operations keep the invariant "at most one entry per item id and
  every quantity at least one".
- **The query URL of `getItems`** (`MenuQuery`). The optional `q` and
  `category` parameters are pushed in order and joined with `?` and `&`. The
  percent-encoder is a parameter.

Supporting modules:
- `ArrayOps` states the JavaScript array operations the services use (`filter`,
  `some`, `find`, `map`) once, over sequences.
- `Text` states `trim`, `join` and `split` for a one-character separator.
- `FavoriteModel` holds the record shapes of `models/favorite.model.ts`.

A signed-in add does not check whether the meal is already a
favorite, so it can put the same meal in the snapshot twice.
`Favorites.FavoritesService.AddToFirestore` states this duplicate outright.

## Model

| member | source | states |
|---|---|---|
| Favorites.ToLocalFavorite | core/favorites.service.ts:179-182 | The persisted record keeps the meal id, and parsing its stored time gives back the favorite's `addedAt` |
| Favorites.MapLocalToFavorite | core/favorites.service.ts:208-214 | The rebuilt favorite has id `"local_" + mealId`, the same meal id, no `userId`, no meal data, and `addedAt` parsed from the record; persisting it again gives back the same local record |
| Favorites.LocalSnapshotMembership | core/favorites.service.ts:47 | The signed-out snapshot shows a meal exactly when the local list holds it |
| Favorites.LocalSnapshotDistinct | core/favorites.service.ts:208-214 | From a duplicate-free local list, the snapshot's synthesised ids are all distinct, and so are its meal ids |
| Favorites.UniqueLocalIds | core/favorites.service.ts:221-224 | Every unique id is a local id absent from the server ids, and every local id absent from the server ids is unique |
| Favorites.UniqueLocalIdsExtremes | core/favorites.service.ts:224-228 | Nothing is left to merge exactly when every local id is on the server; when no local id is, the whole local list is merged, in order |
| Favorites.UniqueIdsAreLocal | core/favorites.service.ts:221-235 | Every unique id has a local record, so the `find` inside the merge loop always succeeds |
| Favorites.Migrated | core/favorites.service.ts:233-252 | The merge creates at most one record per unique id |
| Favorites.MigratedLength | core/favorites.service.ts:233-252 | When every id has a local record, exactly one record is created per id |
| Favorites.MigratedAt | core/favorites.service.ts:236-241 | The j-th created record has the j-th unique meal id, the j-th generated id and the signed-in user, and carries the time of that meal's first local record |
| Favorites.MigratedMealIds | core/favorites.service.ts:233-252 | The created records carry the unique ids, in order |
| Favorites.MergedMealIds | core/favorites.service.ts:231-252 | The merged list's meal ids are the server ids, followed by the unique local ids |
| Favorites.MergedMembership | core/favorites.service.ts:216-258 | The merge loses no meal: a meal is in the merged list exactly when it was on the server or in the local list |
| Favorites.MergedDistinct | core/favorites.service.ts:231-258 | If the server list and the local list are each duplicate-free by meal id, so is the merged list |
| FavoriteModel.ToIsoString | core/favorites.service.ts:181 | `toISOString` as the date's ISO text; `Favorites.MapLocalToFavorite` states the round trip with `ParseDate` |
| FavoriteModel.ParseDate | core/favorites.service.ts:212 | `new Date(text)` for text that `toISOString` produced; `Favorites.MapLocalToFavorite` states the round trip |
| Favorites.MealIds | core/favorites.service.ts:222 | The server meal ids, in order, as `map`; `IsFavoriteMealIds` and `MergedMealIds` state what they hold |
| Favorites.IsFavorite | core/favorites.service.ts:68-73 | The `isFavorite` projection: some favorite in the snapshot has the meal id (characterised through `HasKey` and `IsFavoriteMealIds`) |
| Favorites.InLocal | core/favorites.service.ts:184 | The membership guard of the local add: some local record has the meal id (characterised through `HasKey` and `InLocalMealIds`) |
| Favorites.LocalSnapshot | core/favorites.service.ts:47 | The signed-out snapshot has one favorite per local record, in order, with the same meal id and the id `"local_" + mealId` |
| Favorites.MergedList | core/favorites.service.ts:231-258 | The merged list begins with the whole server list, unchanged; `MergedMealIds`, `MergedMembership` and `MergedDistinct` state the rest |
| Favorites.IsFavoriteMealIds | core/favorites.service.ts:68-73 | `isFavorite` holds exactly when the meal id is among the snapshot's meal ids |
| Favorites.InLocalMealIds | core/favorites.service.ts:221 | The local membership guard holds exactly when the meal id is among the local ids |
| Favorites.BuildMerged | core/favorites.service.ts:230-252 | The `forEach` loop that pushes one record per unique id with a local record yields the server list followed by `Migrated` of the unique ids |
| Favorites.FavoritesService.constructor | core/favorites.service.ts:19-21 | The service starts with an empty snapshot, the given local store and the latch unset |
| Favorites.FavoritesService.LocalFavorites | core/favorites.service.ts:203-206 | `getLocalFavorites` as a read of the stored value, an absent key reading as the empty list; the contracts of `AddToLocalStorage` and `RemoveFromLocalStorage` state what it reads back after each write |
| Favorites.FavoritesService.AddToLocalStorage | core/favorites.service.ts:177-191 | A meal already in the local list changes neither store. Otherwise exactly one record is appended to the local list and the favorite is prepended to the snapshot. Afterwards the meal is in the local list. Duplicate-freedom of the local list and the snapshot/local agreement (`InSync`) are preserved |
| Favorites.FavoritesService.RemoveFromLocalStorage | core/favorites.service.ts:193-201 | Both stores become their filters without the meal, keeping the order of the rest. The meal is left in neither store. On a duplicate-free local list exactly its one record is deleted. Duplicate-freedom and `InSync` are preserved |
| Favorites.FavoritesService.AddToFirestore | core/favorites.service.ts:135-153 | The snapshot is prepended with the favorite only when the write succeeds. There is no membership check, so a meal that is already a favorite is duplicated |
| Favorites.FavoritesService.RemoveFromFirestore | core/favorites.service.ts:155-175 | Only when the commit succeeds does the snapshot lose every favorite of the meal, keeping the order of the rest |
| Favorites.FavoritesService.AddFavorite | core/favorites.service.ts:75-94 | A favorite is built from a fresh id and the current time. When signed in, it goes through the remote path; otherwise it goes through the local path, after which the meal is always in the local list, with that path's outcomes and invariants |
| Favorites.FavoritesService.RemoveFavorite | core/favorites.service.ts:96-108 | When signed in, the removal goes through the remote path; otherwise through the local path. Whenever it succeeds, the meal is no longer a favorite |
| Favorites.FavoritesService.ToggleFavorite | core/favorites.service.ts:110-121 | The answer is the negation of the old `isFavorite`. It is absent exactly when the remote write fails. A current favorite is removed: both stores end exactly as after `removeFavorite`. Any other meal is added: both stores end exactly as after `addFavorite`. After `false` the meal is no longer a favorite. After `true` it is one, when signed in or when the two stores agreed before |
| Favorites.FavoritesService.MergeFavorites | core/favorites.service.ts:216-270 | With nothing unique, or when the commit fails, the result is the server list and no field changes. On success the result and the snapshot are `MergedList`, local storage is cleared and the latch is set |
| Favorites.FavoritesService.InitializeFavorites | core/favorites.service.ts:30-58 | Signed out, the snapshot becomes the local snapshot, in sync with the local list. Signed in with an empty local list or the latch set, the snapshot is the server list. Otherwise the snapshot follows the merge outcome. Local storage or the latch change only when a merge ran (lines 39-43) |
| Menu.CartItemCount | src/app/services/menu.service.ts:259-261 | `getCartItemCount` as the left fold of the `reduce`; `CartItemCountIsQuantitySum` proves it is the sum of the quantities |
| Menu.CartTotal | src/app/services/menu.service.ts:248-251 | `getCartTotal` as the left fold of the `reduce`; `CartTotalIsPriceSum` proves it is the sum of price times quantity |
| Menu.CartItemCountIsQuantitySum | src/app/services/menu.service.ts:259-261 | The fold equals the sum of the quantities, stated independently from the front |
| Menu.CartTotalIsPriceSum | src/app/services/menu.service.ts:248-251 | The fold equals the sum of price times quantity, stated independently from the front |
| Menu.CartItemCountConcat | src/app/services/menu.service.ts:259-261 | The item count of a concatenation is the sum of the counts |
| Menu.CartTotalConcat | src/app/services/menu.service.ts:248-251 | The total of a concatenation is the sum of the totals |
| Menu.CartItemCountAtLeastLength | src/app/services/menu.service.ts:259-261 | A cart with every quantity at least one counts at least one item per entry |
| Menu.CartTotalSingle | src/app/services/menu.service.ts:248-251 | A one-entry cart totals its price times its quantity |
| Menu.CartItemCountSetQuantity | src/app/services/menu.service.ts:259-261 | Setting one entry's quantity moves the count by the difference |
| Menu.CartTotalSetQuantity | src/app/services/menu.service.ts:248-251 | Setting one entry's quantity replaces that entry's price times quantity in the total |
| Menu.CartSumsDeleteAt | src/app/services/menu.service.ts:248-261 | Deleting an entry lowers the count by its quantity and the total by its price times its quantity |
| Menu.AppendKeepsPositive | src/app/services/menu.service.ts:220 | Appending an entry of positive quantity keeps every quantity positive |
| Menu.SetQuantityKeepsPositive | src/app/services/menu.service.ts:241 | Setting a positive quantity keeps every quantity positive |
| Menu.RemoveKeepsPositive | src/app/services/menu.service.ts:228 | Filtering out an id keeps every quantity positive, even when ids repeat |
| Menu.AppendKeepsWellFormed | src/app/services/menu.service.ts:219-221 | Appending an entry with a new id and a positive quantity keeps ids unique and quantities positive |
| Menu.SetQuantityKeepsWellFormed | src/app/services/menu.service.ts:241 | Setting a positive quantity keeps the cart well formed |
| Menu.RemoveKeepsWellFormed | src/app/services/menu.service.ts:228 | Filtering out an id keeps the cart well formed |
| Menu.IncrementAt | src/app/services/menu.service.ts:217-218 | Bumping an entry's quantity raises the count by one and the total by its price, and keeps quantities positive and the cart well formed |
| Menu.AppendNew | src/app/services/menu.service.ts:219-221 | Appending a new entry of quantity one raises the count by one and the total by the item's price, keeps quantities positive, and with a new id keeps the cart well formed |
| Menu.MenuService.constructor | src/app/services/menu.service.ts:272-282 | The cart starts as the restored cart |
| Menu.MenuService.AddToCart | src/app/services/menu.service.ts:213-225 | If an entry with the id exists, only the first such entry's quantity grows by one. Otherwise one entry of quantity one is appended. The count grows by one. The total grows by the bumped entry's stored price, or by the item's price when a new entry is appended. The id is in the cart afterwards. Positive quantities are preserved on their own, and so is well-formedness |
| Menu.MenuService.RemoveFromCart | src/app/services/menu.service.ts:227-231 | The cart becomes its filter without the id, so no entry with that id remains. An absent id changes nothing. With unique ids, exactly the one entry is deleted and the count and total drop by its share. Positive quantities are preserved on their own, and so is well-formedness |
| Menu.MenuService.UpdateQuantity | src/app/services/menu.service.ts:233-246 | An absent id changes nothing. A quantity of at most zero acts as `removeFromCart`. Otherwise only that entry's quantity changes, and the count moves by the difference. Positive quantities are preserved on their own, and so is well-formedness |
| Menu.MenuService.ClearCart | src/app/services/menu.service.ts:254-257 | The cart is empty, its count is zero and its total is zero |
| MenuQuery.WantsQuery | src/app/services/menu.service.ts:88 | The guard of the `q` push: a query whose trim is non-empty; `QueryParamsCases` and `TrimEmpty` state its effect |
| MenuQuery.WantsCategory | src/app/services/menu.service.ts:92 | The guard of the `category` push: a non-empty category other than `all`; `QueryParamsCases` states its effect |
| MenuQuery.QueryParams | src/app/services/menu.service.ts:86-94 | The parameters the two guarded pushes produce, `q` first; `QueryParamsCases` gives them case by case |
| MenuQuery.QueryString | src/app/services/menu.service.ts:96-98 | The query string is empty exactly when there are no parameters, and otherwise starts with `?` |
| MenuQuery.QueryParamsCases | src/app/services/menu.service.ts:86-94 | The parameter list in each of the four cases: `q` only for a non-blank trimmed query, `category` only for a present category other than `all`, `q` first |
| MenuQuery.QueryStringNone | src/app/services/menu.service.ts:96-98 | With no parameters, nothing is appended to the endpoint |
| MenuQuery.QueryStringQueryOnly | src/app/services/menu.service.ts:88-98 | A non-blank query alone gives `?q=` and the encoded trimmed query |
| MenuQuery.QueryStringCategoryOnly | src/app/services/menu.service.ts:92-98 | A category other than `all` alone gives `?category=` and the encoded category |
| MenuQuery.QueryStringBoth | src/app/services/menu.service.ts:88-98 | Both parameters give `?q=…&category=…`, `q` first |
| MenuQuery.QueryStringDecodes | src/app/services/menu.service.ts:96-98 | A query string is present exactly when some parameter is wanted. If the encoder never emits `&`, splitting what follows `?` at `&` gives back the parameters |
| MenuQuery.ItemsUrl | src/app/services/menu.service.ts:83-98 | The pushes and the conditional append build the endpoint followed by the query string of the wanted parameters |
| Text.Trim | src/app/services/menu.service.ts:88 | `trim` as front trim then back trim; `TrimStartSpec`, `TrimEndSpec`, `TrimEmpty` and `TrimIdempotent` state what it removes |
| Text.Join | src/app/services/menu.service.ts:97 | `join` with a one-character separator; `SplitJoin` and `JoinSeparator` state its properties |
| Text.TrimStartSpec | src/app/services/menu.service.ts:88 | Trimming the front drops only whitespace and leaves a suffix that does not start with whitespace |
| Text.TrimEndSpec | src/app/services/menu.service.ts:88 | Trimming the back drops only whitespace and leaves a prefix that does not end with whitespace |
| Text.TrimEmpty | src/app/services/menu.service.ts:88 | A string trims to nothing exactly when it is all whitespace, which is when the `q` guard fails |
| Text.TrimIdempotent | src/app/services/menu.service.ts:88-89 | Trimming twice is trimming once |
| Text.Split | src/app/services/menu.service.ts:96-98 | Splitting gives at least one piece |
| Text.SplitJoin | src/app/services/menu.service.ts:96-98 | Splitting at the separator undoes joining parts that do not contain it |
| Text.JoinSeparator | src/app/services/menu.service.ts:96-98 | The joined string contains the separator exactly when there are at least two parts |
| ArrayOps.Filter | core/favorites.service.ts:195 | `filter`: the result is no longer than the input; `FilterMembers` and `FilterConcat` state what it keeps and in which order |
| ArrayOps.Without | src/app/services/menu.service.ts:228 | `filter(x => key(x) !== v)`; `WithoutMembers`, `HasKeyWithout` and `WithoutDistinctAt` state what it keeps |
| ArrayOps.FilterMembers | core/favorites.service.ts:224 | `filter` keeps only elements that pass the test, and keeps every one of them |
| ArrayOps.FilterConcat | src/app/services/menu.service.ts:228 | `filter` distributes over concatenation, so relative order is kept |
| ArrayOps.FilterKeepsAll | core/favorites.service.ts:224 | Filtering with a test that every element passes changes nothing |
| ArrayOps.FilterDistinctBy | core/favorites.service.ts:195 | Filtering keeps keys distinct |
| ArrayOps.Any | core/favorites.service.ts:70 | `some` holds exactly when some element passes the test |
| ArrayOps.HasKey | core/favorites.service.ts:184 | `some(x => key(x) === v)` holds exactly when some element has key `v` |
| ArrayOps.Map | core/favorites.service.ts:221-222 | `map` keeps the length and applies the function at every position |
| ArrayOps.MapConcat | core/favorites.service.ts:221-222 | `map` distributes over concatenation |
| ArrayOps.IndexOfKey | src/app/services/menu.service.ts:215 | The position where `find` stops: absent exactly when no element has the key, otherwise the first element with it |
| ArrayOps.FindByKey | core/favorites.service.ts:234 | `find` is absent exactly when no element has the key, and otherwise returns the element at the first position with the key |
| ArrayOps.WithoutMembers | core/favorites.service.ts:199 | Filtering out a key keeps exactly the elements with another key |
| ArrayOps.WithoutDistinctAt | core/favorites.service.ts:195 | On a duplicate-free list, filtering out a present key deletes exactly the one element at its position |
| ArrayOps.WithoutAbsent | src/app/services/menu.service.ts:228 | Filtering out an absent key changes nothing |
| ArrayOps.WithoutDistinctBy | core/favorites.service.ts:195 | Filtering out a key keeps keys distinct |
| ArrayOps.HasKeyAppend | core/favorites.service.ts:185 | `push` adds exactly the pushed element's key |
| ArrayOps.HasKeyPrepend | core/favorites.service.ts:189 | `[favorite, ...current]` adds exactly the favorite's key |
| ArrayOps.HasKeyWithout | core/favorites.service.ts:171 | Filtering out key `v` removes exactly that key |
| ArrayOps.DistinctByAppend | core/favorites.service.ts:184-185 | Pushing an element whose key is new keeps keys distinct |

## Left out

- Firestore and HTTP transport are not modelled: `loadUserFavorites`, the `set` and batch calls, and `http.get`. The server list is a parameter, and the outcome of each write or commit is a boolean parameter. The remote collection itself is not modelled; only the snapshot is.
- RxJS scheduling is not modelled: `switchMap` cancellation, `take(1)`, `distinctUntilChanged` and the timing of emissions. Each operation is one atomic step on the fields, and `isFavorite` is the predicate over the snapshot.
- `localStorage` and JSON encoding are not modelled. The stored list is a field, and an absent key is `None`. A malformed JSON value that would make `getLocalFavorites` throw is not represented. Neither is an empty stored string, which reads as the empty list. The same goes for the outer `catchError` of `initializeFavorites` that such a throw would reach.
- `Date` parsing and `toISOString` are not modelled as real dates. A date is its ISO text. `new Date(text)` is represented only for text that `toISOString` produces. For any other text, including valid but non-canonical ISO text such as `2024-01-01`, the model's round trip `ToLocalFavorite(MapLocalToFavorite(local)) == local` does not hold in JavaScript.
- Favorites.FavoritesService.AddToFirestore: the remote document written carries `userId` and a second `new Date()`. Only the snapshot entry is modelled, and it is the favorite as built.
- `generateId` (`Math.random`) is not modelled: fresh ids are parameters, `freshId` for one add and `genId(k)` for the k-th record of a merge. Their uniqueness is not assumed.
- `encodeURIComponent` (section 2.1 of RFC 3986) is an uninterpreted function parameter. The decoding lemma assumes only that it never emits `&`.
- `alert`, `setTimeout`, `console.error` and the `loading` flag are not modelled. Neither is the handling of the `getItems` response.
- Favorites.FavoritesService.AddFavorite and Favorites.FavoritesService.RemoveFavorite: local writes cannot fail in the model, so the local path always answers success. In the source, `localStorage.setItem` can throw (quota, disabled storage). The call then errors and the snapshot is not updated.
- Cart persistence (`saveCartToStorage`, `loadCartFromStorage`) is not modelled. The constructor takes the restored cart as a parameter.
- Menu.MenuService.AddToCart and Menu.MenuService.UpdateQuantity: the source mutates in place. The quantity change (lines 218, 241) mutates an entry object. The append (line 220) pushes into the array already published as the current value. A copied array is then republished. Aliasing of those objects and of that array with other holders is not modelled; the new cart is a new sequence.
- Menu.CartTotal: prices are JavaScript numbers. They are modelled as integers (minor units), so floating-point rounding is not modelled. Quantities are integers, and the item rating is a `real` that no operation reads.
- The other HTTP operations of the menu service are not modelled: categories, create, update, delete, health. Neither are the UI components, multi-tab access to the shared storage key, or the image compression worker.
