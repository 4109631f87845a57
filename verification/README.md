# PokemonAPI core in Dafny

This project models the read-through core of the PokemonAPI service, a Spring
Boot application. The service keeps Pokemon, with their types and abilities,
in a relational database. A lookup the database cannot answer is fetched from
the public PokeAPI, normalised and saved. The model covers:

- **Entities** (`entities.dfy`, module `Entities`): the `Pokemon`, `Type`,
  `Ability`, `PokemonType` and `PokemonAbility` records, their column
  constraints, and the `addType` / `addAbility` / `removeType` /
  `removeAbility` helpers.
- **Reference catalog** (`catalog.dfy`, module `Catalog`): the type and
  ability tables, keyed by unique name. Also the translation tables to Korean
  and get-or-create.
- **Store and queries** (`store.dfy`, module `Store`): the Pokemon table as a
  sequence of rows with unique ids. The repository's queries are filters over
  it. Also Spring Data's single-result, paging and save (merge) semantics, and
  the cascade delete of a type or ability.
- **Normaliser** (`normalize.dfy`, module `Normalizer`): a PokeAPI payload
  plus an optional species payload becomes an entity. Catalog rows are created
  on the way.
- **Response assembly** (`response.dfy`, module `Response`): the detailed
  view with assignments sorted by slot, and the list summary with its URL.
- **Service** (`service.dfy`, module `Service`): `getPokemon` with the local
  lookup and its fallbacks, the remote load-and-save, the three paged
  listings, and search.
- **Initial loader** (`loader.dfy`, module `Loader`, with the batch loop in
  `batches.dfy`, module `Batches`): the start-up batch load of ids 1..N and
  its loaded/failed counters. The batch loop is generic in what handling one
  id does; the loader instantiates it with its own per-id step.
- Shared helpers: `wrappers.dfy` has `Option` / `Result`. `text.dfy` has Java
  string and integer behaviour: `Long.parseLong`, `String.valueOf`, `trim`,
  `contains`, `toLowerCase`, `int` narrowing and truncating division.
  `collections.dfy` has filtering and a stable sort.

The database is an immutable `State`: the Pokemon rows plus the two catalogs.
Each operation returns the state it leaves behind. The remote PokeAPI client is
a pair of functions from the request key to `Got(payload)`, `Null` or `Failed`.

Where the code and its description differ, the model follows the code:
- A listing page starts at `(offset / limit) * limit`, not at `offset`.
- The name lookup may fail when several rows share a name.

## Model

| member | source | states |
|---|---|---|
| Text.ParseLong | src/main/java/com/pokeapi/service/PokemonService.java:95 | `Long.parseLong`: a number exactly when the string is an optional `+` or `-` followed by one or more ASCII digits whose signed value lies in the `long` range, and then that signed value |
| Text.ParseLongIntToString | src/main/java/com/pokeapi/service/PokemonInitialLoader.java:144 | the decimal string `String.valueOf` makes of a `long` parses back to the same number |
| Text.Wrap32 | src/main/java/com/pokeapi/service/PokemonService.java:512 | narrowing to `int` gives a value in the `int` range that is congruent to the input modulo 2^32, and leaves `int` values alone |
| Text.TruncDiv | src/main/java/com/pokeapi/service/PokemonService.java:161 | Java `/` rounds toward zero: for a non-negative dividend the quotient is the floor, for a negative one the ceiling |
| Text.ToLowerIdempotent | src/main/java/com/pokeapi/service/PokemonService.java:291-292 | lower-casing twice is lower-casing once |
| Text.BlankIffAllTrimmable | src/main/java/com/pokeapi/service/PokemonService.java:279 | `trim().isEmpty()` holds exactly when every character is one `trim` strips |
| Text.ContainsIffOccurs | src/main/java/com/pokeapi/service/PokemonService.java:291-292 | `contains` is true exactly when the needle occurs at some position |
| Text.ToLowerKeepsBlank | src/main/java/com/pokeapi/service/PokemonService.java:279 | lower-casing a query does not change whether it is blank |
| Entities.AddType | src/main/java/com/pokeapi/entity/Pokemon.java:105-108 | exactly one type assignment (owner this Pokemon, the given type and slot) is appended; earlier entries and every other field are unchanged |
| Entities.AddAbility | src/main/java/com/pokeapi/entity/Pokemon.java:113-116 | exactly one ability assignment carrying the given ability, slot and hidden flag is appended; types and other fields are unchanged |
| Entities.RemoveType | src/main/java/com/pokeapi/entity/Pokemon.java:121-125 | one occurrence of the entry leaves the type list (multiset difference), an absent entry changes nothing, and the removed entry comes back with owner and type cleared |
| Entities.RemoveAbility | src/main/java/com/pokeapi/entity/Pokemon.java:130-134 | as `RemoveType`, for abilities; the removed entry keeps its slot and hidden flag |
| Entities.RemoveTypeUndoesAddType | src/main/java/com/pokeapi/entity/Pokemon.java:105-125 | removing the entry `addType` just appended restores the Pokemon |
| Entities.RemoveAbilityUndoesAddAbility | src/main/java/com/pokeapi/entity/Pokemon.java:113-134 | removing the entry `addAbility` just appended restores the Pokemon |
| Catalog.Translate | src/main/java/com/pokeapi/service/PokemonService.java:457-504 | the table entry for the lower-cased name when there is one, otherwise the name itself |
| Catalog.TranslationsAgreeOnServiceKeys | src/main/java/com/pokeapi/service/PokemonInitialLoader.java:282-335 | on every name the service's ability table knows, the loader's table translates the same way |
| Catalog.LoaderTableKnowsMore | src/main/java/com/pokeapi/service/PokemonInitialLoader.java:300-332 | the loader's table translates a name (`shed-skin`) that the service's table echoes unchanged |
| Catalog.LoaderOnlyAbilitiesAreShort | src/main/java/com/pokeapi/service/PokemonInitialLoader.java:300-332 | every Korean ability name the loader adds to the service's list fits the 100-character column |
| Catalog.TranslateLength | src/main/java/com/pokeapi/entity/Ability.java:26 | a translation is either a table value, and so within the column length, or the input echoed |
| Catalog.GetOrCreateType | src/main/java/com/pokeapi/service/PokemonService.java:431-439 | an existing row is returned and nothing changes; otherwise exactly one row is added under the name, with a fresh id and the Korean name the caller's table gives; the catalog stays valid (unique names, lengths, distinct ids) and only grows; a new name over 50 characters violates the column and fails |
| Catalog.GetOrCreateAbility | src/main/java/com/pokeapi/service/PokemonInitialLoader.java:236-250 | as `GetOrCreateType`, for abilities with a 100-character limit and the caller's translation table |
| Catalog.GetOrCreateTypeIdempotent | src/main/java/com/pokeapi/service/PokemonService.java:431-439 | asking again for the same name returns the same row and changes nothing |
| Catalog.GetOrCreateAbilityIdempotent | src/main/java/com/pokeapi/service/PokemonService.java:444-452 | asking again for the same name returns the same row and changes nothing |
| Collections.SortBy | src/main/java/com/pokeapi/service/PokemonService.java:527-528 | the result is ascending by key and a permutation of the input |
| Collections.SortByIsStable | src/main/java/com/pokeapi/service/PokemonService.java:550 | elements with equal keys keep their relative order |
| Collections.FilterTwoIff | src/main/java/com/pokeapi/repository/PokemonRepository.java:19-20 | a filter keeps two or more elements exactly when two positions satisfy the predicate |
| Collections.Positions | src/main/java/com/pokeapi/service/PokemonService.java:289-292 | the positions below `n` that satisfy the filter, each once, ascending, and every such position |
| Collections.FirstPositions | src/main/java/com/pokeapi/service/PokemonService.java:289-294 | `filter(f).limit(n)` over the first `w` elements keeps, in ascending order, the first `n` positions that satisfy `f`, or all of them when fewer |
| Store.AsMap | src/main/java/com/pokeapi/entity/Pokemon.java:25-26 | with unique ids, the table read as a map has exactly the stored ids as keys, each mapped to its row |
| Store.FindById | src/main/java/com/pokeapi/service/PokemonService.java:99-117 | the row with this id when there is one, otherwise none |
| Store.SingleResult | src/main/java/com/pokeapi/repository/PokemonRepository.java:19-20 | an optional-result query gives none for no rows and the row for one row, and fails for two or more |
| Store.FindByNameWithAllGraph | src/main/java/com/pokeapi/repository/PokemonRepository.java:32-34 | a returned row has the key as Korean or English name; none exactly when no row matches; fails exactly when two rows match |
| Store.FindByName | src/main/java/com/pokeapi/repository/PokemonRepository.java:19 | the same as `FindByNameWithAllGraph`, on the Korean name alone |
| Store.FindByEnglishName | src/main/java/com/pokeapi/repository/PokemonRepository.java:20 | the same, on the English name alone |
| Store.ExistsByName | src/main/java/com/pokeapi/repository/PokemonRepository.java:142 | true exactly when some row has this Korean name |
| Store.ExistsByEnglishName | src/main/java/com/pokeapi/repository/PokemonRepository.java:143 | true exactly when some row has this English name |
| Store.FindMaxId | src/main/java/com/pokeapi/repository/PokemonRepository.java:139-140 | 0 for an empty table, otherwise a stored id at least as large as every stored id |
| Store.FindByTypeName | src/main/java/com/pokeapi/repository/PokemonRepository.java:107-111 | exactly the rows having a type whose name or Korean name is the argument, each once |
| Store.FindByAbilityName | src/main/java/com/pokeapi/repository/PokemonRepository.java:116-120 | exactly the rows having an ability whose name or Korean name is the argument, each once |
| Store.FindPokemonWithHiddenAbilities | src/main/java/com/pokeapi/repository/PokemonRepository.java:125-128 | exactly the rows with at least one hidden ability, each once |
| Store.FindPokemonWithMultipleTypes | src/main/java/com/pokeapi/repository/PokemonRepository.java:133-134 | exactly the rows with more than one type assignment |
| Store.Upsert | src/main/java/com/pokeapi/entity/Pokemon.java:25-26 | saving under an externally supplied id keeps ids unique; the map view gains or replaces exactly that id; a new id is appended at the end and other rows keep their places |
| Store.Save | src/main/java/com/pokeapi/entity/Pokemon.java:32-63 | the save succeeds exactly when the row meets its column constraints (names present and at most 100 characters, sprite at most 500, every assignment owned by the row with a reference and a slot); otherwise it fails as a constraint violation |
| Store.RemovedTypeIsGoneAfterSave | src/main/java/com/pokeapi/entity/Pokemon.java:53 | orphan removal: a type assignment taken out with `removeType` is not in the saved row |
| Store.RemovedAbilityIsGoneAfterSave | src/main/java/com/pokeapi/entity/Pokemon.java:63 | the same for ability assignments |
| Store.DeleteTypeCascade | src/main/java/com/pokeapi/entity/Type.java:32-33 | deleting a type removes it from the catalog and removes every assignment referencing it; each row's list becomes exactly its old list with those entries filtered out, in order, so nothing is added; all other fields stay |
| Store.DeleteAbilityCascade | src/main/java/com/pokeapi/entity/Ability.java:32-33 | the same for abilities |
| Store.DeleteTypeCascadeIdempotent | src/main/java/com/pokeapi/entity/Type.java:32-33 | deleting the same type a second time changes nothing |
| Store.DeleteAbilityCascadeIdempotent | src/main/java/com/pokeapi/entity/Ability.java:32-33 | the same for abilities |
| Store.PageRequestOf | src/main/java/com/pokeapi/service/PokemonService.java:161 | a page request exists exactly when the page is non-negative and the size at least one |
| Store.FindPage | src/main/java/com/pokeapi/repository/PokemonRepository.java:47-48 | page `n` of size `k` holds the rows from position `n*k` on: `k` of them, the remainder, or none past the end |
| Store.HasNextIffRowsRemain | src/main/java/com/pokeapi/service/PokemonService.java:188 | a page has a next page exactly when some row lies beyond it |
| Normalizer.KoreanName | src/main/java/com/pokeapi/service/PokemonService.java:377-386 | the first species name tagged "ko", otherwise the payload's name (also when the species or its name list is missing) |
| Normalizer.SpriteUrl | src/main/java/com/pokeapi/service/PokemonService.java:389-391 | the front-default sprite when both the sprites and it are present, otherwise none |
| Normalizer.AddTypes | src/main/java/com/pokeapi/service/PokemonService.java:394-406 | one assignment per payload entry, in payload order, owned by the Pokemon, with the catalog row and the slot copied; fails exactly when some new type name is too long; every row it creates is named by an entry and carries that name's translation, also when it stops early; on success the catalog's names are exactly the old names plus the entries' names |
| Normalizer.AddAbilities | src/main/java/com/pokeapi/service/PokemonService.java:409-423 | one assignment per payload entry, in payload order, with the ability row, slot and hidden flag copied; fails exactly when some new ability name is too long; the created rows are pinned as for `AddTypes`, with the caller's ability table |
| Normalizer.Normalize | src/main/java/com/pokeapi/service/PokemonService.java:368-426 | id, English name, height and weight are copied; the name is `KoreanName`; the sprite is `SpriteUrl`; assignments match the payload entry for entry against the final catalogs; the catalogs stay valid and only grow; every created type or ability row is named by a payload entry and carries its translation from the caller's tables; on success the catalogs hold exactly the old names plus the payload's names; fails only on an over-long new type or ability name |
| Normalizer.TypeFailureCreatesNoAbility | src/main/java/com/pokeapi/service/PokemonService.java:394-411 | when a type fails, the abilities are never reached and the ability catalog is untouched |
| Normalizer.NormalizedAssignmentsAreValid | src/main/java/com/pokeapi/entity/PokemonType.java:34-43 | a normalised Pokemon can be saved exactly when its names and sprite fit their columns: the assignments it builds always satisfy their constraints |
| Normalizer.NormalizeIdempotent | src/main/java/com/pokeapi/service/PokemonService.java:431-452 | normalising the same payload again against the catalogs the first run left gives the same Pokemon and creates nothing |
| Response.ConvertToResponse | src/main/java/com/pokeapi/service/PokemonService.java:509-577 | the id narrowed to `int`; names, height, weight and sprite copied; each list sorted ascending by slot and a permutation of the entries' views; conversion fails exactly when some entry of either list lacks its reference row or its slot (a null slot cannot be unboxed into the view's `int`, even in a one-element list); a list is null exactly when it is empty or conversion fails, and a failure nulls both lists |
| Response.ResponseKeepsOrderWithinSlot | src/main/java/com/pokeapi/service/PokemonService.java:526-530 | types sharing a slot appear in their stored order |
| Response.ConvertToSummary | src/main/java/com/pokeapi/service/PokemonService.java:582-587 | the name is copied and the url is the detail path followed by the id, which parses back to the id |
| Response.LastSegment | src/main/java/com/pokeapi/model/PokemonSummary.java:29-30 | `split("/")` drops trailing empty segments: there is no last segment exactly when the url is only slashes; otherwise it is non-empty, has no slash, starts at the url's start or after a slash, and only slashes follow it |
| Response.SummaryIdRoundTrip | src/main/java/com/pokeapi/model/PokemonSummary.java:28-30 | reading the id back from a summary's url gives the row's id, for every `int` id |
| Service.FindByNameWithFallback | src/main/java/com/pokeapi/service/PokemonService.java:121-150 | a found row matches the key by either name; none exactly when no row matches; the only matching row is found; the lookup fails exactly when two rows share the Korean name, or when none has it and two share the English name; a unique Korean-name match is the row returned, even when another row has the key as its English name |
| Service.NameQueriesInTurn | src/main/java/com/pokeapi/service/PokemonService.java:135-147 | the plain name query, then the English-name query on a miss: a found row matches the key by either name; none exactly when no row matches; fails exactly when two rows share the Korean name, or none has it and two share the English name; a unique Korean-name match wins over any English-name match |
| Service.GraphHitIsKoreanMatch | src/main/java/com/pokeapi/service/PokemonService.java:126-133 | when the combined query answers and some row has the key as its Korean name, it returns that row |
| Service.FindPokemonInDatabaseWithRelations | src/main/java/com/pokeapi/service/PokemonService.java:92-151 | a key that parses as a `long` is looked up only by id and never fails; any other key goes through the name lookup |
| Service.LoadAndSavePokemonFromApi | src/main/java/com/pokeapi/service/PokemonService.java:321-362 | a null payload is not-found and a client failure is an external-API error; an already stored payload id returns that row and saves nothing; for a payload id not yet stored, the call succeeds exactly when the payload normalises and the normalised row is valid, and then it saves and returns exactly that row, with the catalogs the normalisation left; a saved row replaces only its own id; every failure leaves the database as it was |
| Service.GetPokemon | src/main/java/com/pokeapi/service/PokemonService.java:57-87 | a local hit is answered from the database; a local miss is sent to `LoadAndSavePokemonFromApi`, and the answer is its row's view and its database exactly when it succeeds; every failure is reported as not-found and changes nothing; a success is the view of a stored row |
| Service.LocalHitIgnoresRemote | src/main/java/com/pokeapi/service/PokemonService.java:62-71 | a local hit gives the same answer whatever the remote source would say |
| Service.GetPokemonIdempotent | src/main/java/com/pokeapi/service/PokemonService.java:57-87 | repeating a request against the database the first one left gives the same answer and changes nothing |
| Service.SavedRowIsFoundAgain | src/main/java/com/pokeapi/service/PokemonService.java:92-151 | after the new row is saved, the lookup that missed finds that row or still nothing, and never fails |
| Service.ListPage | src/main/java/com/pokeapi/service/PokemonService.java:161-193 | fails exactly when the limit is below one or the page `offset / limit` is negative; count is the total narrowed to `int`; results are the summaries of the rows from `(offset / limit) * limit` on; next exists exactly when rows remain and points at `offset + limit`; previous exists exactly when `offset >= limit` and points at `offset - limit` |
| Service.GetAllPokemon | src/main/java/com/pokeapi/service/PokemonService.java:157-202 | the page `ListPage` promises over all rows, with detail views and unfiltered links: the count, the summaries of the rows from `(offset / limit) * limit` on, and the next and previous links |
| Service.GetPokemonByType | src/main/java/com/pokeapi/service/PokemonService.java:208-236 | the page `ListPage` promises over exactly the rows `findByTypeName` returns, without detail views and with links carrying the type; every summary is of a row with the type |
| Service.GetPokemonByAbility | src/main/java/com/pokeapi/service/PokemonService.java:242-270 | the page `ListPage` promises over exactly the rows `findByAbilityName` returns, without detail views and with links carrying the ability; every summary is of a row with the ability |
| Text.TruncDivFacts | src/main/java/com/pokeapi/service/PokemonService.java:161 | Java's `offset / limit` truncates toward zero: the page is non-negative exactly when `offset > -limit`, at least one exactly when `offset >= limit`, starts at `offset - offset % limit` for a non-negative offset and at 0 for a small negative one |
| Service.AlignedPagesFollowOneAnother | src/main/java/com/pokeapi/service/PokemonService.java:161-190 | for a non-negative offset the page starts at the multiple of the limit at or below it; with an aligned offset the next link is exactly the following page |
| Service.SearchPokemon | src/main/java/com/pokeapi/service/PokemonService.java:276-315 | a null or blank query is refused whatever the store; otherwise the detail views of the first 20 rows, in store order, whose lower-cased name contains the lower-cased query, among the first 1000 rows when the paged graph query succeeds and among all rows through the `findAll()` fallback; all matches when fewer than 20 |
| Service.SearchHits | src/main/java/com/pokeapi/service/PokemonService.java:287-304 | the rows at ascending positions below the window, each matching the query, with no skipped match before the last one: the first 20 matches, or all of them when fewer |
| Service.SearchIgnoresQueryCase | src/main/java/com/pokeapi/service/PokemonService.java:290-292 | searching for a query and for its lower-cased form gives the same result |
| Loader.LoadAndSavePokemon | src/main/java/com/pokeapi/service/PokemonInitialLoader.java:141-168 | no row for a null or failed fetch; otherwise the row is saved unless a name is too long or the row violates a column, and then no row comes back; a returned row is exactly the normalised payload, and the catalogs are those the normalisation left, also after a failed save; the table changes only by a successful save |
| Loader.LoadOne | src/main/java/com/pokeapi/service/PokemonInitialLoader.java:100-120 | a stored id counts as loaded and changes nothing; otherwise loaded exactly when `loadAndSavePokemon` returned a row; with an honest remote a loaded id is stored |
| Loader.LoadIdsKeepsRows | src/main/java/com/pokeapi/service/PokemonInitialLoader.java:99-121 | handling ids one after another never removes a row, and catalog rows are only ever added |
| Loader.StoredIdsAreSkipped | src/main/java/com/pokeapi/service/PokemonInitialLoader.java:102-105 | ids that are all stored already are all counted as loaded and leave the database untouched |
| Loader.LoadInitialPokemonData | src/main/java/com/pokeapi/service/PokemonInitialLoader.java:89-136 | the ids visited are those of the first batches of the plan, so 1, 2, … in order, each once; the state and counters are those of handling the visited ids one by one, and loaded plus failed is the number visited; all N ids are visited unless a pause is interrupted, and then the stop falls right after a whole batch; no pause before the stop was interrupted |
| Loader.Run | src/main/java/com/pokeapi/service/PokemonInitialLoader.java:66-84 | nothing happens when loading is disabled or the table already holds at least the target count, whatever the batch settings; otherwise the batch load with the loader's own translation tables; the database stays valid and no row is lost |
| Batches.Fold | src/main/java/com/pokeapi/service/PokemonInitialLoader.java:99-121 | each id handled is counted once, as loaded or as failed: loaded plus failed is the number of ids handled |
| Batches.FoldSnoc | src/main/java/com/pokeapi/service/PokemonInitialLoader.java:99-121 | handling one more id adds one step and one count to the result for the ids before it |
| Batches.RunBatch | src/main/java/com/pokeapi/service/PokemonInitialLoader.java:99-121 | the inner loop continues the ids counted from one up to the batch end, with the result of handling them one by one |
| Batches.BatchLoop | src/main/java/com/pokeapi/service/PokemonInitialLoader.java:94-130 | the outer loop visits 1, 2, … in order, with the result of handling those ids one by one; it visits all N ids unless a pause is interrupted, and then stops right after a whole batch whose pause was interrupted, every earlier pause having run to the end; the visited ids are those of the first batches of the plan |
| Batches.MultipleIsProduct | src/main/java/com/pokeapi/service/PokemonInitialLoader.java:94 | counting `k` whole batches of `b` ids one batch at a time gives `k * b` ids, so a stop after whole batches falls at a multiple of the batch size |
| Batches.BatchesFromCover | src/main/java/com/pokeapi/service/PokemonInitialLoader.java:94-95 | the batches `[start, min(start + b - 1, N)]`, stepping by `b`, hold the ids `start..N`, each once, ascending |
| Batches.BatchPlanCoversIds | src/main/java/com/pokeapi/service/PokemonInitialLoader.java:94-99 | the batches from 1 partition `1..N`: every id exactly once, in ascending order |
| Batches.WholeBatchesPrefix | src/main/java/com/pokeapi/service/PokemonInitialLoader.java:94-99 | the first `k` batches hold the first `k * b` ids when those fit below N |
| Batches.EarlierPausesKept | src/main/java/com/pokeapi/service/PokemonInitialLoader.java:122-130 | when every pause so far ran to the end and the stop comes within the next batch, no batch ending before the stop had its pause interrupted |
| Batches.PlanPrefix | src/main/java/com/pokeapi/service/PokemonInitialLoader.java:94-130 | wherever the loop may stop, the ids before the stop are exactly those of some number of leading batches |

## Left out

- The HTTP client, controller, exception handler and caches are not modelled. The remote source is a function parameter, and error kinds are a datatype.
- The controller's check that `limit` lies in 1..100 (`PokemonController.java:53`) is not a precondition here. The listings handle every `int` limit as the service does: a limit below one fails.
- Timestamps, logging, `logDatabaseStats` and the one-second sleep are not modelled. The sleep's interruption is a parameter.
- Next and previous links are modelled as (limit, offset, filter) values, not as the rendered `?limit=…&offset=…` strings.
- The service's fallback from a graph query to the plain query (`findById`, `findByName`, `findAll(pageable)`) is not modelled for lookups and listings: both queries return the same rows. Search is different: its fallback `findAll()` (`PokemonService.java:298`) has no page and scans every row. `Service.SearchPokemon` takes whether the paged graph query succeeds as a parameter. The graph query fetches two list-valued associations at once, which Hibernate may refuse; which path runs is not decided here.
- The order of rows returned by unsorted queries is taken to be the table order. The database does not promise one.
- `model/PokemonResponse.java` is not part of this model. The payload and view fields are taken from their uses in the service.
- Null payload fields other than the lists, the sprites and the species names are not modelled: a null name, a null type or ability object, or a null `isHidden`. The payload's slots are Java `int`s.
- Text is UTF-16 in Java and `seq<char>` here. `toLowerCase` is modelled for ASCII letters only, and `Long.parseLong` for ASCII digits only.
- Removal from an assignment list is by value, while Java removes by object identity. Two equal assignments are indistinguishable here.
- The Korean translation tables are a parameter of the conversion, of `GetPokemon` and of the loader's per-id step, rather than fixed inside them. `Catalog.ServiceTables()` holds the service's tables; `Loader.Run` passes `Catalog.LoaderTables()`.
- Flush and transaction timing are not modelled. A failed `getPokemon` leaves the database as it was: its own transaction (`PokemonService.java:56`) rolls back. `getPokemon` calls `loadAndSavePokemonFromApi` on the same object (`PokemonService.java:75`), so that method's `REQUIRES_NEW` (`PokemonService.java:320`) does not start a transaction of its own. In the loader nothing rolls back.
- Loader.LoadInitialPokemonData: requires a batch size of at least one, and `initialLoadCount + batchSize` within `int`. With a zero batch size the loop never advances; near `Integer.MAX_VALUE` the loop counter overflows. Neither behaviour is modelled.
- Loader.Run: requires the same bounds as `LoadInitialPokemonData`, but only when loading is enabled and the table holds fewer rows than the target.
- Service.ListPage: requires `limit` and `offset` to be Java `int` values, as their declared type guarantees.
