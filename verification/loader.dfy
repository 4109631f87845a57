/**
  The start-up loader: when enabled and the table holds fewer Pokemon than
  the configured count, it walks the ids 1..count in batches, skips ids that
  are already stored and loads the others from the remote source.

  The loader runs without a transaction: a catalog row created while
  converting a payload stays even when saving the Pokemon then fails. The
  one-second pause between batches is not modelled; whether it is
  interrupted is a parameter (keyed by the batch's first id).
*/
module Loader {
  import opened Wrappers
  import opened Text
  import opened Entities
  import opened Catalog
  import opened Store
  import opened Normalizer
  import opened Service
  import opened Batches

  /** The loader's settings: whether it runs, how many ids it walks, and the batch size. */
  datatype Config = Config(initialLoadEnabled: bool, initialLoadCount: int, batchSize: int)

  /**
    `loadAndSavePokemon`: fetch the payload for the id's decimal string,
    convert it with the tables `tr` and save it. Every failure gives no row;
    catalog rows created before the failure are kept.
  */
  function LoadAndSavePokemon(st: State, id: int, remote: Remote, tr: Tables): (r: (Option<Pokemon>, State))
    requires ValidState(st)
    ensures ValidState(r.1) && CatalogsExtend(st.catalogs, r.1.catalogs)
    ensures r.0.None? ==> r.1.store == st.store
    ensures !remote.pokemon(IntToString(id)).Got? ==> r == (None, st)
    ensures r.0.Some? ==>
      var payload := remote.pokemon(IntToString(id)).value;
      && remote.pokemon(IntToString(id)).Got?
      && r.0.value.id == payload.id
      && r.0.value.englishName == payload.name
      && r.0.value.name == KoreanName(payload, SpeciesOf(remote, IntToString(id)))
      && AsMap(r.1.store) == AsMap(st.store)[payload.id := r.0.value]
      && Ids(r.1.store) == Ids(st.store) + {payload.id}
    ensures remote.pokemon(IntToString(id)).Got? ==>
      var payload := remote.pokemon(IntToString(id)).value;
      (r.0.None? <==>
        || HasUnstorableType(TypeSlots(payload), st.catalogs.types)
        || HasUnstorableAbility(AbilitySlots(payload), st.catalogs.abilities)
        || !ValidPokemon(Normalize(payload, SpeciesOf(remote, IntToString(id)), st.catalogs, tr).pokemon.value))
    ensures remote.pokemon(IntToString(id)).Got? ==>
      var n := Normalize(remote.pokemon(IntToString(id)).value, SpeciesOf(remote, IntToString(id)), st.catalogs, tr);
      && r.1.catalogs == n.catalogs
      && (r.0.Some? ==> n.pokemon.Success? && r.0.value == n.pokemon.value)
  {
    var key := IntToString(id);
    match remote.pokemon(key)
    case Got(payload) =>
      var n := Normalize(payload, SpeciesOf(remote, key), st.catalogs, tr);
      (match n.pokemon
       case Failure(_) => (None, State(st.store, n.catalogs))
       case Success(p) =>
         (match Save(st.store, p)
          case Failure(_) => (None, State(st.store, n.catalogs))
          case Success(s') =>
            assert Ids(s') == Ids(st.store) + {p.id} by {
              assert Ids(s') == AsMap(s').Keys && Ids(st.store) == AsMap(st.store).Keys;
            }
            (Some(p), State(s', n.catalogs))))
    case Null => (None, st)
    case Failed => (None, st)
  }

  /** A database that satisfies its constraints: the state the loader works on between ids. */
  type Db = st: State | ValidState(st)
    witness State([], Catalogs(TypeCatalog(map[], 0), AbilityCatalog(map[], 0)))

  /**
    One id of the batch loop: an id already stored counts as loaded and
    changes nothing; otherwise the id counts as loaded exactly when
    `loadAndSavePokemon` returned a row.
  */
  function LoadOne(st: Db, id: int, remote: Remote, tr: Tables): (r: (Db, bool))
    ensures CatalogsExtend(st.catalogs, r.0.catalogs)
    ensures Ids(st.store) <= Ids(r.0.store)
    ensures id in Ids(st.store) ==> r == (st, true)
    ensures id !in Ids(st.store) && !remote.pokemon(IntToString(id)).Got? ==> r == (st, false)
    ensures id !in Ids(st.store) ==>
      (r.1 <==> LoadAndSavePokemon(st, id, remote, tr).0.Some?) && r.0 == LoadAndSavePokemon(st, id, remote, tr).1
    ensures r.1 && (remote.pokemon(IntToString(id)).Got? ==> remote.pokemon(IntToString(id)).value.id == id) ==>
      id in Ids(r.0.store)
  {
    if id in Ids(st.store) then (st, true)
    else
      var (saved, st') := LoadAndSavePokemon(st, id, remote, tr);
      (st', saved.Some?)
  }

  /** The loader's per-id step, as the batch loop consumes it. */
  function LoadStep(remote: Remote, tr: Tables): (Db, int) -> (Db, bool) {
    (st: Db, id: int) => LoadOne(st, id, remote, tr)
  }

  /** The ids handled one after another, in order, each counted as loaded or failed. */
  function LoadIds(st: Db, ids: seq<int>, remote: Remote, tr: Tables): Progress<Db> {
    Fold(LoadStep(remote, tr), st, ids)
  }

  /** Handling ids never removes a row and only adds catalog rows. */
  lemma {:induction false} LoadIdsKeepsRows(st: Db, ids: seq<int>, remote: Remote, tr: Tables)
    ensures CatalogsExtend(st.catalogs, LoadIds(st, ids, remote, tr).state.catalogs)
    ensures Ids(st.store) <= Ids(LoadIds(st, ids, remote, tr).state.store)
    decreases |ids|
  {
    if ids != [] {
      var front := ids[..|ids| - 1];
      LoadIdsKeepsRows(st, front, remote, tr);
      var prev := LoadIds(st, front, remote, tr);
      var next := LoadOne(prev.state, ids[|ids| - 1], remote, tr);
      assert LoadIds(st, ids, remote, tr).state == next.0;
      CatalogsExtendTransitive(st.catalogs, prev.state.catalogs, next.0.catalogs);
    }
  }

  lemma CatalogsExtendTransitive(a: Catalogs, b: Catalogs, c: Catalogs)
    requires CatalogsExtend(a, b) && CatalogsExtend(b, c)
    ensures CatalogsExtend(a, c)
  {
  }

  /** Ids that are all stored already are all counted as loaded and leave the database untouched. */
  lemma {:induction false} StoredIdsAreSkipped(st: Db, ids: seq<int>, remote: Remote, tr: Tables)
    requires forall k :: 0 <= k < |ids| ==> ids[k] in Ids(st.store)
    ensures LoadIds(st, ids, remote, tr) == Progress(st, |ids|, 0)
    decreases |ids|
  {
    if ids != [] {
      StoredIdsAreSkipped(st, ids[..|ids| - 1], remote, tr);
      assert LoadOne(st, ids[|ids| - 1], remote, tr) == (st, true);
    }
  }

  /**
    `loadInitialPokemonData`: ids 1..count in batches of `batchSize`, stopping
    after a batch whose pause is interrupted; the result is that of handling
    the visited ids one at a time.
  */
  method LoadInitialPokemonData(st0: Db, count: int, batchSize: int, remote: Remote, tr: Tables, interrupted: int -> bool)
    returns (st: Db, loaded: int, failed: int, visited: seq<int>)
    requires batchSize >= 1
    requires IsInt32(count) && IsInt32(count + batchSize)
    ensures 0 <= loaded && 0 <= failed && loaded + failed == |visited|
    ensures CountsFromOne(visited)
    ensures Progress(st, loaded, failed) == LoadIds(st0, visited, remote, tr)
    ensures StopsAt(|visited|, count, batchSize, interrupted)
    ensures exists k :: 0 <= k <= |BatchPlan(count, batchSize)| && visited == Flatten(BatchPlan(count, batchSize)[..k])
  {
    var p;
    p, visited := BatchLoop(LoadStep(remote, tr), st0, count, batchSize, interrupted);
    st, loaded, failed := p.state, p.loaded, p.failed;
  }

  /**
    `run`: nothing when the loader is disabled or the table already holds at
    least the configured number of rows; otherwise the batch load.
  */
  method Run(st0: Db, config: Config, remote: Remote, interrupted: int -> bool)
    returns (st: Db, visited: seq<int>)
    requires config.initialLoadEnabled && |st0.store| < config.initialLoadCount ==> config.batchSize >= 1
    requires config.initialLoadEnabled && |st0.store| < config.initialLoadCount ==>
      IsInt32(config.initialLoadCount) && IsInt32(config.initialLoadCount + config.batchSize)
    ensures !config.initialLoadEnabled ==> st == st0 && visited == []
    ensures |st0.store| >= config.initialLoadCount ==> st == st0 && visited == []
    ensures config.initialLoadEnabled && |st0.store| < config.initialLoadCount ==>
      && CountsFromOne(visited)
      && st == LoadIds(st0, visited, remote, LoaderTables()).state
      && StopsAt(|visited|, config.initialLoadCount, config.batchSize, interrupted)
      && exists k :: 0 <= k <= |BatchPlan(config.initialLoadCount, config.batchSize)| &&
           visited == Flatten(BatchPlan(config.initialLoadCount, config.batchSize)[..k])
    ensures Ids(st0.store) <= Ids(st.store) && CatalogsExtend(st0.catalogs, st.catalogs)
  {
    if !config.initialLoadEnabled || |st0.store| >= config.initialLoadCount {
      return st0, [];
    }
    var loaded, failed;
    st, loaded, failed, visited :=
      LoadInitialPokemonData(st0, config.initialLoadCount, config.batchSize, remote, LoaderTables(), interrupted);
    LoadIdsKeepsRows(st0, visited, remote, LoaderTables());
  }
}
