/**
  The service's read paths: look a Pokemon up locally and fall back to the
  remote source (saving what it returns), list the stored Pokemon a page at a
  time (all of them, by type, by ability) and search them by name.

  The remote source is a pair of functions from the request key to a fetch
  outcome. `getPokemon` runs in one transaction, so a failed remote load
  leaves the database as it was.
*/
module Service {
  import opened Wrappers
  import opened Text
  import opened Collections
  import opened Entities
  import opened Catalog
  import opened Store
  import opened Normalizer
  import opened Response

  /** What a call to the remote client gives back: a body, a null body, or an exception. */
  datatype Fetched<T> = Got(value: T) | Null | Failed

  /** The remote client: the pokemon endpoint and the species endpoint, keyed by name or id. */
  datatype Remote = Remote(
    pokemon: string -> Fetched<PokemonPayload>,
    species: string -> Fetched<SpeciesPayload>)

  /** The database: the pokemon table and the two reference catalogs. */
  datatype State = State(store: Store, catalogs: Catalogs)

  predicate ValidState(st: State) {
    UniqueIds(st.store) && ValidCatalogs(st.catalogs)
  }

  // ---------------------------------------------------------------- local lookup

  /** No row other than the one at `i` matches `key` by either name. */
  predicate OnlyMatch(s: Store, key: string, i: int) {
    forall j :: 0 <= j < |s| && j != i ==> !MatchesName(s[j], key)
  }

  /** Two rows carry this Korean name. */
  predicate TwoNamed(s: Store, key: string) {
    exists i, j :: 0 <= i < j < |s| && s[i].name == key && s[j].name == key
  }

  /** Some row carries this Korean name. */
  predicate KoreanNamed(s: Store, key: string) {
    exists i :: 0 <= i < |s| && s[i].name == key
  }

  /** Two rows carry this English name. */
  predicate TwoEnglishNamed(s: Store, key: string) {
    exists i, j :: 0 <= i < j < |s| && s[i].englishName == key && s[j].englishName == key
  }

  /**
    The name branch of the local lookup. The combined name query answers when
    at most one row matches; otherwise (it threw) the lookup falls back to the
    Korean-name query and then to the English-name query, either of which
    throws in turn when it matches several rows.
  */
  function FindByNameWithFallback(s: Store, key: string): (r: Result<Option<Pokemon>, Error>)
    ensures r.Success? && r.value.Some? ==> r.value.value in s && MatchesName(r.value.value, key)
    ensures r == Success(None) <==> forall i :: 0 <= i < |s| ==> !MatchesName(s[i], key)
    ensures forall i :: 0 <= i < |s| && MatchesName(s[i], key) && OnlyMatch(s, key, i) ==> r == Success(Some(s[i]))
    ensures r.Failure? <==>
      || TwoNamed(s, key)
      || ((forall i :: 0 <= i < |s| ==> s[i].name != key) && TwoEnglishNamed(s, key))
    ensures !TwoNamed(s, key) && KoreanNamed(s, key) ==> r.Success? && r.value.Some? && r.value.value.name == key
  {
    var graph := FindByNameWithAllGraph(s, key);
    TwoNamesMatch(s, key);
    OnlyMatchIsFound(s, key);
    GraphHitIsKoreanMatch(s, key);
    match graph
    case Success(found) => Success(found)
    case Failure(_) => NameQueriesInTurn(s, key)
  }

  /**
    The fallback once the combined query has thrown: the Korean-name query,
    and when it finds nothing the English-name query.
  */
  function NameQueriesInTurn(s: Store, key: string): (r: Result<Option<Pokemon>, Error>)
    ensures r.Success? && r.value.Some? ==> r.value.value in s && MatchesName(r.value.value, key)
    ensures r == Success(None) <==> forall i :: 0 <= i < |s| ==> !MatchesName(s[i], key)
    ensures r.Failure? <==>
      || TwoNamed(s, key)
      || ((forall i :: 0 <= i < |s| ==> s[i].name != key) && TwoEnglishNamed(s, key))
    ensures !TwoNamed(s, key) && KoreanNamed(s, key) ==> r.Success? && r.value.Some? && r.value.value.name == key
  {
    match FindByName(s, key)
    case Success(Some(p)) =>
      assert exists k :: 0 <= k < |s| && s[k] == p;
      Success(Some(p))
    case Success(None) => FindByEnglishName(s, key)
    case Failure(e) => Failure(e)
  }

  /** Two rows with the same Korean (or English) name are two rows the combined query matches. */
  lemma TwoNamesMatch(s: Store, key: string)
    ensures TwoNamed(s, key) || TwoEnglishNamed(s, key) ==> FindByNameWithAllGraph(s, key).Failure?
  {
    if TwoNamed(s, key) {
      var i, j :| 0 <= i < j < |s| && s[i].name == key && s[j].name == key;
      assert MatchesName(s[i], key) && MatchesName(s[j], key);
    }
    if TwoEnglishNamed(s, key) {
      var i, j :| 0 <= i < j < |s| && s[i].englishName == key && s[j].englishName == key;
      assert MatchesName(s[i], key) && MatchesName(s[j], key);
    }
  }

  /**
    When the combined query answers and some row has the key as its Korean
    name, that row is the one it returns: any other match would have made it
    throw.
  */
  lemma GraphHitIsKoreanMatch(s: Store, key: string)
    ensures FindByNameWithAllGraph(s, key).Success? && KoreanNamed(s, key) ==>
      var r := FindByNameWithAllGraph(s, key);
      r.value.Some? && r.value.value.name == key
  {
    var r := FindByNameWithAllGraph(s, key);
    if r.Success? && KoreanNamed(s, key) {
      var i :| 0 <= i < |s| && s[i].name == key;
      assert MatchesName(s[i], key);
      var k :| 0 <= k < |s| && s[k] == r.value.value;
      assert k == i;
    }
  }

  /** When exactly one row matches, the combined query returns it. */
  lemma OnlyMatchIsFound(s: Store, key: string)
    ensures forall i :: 0 <= i < |s| && MatchesName(s[i], key) && OnlyMatch(s, key, i) ==>
      FindByNameWithAllGraph(s, key) == Success(Some(s[i]))
  {
    forall i | 0 <= i < |s| && MatchesName(s[i], key) && OnlyMatch(s, key, i)
      ensures FindByNameWithAllGraph(s, key) == Success(Some(s[i]))
    {
      OnlyMatchIsFoundAt(s, key, i);
    }
  }

  lemma OnlyMatchIsFoundAt(s: Store, key: string, i: int)
    requires 0 <= i < |s| && MatchesName(s[i], key) && OnlyMatch(s, key, i)
    ensures FindByNameWithAllGraph(s, key) == Success(Some(s[i]))
  {
    var r := FindByNameWithAllGraph(s, key);
    forall a, b | 0 <= a < b < |s| ensures !(MatchesName(s[a], key) && MatchesName(s[b], key)) {
    }
    assert r.Success? && r.value.Some?;
    var k :| 0 <= k < |s| && s[k] == r.value.value;
    assert k == i;
  }

  /**
    `findPokemonInDatabaseWithRelations`: a key that parses as a `long` is
    looked up only as an id; any other key by name.
  */
  function FindPokemonInDatabaseWithRelations(s: Store, key: string): (r: Result<Option<Pokemon>, Error>)
    requires UniqueIds(s)
    ensures ParseLong(key).Some? ==> r.Success?
    ensures ParseLong(key).Some? ==> (r.value.Some? <==> ParseLong(key).value in Ids(s))
    ensures ParseLong(key).Some? && r.value.Some? ==>
      r.value.value in s && r.value.value.id == ParseLong(key).value
    ensures ParseLong(key).None? ==> r == FindByNameWithFallback(s, key)
  {
    match ParseLong(key)
    case Some(id) =>
      var found := FindById(s, id);
      assert found.Some? ==> found.value in s by {
        if found.Some? {
          var i :| 0 <= i < |s| && s[i].id == id;
        }
      }
      Success(found)
    case None => FindByNameWithFallback(s, key)
  }

  // ---------------------------------------------------------------- remote load

  /** The species payload, if the species call produced one (its failure is tolerated). */
  function SpeciesOf(remote: Remote, key: string): Option<SpeciesPayload> {
    match remote.species(key)
    case Got(sp) => Some(sp)
    case _ => None
  }

  /**
    `loadAndSavePokemonFromApi`: fetch the payload; return the stored row if
    its id is already taken; otherwise convert (creating catalog rows as
    needed) and save. Any failure after the fetch rolls the database back.
  */
  function LoadAndSavePokemonFromApi(st: State, key: string, remote: Remote, tr: Tables): (r: (Result<Pokemon, Error>, State))
    requires ValidState(st)
    ensures ValidState(r.1)
    ensures r.0.Failure? ==> r.1 == st
    ensures remote.pokemon(key).Failed? ==> r.0 == Failure(ExternalApi)
    ensures remote.pokemon(key).Null? ==> r.0 == Failure(NotFound)
    ensures remote.pokemon(key).Got? && r.0.Failure? ==> r.0.error == ExternalApi
    ensures r.0.Success? ==> r.0.value.id in AsMap(r.1.store) && AsMap(r.1.store)[r.0.value.id] == r.0.value
    ensures remote.pokemon(key).Got? && remote.pokemon(key).value.id in Ids(st.store) ==>
      r == (Success(AsMap(st.store)[remote.pokemon(key).value.id]), st)
    ensures remote.pokemon(key).Got? && remote.pokemon(key).value.id !in Ids(st.store) && r.0.Success? ==>
      var payload := remote.pokemon(key).value;
      && r.0.value.id == payload.id
      && r.0.value.englishName == payload.name
      && r.0.value.name == KoreanName(payload, SpeciesOf(remote, key))
      && AsMap(r.1.store) == AsMap(st.store)[payload.id := r.0.value]
      && CatalogsExtend(st.catalogs, r.1.catalogs)
    ensures remote.pokemon(key).Got? && remote.pokemon(key).value.id !in Ids(st.store) ==>
      var n := Normalize(remote.pokemon(key).value, SpeciesOf(remote, key), st.catalogs, tr);
      && (r.0.Success? <==> n.pokemon.Success? && ValidPokemon(n.pokemon.value))
      && (r.0.Success? ==> r.0.value == n.pokemon.value && r.1.catalogs == n.catalogs)
  {
    match remote.pokemon(key)
    case Failed => (Failure(ExternalApi), st)
    case Null => (Failure(NotFound), st)
    case Got(payload) =>
      match FindById(st.store, payload.id)
      case Some(existing) => (Success(existing), st)
      case None =>
        var n := Normalize(payload, SpeciesOf(remote, key), st.catalogs, tr);
        match n.pokemon
        case Failure(_) => (Failure(ExternalApi), st)
        case Success(p) =>
          match Save(st.store, p)
          case Failure(_) => (Failure(ExternalApi), st)
          case Success(s') => (Success(p), State(s', n.catalogs))
  }

  /**
    `getPokemon`: the view of the local row if there is one; otherwise of the
    row loaded from the remote source. Every failure, the local lookup's
    included, is reported as not found and leaves the database unchanged.
  */
  function GetPokemon(st: State, key: string, remote: Remote, tr: Tables): (r: (Result<PokemonView, Error>, State))
    requires ValidState(st)
    ensures ValidState(r.1)
    ensures r.0.Failure? ==> r.0.error == NotFound && r.1 == st
    ensures r.0.Success? ==> exists p :: p in r.1.store && r.0.value == ConvertToResponse(p)
    ensures FindPokemonInDatabaseWithRelations(st.store, key).Success? &&
            FindPokemonInDatabaseWithRelations(st.store, key).value.Some? ==>
      r == (Success(ConvertToResponse(FindPokemonInDatabaseWithRelations(st.store, key).value.value)), st)
    ensures FindPokemonInDatabaseWithRelations(st.store, key) == Success(None) ==>
      var (loaded, st1) := LoadAndSavePokemonFromApi(st, key, remote, tr);
      && (r.0.Success? <==> loaded.Success?)
      && (loaded.Success? ==> r == (Success(ConvertToResponse(loaded.value)), st1))
  {
    match FindPokemonInDatabaseWithRelations(st.store, key)
    case Failure(_) => (Failure(NotFound), st)
    case Success(Some(p)) => (Success(ConvertToResponse(p)), st)
    case Success(None) =>
      var (loaded, st') := LoadAndSavePokemonFromApi(st, key, remote, tr);
      match loaded
      case Failure(_) => (Failure(NotFound), st)
      case Success(p) =>
        MapValueIsRow(st'.store, p.id);
        (Success(ConvertToResponse(p)), st')
  }

  /** A Pokemon found locally is answered without consulting the remote source at all. */
  lemma LocalHitIgnoresRemote(st: State, key: string, remote1: Remote, remote2: Remote, tr: Tables)
    requires ValidState(st)
    requires FindPokemonInDatabaseWithRelations(st.store, key).Success?
    requires FindPokemonInDatabaseWithRelations(st.store, key).value.Some?
    ensures GetPokemon(st, key, remote1, tr) == GetPokemon(st, key, remote2, tr)
  {
  }

  /**
    Asking for the same key a second time, against the database the first
    request left and the same remote source, gives the same answer and changes
    nothing further: the row the first request saved is found locally or by
    its id.
  */
  lemma {:induction false} GetPokemonIdempotent(st: State, key: string, remote: Remote, tr: Tables)
    requires ValidState(st)
    ensures var (r, st') := GetPokemon(st, key, remote, tr);
      GetPokemon(st', key, remote, tr) == (r, st')
  {
    var (r, st') := GetPokemon(st, key, remote, tr);
    var found := FindPokemonInDatabaseWithRelations(st.store, key);
    if found.Success? && found.value.None? {
      var (loaded, st1) := LoadAndSavePokemonFromApi(st, key, remote, tr);
      if loaded.Success? && st1 != st {
        var payload := remote.pokemon(key).value;
        var p := loaded.value;
        assert payload.id !in Ids(st.store);
        assert st1.store == st.store + [p];
        SavedRowIsFoundAgain(st.store, p, key);
        var again := FindPokemonInDatabaseWithRelations(st1.store, key);
        if again.Success? && again.value.None? {
          assert FindById(st1.store, payload.id) == Some(p);
        }
      }
    }
  }

  /**
    After appending `p` to a table where `key` found nothing, looking `key` up
    finds `p` or still nothing, and never fails.
  */
  lemma SavedRowIsFoundAgain(s: Store, p: Pokemon, key: string)
    requires UniqueIds(s) && p.id !in Ids(s) && UniqueIds(s + [p])
    requires FindPokemonInDatabaseWithRelations(s, key) == Success(None)
    ensures var again := FindPokemonInDatabaseWithRelations(s + [p], key);
      again == Success(Some(p)) || again == Success(None)
  {
    var t := s + [p];
    match ParseLong(key)
    case Some(id) =>
      assert id !in Ids(s);
      if id in Ids(t) {
        var i :| 0 <= i < |t| && t[i].id == id;
        assert i == |s|;
      }
    case None =>
      var f := (q: Pokemon) => MatchesName(q, key);
      assert forall i :: 0 <= i < |s| ==> !f(s[i]);
      if MatchesName(p, key) {
        assert t[|s|] == p;
        forall j | 0 <= j < |t| && j != |s| ensures !MatchesName(t[j], key) {
          assert t[j] == s[j];
        }
      } else {
        forall j | 0 <= j < |t| ensures !MatchesName(t[j], key) {
          if j < |s| { assert t[j] == s[j]; }
        }
      }
  }

  // ---------------------------------------------------------------- paged listings

  /** The filter a list link carries along. */
  datatype LinkFilter = NoFilter | ByType(typeName: string) | ByAbility(abilityName: string)

  /** A `?limit=…&offset=…` link, with the listing's filter parameter. */
  datatype Link = Link(limit: int, offset: int, filter: LinkFilter)

  /** `PokemonListResponse`: the total (narrowed to `int`), the page's summaries, optional detail views and links. */
  datatype ListResponse = ListResponse(
    count: int,
    results: seq<Summary>,
    detailedResults: Option<seq<PokemonView>>,
    next: Option<Link>,
    previous: Option<Link>)

  function Summaries(rows: Store): (r: seq<Summary>)
    ensures |r| == |rows|
    ensures forall i :: 0 <= i < |rows| ==> r[i] == ConvertToSummary(rows[i])
  {
    seq(|rows|, i requires 0 <= i < |rows| => ConvertToSummary(rows[i]))
  }

  function Views(rows: Store): (r: seq<PokemonView>)
    ensures |r| == |rows|
    ensures forall i :: 0 <= i < |rows| ==> r[i] == ConvertToResponse(rows[i])
  {
    seq(|rows|, i requires 0 <= i < |rows| => ConvertToResponse(rows[i]))
  }

  /** The position of a page's first row: the page number `offset / limit` (Java division) times the page size. */
  function PageStart(limit: int, offset: int): int
    requires limit >= 1
  {
    TruncDiv(offset, limit) * limit
  }

  lemma PageArithmetic(limit: int, offset: int)
    requires limit >= 1
    ensures TruncDiv(offset, limit) >= 0 <==> offset > -limit
    ensures offset > -limit ==> PageStart(limit, offset) >= 0
    ensures (TruncDiv(offset, limit) + 1) * limit == PageStart(limit, offset) + limit
    ensures TruncDiv(offset, limit) >= 1 <==> offset >= limit
    ensures offset >= 0 ==> PageStart(limit, offset) == offset - offset % limit
    ensures -limit < offset < 0 ==> PageStart(limit, offset) == 0
  {
    TruncDivFacts(offset, limit);
  }

  /** The page of `rows` the listing reads, described through its first row. */
  function PageOf(rows: Store, limit: int, offset: int): (pg: Page)
    requires limit >= 1 && offset > -limit
    ensures PageStart(limit, offset) >= 0
    ensures pg.totalElements == |rows| && pg.size == limit
    ensures |pg.content| <= limit
    ensures |pg.content| > 0 ==> PageStart(limit, offset) + |pg.content| <= |rows|
    ensures forall i :: 0 <= i < |pg.content| ==> pg.content[i] == rows[PageStart(limit, offset) + i]
    ensures PageStart(limit, offset) + limit <= |rows| ==> |pg.content| == limit
    ensures PageStart(limit, offset) < |rows| <= PageStart(limit, offset) + limit ==>
      |pg.content| == |rows| - PageStart(limit, offset)
    ensures |rows| <= PageStart(limit, offset) ==> pg.content == []
    ensures HasNext(pg) <==> PageStart(limit, offset) + limit < |rows|
    ensures HasPrevious(pg) <==> offset >= limit
  {
    PageArithmetic(limit, offset);
    var req := Pageable(TruncDiv(offset, limit), limit);
    var start := PageStart(limit, offset);
    assert Offset(req) == start;
    var pg := FindPage(rows, req);
    HasNextIffRowsRemain(pg);
    pg
  }

  /**
    `resp` is the page of `rows` a listing answers with: the total narrowed to
    `int`; the summaries of the rows from `(offset / limit) * limit` on, a full
    page, the remainder or nothing; the detail views exactly when asked for;
    a next link exactly when rows remain after the page, and a previous link
    exactly when `offset >= limit`, both carrying the filter.
  */
  predicate IsPageOf(rows: Store, limit: int, offset: int, detailed: bool, filter: LinkFilter, resp: ListResponse) {
    && limit >= 1 && offset > -limit && PageStart(limit, offset) >= 0
    && var start := PageStart(limit, offset);
    && resp.count == Wrap32(|rows|)
    && |resp.results| <= limit
    && (|resp.results| > 0 ==> start + |resp.results| <= |rows|)
    && (forall i :: 0 <= i < |resp.results| ==> resp.results[i] == ConvertToSummary(rows[start + i]))
    && (start + limit <= |rows| ==> |resp.results| == limit)
    && (start < |rows| <= start + limit ==> |resp.results| == |rows| - start)
    && (|rows| <= start ==> resp.results == [])
    && (resp.detailedResults.Some? <==> detailed)
    && (detailed ==>
      && |resp.detailedResults.value| == |resp.results|
      && forall i :: 0 <= i < |resp.results| ==> resp.detailedResults.value[i] == ConvertToResponse(rows[start + i]))
    && (resp.next.Some? <==> start + limit < |rows|)
    && (resp.next.Some? ==> resp.next.value == Link(limit, Wrap32(offset + limit), filter))
    && (resp.previous.Some? <==> offset >= limit)
    && (resp.previous.Some? ==> resp.previous.value == Link(limit, offset - limit, filter))
  }

  /**
    The page arithmetic the three listings share. The page request is built
    from `offset / limit` and `limit`: a zero limit divides by zero, and a
    negative page or a limit below one is refused.
  */
  function ListPage(rows: Store, limit: int, offset: int, detailed: bool, filter: LinkFilter): (r: Result<ListResponse, Error>)
    requires IsInt32(limit) && IsInt32(offset)
    ensures r.Failure? <==> limit < 1 || offset <= -limit
    ensures r.Failure? ==> r.error == Internal
    ensures r.Success? ==> IsPageOf(rows, limit, offset, detailed, filter, r.value)
  {
    if limit < 1 then Failure(Internal)
    else
      PageArithmetic(limit, offset);
      match PageRequestOf(TruncDiv(offset, limit), limit)
      case Failure(e) => Failure(e)
      case Success(_) =>
        var pg := PageOf(rows, limit, offset);
        var next := if HasNext(pg) then Some(Link(limit, Wrap32(offset + limit), filter)) else None;
        var previous :=
          if HasPrevious(pg) then Some(Link(limit, if offset - limit > 0 then offset - limit else 0, filter)) else None;
        var detail := if detailed then Some(Views(pg.content)) else None;
        Success(ListResponse(Wrap32(pg.totalElements), Summaries(pg.content), detail, next, previous))
  }

  /** `getAllPokemon`: a page of all rows, with summaries and detail views. */
  function GetAllPokemon(s: Store, limit: int, offset: int): (r: Result<ListResponse, Error>)
    requires IsInt32(limit) && IsInt32(offset)
    ensures r.Failure? <==> limit < 1 || offset <= -limit
    ensures r.Success? ==> IsPageOf(s, limit, offset, true, NoFilter, r.value)
  {
    ListPage(s, limit, offset, true, NoFilter)
  }

  /** `v` is the summary of a stored row that has a type with this name or Korean name. */
  predicate SummaryOfTyped(s: Store, typeName: string, v: Summary) {
    exists p :: p in s && HasTypeNamed(p, typeName) && v == ConvertToSummary(p)
  }

  /** `v` is the summary of a stored row that has an ability with this name or Korean name. */
  predicate SummaryOfAbled(s: Store, abilityName: string, v: Summary) {
    exists p :: p in s && HasAbilityNamed(p, abilityName) && v == ConvertToSummary(p)
  }

  /** `getPokemonByType`: a page of the rows with a type of this name or Korean name, summaries only. */
  function GetPokemonByType(s: Store, typeName: string, limit: int, offset: int): (r: Result<ListResponse, Error>)
    requires UniqueIds(s)
    requires IsInt32(limit) && IsInt32(offset)
    ensures r.Failure? <==> limit < 1 || offset <= -limit
    ensures r.Success? ==> r.value.detailedResults.None?
    ensures r.Success? ==> IsPageOf(FindByTypeName(s, typeName), limit, offset, false, ByType(typeName), r.value)
    ensures r.Success? ==> forall i :: 0 <= i < |r.value.results| ==> SummaryOfTyped(s, typeName, r.value.results[i])
  {
    var rows := FindByTypeName(s, typeName);
    var r := ListPage(rows, limit, offset, false, ByType(typeName));
    if r.Success? then
      assert forall i :: 0 <= i < |r.value.results| ==> SummaryOfTyped(s, typeName, r.value.results[i]) by {
        forall i | 0 <= i < |r.value.results| ensures SummaryOfTyped(s, typeName, r.value.results[i]) {
          var p := rows[PageStart(limit, offset) + i];
          assert p in rows && r.value.results[i] == ConvertToSummary(p);
        }
      }
      r
    else r
  }

  /** `getPokemonByAbility`: a page of the rows with an ability of this name or Korean name, summaries only. */
  function GetPokemonByAbility(s: Store, abilityName: string, limit: int, offset: int): (r: Result<ListResponse, Error>)
    requires UniqueIds(s)
    requires IsInt32(limit) && IsInt32(offset)
    ensures r.Failure? <==> limit < 1 || offset <= -limit
    ensures r.Success? ==> r.value.detailedResults.None?
    ensures r.Success? ==> IsPageOf(FindByAbilityName(s, abilityName), limit, offset, false, ByAbility(abilityName), r.value)
    ensures r.Success? ==> forall i :: 0 <= i < |r.value.results| ==> SummaryOfAbled(s, abilityName, r.value.results[i])
  {
    var rows := FindByAbilityName(s, abilityName);
    var r := ListPage(rows, limit, offset, false, ByAbility(abilityName));
    if r.Success? then
      assert forall i :: 0 <= i < |r.value.results| ==> SummaryOfAbled(s, abilityName, r.value.results[i]) by {
        forall i | 0 <= i < |r.value.results| ensures SummaryOfAbled(s, abilityName, r.value.results[i]) {
          var p := rows[PageStart(limit, offset) + i];
          assert p in rows && r.value.results[i] == ConvertToSummary(p);
        }
      }
      r
    else r
  }

  /**
    With an offset that is a multiple of the limit, the page starts exactly at
    the offset and the next link points at the rows right after it; with any
    other non-negative offset the page starts at the multiple below it.
  */
  lemma AlignedPagesFollowOneAnother(rows: Store, limit: int, offset: int)
    requires IsInt32(limit) && IsInt32(offset) && IsInt32(offset + limit)
    requires limit >= 1 && offset >= 0
    ensures ListPage(rows, limit, offset, false, NoFilter).Success?
    ensures PageStart(limit, offset) == offset - offset % limit
    ensures offset % limit == 0 ==>
      var r := ListPage(rows, limit, offset, false, NoFilter).value;
      (r.next.Some? <==> offset + limit < |rows|) &&
      (r.next.Some? ==> r.next.value.offset == offset + limit)
  {
    PageArithmetic(limit, offset);
  }

  // ---------------------------------------------------------------- search

  /** How many rows the paged search query reads, and how many results the search returns at most. */
  const SEARCH_WINDOW: nat := 1000
  const SEARCH_LIMIT: nat := 20

  /** A row matches a query when its lower-cased Korean or English name contains `needle`, the lower-cased query. */
  predicate NameContains(p: Pokemon, needle: string) {
    Contains(ToLower(p.name), needle) || Contains(ToLower(p.englishName), needle)
  }

  /**
    The rows the search scans. The paged graph query reads the first 1000; when
    it throws, the `findAll()` fallback reads the whole table.
  */
  function SearchWindow(s: Store, graphQueryOk: bool): (w: nat)
    ensures w <= |s|
    ensures graphQueryOk ==> w == if |s| < SEARCH_WINDOW then |s| else SEARCH_WINDOW
    ensures !graphQueryOk ==> w == |s|
  {
    if graphQueryOk && SEARCH_WINDOW < |s| then SEARCH_WINDOW else |s|
  }

  /** The query's matcher, as a value: does a row's lower-cased name contain `needle`. */
  function Matcher(needle: string): Pokemon -> bool {
    (p: Pokemon) => NameContains(p, needle)
  }

  /**
    `idx` lists, in ascending order, the first matches among the rows below `w`:
    at most 20 of them, and with fewer than 20 every match below `w`.
  */
  predicate FirstMatchesAt(s: Store, q: string, w: nat, idx: seq<nat>) {
    FirstPositionsOf(s, Matcher(ToLower(q)), w, SEARCH_LIMIT, idx)
  }

  /**
    The rows the search returns: the first 20 rows below `w` whose name matches,
    in store order, or all of them when fewer match.
  */
  function SearchHits(s: Store, q: string, w: nat): (found: seq<Pokemon>)
    requires w <= |s|
    ensures exists idx :: (FirstMatchesAt(s, q, w, idx) && |found| == |idx| &&
      forall i :: 0 <= i < |idx| ==> found[i] == s[idx[i]])
  {
    var idx := FirstPositions(s, Matcher(ToLower(q)), w, SEARCH_LIMIT);
    seq(|idx|, i requires 0 <= i < |idx| => s[idx[i]])
  }

  /** The detail views of the hits are those of the first matches, in order. */
  lemma ViewsOfHits(s: Store, q: string, w: nat)
    requires w <= |s|
    ensures exists idx :: (FirstMatchesAt(s, q, w, idx) && |Views(SearchHits(s, q, w))| == |idx| &&
      forall i :: 0 <= i < |idx| ==> Views(SearchHits(s, q, w))[i] == ConvertToResponse(s[idx[i]]))
  {
    var found := SearchHits(s, q, w);
    var idx :| FirstMatchesAt(s, q, w, idx) && |found| == |idx| &&
      forall i :: 0 <= i < |idx| ==> found[i] == s[idx[i]];
    var r := Views(found);
    assert forall i :: 0 <= i < |idx| ==> r[i] == ConvertToResponse(s[idx[i]]);
  }

  /**
    `searchPokemon`: a null or blank query is refused; otherwise the first 20
    matching rows, in store order, among those the query reads, as detail views.
    `graphQueryOk` says whether the paged graph query succeeds.
  */
  function SearchPokemon(s: Store, query: Option<string>, graphQueryOk: bool): (r: Result<seq<PokemonView>, Error>)
    ensures r.Failure? <==> query.None? || IsBlank(query.value)
    ensures r.Failure? ==> r.error == InvalidArgument
    ensures r.Success? ==> exists idx :: (FirstMatchesAt(s, query.value, SearchWindow(s, graphQueryOk), idx) &&
      |r.value| == |idx| && forall i :: 0 <= i < |idx| ==> r.value[i] == ConvertToResponse(s[idx[i]]))
  {
    if query.None? || IsBlank(query.value) then Failure(InvalidArgument)
    else
      var q := query.value;
      var w := SearchWindow(s, graphQueryOk);
      var found := SearchHits(s, q, w);
      ViewsOfHits(s, q, w);
      Success(Views(found))
  }

  /** The hits for a query and for its lower-cased form are the same rows. */
  lemma SearchHitsIgnoreQueryCase(s: Store, q: string, w: nat)
    requires w <= |s|
    ensures SearchHits(s, q, w) == SearchHits(s, ToLower(q), w)
  {
    ToLowerIdempotent(q);
    assert Matcher(ToLower(q)) == Matcher(ToLower(ToLower(q)));
  }

  /** The search ignores the case of the query's ASCII letters. */
  lemma SearchIgnoresQueryCase(s: Store, q: string, graphQueryOk: bool)
    ensures SearchPokemon(s, Some(q), graphQueryOk) == SearchPokemon(s, Some(ToLower(q)), graphQueryOk)
  {
    ToLowerKeepsBlank(q);
    if !IsBlank(q) {
      var w := SearchWindow(s, graphQueryOk);
      SearchHitsIgnoreQueryCase(s, q, w);
      assert SearchPokemon(s, Some(q), graphQueryOk) == Success(Views(SearchHits(s, q, w)));
    }
  }
}
