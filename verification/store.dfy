/**
  The pokemon table and the repository's queries over it.

  The table is a sequence of rows with pairwise distinct ids; its order is the
  order in which unsorted queries return rows (the "store order" that paging
  and search see). `AsMap` is the same table viewed as a map from id to row.
  Each JPQL query becomes a filter predicate over the rows.
*/
module Store {
  import opened Wrappers
  import opened Collections
  import opened Entities
  import opened Catalog

  type Store = seq<Pokemon>

  /** The primary key: no two rows share an id. */
  predicate UniqueIds(s: Store) {
    forall i, j :: 0 <= i < j < |s| ==> s[i].id != s[j].id
  }

  function Ids(s: Store): set<int> {
    set i | 0 <= i < |s| :: s[i].id
  }

  /** The table as a map from id to row. */
  function AsMap(s: Store): (m: map<int, Pokemon>)
    requires UniqueIds(s)
    ensures m.Keys == Ids(s)
    ensures forall i :: 0 <= i < |s| ==> m[s[i].id] == s[i]
  {
    if s == [] then map[]
    else
      var front := s[..|s| - 1];
      assert forall i :: 0 <= i < |front| ==> front[i] == s[i];
      assert Ids(s) == Ids(front) + {s[|s| - 1].id};
      AsMap(front)[s[|s| - 1].id := s[|s| - 1]]
  }

  /** The map's value under an id is a row of the table. */
  lemma MapValueIsRow(s: Store, id: int)
    requires UniqueIds(s) && id in AsMap(s)
    ensures AsMap(s)[id] in s
  {
    var i :| 0 <= i < |s| && s[i].id == id;
  }

  /** A filtered table still has distinct ids (the queries' DISTINCT). */
  lemma {:induction false} FilterKeepsUniqueIds(s: Store, f: Pokemon -> bool)
    requires UniqueIds(s)
    ensures UniqueIds(Filter(s, f))
  {
    if s != [] {
      FilterKeepsUniqueIds(s[1..], f);
      var rest := Filter(s[1..], f);
      forall i | 0 <= i < |rest| ensures rest[i].id != s[0].id {
        assert rest[i] in s[1..];
      }
    }
  }

  // ---------------------------------------------------------------- lookups

  /** `findById` / `findByIdWithAllGraph`: the row with this id, as the map view has it. */
  function FindById(s: Store, id: int): (r: Option<Pokemon>)
    requires UniqueIds(s)
    ensures id in AsMap(s) ==> r == Some(AsMap(s)[id])
    ensures id !in AsMap(s) ==> r.None?
  {
    match FirstWhere(s, (p: Pokemon) => p.id == id)
    case None => None
    case Some(i) => Some(s[i])
  }

  /** `existsById`. */
  predicate ExistsById(s: Store, id: int) {
    id in Ids(s)
  }

  /** The name query's WHERE clause: `p.name = :name OR p.englishName = :name`. */
  predicate MatchesName(p: Pokemon, key: string) {
    p.name == key || p.englishName == key
  }

  /**
    A Spring Data query declared to return one optional row: empty when no row
    qualifies, the row when exactly one does, and an error
    (IncorrectResultSizeDataAccessException) when several do.
  */
  function SingleResult(rows: Store): (r: Result<Option<Pokemon>, Error>)
    ensures r == Success(None) <==> rows == []
    ensures |rows| == 1 ==> r == Success(Some(rows[0]))
    ensures r.Success? && r.value.Some? ==> |rows| == 1
    ensures r.Failure? <==> |rows| >= 2
    ensures r.Failure? ==> r.error == Internal
  {
    if rows == [] then Success(None)
    else if |rows| == 1 then Success(Some(rows[0]))
    else Failure(Internal)
  }

  /** The rows in store order that match `f`; the caller's query is then answered by `SingleResult`. */
  lemma SingleResultOfFilter(s: Store, f: Pokemon -> bool)
    ensures SingleResult(Filter(s, f)) == Success(None) <==> forall i :: 0 <= i < |s| ==> !f(s[i])
    ensures SingleResult(Filter(s, f)).Failure? <==> TwoWhere(s, f)
    ensures SingleResult(Filter(s, f)).Success? && SingleResult(Filter(s, f)).value.Some? ==>
      var p := SingleResult(Filter(s, f)).value.value; p in s && f(p)
  {
    FilterNonEmptyIff(s, f);
    FilterTwoIff(s, f);
    if |Filter(s, f)| == 1 {
      assert Filter(s, f)[0] in Filter(s, f);
    }
  }

  /**
    `findByNameWithAllGraph`: `WHERE p.name = :name OR p.englishName = :name`,
    answered as a single optional row.
  */
  function FindByNameWithAllGraph(s: Store, key: string): (r: Result<Option<Pokemon>, Error>)
    ensures r.Success? && r.value.Some? ==> r.value.value in s && MatchesName(r.value.value, key)
    ensures r == Success(None) <==> forall i :: 0 <= i < |s| ==> !MatchesName(s[i], key)
    ensures r.Failure? <==> exists i, j :: 0 <= i < j < |s| && MatchesName(s[i], key) && MatchesName(s[j], key)
  {
    var f := (p: Pokemon) => MatchesName(p, key);
    SingleResultOfFilter(s, f);
    SingleResult(Filter(s, f))
  }

  /** The derived query `findByName`: the one row with this Korean name, if any. */
  function FindByName(s: Store, name: string): (r: Result<Option<Pokemon>, Error>)
    ensures r.Success? && r.value.Some? ==> r.value.value in s && r.value.value.name == name
    ensures r == Success(None) <==> forall i :: 0 <= i < |s| ==> s[i].name != name
    ensures r.Failure? <==> exists i, j :: 0 <= i < j < |s| && s[i].name == name && s[j].name == name
  {
    var f := (p: Pokemon) => p.name == name;
    SingleResultOfFilter(s, f);
    SingleResult(Filter(s, f))
  }

  /** The derived query `findByEnglishName`: the one row with this English name, if any. */
  function FindByEnglishName(s: Store, englishName: string): (r: Result<Option<Pokemon>, Error>)
    ensures r.Success? && r.value.Some? ==> r.value.value in s && r.value.value.englishName == englishName
    ensures r == Success(None) <==> forall i :: 0 <= i < |s| ==> s[i].englishName != englishName
    ensures r.Failure? <==> exists i, j :: 0 <= i < j < |s| && s[i].englishName == englishName && s[j].englishName == englishName
  {
    var f := (p: Pokemon) => p.englishName == englishName;
    SingleResultOfFilter(s, f);
    SingleResult(Filter(s, f))
  }

  /** `existsByName`: some row has this Korean name. */
  function ExistsByName(s: Store, name: string): (r: bool)
    ensures r <==> exists i :: 0 <= i < |s| && s[i].name == name
  {
    FirstWhere(s, (p: Pokemon) => p.name == name).Some?
  }

  /** `existsByEnglishName`: some row has this English name. */
  function ExistsByEnglishName(s: Store, englishName: string): (r: bool)
    ensures r <==> exists i :: 0 <= i < |s| && s[i].englishName == englishName
  {
    FirstWhere(s, (p: Pokemon) => p.englishName == englishName).Some?
  }

  /** `findMaxId`: `COALESCE(MAX(p.id), 0)`. */
  function FindMaxId(s: Store): (r: int)
    ensures s == [] ==> r == 0
    ensures s != [] ==> r in Ids(s)
    ensures forall i :: 0 <= i < |s| ==> s[i].id <= r
  {
    if s == [] then 0
    else if |s| == 1 then s[0].id
    else
      var rest := FindMaxId(s[1..]);
      assert forall i :: 1 <= i < |s| ==> s[i] == s[1..][i - 1];
      if s[0].id >= rest then s[0].id else rest
  }

  // ---------------------------------------------------------------- filters

  /** The type query's join condition: the assignment's Type has this name or this Korean name. */
  predicate TypeNamed(pt: PokemonType, name: string) {
    pt.typeRef.Some? && (pt.typeRef.value.name == name || pt.typeRef.value.koreanName == Some(name))
  }

  predicate AbilityNamed(pa: PokemonAbility, name: string) {
    pa.abilityRef.Some? && (pa.abilityRef.value.name == name || pa.abilityRef.value.koreanName == Some(name))
  }

  predicate HasTypeNamed(p: Pokemon, name: string) {
    exists i :: 0 <= i < |p.types| && TypeNamed(p.types[i], name)
  }

  predicate HasAbilityNamed(p: Pokemon, name: string) {
    exists i :: 0 <= i < |p.abilities| && AbilityNamed(p.abilities[i], name)
  }

  predicate HasHiddenAbility(p: Pokemon) {
    exists i :: 0 <= i < |p.abilities| && p.abilities[i].isHidden
  }

  /** `findByTypeName` before paging: each row, once, that has a type with this name or Korean name. */
  function FindByTypeName(s: Store, name: string): (r: Store)
    requires UniqueIds(s)
    ensures forall p :: p in r <==> p in s && HasTypeNamed(p, name)
    ensures UniqueIds(r)
  {
    FilterKeepsUniqueIds(s, (p: Pokemon) => HasTypeNamed(p, name));
    Filter(s, (p: Pokemon) => HasTypeNamed(p, name))
  }

  /** `findByAbilityName` before paging: each row, once, that has an ability with this name or Korean name. */
  function FindByAbilityName(s: Store, name: string): (r: Store)
    requires UniqueIds(s)
    ensures forall p :: p in r <==> p in s && HasAbilityNamed(p, name)
    ensures UniqueIds(r)
  {
    FilterKeepsUniqueIds(s, (p: Pokemon) => HasAbilityNamed(p, name));
    Filter(s, (p: Pokemon) => HasAbilityNamed(p, name))
  }

  /** `findPokemonWithHiddenAbilities`: each row, once, with at least one hidden ability. */
  function FindPokemonWithHiddenAbilities(s: Store): (r: Store)
    requires UniqueIds(s)
    ensures forall p :: p in r <==> p in s && HasHiddenAbility(p)
    ensures UniqueIds(r)
  {
    FilterKeepsUniqueIds(s, HasHiddenAbility);
    Filter(s, HasHiddenAbility)
  }

  /** `findPokemonWithMultipleTypes`: the rows with more than one type assignment. */
  function FindPokemonWithMultipleTypes(s: Store): (r: Store)
    requires UniqueIds(s)
    ensures forall p :: p in r <==> p in s && |p.types| > 1
    ensures UniqueIds(r)
  {
    FilterKeepsUniqueIds(s, (p: Pokemon) => |p.types| > 1);
    Filter(s, (p: Pokemon) => |p.types| > 1)
  }

  // ---------------------------------------------------------------- writes

  /** Insert `p`, or replace the row with its id in place (`save` of an entity with an assigned id merges). */
  function Upsert(s: Store, p: Pokemon): (r: Store)
    requires UniqueIds(s)
    ensures UniqueIds(r)
    ensures AsMap(r) == AsMap(s)[p.id := p]
    ensures Ids(r) == Ids(s) + {p.id}
    ensures p.id in Ids(s) ==> |r| == |s|
    ensures p.id !in Ids(s) ==> r == s + [p]
    ensures forall i :: 0 <= i < |s| && s[i].id != p.id ==> r[i] == s[i]
  {
    match FirstWhere(s, (q: Pokemon) => q.id == p.id)
    case None =>
      AppendFacts(s, p);
      s + [p]
    case Some(i) =>
      ReplaceFacts(s, i, p);
      s[i := p]
  }

  lemma AppendFacts(s: Store, p: Pokemon)
    requires UniqueIds(s)
    requires forall j :: 0 <= j < |s| ==> s[j].id != p.id
    ensures p.id !in Ids(s)
    ensures UniqueIds(s + [p])
    ensures forall k :: 0 <= k < |s| ==> (s + [p])[k] == s[k]
    ensures Ids(s + [p]) == Ids(s) + {p.id}
    ensures AsMap(s + [p]) == AsMap(s)[p.id := p]
  {
    var r := s + [p];
    assert forall i :: 0 <= i < |s| ==> r[i] == s[i];
    assert r[..|r| - 1] == s;
    assert r[|s|].id == p.id;
    forall x | x in Ids(r) ensures x in Ids(s) + {p.id} {
      var j :| 0 <= j < |r| && r[j].id == x;
      if j < |s| { assert s[j].id == x; }
    }
  }

  lemma ReplaceFacts(s: Store, i: nat, p: Pokemon)
    requires UniqueIds(s) && i < |s| && s[i].id == p.id
    ensures p.id in Ids(s)
    ensures forall k :: 0 <= k < |s| && s[k].id != p.id ==> s[i := p][k] == s[k]
    ensures UniqueIds(s[i := p])
    ensures Ids(s[i := p]) == Ids(s)
    ensures AsMap(s[i := p]) == AsMap(s)[p.id := p]
  {
    var r := s[i := p];
    assert s[i].id in Ids(s);
    ReplaceKeepsIds(s, i, p);
    ReplaceKeepsUniqueIds(s, i, p);
    var m := AsMap(s)[p.id := p];
    forall k | 0 <= k < |r| ensures m[r[k].id] == r[k] {
      if k != i {
        assert r[k] == s[k] && s[k].id != p.id;
      }
    }
    MapOfRows(r, m);
  }

  /** A map keyed by the table's ids that sends each row's id to that row is the table's map. */
  lemma MapOfRows(s: Store, m: map<int, Pokemon>)
    requires UniqueIds(s)
    requires m.Keys == Ids(s)
    requires forall k :: 0 <= k < |s| ==> m[s[k].id] == s[k]
    ensures m == AsMap(s)
  {
    var a := AsMap(s);
    forall x | x in m ensures m[x] == a[x] {
      var j :| 0 <= j < |s| && s[j].id == x;
      assert m[s[j].id] == s[j] && a[s[j].id] == s[j];
    }
    assert m.Keys == a.Keys;
  }

  lemma ReplaceKeepsUniqueIds(s: Store, i: nat, p: Pokemon)
    requires UniqueIds(s) && i < |s| && s[i].id == p.id
    ensures UniqueIds(s[i := p])
  {
    var r := s[i := p];
    assert forall k :: 0 <= k < |s| ==> r[k].id == s[k].id;
  }

  lemma ReplaceKeepsIds(s: Store, i: nat, p: Pokemon)
    requires i < |s| && s[i].id == p.id
    ensures Ids(s[i := p]) == Ids(s)
  {
    var r := s[i := p];
    forall x | x in Ids(s) ensures x in Ids(r) {
      var j :| 0 <= j < |s| && s[j].id == x;
      assert r[j].id == x;
    }
    forall x | x in Ids(r) ensures x in Ids(s) {
      var j :| 0 <= j < |r| && r[j].id == x;
      assert s[j].id == x;
    }
  }

  /**
    `save` + `flush`: the database refuses a row that breaks a column
    constraint; otherwise the row is stored under its id together with exactly
    its current assignments (cascade ALL with orphan removal).
  */
  function Save(s: Store, p: Pokemon): (r: Result<Store, Error>)
    requires UniqueIds(s)
    ensures r.Success? <==> ValidPokemon(p)
    ensures r.Failure? ==> r.error == ConstraintViolation
    ensures r.Success? ==> UniqueIds(r.value) && AsMap(r.value) == AsMap(s)[p.id := p]
  {
    if ValidPokemon(p) then Success(Upsert(s, p)) else Failure(ConstraintViolation)
  }

  /** Orphan removal: an assignment taken out of the list with `removeType` is gone from the saved row. */
  lemma RemovedTypeIsGoneAfterSave(s: Store, p: Pokemon, pt: PokemonType)
    requires UniqueIds(s)
    requires multiset(p.types)[pt] == 1
    requires ValidPokemon(RemoveType(p, pt).0)
    ensures Save(s, RemoveType(p, pt).0).Success?
    ensures var saved := AsMap(Save(s, RemoveType(p, pt).0).value)[p.id];
      pt !in saved.types && |saved.types| == |p.types| - 1
  {
    var q := RemoveType(p, pt).0;
    assert multiset(q.types)[pt] == 0;
  }

  /** Orphan removal for abilities. */
  lemma RemovedAbilityIsGoneAfterSave(s: Store, p: Pokemon, pa: PokemonAbility)
    requires UniqueIds(s)
    requires multiset(p.abilities)[pa] == 1
    requires ValidPokemon(RemoveAbility(p, pa).0)
    ensures Save(s, RemoveAbility(p, pa).0).Success?
    ensures var saved := AsMap(Save(s, RemoveAbility(p, pa).0).value)[p.id];
      pa !in saved.abilities && |saved.abilities| == |p.abilities| - 1
  {
    var q := RemoveAbility(p, pa).0;
    assert multiset(q.abilities)[pa] == 0;
  }

  // ---------------------------------------------------------------- cascading deletes

  /** The type assignments that survive deleting `t`: those referencing another row, or none. */
  function KeepsTypeAssignment(t: Type): PokemonType -> bool {
    (pt: PokemonType) => pt.typeRef != Some(t)
  }

  function KeepsAbilityAssignment(a: Ability): PokemonAbility -> bool {
    (pa: PokemonAbility) => pa.abilityRef != Some(a)
  }

  /** `p` without the type assignments that reference `t`. */
  function WithoutTypeRef(p: Pokemon, t: Type): Pokemon {
    p.(types := Filter(p.types, KeepsTypeAssignment(t)))
  }

  function WithoutAbilityRef(p: Pokemon, a: Ability): Pokemon {
    p.(abilities := Filter(p.abilities, KeepsAbilityAssignment(a)))
  }

  /**
    Deleting the Type row named `name` deletes every PokemonType that references
    it (cascade ALL on `Type.pokemonTypes`); every other assignment and row stays.
  */
  function DeleteTypeCascade(s: Store, c: TypeCatalog, name: string): (r: (Store, TypeCatalog))
    requires UniqueIds(s) && ValidTypeCatalog(c)
    ensures r.1.rows == c.rows - {name} && r.1.nextId == c.nextId
    ensures ValidTypeCatalog(r.1)
    ensures |r.0| == |s| && UniqueIds(r.0)
    ensures name in c.rows ==> forall i, k :: 0 <= i < |r.0| && 0 <= k < |r.0[i].types| ==>
      r.0[i].types[k].typeRef != Some(c.rows[name])
    ensures name in c.rows ==> forall i, pt :: 0 <= i < |s| && pt in s[i].types && pt.typeRef != Some(c.rows[name]) ==>
      pt in r.0[i].types
    ensures forall i :: 0 <= i < |s| ==> r.0[i] == s[i].(types := r.0[i].types)
    ensures name in c.rows ==> forall i :: 0 <= i < |s| ==>
      r.0[i].types == Filter(s[i].types, KeepsTypeAssignment(c.rows[name]))
    ensures name !in c.rows ==> r.0 == s
  {
    var c' := TypeCatalog(c.rows - {name}, c.nextId);
    if name !in c.rows then (s, c')
    else
      var t := c.rows[name];
      var s' := seq(|s|, i requires 0 <= i < |s| => WithoutTypeRef(s[i], t));
      forall i, k | 0 <= i < |s'| && 0 <= k < |s'[i].types|
        ensures s'[i].types[k].typeRef != Some(t)
      {
        assert s'[i].types[k] in s'[i].types;
      }
      (s', c')
  }

  /** Deleting the Ability row named `name` deletes every PokemonAbility that references it. */
  function DeleteAbilityCascade(s: Store, c: AbilityCatalog, name: string): (r: (Store, AbilityCatalog))
    requires UniqueIds(s) && ValidAbilityCatalog(c)
    ensures r.1.rows == c.rows - {name} && r.1.nextId == c.nextId
    ensures ValidAbilityCatalog(r.1)
    ensures |r.0| == |s| && UniqueIds(r.0)
    ensures name in c.rows ==> forall i, k :: 0 <= i < |r.0| && 0 <= k < |r.0[i].abilities| ==>
      r.0[i].abilities[k].abilityRef != Some(c.rows[name])
    ensures name in c.rows ==> forall i, pa :: 0 <= i < |s| && pa in s[i].abilities && pa.abilityRef != Some(c.rows[name]) ==>
      pa in r.0[i].abilities
    ensures forall i :: 0 <= i < |s| ==> r.0[i] == s[i].(abilities := r.0[i].abilities)
    ensures name in c.rows ==> forall i :: 0 <= i < |s| ==>
      r.0[i].abilities == Filter(s[i].abilities, KeepsAbilityAssignment(c.rows[name]))
    ensures name !in c.rows ==> r.0 == s
  {
    var c' := AbilityCatalog(c.rows - {name}, c.nextId);
    if name !in c.rows then (s, c')
    else
      var a := c.rows[name];
      var s' := seq(|s|, i requires 0 <= i < |s| => WithoutAbilityRef(s[i], a));
      forall i, k | 0 <= i < |s'| && 0 <= k < |s'[i].abilities|
        ensures s'[i].abilities[k].abilityRef != Some(a)
      {
        assert s'[i].abilities[k] in s'[i].abilities;
      }
      (s', c')
  }

  /** Deleting the same type again finds no row under the name and changes nothing. */
  lemma DeleteTypeCascadeIdempotent(s: Store, c: TypeCatalog, name: string)
    requires UniqueIds(s) && ValidTypeCatalog(c)
    ensures var (s1, c1) := DeleteTypeCascade(s, c, name);
      DeleteTypeCascade(s1, c1, name) == (s1, c1)
  {
    var (s1, c1) := DeleteTypeCascade(s, c, name);
    assert c1.rows - {name} == c1.rows;
  }

  lemma DeleteAbilityCascadeIdempotent(s: Store, c: AbilityCatalog, name: string)
    requires UniqueIds(s) && ValidAbilityCatalog(c)
    ensures var (s1, c1) := DeleteAbilityCascade(s, c, name);
      DeleteAbilityCascade(s1, c1, name) == (s1, c1)
  {
    var (s1, c1) := DeleteAbilityCascade(s, c, name);
    assert c1.rows - {name} == c1.rows;
  }

  // ---------------------------------------------------------------- paging

  /** A page request: zero-based page number and page size. */
  datatype Pageable = Pageable(page: nat, size: nat)

  /** `PageRequest.of(page, size)`, which rejects a negative page and a size below one. */
  function PageRequestOf(page: int, size: int): (r: Result<Pageable, Error>)
    ensures r.Success? <==> page >= 0 && size >= 1
    ensures r.Success? ==> r.value.page == page && r.value.size == size
    ensures r.Failure? ==> r.error == Internal
  {
    if page < 0 || size < 1 then Failure(Internal) else Success(Pageable(page, size))
  }

  /** One page of a query result together with the query's total row count. */
  datatype Page = Page(content: seq<Pokemon>, totalElements: nat, number: nat, size: nat)

  /** The position of the page's first row. */
  function Offset(req: Pageable): nat {
    req.page * req.size
  }

  /** The page of `rows` that `req` selects: rows `page * size` up to `page * size + size`, clipped to the end. */
  function FindPage(rows: seq<Pokemon>, req: Pageable): (pg: Page)
    requires req.size >= 1
    ensures pg.totalElements == |rows| && pg.number == req.page && pg.size == req.size
    ensures |pg.content| <= req.size
    ensures Offset(req) + |pg.content| <= |rows| || pg.content == []
    ensures forall i :: 0 <= i < |pg.content| ==> pg.content[i] == rows[Offset(req) + i]
    ensures Offset(req) + req.size <= |rows| ==> |pg.content| == req.size
    ensures Offset(req) < |rows| < Offset(req) + req.size ==> |pg.content| == |rows| - Offset(req)
    ensures |rows| <= Offset(req) ==> pg.content == []
  {
    var start := Offset(req);
    var lo := if start < |rows| then start else |rows|;
    var hi := if start + req.size < |rows| then start + req.size else |rows|;
    Page(rows[lo..hi], |rows|, req.page, req.size)
  }

  /** `Page.getTotalPages`: the row count divided by the page size, rounded up. */
  function TotalPages(pg: Page): nat {
    if pg.size == 0 then 1 else (pg.totalElements + pg.size - 1) / pg.size
  }

  /** `Page.hasNext`. */
  predicate HasNext(pg: Page) {
    pg.number + 1 < TotalPages(pg)
  }

  /** `Page.hasPrevious`. */
  predicate HasPrevious(pg: Page) {
    pg.number > 0
  }

  /** A page has a next page exactly when some row lies beyond it. */
  lemma HasNextIffRowsRemain(pg: Page)
    requires pg.size >= 1
    ensures HasNext(pg) <==> (pg.number + 1) * pg.size < pg.totalElements
  {
    var n, s, t := pg.number + 1, pg.size, pg.totalElements;
    var q := (t + s - 1) / s;
    assert q * s <= t + s - 1 < q * s + s;
    if n < q {
      assert n + 1 <= q;
      assert (n + 1) * s <= q * s by { MulMono(n + 1, q, s); }
    } else {
      assert q <= n;
      assert q * s <= n * s by { MulMono(q, n, s); }
    }
  }

  lemma MulMono(a: int, b: int, c: nat)
    requires a <= b
    ensures a * c <= b * c
  {
  }
}
