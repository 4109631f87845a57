/**
  Converting the remote source's payloads into a Pokemon row: the Korean name
  from the species payload, the sprite URL, and one assignment per type and
  ability entry, each referencing the catalog row for its name (created on
  first use). The service and the loader convert identically except for the
  ability translation table; the tables are a parameter here.
*/
module Normalizer {
  import opened Wrappers
  import opened Collections
  import opened Entities
  import opened Catalog

  /** One entry of the payload's `types` list: a slot ordinal and the type's name. */
  datatype TypeSlot = TypeSlot(slot: int, typeName: string)

  /** One entry of the payload's `abilities` list. */
  datatype AbilitySlot = AbilitySlot(slot: int, abilityName: string, isHidden: bool)

  datatype Sprites = Sprites(frontDefault: Option<string>)

  /** The pokemon payload; a list or object the source leaves null is `None`. */
  datatype PokemonPayload = PokemonPayload(
    id: int,
    name: string,
    height: Option<int>,
    weight: Option<int>,
    sprites: Option<Sprites>,
    types: Option<seq<TypeSlot>>,
    abilities: Option<seq<AbilitySlot>>)

  /** One localised name of a species and its language code. */
  datatype SpeciesName = SpeciesName(name: string, language: string)

  datatype SpeciesPayload = SpeciesPayload(names: Option<seq<SpeciesName>>)

  const KOREAN: string := "ko"

  /**
    The display name: the first species name in Korean; the English name when
    there is no species payload, no names list, or no Korean entry.
  */
  function KoreanName(payload: PokemonPayload, species: Option<SpeciesPayload>): (r: string)
    ensures species.None? || species.value.names.None? ==> r == payload.name
    ensures species.Some? && species.value.names.Some? ==>
      var names := species.value.names.value;
      && ((forall i :: 0 <= i < |names| ==> names[i].language != KOREAN) ==> r == payload.name)
      && (forall i :: (0 <= i < |names| && names[i].language == KOREAN
            && (forall j :: 0 <= j < i ==> names[j].language != KOREAN)) ==> r == names[i].name)
  {
    if species.None? || species.value.names.None? then payload.name
    else
      var names := species.value.names.value;
      match FirstWhere(names, (n: SpeciesName) => n.language == KOREAN)
      case None => payload.name
      case Some(i) => names[i].name
  }

  /** The sprite URL: set only when the sprites object and its front image are both present. */
  function SpriteUrl(payload: PokemonPayload): (r: Option<string>)
    ensures r.Some? <==> payload.sprites.Some? && payload.sprites.value.frontDefault.Some?
    ensures r.Some? ==> r == payload.sprites.value.frontDefault
  {
    match payload.sprites
    case None => None
    case Some(sp) => sp.frontDefault
  }

  /** The two reference catalogs the conversion reads and extends. */
  datatype Catalogs = Catalogs(types: TypeCatalog, abilities: AbilityCatalog)

  predicate ValidCatalogs(c: Catalogs) {
    ValidTypeCatalog(c.types) && ValidAbilityCatalog(c.abilities)
  }

  predicate CatalogsExtend(c: Catalogs, c': Catalogs) {
    TypeCatalogExtends(c.types, c'.types) && AbilityCatalogExtends(c.abilities, c'.abilities)
  }

  /** Some entry names a type that is not yet in the catalog and is too long for the types table. */
  predicate HasUnstorableType(slots: seq<TypeSlot>, c: TypeCatalog) {
    exists k :: 0 <= k < |slots| && slots[k].typeName !in c.rows && |slots[k].typeName| > TYPE_NAME_MAX
  }

  predicate HasUnstorableAbility(slots: seq<AbilitySlot>, c: AbilityCatalog) {
    exists k :: 0 <= k < |slots| && slots[k].abilityName !in c.rows && |slots[k].abilityName| > ABILITY_NAME_MAX
  }

  /** The names the entries ask for. */
  function TypeNames(slots: seq<TypeSlot>): set<string> {
    set k | 0 <= k < |slots| :: slots[k].typeName
  }

  function AbilityNames(slots: seq<AbilitySlot>): set<string> {
    set k | 0 <= k < |slots| :: slots[k].abilityName
  }

  /** The names asked for: the first entry's, then the rest's. */
  lemma TypeNamesCons(slots: seq<TypeSlot>)
    requires slots != []
    ensures TypeNames(slots) == {slots[0].typeName} + TypeNames(slots[1..])
  {
    forall n | n in TypeNames(slots) ensures n == slots[0].typeName || n in TypeNames(slots[1..]) {
      var k :| 0 <= k < |slots| && slots[k].typeName == n;
      if k > 0 {
        assert slots[1..][k - 1].typeName == n;
      }
    }
    forall n | n in TypeNames(slots[1..]) ensures n in TypeNames(slots) {
      var k :| 0 <= k < |slots[1..]| && slots[1..][k].typeName == n;
      assert slots[k + 1].typeName == n;
    }
  }

  lemma AbilityNamesCons(slots: seq<AbilitySlot>)
    requires slots != []
    ensures AbilityNames(slots) == {slots[0].abilityName} + AbilityNames(slots[1..])
  {
    forall n | n in AbilityNames(slots) ensures n == slots[0].abilityName || n in AbilityNames(slots[1..]) {
      var k :| 0 <= k < |slots| && slots[k].abilityName == n;
      if k > 0 {
        assert slots[1..][k - 1].abilityName == n;
      }
    }
    forall n | n in AbilityNames(slots[1..]) ensures n in AbilityNames(slots) {
      var k :| 0 <= k < |slots[1..]| && slots[1..][k].abilityName == n;
      assert slots[k + 1].abilityName == n;
    }
  }

  /** Every type row `c'` has and `c` lacks is asked for by an entry and carries the Korean name `table` gives. */
  predicate NewTypeRowsFrom(c: TypeCatalog, c': TypeCatalog, slots: seq<TypeSlot>, table: Table) {
    forall n :: n in c'.rows && n !in c.rows ==>
      n in TypeNames(slots) && c'.rows[n].koreanName == Some(Translate(table, n))
  }

  predicate NewAbilityRowsFrom(c: AbilityCatalog, c': AbilityCatalog, slots: seq<AbilitySlot>, table: Table) {
    forall n :: n in c'.rows && n !in c.rows ==>
      n in AbilityNames(slots) && c'.rows[n].koreanName == Some(Translate(table, n))
  }

  /** The assignments owned by `owner` that the entries denote, given the catalog rows for their names. */
  function TypeEntries(owner: int, slots: seq<TypeSlot>, rows: map<string, Type>): (r: seq<PokemonType>)
    requires forall k :: 0 <= k < |slots| ==> slots[k].typeName in rows
    ensures |r| == |slots|
    ensures forall k :: 0 <= k < |slots| ==>
      r[k] == PokemonType(Some(owner), Some(rows[slots[k].typeName]), Some(slots[k].slot))
  {
    if slots == [] then []
    else
      [PokemonType(Some(owner), Some(rows[slots[0].typeName]), Some(slots[0].slot))]
      + TypeEntries(owner, slots[1..], rows)
  }

  function AbilityEntries(owner: int, slots: seq<AbilitySlot>, rows: map<string, Ability>): (r: seq<PokemonAbility>)
    requires forall k :: 0 <= k < |slots| ==> slots[k].abilityName in rows
    ensures |r| == |slots|
    ensures forall k :: 0 <= k < |slots| ==>
      r[k] == PokemonAbility(Some(owner), Some(rows[slots[k].abilityName]), Some(slots[k].slot), slots[k].isHidden)
  {
    if slots == [] then []
    else
      [PokemonAbility(Some(owner), Some(rows[slots[0].abilityName]), Some(slots[0].slot), slots[0].isHidden)]
      + AbilityEntries(owner, slots[1..], rows)
  }

  /** Resolving the first entry moves the failure condition to the rest of the entries. */
  lemma UnstorableTypeStep(slots: seq<TypeSlot>, c: TypeCatalog, c1: TypeCatalog)
    requires slots != [] && slots[0].typeName in c1.rows
    requires ValidTypeCatalog(c1) && TypeCatalogExtends(c, c1)
    ensures HasUnstorableType(slots, c) <==> HasUnstorableType(slots[1..], c1)
  {
    if HasUnstorableType(slots[1..], c1) {
      var k :| 0 <= k < |slots[1..]| && slots[1..][k].typeName !in c1.rows && |slots[1..][k].typeName| > TYPE_NAME_MAX;
      assert slots[k + 1].typeName !in c.rows;
    }
    if HasUnstorableType(slots, c) {
      var k :| 0 <= k < |slots| && slots[k].typeName !in c.rows && |slots[k].typeName| > TYPE_NAME_MAX;
      assert slots[1..][k - 1].typeName !in c1.rows;
    }
  }

  lemma UnstorableAbilityStep(slots: seq<AbilitySlot>, c: AbilityCatalog, c1: AbilityCatalog)
    requires slots != [] && slots[0].abilityName in c1.rows
    requires ValidAbilityCatalog(c1) && AbilityCatalogExtends(c, c1)
    ensures HasUnstorableAbility(slots, c) <==> HasUnstorableAbility(slots[1..], c1)
  {
    if HasUnstorableAbility(slots[1..], c1) {
      var k :| 0 <= k < |slots[1..]| && slots[1..][k].abilityName !in c1.rows && |slots[1..][k].abilityName| > ABILITY_NAME_MAX;
      assert slots[k + 1].abilityName !in c.rows;
    }
    if HasUnstorableAbility(slots, c) {
      var k :| 0 <= k < |slots| && slots[k].abilityName !in c.rows && |slots[k].abilityName| > ABILITY_NAME_MAX;
      assert slots[1..][k - 1].abilityName !in c1.rows;
    }
  }

  /**
    The type loop: for each entry in order, get or create its Type row and
    append an assignment owned by `p`. Returns the Pokemon (or the error that
    stopped the loop) and the catalog as far as the loop got.
  */
  function AddTypes(p: Pokemon, slots: seq<TypeSlot>, c: TypeCatalog, table: Table): (r: (Result<Pokemon, Error>, TypeCatalog))
    requires ValidTypeCatalog(c)
    requires ShortValues(table, TYPE_NAME_MAX)
    ensures ValidTypeCatalog(r.1) && TypeCatalogExtends(c, r.1)
    ensures r.0.Failure? <==> HasUnstorableType(slots, c)
    ensures r.0.Failure? ==> r.0.error == ConstraintViolation
    ensures r.0.Success? ==> forall k :: 0 <= k < |slots| ==> slots[k].typeName in r.1.rows
    ensures r.0.Success? ==> r.0.value == p.(types := p.types + TypeEntries(p.id, slots, r.1.rows))
    ensures NewTypeRowsFrom(c, r.1, slots, table)
    ensures r.0.Success? ==> r.1.rows.Keys == c.rows.Keys + TypeNames(slots)
    decreases |slots|
  {
    if slots == [] then (Success(p), c)
    else
      match GetOrCreateType(c, slots[0].typeName, table)
      case Failure(e) => (Failure(e), c)
      case Success((t, c1)) =>
        var p1 := AddType(p, t, Some(slots[0].slot));
        var r := AddTypes(p1, slots[1..], c1, table);
        UnstorableTypeStep(slots, c, c1);
        NewTypeRowsStep(slots, c, c1, r.1, table, r.0.Success?);
        if r.0.Success? then
          TypeStep(p, slots, t, c1, r.1, r.0.value);
          r
        else r
  }

  /**
    The rows the first entry's get-or-create added, followed by those the rest
    of the loop added, are rows the entries ask for, translated; when the loop
    resolves every entry, they are exactly the names asked for that were missing.
  */
  lemma NewTypeRowsStep(slots: seq<TypeSlot>, c: TypeCatalog, c1: TypeCatalog, cf: TypeCatalog, table: Table, done: bool)
    requires slots != [] && ValidTypeCatalog(c) && ShortValues(table, TYPE_NAME_MAX)
    requires GetOrCreateType(c, slots[0].typeName, table).Success?
    requires c1 == GetOrCreateType(c, slots[0].typeName, table).value.1
    requires TypeCatalogExtends(c1, cf) && NewTypeRowsFrom(c1, cf, slots[1..], table)
    requires done ==> cf.rows.Keys == c1.rows.Keys + TypeNames(slots[1..])
    ensures NewTypeRowsFrom(c, cf, slots, table)
    ensures done ==> cf.rows.Keys == c.rows.Keys + TypeNames(slots)
  {
    TypeNamesCons(slots);
    assert c1.rows.Keys == c.rows.Keys + {slots[0].typeName};
  }

  lemma {:induction false} TypeStep(p: Pokemon, slots: seq<TypeSlot>, t: Type, c1: TypeCatalog, cf: TypeCatalog, q: Pokemon)
    requires slots != [] && slots[0].typeName in c1.rows && c1.rows[slots[0].typeName] == t
    requires TypeCatalogExtends(c1, cf)
    requires forall k :: 0 <= k < |slots[1..]| ==> slots[1..][k].typeName in cf.rows
    requires var p1 := AddType(p, t, Some(slots[0].slot));
      q == p1.(types := p1.types + TypeEntries(p1.id, slots[1..], cf.rows))
    ensures forall k :: 0 <= k < |slots| ==> slots[k].typeName in cf.rows
    ensures q == p.(types := p.types + TypeEntries(p.id, slots, cf.rows))
  {
    assert forall k :: 1 <= k < |slots| ==> slots[k] == slots[1..][k - 1];
    var e0 := PokemonType(Some(p.id), Some(t), Some(slots[0].slot));
    var rest := TypeEntries(p.id, slots[1..], cf.rows);
    assert (p.types + [e0]) + rest == p.types + ([e0] + rest);
  }

  /** The ability loop, like `AddTypes`, translating new names with `table`. */
  function AddAbilities(p: Pokemon, slots: seq<AbilitySlot>, c: AbilityCatalog, table: Table)
    : (r: (Result<Pokemon, Error>, AbilityCatalog))
    requires ValidAbilityCatalog(c)
    requires ShortValues(table, ABILITY_NAME_MAX)
    ensures ValidAbilityCatalog(r.1) && AbilityCatalogExtends(c, r.1)
    ensures r.0.Failure? <==> HasUnstorableAbility(slots, c)
    ensures r.0.Failure? ==> r.0.error == ConstraintViolation
    ensures r.0.Success? ==> forall k :: 0 <= k < |slots| ==> slots[k].abilityName in r.1.rows
    ensures r.0.Success? ==> r.0.value == p.(abilities := p.abilities + AbilityEntries(p.id, slots, r.1.rows))
    ensures NewAbilityRowsFrom(c, r.1, slots, table)
    ensures r.0.Success? ==> r.1.rows.Keys == c.rows.Keys + AbilityNames(slots)
    decreases |slots|
  {
    if slots == [] then (Success(p), c)
    else
      match GetOrCreateAbility(c, slots[0].abilityName, table)
      case Failure(e) => (Failure(e), c)
      case Success((a, c1)) =>
        var p1 := AddAbility(p, a, Some(slots[0].slot), slots[0].isHidden);
        var r := AddAbilities(p1, slots[1..], c1, table);
        UnstorableAbilityStep(slots, c, c1);
        NewAbilityRowsStep(slots, c, c1, r.1, table, r.0.Success?);
        if r.0.Success? then
          AbilityStep(p, slots, a, c1, r.1, r.0.value);
          r
        else r
  }

  lemma NewAbilityRowsStep(slots: seq<AbilitySlot>, c: AbilityCatalog, c1: AbilityCatalog, cf: AbilityCatalog, table: Table, done: bool)
    requires slots != [] && ValidAbilityCatalog(c) && ShortValues(table, ABILITY_NAME_MAX)
    requires GetOrCreateAbility(c, slots[0].abilityName, table).Success?
    requires c1 == GetOrCreateAbility(c, slots[0].abilityName, table).value.1
    requires AbilityCatalogExtends(c1, cf) && NewAbilityRowsFrom(c1, cf, slots[1..], table)
    requires done ==> cf.rows.Keys == c1.rows.Keys + AbilityNames(slots[1..])
    ensures NewAbilityRowsFrom(c, cf, slots, table)
    ensures done ==> cf.rows.Keys == c.rows.Keys + AbilityNames(slots)
  {
    AbilityNamesCons(slots);
    assert c1.rows.Keys == c.rows.Keys + {slots[0].abilityName};
  }

  lemma {:induction false} AbilityStep(p: Pokemon, slots: seq<AbilitySlot>, a: Ability, c1: AbilityCatalog, cf: AbilityCatalog, q: Pokemon)
    requires slots != [] && slots[0].abilityName in c1.rows && c1.rows[slots[0].abilityName] == a
    requires AbilityCatalogExtends(c1, cf)
    requires forall k :: 0 <= k < |slots[1..]| ==> slots[1..][k].abilityName in cf.rows
    requires var p1 := AddAbility(p, a, Some(slots[0].slot), slots[0].isHidden);
      q == p1.(abilities := p1.abilities + AbilityEntries(p1.id, slots[1..], cf.rows))
    ensures forall k :: 0 <= k < |slots| ==> slots[k].abilityName in cf.rows
    ensures q == p.(abilities := p.abilities + AbilityEntries(p.id, slots, cf.rows))
  {
    assert forall k :: 1 <= k < |slots| ==> slots[k] == slots[1..][k - 1];
    var e0 := PokemonAbility(Some(p.id), Some(a), Some(slots[0].slot), slots[0].isHidden);
    var rest := AbilityEntries(p.id, slots[1..], cf.rows);
    assert (p.abilities + [e0]) + rest == p.abilities + ([e0] + rest);
  }

  /** The outcome of a conversion: the new row or the error, and the catalogs as far as the conversion got. */
  datatype Normalized = Normalized(pokemon: Result<Pokemon, Error>, catalogs: Catalogs)

  /** The entry lists, a null list read as empty. */
  function TypeSlots(payload: PokemonPayload): seq<TypeSlot> {
    payload.types.GetOr([])
  }

  function AbilitySlots(payload: PokemonPayload): seq<AbilitySlot> {
    payload.abilities.GetOr([])
  }

  /**
    `convertApiResponseToEntity` / `convertToEntity`: copy the scalar fields,
    choose the display name and sprite, then resolve every type entry and
    afterwards every ability entry against the catalogs.
  */
  function Normalize(payload: PokemonPayload, species: Option<SpeciesPayload>, cats: Catalogs, tr: Translations)
    : (r: Normalized)
    requires ValidCatalogs(cats)
    requires ShortTranslations(tr)
    ensures ValidCatalogs(r.catalogs) && CatalogsExtend(cats, r.catalogs)
    ensures r.pokemon.Failure? <==>
      HasUnstorableType(TypeSlots(payload), cats.types) || HasUnstorableAbility(AbilitySlots(payload), cats.abilities)
    ensures r.pokemon.Failure? ==> r.pokemon.error == ConstraintViolation
    ensures NewTypeRowsFrom(cats.types, r.catalogs.types, TypeSlots(payload), tr.types)
    ensures NewAbilityRowsFrom(cats.abilities, r.catalogs.abilities, AbilitySlots(payload), tr.abilities)
    ensures r.pokemon.Success? ==>
      && r.catalogs.types.rows.Keys == cats.types.rows.Keys + TypeNames(TypeSlots(payload))
      && r.catalogs.abilities.rows.Keys == cats.abilities.rows.Keys + AbilityNames(AbilitySlots(payload))
    ensures r.pokemon.Success? ==>
      var p := r.pokemon.value;
      && p.id == payload.id
      && p.englishName == payload.name
      && p.name == KoreanName(payload, species)
      && p.height == payload.height && p.weight == payload.weight
      && p.spriteUrl == SpriteUrl(payload)
    ensures r.pokemon.Success? ==>
      var p := r.pokemon.value;
      var ts := TypeSlots(payload);
      && |p.types| == |ts|
      && (forall k :: 0 <= k < |ts| ==> ts[k].typeName in r.catalogs.types.rows)
      && (forall k :: 0 <= k < |ts| ==>
            p.types[k] == PokemonType(Some(payload.id), Some(r.catalogs.types.rows[ts[k].typeName]), Some(ts[k].slot)))
    ensures r.pokemon.Success? ==>
      var p := r.pokemon.value;
      var as_ := AbilitySlots(payload);
      && |p.abilities| == |as_|
      && (forall k :: 0 <= k < |as_| ==> as_[k].abilityName in r.catalogs.abilities.rows)
      && (forall k :: 0 <= k < |as_| ==>
            p.abilities[k] == PokemonAbility(Some(payload.id), Some(r.catalogs.abilities.rows[as_[k].abilityName]),
                                             Some(as_[k].slot), as_[k].isHidden))
  {
    var base := Pokemon(payload.id, KoreanName(payload, species), payload.name,
                        payload.height, payload.weight, SpriteUrl(payload), [], []);
    var (rt, ct) := AddTypes(base, TypeSlots(payload), cats.types, tr.types);
    match rt
    case Failure(e) => Normalized(Failure(e), Catalogs(ct, cats.abilities))
    case Success(withTypes) =>
      assert withTypes.types == TypeEntries(payload.id, TypeSlots(payload), ct.rows);
      var (ra, ca) := AddAbilities(withTypes, AbilitySlots(payload), cats.abilities, tr.abilities);
      assert ra.Success? ==>
        && ra.value.types == withTypes.types
        && ra.value.abilities == AbilityEntries(payload.id, AbilitySlots(payload), ca.rows);
      Normalized(ra, Catalogs(ct, ca))
  }

  /** Type rows are resolved before ability rows: a bad type name stops the conversion before any ability row is created. */
  lemma TypeFailureCreatesNoAbility(payload: PokemonPayload, species: Option<SpeciesPayload>, cats: Catalogs, tr: Translations)
    requires ValidCatalogs(cats)
    requires ShortTranslations(tr)
    requires HasUnstorableType(TypeSlots(payload), cats.types)
    ensures Normalize(payload, species, cats, tr).pokemon.Failure?
    ensures Normalize(payload, species, cats, tr).catalogs.abilities == cats.abilities
  {
  }

  /**
    Every assignment of a converted Pokemon is one the database accepts, so
    saving it can fail only on the Pokemon's own columns.
  */
  lemma NormalizedAssignmentsAreValid(payload: PokemonPayload, species: Option<SpeciesPayload>, cats: Catalogs, tr: Translations)
    requires ValidCatalogs(cats)
    requires ShortTranslations(tr)
    requires Normalize(payload, species, cats, tr).pokemon.Success?
    ensures var p := Normalize(payload, species, cats, tr).pokemon.value;
      ValidPokemon(p) <==>
        && |p.name| <= POKEMON_NAME_MAX
        && |p.englishName| <= POKEMON_NAME_MAX
        && BoundedOption(p.spriteUrl, SPRITE_URL_MAX)
  {
    var r := Normalize(payload, species, cats, tr);
    var p := r.pokemon.value;
    forall i | 0 <= i < |p.types| ensures ValidTypeAssignment(p.types[i], p.id) {
      assert TypeSlots(payload)[i].typeName in r.catalogs.types.rows;
    }
    forall i | 0 <= i < |p.abilities| ensures ValidAbilityAssignment(p.abilities[i], p.id) {
      assert AbilitySlots(payload)[i].abilityName in r.catalogs.abilities.rows;
    }
  }

  /** When every entry's type is already in the catalog, the type loop creates nothing. */
  lemma {:induction false} AddTypesReuses(p: Pokemon, slots: seq<TypeSlot>, c: TypeCatalog, table: Table)
    requires ValidTypeCatalog(c)
    requires ShortValues(table, TYPE_NAME_MAX)
    requires forall k :: 0 <= k < |slots| ==> slots[k].typeName in c.rows
    ensures AddTypes(p, slots, c, table).0.Success? && AddTypes(p, slots, c, table).1 == c
    decreases |slots|
  {
    if slots != [] {
      var t := c.rows[slots[0].typeName];
      assert forall k :: 0 <= k < |slots[1..]| ==> slots[1..][k] == slots[k + 1];
      AddTypesReuses(AddType(p, t, Some(slots[0].slot)), slots[1..], c, table);
    }
  }

  /** When every entry's ability is already in the catalog, the ability loop creates nothing. */
  lemma {:induction false} AddAbilitiesReuses(p: Pokemon, slots: seq<AbilitySlot>, c: AbilityCatalog, table: Table)
    requires ValidAbilityCatalog(c)
    requires ShortValues(table, ABILITY_NAME_MAX)
    requires forall k :: 0 <= k < |slots| ==> slots[k].abilityName in c.rows
    ensures AddAbilities(p, slots, c, table).0.Success? && AddAbilities(p, slots, c, table).1 == c
    decreases |slots|
  {
    if slots != [] {
      var a := c.rows[slots[0].abilityName];
      assert forall k :: 0 <= k < |slots[1..]| ==> slots[1..][k] == slots[k + 1];
      AddAbilitiesReuses(AddAbility(p, a, Some(slots[0].slot), slots[0].isHidden), slots[1..], c, table);
    }
  }

  /**
    Converting the same payload again, against the catalogs the first
    conversion left, yields the same Pokemon and creates no further rows.
  */
  lemma NormalizeIdempotent(payload: PokemonPayload, species: Option<SpeciesPayload>, cats: Catalogs, tr: Translations)
    requires ValidCatalogs(cats)
    requires ShortTranslations(tr)
    requires Normalize(payload, species, cats, tr).pokemon.Success?
    ensures var r := Normalize(payload, species, cats, tr);
      Normalize(payload, species, r.catalogs, tr) == r
  {
    var r := Normalize(payload, species, cats, tr);
    var ts, as_ := TypeSlots(payload), AbilitySlots(payload);
    var base := Pokemon(payload.id, KoreanName(payload, species), payload.name,
                        payload.height, payload.weight, SpriteUrl(payload), [], []);
    var (rt, ct) := AddTypes(base, ts, cats.types, tr.types);
    var withTypes := rt.value;
    assert ct == r.catalogs.types;
    AddTypesReuses(base, ts, ct, tr.types);
    var (rt2, ct2) := AddTypes(base, ts, ct, tr.types);
    assert rt2.value.types == withTypes.types;
    assert rt2 == rt;
    var (ra, ca) := AddAbilities(withTypes, as_, cats.abilities, tr.abilities);
    assert ca == r.catalogs.abilities;
    AddAbilitiesReuses(withTypes, as_, ca, tr.abilities);
    var (ra2, ca2) := AddAbilities(withTypes, as_, ca, tr.abilities);
    assert ra2.value.abilities == ra.value.abilities;
    assert ra2 == ra;
  }
}
