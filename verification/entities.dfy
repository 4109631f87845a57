/**
  The persistent records: Pokemon, the two shared reference rows (Type, Ability)
  and the two assignment records that link them (PokemonType, PokemonAbility).

  Object references become values: an assignment names its owner by the owner's
  id (there is no link back to the owner object) and carries a copy of the type or ability
  row. A reference that Java leaves null is `None`.
*/
module Entities {
  import opened Wrappers

  /** Column length limits declared on the entities. */
  const POKEMON_NAME_MAX: nat := 100
  const SPRITE_URL_MAX: nat := 500
  const TYPE_NAME_MAX: nat := 50
  const ABILITY_NAME_MAX: nat := 100

  /** The failures the core can raise, one per exception class (plus constraint violations). */
  datatype Error =
    | NotFound            // PokemonNotFoundException
    | ExternalApi         // ExternalApiException
    | InvalidArgument     // PokemonInvalidArgumentException
    | Internal            // a RuntimeException wrapping anything else
    | ConstraintViolation // the database refused a row (NOT NULL, length)

  /** A row of the types table. `id` is generated by the database, so it is `None` until saved. */
  datatype Type = Type(id: Option<int>, name: string, koreanName: Option<string>)

  /** A row of the abilities table; `id` is generated like a Type's. */
  datatype Ability = Ability(id: Option<int>, name: string, koreanName: Option<string>)

  /** One type of a Pokemon: its owner, the shared Type row and the slot ordinal. */
  datatype PokemonType = PokemonType(owner: Option<int>, typeRef: Option<Type>, slot: Option<int>)

  /** One ability of a Pokemon, additionally flagged hidden or not. */
  datatype PokemonAbility =
    PokemonAbility(owner: Option<int>, abilityRef: Option<Ability>, slot: Option<int>, isHidden: bool)

  /**
    A Pokemon row. The id is the remote source's id (never generated locally);
    `name` is the Korean display name and `englishName` the source's name.
  */
  datatype Pokemon = Pokemon(
    id: int,
    name: string,
    englishName: string,
    height: Option<int>,
    weight: Option<int>,
    spriteUrl: Option<string>,
    types: seq<PokemonType>,
    abilities: seq<PokemonAbility>)

  // ---------------------------------------------------------------- constraints

  predicate BoundedOption(s: Option<string>, max: nat) {
    s.Some? ==> |s.value| <= max
  }

  /** Type row constraints: name at most 50 characters, optional Korean name at most 50. */
  predicate ValidType(t: Type) {
    |t.name| <= TYPE_NAME_MAX && BoundedOption(t.koreanName, TYPE_NAME_MAX)
  }

  /** Ability row constraints: name at most 100 characters, optional Korean name at most 100. */
  predicate ValidAbility(a: Ability) {
    |a.name| <= ABILITY_NAME_MAX && BoundedOption(a.koreanName, ABILITY_NAME_MAX)
  }

  /** A type assignment that the database accepts for owner `owner`: all NOT NULL columns set, and a saved Type. */
  predicate ValidTypeAssignment(pt: PokemonType, owner: int) {
    && pt.owner == Some(owner)
    && pt.typeRef.Some? && pt.typeRef.value.id.Some?
    && pt.slot.Some?
  }

  /** An ability assignment that the database accepts for owner `owner`. */
  predicate ValidAbilityAssignment(pa: PokemonAbility, owner: int) {
    && pa.owner == Some(owner)
    && pa.abilityRef.Some? && pa.abilityRef.value.id.Some?
    && pa.slot.Some?
  }

  /** Every column constraint of a Pokemon row and of the assignments saved with it. */
  predicate ValidPokemon(p: Pokemon) {
    && |p.name| <= POKEMON_NAME_MAX
    && |p.englishName| <= POKEMON_NAME_MAX
    && BoundedOption(p.spriteUrl, SPRITE_URL_MAX)
    && (forall i :: 0 <= i < |p.types| ==> ValidTypeAssignment(p.types[i], p.id))
    && (forall i :: 0 <= i < |p.abilities| ==> ValidAbilityAssignment(p.abilities[i], p.id))
  }

  // ---------------------------------------------------------------- association helpers

  /** `addType`: append one assignment owned by `p`, referencing `t` at `slot`; nothing else changes. */
  function AddType(p: Pokemon, t: Type, slot: Option<int>): (r: Pokemon)
    ensures |r.types| == |p.types| + 1
    ensures r.types[..|p.types|] == p.types
    ensures r.types[|p.types|] == PokemonType(Some(p.id), Some(t), slot)
    ensures r == p.(types := r.types)
  {
    p.(types := p.types + [PokemonType(Some(p.id), Some(t), slot)])
  }

  /** `addAbility`: append one assignment owned by `p`, carrying `a`, `slot` and `isHidden`; types unchanged. */
  function AddAbility(p: Pokemon, a: Ability, slot: Option<int>, isHidden: bool): (r: Pokemon)
    ensures |r.abilities| == |p.abilities| + 1
    ensures r.abilities[..|p.abilities|] == p.abilities
    ensures r.abilities[|p.abilities|] == PokemonAbility(Some(p.id), Some(a), slot, isHidden)
    ensures r == p.(abilities := r.abilities)
  {
    p.(abilities := p.abilities + [PokemonAbility(Some(p.id), Some(a), slot, isHidden)])
  }

  /** The position of the first element of `s` equal to `x`, if any. */
  function IndexOf<T(==)>(s: seq<T>, x: T): (r: Option<nat>)
    ensures r.Some? ==> r.value < |s| && s[r.value] == x
    ensures r.Some? ==> forall j :: 0 <= j < r.value ==> s[j] != x
    ensures r.None? <==> x !in s
  {
    if s == [] then None
    else if s[0] == x then Some(0)
    else match IndexOf(s[1..], x)
      case None => None
      case Some(k) => Some(k + 1)
  }

  /** `s` without the element at position `i`. */
  function RemoveAt<T>(s: seq<T>, i: nat): (r: seq<T>)
    requires i < |s|
    ensures |r| == |s| - 1
  {
    s[..i] + s[i + 1..]
  }

  /**
    `removeType`: drop `pt` from the types list (the first entry equal to it,
    if there is one) and return it detached, its owner and Type cleared.
  */
  function RemoveType(p: Pokemon, pt: PokemonType): (r: (Pokemon, PokemonType))
    ensures pt in p.types ==> |r.0.types| == |p.types| - 1
    ensures pt in p.types ==> multiset(r.0.types) == multiset(p.types) - multiset{pt}
    ensures pt !in p.types ==> r.0.types == p.types
    ensures r.0 == p.(types := r.0.types)
    ensures r.1.owner.None? && r.1.typeRef.None? && r.1.slot == pt.slot
  {
    var detached := pt.(owner := None, typeRef := None);
    match IndexOf(p.types, pt)
    case None => (p, detached)
    case Some(i) =>
      assert p.types == p.types[..i] + [pt] + p.types[i + 1..];
      (p.(types := RemoveAt(p.types, i)), detached)
  }

  /** `removeAbility`: drop `pa` from the abilities list and return it detached. */
  function RemoveAbility(p: Pokemon, pa: PokemonAbility): (r: (Pokemon, PokemonAbility))
    ensures pa in p.abilities ==> |r.0.abilities| == |p.abilities| - 1
    ensures pa in p.abilities ==> multiset(r.0.abilities) == multiset(p.abilities) - multiset{pa}
    ensures pa !in p.abilities ==> r.0.abilities == p.abilities
    ensures r.0 == p.(abilities := r.0.abilities)
    ensures r.1.owner.None? && r.1.abilityRef.None?
    ensures r.1.slot == pa.slot && r.1.isHidden == pa.isHidden
  {
    var detached := pa.(owner := None, abilityRef := None);
    match IndexOf(p.abilities, pa)
    case None => (p, detached)
    case Some(i) =>
      assert p.abilities == p.abilities[..i] + [pa] + p.abilities[i + 1..];
      (p.(abilities := RemoveAt(p.abilities, i)), detached)
  }

  /** Removing the assignment that `addType` just appended restores the Pokemon. */
  lemma RemoveTypeUndoesAddType(p: Pokemon, t: Type, slot: Option<int>)
    requires PokemonType(Some(p.id), Some(t), slot) !in p.types
    ensures RemoveType(AddType(p, t, slot), PokemonType(Some(p.id), Some(t), slot)).0 == p
  {
    var pt := PokemonType(Some(p.id), Some(t), slot);
    var q := AddType(p, t, slot);
    IndexOfAppended(p.types, pt);
    assert q.types[..|p.types|] == p.types;
  }

  /** Removing the assignment that `addAbility` just appended restores the Pokemon. */
  lemma RemoveAbilityUndoesAddAbility(p: Pokemon, a: Ability, slot: Option<int>, isHidden: bool)
    requires PokemonAbility(Some(p.id), Some(a), slot, isHidden) !in p.abilities
    ensures RemoveAbility(AddAbility(p, a, slot, isHidden), PokemonAbility(Some(p.id), Some(a), slot, isHidden)).0 == p
  {
    var pa := PokemonAbility(Some(p.id), Some(a), slot, isHidden);
    var q := AddAbility(p, a, slot, isHidden);
    IndexOfAppended(p.abilities, pa);
    assert q.abilities[..|p.abilities|] == p.abilities;
  }

  lemma IndexOfAppended<T>(s: seq<T>, x: T)
    requires x !in s
    ensures IndexOf(s + [x], x) == Some(|s|)
  {
    assert (s + [x])[|s|] == x;
  }
}
