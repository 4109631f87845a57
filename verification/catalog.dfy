/**
  The reference catalog: the types and abilities tables, each holding at most
  one row per name, and the get-or-create operation that the normaliser uses
  to resolve a payload's type and ability names to shared rows.

  A catalog is a map from name to row plus the next surrogate id the database
  would generate. Keying the map by name makes "at most one row per name" (the
  unique constraint on `name`) hold by construction; `ValidTypeCatalog` adds
  that each row sits under its own name and that generated ids are distinct.
*/
module Catalog {
  import opened Wrappers
  import opened Text
  import opened Entities

  // ---------------------------------------------------------------- translation tables

  /**
    A translation table: (lower-case English name, Korean name) entries in the
    order of the `switch` cases they come from.
  */
  type Table = seq<(string, string)>

  /** English type name to Korean type name. The service and the loader use the same table. */
  const TypeTable: Table := [
    ("fire", "불꽃"), ("water", "물"), ("grass", "풀"),
    ("electric", "전기"), ("psychic", "에스퍼"), ("ice", "얼음"),
    ("dragon", "드래곤"), ("dark", "악"), ("fairy", "페어리"),
    ("normal", "노말"), ("fighting", "격투"), ("poison", "독"),
    ("ground", "땅"), ("flying", "비행"), ("bug", "벌레"),
    ("rock", "바위"), ("ghost", "고스트"), ("steel", "강철")]

  /** The service's ability table. */
  const ServiceAbilityTable: Table := [
    ("static", "정전기"), ("lightning-rod", "피뢰침"), ("overgrow", "신록"),
    ("chlorophyll", "엽록소"), ("blaze", "맹화"), ("solar-power", "태양의힘"),
    ("torrent", "급류"), ("rain-dish", "젖은접시"), ("keen-eye", "날카로운눈"),
    ("tangled-feet", "얽힌발"), ("big-pecks", "부풀린가슴"), ("guts", "근성"),
    ("hustle", "의욕"), ("inner-focus", "정신력"), ("early-bird", "일찍기상"),
    ("scrappy", "배짱")]

  /** The entries that only the bulk loader's ability table has. */
  const LoaderOnlyAbilities: Table := [
    ("shed-skin", "탈피"), ("marvel-scale", "이상한비늘"), ("intimidate", "위협"),
    ("hyper-cutter", "괴력집게"), ("sand-veil", "모래숨기"), ("poison-point", "독가시"),
    ("rivalry", "투쟁심"), ("sheer-force", "우격다짐"), ("cute-charm", "헤롱헤롱바디"),
    ("magic-guard", "매직가드"), ("flash-fire", "타오르는불꽃"), ("run-away", "도주"),
    ("synchronize", "싱크로"), ("clear-body", "클리어바디"), ("natural-cure", "자연회복"),
    ("serene-grace", "하늘의은총"), ("swift-swim", "쓱쓱"), ("thick-fat", "두꺼운지방"),
    ("vital-spirit", "의기양양"), ("white-smoke", "하얀연기"), ("pure-power", "순수한힘"),
    ("shell-armor", "조가비갑옷"), ("air-lock", "에어록"), ("motor-drive", "전기엔진"),
    ("mold-breaker", "틀깨기"), ("super-luck", "대운"), ("aftermath", "유폭"),
    ("anticipation", "위험예지"), ("forewarn", "예고"), ("unaware", "천진"),
    ("tinted-lens", "색안경"), ("filter", "필터"), ("slow-start", "슬로스타트")]

  /** The bulk loader's ability table: the service's entries, then 33 more. */
  const LoaderAbilityTable: Table := ServiceAbilityTable + LoaderOnlyAbilities

  /** The Korean name of the first entry whose English name is `key`, as a `switch` selects its case. */
  function Lookup(table: Table, key: string): (r: Option<string>)
    ensures r.Some? <==> exists i :: 0 <= i < |table| && table[i].0 == key
    ensures r.Some? ==> exists i :: 0 <= i < |table| && table[i] == (key, r.value)
  {
    if table == [] then None
    else if table[0].0 == key then Some(table[0].1)
    else
      var r := Lookup(table[1..], key);
      assert forall i :: 1 <= i < |table| ==> table[i] == table[1..][i - 1];
      r
  }

  /** A `translate*ToKorean` switch: look the lower-cased name up; an unknown name echoes the input as given. */
  function Translate(table: Table, englishName: string): (r: string)
    ensures Lookup(table, ToLower(englishName)).Some? ==> r == Lookup(table, ToLower(englishName)).value
    ensures Lookup(table, ToLower(englishName)).None? ==> r == englishName
  {
    Lookup(table, ToLower(englishName)).GetOr(englishName)
  }

  /** Every Korean name in a table is at most `max` characters. */
  predicate ShortValues(table: Table, max: nat) {
    forall i :: 0 <= i < |table| ==> |table[i].1| <= max
  }

  /** Looking a key up in a table extended at the end finds what the original table finds, when it finds something. */
  lemma {:induction false} LookupInPrefix(front: Table, back: Table, key: string)
    requires Lookup(front, key).Some?
    ensures Lookup(front + back, key) == Lookup(front, key)
  {
    if front[0].0 != key {
      assert (front + back)[1..] == front[1..] + back;
      LookupInPrefix(front[1..], back, key);
    }
  }

  /** A key the front of a table lacks is looked up in the back. */
  lemma {:induction false} LookupPastPrefix(front: Table, back: Table, key: string)
    requires Lookup(front, key).None?
    ensures Lookup(front + back, key) == Lookup(back, key)
  {
    if front == [] {
      assert front + back == back;
    } else {
      assert (front + back)[0] == front[0];
      assert (front + back)[1..] == front[1..] + back;
      LookupPastPrefix(front[1..], back, key);
    }
  }

  /** The loader's ability translation agrees with the service's on every name the service's table knows. */
  lemma TranslationsAgreeOnServiceKeys(englishName: string)
    requires Lookup(ServiceAbilityTable, ToLower(englishName)).Some?
    ensures Translate(LoaderAbilityTable, englishName) == Translate(ServiceAbilityTable, englishName)
  {
    LookupInPrefix(ServiceAbilityTable, LoaderOnlyAbilities, ToLower(englishName));
  }

  lemma ServiceTableLacksShedSkin()
    ensures Lookup(ServiceAbilityTable, "shed-skin").None?
  {
    var key := "shed-skin";
    var t := ServiceAbilityTable;
    assert forall i :: 0 <= i < |t| ==> t[i].0 != key by {
      assert |t[0].0| != |key|;
      assert |t[1].0| != |key|;
      assert |t[2].0| != |key|;
      assert |t[3].0| != |key|;
      assert |t[4].0| != |key|;
      assert |t[5].0| != |key|;
      assert |t[6].0| != |key|;
      assert t[7].0[0] != key[0];
      assert |t[8].0| != |key|;
      assert |t[9].0| != |key|;
      assert t[10].0[0] != key[0];
      assert |t[11].0| != |key|;
      assert |t[12].0| != |key|;
      assert |t[13].0| != |key|;
      assert |t[14].0| != |key|;
      assert |t[15].0| != |key|;
    }
  }

  /** The loader's table translates names the service's table echoes, "shed-skin" among them. */
  lemma LoaderTableKnowsMore()
    ensures Translate(ServiceAbilityTable, "shed-skin") == "shed-skin"
    ensures Translate(LoaderAbilityTable, "shed-skin") == "탈피"
  {
    var key := "shed-skin";
    ToLowerOfLowerCase(key);
    ServiceTableLacksShedSkin();
    LookupPastPrefix(ServiceAbilityTable, LoaderOnlyAbilities, key);
    assert LoaderOnlyAbilities[0] == (key, "탈피");
  }

  /** The tables one component uses: types and abilities. */
  datatype Translations = Translations(types: Table, abilities: Table)

  /** Every Korean name fits its column: 50 characters for types, 100 for abilities. */
  predicate ShortTranslations(tr: Translations) {
    ShortValues(tr.types, TYPE_NAME_MAX) && ShortValues(tr.abilities, ABILITY_NAME_MAX)
  }

  /** Tables whose Korean names fit their columns. */
  type Tables = tr: Translations | ShortTranslations(tr) witness Translations([], [])

  /** The service's tables: the type table and the service's ability table. */
  function ServiceTables(): Tables {
    TypeTableIsShort();
    ServiceAbilityTableIsShort();
    Translations(TypeTable, ServiceAbilityTable)
  }

  /** The bulk loader's tables: the same type table and the longer ability table. */
  function LoaderTables(): Tables {
    TypeTableIsShort();
    ServiceAbilityTableIsShort();
    LoaderOnlyAbilitiesAreShort();
    ShortValuesAppend(ServiceAbilityTable, LoaderOnlyAbilities, ABILITY_NAME_MAX);
    Translations(TypeTable, LoaderAbilityTable)
  }

  lemma TypeTableIsShort()
    ensures ShortValues(TypeTable, TYPE_NAME_MAX)
  {
  }

  lemma ServiceAbilityTableIsShort()
    ensures ShortValues(ServiceAbilityTable, ABILITY_NAME_MAX)
  {
  }

  lemma LoaderOnlyAbilitiesAreShort()
    ensures ShortValues(LoaderOnlyAbilities, ABILITY_NAME_MAX)
  {
    var t := LoaderOnlyAbilities;
    assert ShortValues(t[..17], ABILITY_NAME_MAX);
    assert ShortValues(t[17..], ABILITY_NAME_MAX);
    ShortValuesAppend(t[..17], t[17..], ABILITY_NAME_MAX);
    assert t == t[..17] + t[17..];
  }

  lemma ShortValuesAppend(a: Table, b: Table, max: nat)
    requires ShortValues(a, max) && ShortValues(b, max)
    ensures ShortValues(a + b, max)
  {
  }

  /** A translated name is a table entry or the input, so it is never longer than the longer of the two. */
  lemma TranslateLength(table: Table, englishName: string, max: nat)
    requires ShortValues(table, max)
    ensures |Translate(table, englishName)| <= max || Translate(table, englishName) == englishName
  {
  }

  // ---------------------------------------------------------------- catalogs

  datatype TypeCatalog = TypeCatalog(rows: map<string, Type>, nextId: int)
  datatype AbilityCatalog = AbilityCatalog(rows: map<string, Ability>, nextId: int)

  /** Each row sits under its own name, is saved, satisfies its column limits, and has a distinct id below `nextId`. */
  predicate ValidTypeCatalog(c: TypeCatalog) {
    && (forall n :: n in c.rows ==> c.rows[n].name == n && ValidType(c.rows[n]))
    && (forall n :: n in c.rows ==> c.rows[n].id.Some? && c.rows[n].id.value < c.nextId)
    && (forall n, m :: n in c.rows && m in c.rows && n != m ==> c.rows[n].id != c.rows[m].id)
  }

  predicate ValidAbilityCatalog(c: AbilityCatalog) {
    && (forall n :: n in c.rows ==> c.rows[n].name == n && ValidAbility(c.rows[n]))
    && (forall n :: n in c.rows ==> c.rows[n].id.Some? && c.rows[n].id.value < c.nextId)
    && (forall n, m :: n in c.rows && m in c.rows && n != m ==> c.rows[n].id != c.rows[m].id)
  }

  /** `c'` keeps every row of `c` unchanged (rows are only ever added). */
  predicate TypeCatalogExtends(c: TypeCatalog, c': TypeCatalog) {
    && (forall n :: n in c.rows ==> n in c'.rows && c'.rows[n] == c.rows[n])
    && c.nextId <= c'.nextId
  }

  predicate AbilityCatalogExtends(c: AbilityCatalog, c': AbilityCatalog) {
    && (forall n :: n in c.rows ==> n in c'.rows && c'.rows[n] == c.rows[n])
    && c.nextId <= c'.nextId
  }

  /**
    `getOrCreateType`: the row named `name` if there is one, unchanged; otherwise
    a new row with the next generated id and the Korean name `table` gives,
    which the database refuses when the name is longer than the column allows.
  */
  function GetOrCreateType(c: TypeCatalog, name: string, table: Table): (r: Result<(Type, TypeCatalog), Error>)
    requires ValidTypeCatalog(c)
    requires ShortValues(table, TYPE_NAME_MAX)
    ensures name in c.rows ==> r == Success((c.rows[name], c))
    ensures r.Failure? <==> name !in c.rows && |name| > TYPE_NAME_MAX
    ensures r.Failure? ==> r.error == ConstraintViolation
    ensures r.Success? ==> ValidTypeCatalog(r.value.1) && TypeCatalogExtends(c, r.value.1)
    ensures r.Success? ==> name in r.value.1.rows && r.value.1.rows[name] == r.value.0
    ensures r.Success? && name !in c.rows ==>
      && r.value.1.rows == c.rows[name := r.value.0]
      && r.value.0.koreanName == Some(Translate(table, name))
      && r.value.0.id == Some(c.nextId)
  {
    if name in c.rows then Success((c.rows[name], c))
    else
      var t := Type(Some(c.nextId), name, Some(Translate(table, name)));
      TranslateLength(table, name, TYPE_NAME_MAX);
      if !ValidType(t) then Failure(ConstraintViolation)
      else Success((t, TypeCatalog(c.rows[name := t], c.nextId + 1)))
  }

  /** `getOrCreateAbility`, translating with `table` (the service and the loader each pass their own). */
  function GetOrCreateAbility(c: AbilityCatalog, name: string, table: Table): (r: Result<(Ability, AbilityCatalog), Error>)
    requires ValidAbilityCatalog(c)
    requires ShortValues(table, ABILITY_NAME_MAX)
    ensures name in c.rows ==> r == Success((c.rows[name], c))
    ensures r.Failure? <==> name !in c.rows && |name| > ABILITY_NAME_MAX
    ensures r.Failure? ==> r.error == ConstraintViolation
    ensures r.Success? ==> ValidAbilityCatalog(r.value.1) && AbilityCatalogExtends(c, r.value.1)
    ensures r.Success? ==> name in r.value.1.rows && r.value.1.rows[name] == r.value.0
    ensures r.Success? && name !in c.rows ==>
      && r.value.1.rows == c.rows[name := r.value.0]
      && r.value.0.koreanName == Some(Translate(table, name))
      && r.value.0.id == Some(c.nextId)
  {
    if name in c.rows then Success((c.rows[name], c))
    else
      var a := Ability(Some(c.nextId), name, Some(Translate(table, name)));
      TranslateLength(table, name, ABILITY_NAME_MAX);
      if !ValidAbility(a) then Failure(ConstraintViolation)
      else Success((a, AbilityCatalog(c.rows[name := a], c.nextId + 1)))
  }

  /** Asking twice for the same type name returns the same row, and the second call changes nothing. */
  lemma GetOrCreateTypeIdempotent(c: TypeCatalog, name: string, table: Table)
    requires ValidTypeCatalog(c)
    requires ShortValues(table, TYPE_NAME_MAX)
    requires GetOrCreateType(c, name, table).Success?
    ensures var (t, c') := GetOrCreateType(c, name, table).value;
      GetOrCreateType(c', name, table) == Success((t, c'))
  {
  }

  /** Asking twice for the same ability name returns the same row, and the second call changes nothing. */
  lemma GetOrCreateAbilityIdempotent(c: AbilityCatalog, name: string, table: Table)
    requires ValidAbilityCatalog(c)
    requires ShortValues(table, ABILITY_NAME_MAX)
    requires GetOrCreateAbility(c, name, table).Success?
    ensures var (a, c') := GetOrCreateAbility(c, name, table).value;
      GetOrCreateAbility(c', name, table) == Success((a, c'))
  {
  }
}
