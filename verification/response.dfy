/**
  The response views the service builds from stored rows: the detailed view
  (`convertToResponse`) and the list summary (`convertToSummary`).
*/
module Response {
  import opened Wrappers
  import opened Text
  import opened Collections
  import opened Entities

  /** One type of the detailed view: the slot and the type's English name. */
  datatype TypeView = TypeView(slot: int, name: string)

  /** One ability of the detailed view. */
  datatype AbilityView = AbilityView(slot: int, name: string, isHidden: bool)

  /** The detailed view; a list the conversion leaves null is `None`. */
  datatype PokemonView = PokemonView(
    id: int,
    name: string,
    englishName: string,
    height: Option<int>,
    weight: Option<int>,
    sprite: Option<string>,
    types: Option<seq<TypeView>>,
    abilities: Option<seq<AbilityView>>)

  /** A list entry: the display name and the detail path. */
  datatype Summary = Summary(name: string, url: string)

  /**
    Converting a list of assignments throws when some entry has no reference
    row (the name lookup dereferences it) or no slot (the slot is unboxed into
    the view's `int`, and sorting compares it).
  */
  predicate TypeConversionFails(ts: seq<PokemonType>) {
    exists i :: 0 <= i < |ts| && (ts[i].typeRef.None? || ts[i].slot.None?)
  }

  predicate AbilityConversionFails(as_: seq<PokemonAbility>) {
    exists i :: 0 <= i < |as_| && (as_[i].abilityRef.None? || as_[i].slot.None?)
  }

  function TypeViewOf(pt: PokemonType): TypeView
    requires pt.typeRef.Some? && pt.slot.Some?
  {
    TypeView(pt.slot.value, pt.typeRef.value.name)
  }

  function AbilityViewOf(pa: PokemonAbility): AbilityView
    requires pa.abilityRef.Some? && pa.slot.Some?
  {
    AbilityView(pa.slot.value, pa.abilityRef.value.name, pa.isHidden)
  }

  /** The slot as a sort key. */
  function TypeSlotKey(v: TypeView): int {
    v.slot
  }

  function AbilitySlotKey(v: AbilityView): int {
    v.slot
  }

  function TypeViews(ts: seq<PokemonType>): (r: seq<TypeView>)
    requires !TypeConversionFails(ts)
    ensures |r| == |ts|
    ensures forall i :: 0 <= i < |ts| ==> r[i] == TypeViewOf(ts[i])
  {
    seq(|ts|, i requires 0 <= i < |ts| => TypeViewOf(ts[i]))
  }

  function AbilityViews(as_: seq<PokemonAbility>): (r: seq<AbilityView>)
    requires !AbilityConversionFails(as_)
    ensures |r| == |as_|
    ensures forall i :: 0 <= i < |as_| ==> r[i] == AbilityViewOf(as_[i])
  {
    seq(|as_|, i requires 0 <= i < |as_| => AbilityViewOf(as_[i]))
  }

  /**
    `convertToResponse`: the scalar fields (the id narrowed to `int`), the
    sprite, and each non-empty assignment list as views sorted by slot. When
    either list cannot be converted, both lists are null.
  */
  function ConvertToResponse(p: Pokemon): (v: PokemonView)
    ensures v.id == Wrap32(p.id) && (IsInt32(p.id) ==> v.id == p.id)
    ensures v.name == p.name && v.englishName == p.englishName
    ensures v.height == p.height && v.weight == p.weight && v.sprite == p.spriteUrl
    ensures TypeConversionFails(p.types) || AbilityConversionFails(p.abilities) ==>
      v.types.None? && v.abilities.None?
    ensures v.types.None? <==>
      TypeConversionFails(p.types) || AbilityConversionFails(p.abilities) || p.types == []
    ensures v.abilities.None? <==>
      TypeConversionFails(p.types) || AbilityConversionFails(p.abilities) || p.abilities == []
    ensures v.types.Some? ==>
      && SortedBy(v.types.value, TypeSlotKey)
      && multiset(v.types.value) == multiset(TypeViews(p.types))
      && |v.types.value| == |p.types|
    ensures v.abilities.Some? ==>
      && SortedBy(v.abilities.value, AbilitySlotKey)
      && multiset(v.abilities.value) == multiset(AbilityViews(p.abilities))
      && |v.abilities.value| == |p.abilities|
  {
    var fails := TypeConversionFails(p.types) || AbilityConversionFails(p.abilities);
    var types: Option<seq<TypeView>> :=
      if fails || p.types == [] then None
      else Some(SortBy(TypeViews(p.types), TypeSlotKey));
    var abilities: Option<seq<AbilityView>> :=
      if fails || p.abilities == [] then None
      else Some(SortBy(AbilityViews(p.abilities), AbilitySlotKey));
    PokemonView(Wrap32(p.id), p.name, p.englishName, p.height, p.weight, p.spriteUrl, types, abilities)
  }

  /** Views of assignments that share a slot appear in the order the assignments are stored. */
  lemma ResponseKeepsOrderWithinSlot(p: Pokemon, slot: int)
    requires ConvertToResponse(p).types.Some?
    ensures Filter(ConvertToResponse(p).types.value, KeyIs(TypeSlotKey, slot)) ==
            Filter(TypeViews(p.types), KeyIs(TypeSlotKey, slot))
  {
    SortByIsStable(TypeViews(p.types), TypeSlotKey, slot);
  }

  // ---------------------------------------------------------------- summaries

  const DETAIL_PATH: string := "/api/pokemon/"

  /** `convertToSummary`: the display name and the detail path ending in the id. */
  function ConvertToSummary(p: Pokemon): (s: Summary)
    ensures s.name == p.name
    ensures |DETAIL_PATH| <= |s.url| && s.url[..|DETAIL_PATH|] == DETAIL_PATH
    ensures LONG_MIN <= p.id <= LONG_MAX ==> ParseLong(s.url[|DETAIL_PATH|..]) == Some(p.id)
  {
    var s := Summary(p.name, DETAIL_PATH + IntToString(p.id));
    assert s.url[|DETAIL_PATH|..] == IntToString(p.id);
    if LONG_MIN <= p.id <= LONG_MAX then
      ParseLongIntToString(p.id);
      s
    else s
  }

  /**
    `seg` starts at position `i` of `url`, right at the start or after a slash,
    and only slashes follow it.
  */
  predicate LastSegmentAt(url: string, i: nat, seg: string) {
    i + |seg| <= |url| && (i == 0 || url[i - 1] == '/') && url[i..i + |seg|] == seg
    && forall k :: i + |seg| <= k < |url| ==> url[k] == '/'
  }

  /**
    `String.split("/")` keeps the segments between slashes but drops trailing
    empty ones; this is its last element. There is none when the url holds only
    slashes (or nothing), and then reading it fails.
  */
  function LastSegment(url: string): (r: Option<string>)
    ensures r.Some? ==> r.value != [] && '/' !in r.value
    ensures r.Some? ==> exists i: nat :: LastSegmentAt(url, i, r.value)
    ensures r.None? <==> forall k :: 0 <= k < |url| ==> url[k] == '/'
    decreases |url|
  {
    if url == [] then None
    else if url[|url| - 1] == '/' then
      var front := url[..|url| - 1];
      var r := LastSegment(front);
      assert r.Some? ==> exists i: nat :: LastSegmentAt(url, i, r.value) by {
        if r.Some? {
          var i: nat :| LastSegmentAt(front, i, r.value);
          assert url[i..i + |r.value|] == front[i..i + |r.value|];
          assert LastSegmentAt(url, i, r.value);
        }
      }
      r
    else
      var i := LastSlashBefore(url, |url|);
      assert LastSegmentAt(url, i, url[i..]);
      Some(url[i..])
  }

  /** The position just after the last '/' in `url[..n]`, or 0 when there is none. */
  function LastSlashBefore(url: string, n: nat): (i: nat)
    requires n <= |url|
    ensures i <= n
    ensures forall j :: i <= j < n ==> url[j] != '/'
    ensures i > 0 ==> url[i - 1] == '/'
  {
    if n == 0 then 0
    else if url[n - 1] == '/' then n
    else LastSlashBefore(url, n - 1)
  }

  /** `Integer.parseInt`: `Long.parseLong` restricted to the `int` range. */
  function ParseInt(s: string): (r: Option<int>)
    ensures r.Some? ==> IsInt32(r.value)
    ensures r.Some? ==> ParseLong(s) == r
  {
    match ParseLong(s)
    case Some(v) => if IsInt32(v) then Some(v) else None
    case None => None
  }

  /** The summary's id, read back from the last path segment of its URL. */
  function SummaryId(s: Summary): Option<int> {
    match LastSegment(s.url)
    case None => None
    case Some(seg) => ParseInt(seg)
  }

  /** The last segment of a detail url is the id's decimal string. */
  lemma DetailUrlSegment(x: int)
    ensures LastSegment(DETAIL_PATH + IntToString(x)) == Some(IntToString(x))
  {
    var digits := IntToString(x);
    IntToStringHasNoSlash(x);
    LastSegmentAfterSlash(DETAIL_PATH[..|DETAIL_PATH| - 1], digits);
    assert DETAIL_PATH[..|DETAIL_PATH| - 1] + "/" + digits == DETAIL_PATH + digits;
  }

  /** Reading the id back from a summary's URL gives the row's id. */
  lemma SummaryIdRoundTrip(p: Pokemon)
    requires IsInt32(p.id)
    ensures SummaryId(ConvertToSummary(p)) == Some(p.id)
  {
    var digits := IntToString(p.id);
    assert ConvertToSummary(p).url == DETAIL_PATH + digits;
    DetailUrlSegment(p.id);
    ParseLongIntToString(p.id);
    assert ParseInt(digits) == Some(p.id);
  }

  lemma IntToStringHasNoSlash(x: int)
    ensures IntToString(x) != [] && '/' !in IntToString(x)
    ensures IntToString(x)[|IntToString(x)| - 1] != '/'
  {
    var s := IntToString(x);
    if x < 0 {
      assert s == "-" + NatToString(-x);
      assert forall j :: 1 <= j < |s| ==> s[j] == NatToString(-x)[j - 1];
    }
  }

  /** Behind a slash, a segment without slashes is the last segment. */
  lemma LastSegmentAfterSlash(front: string, seg: string)
    requires seg != [] && '/' !in seg
    ensures LastSegment(front + "/" + seg) == Some(seg)
  {
    var url := front + "/" + seg;
    assert url[|url| - 1] == seg[|seg| - 1];
    assert url[|front|] == '/';
    forall j | |front| + 1 <= j < |url| ensures url[j] != '/' {
      assert url[j] == seg[j - |front| - 1];
    }
    LastSlashFound(url, |url|, |front| + 1);
    assert url[|front| + 1..] == seg;
  }

  lemma {:induction false} LastSlashFound(url: string, n: nat, i: nat)
    requires 0 < i <= n <= |url| && url[i - 1] == '/'
    requires forall j :: i <= j < n ==> url[j] != '/'
    ensures LastSlashBefore(url, n) == i
    decreases n
  {
    if n > i {
      LastSlashFound(url, n - 1, i);
    }
  }
}
