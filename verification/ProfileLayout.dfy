/**
 * Where a security profile's policy has its protections. Its AI entries come in two layouts:
 * legacy, with one block under `model-configuration`, and directional, with a block for each
 * direction under `content-type-configurations`.
 */
module ProfileLayout {
  import opened Wrappers
  import opened Json
  import opened JsonPaths

  const AI_PROFILES := "ai-security-profiles"
  const MODEL_CONFIGURATION := "model-configuration"
  const CONTENT_TYPE_MODE := "content-type-mode"
  const CONTENT_TYPE_CONFIGURATIONS := "content-type-configurations"
  const PER_CONTENT_TYPE := "per_content_type"

  /** The directions known, in their order. */
  const DIRECTIONS: seq<string> := ["prompt", "response", "tool-call", "tool-response"]

  const DEFAULT_ENTRY: Fields := map["model-type" := String("default")]

  /** `--direction` and `--ai-profile-index`. */
  datatype Selector = Selector(direction: Option<string>, index: Option<nat>) {
    predicate IsGiven() {
      direction.Some? || index.Some?
    }
  }

  /** Where a protection block lives: an entry, and a direction of it or its
      `model-configuration`. */
  datatype Place = Place(index: nat, direction: Option<string>)

  datatype Location = Location(place: Place, configuration: Fields, active: bool)

  datatype Refusal =
    | NoSuchEntry
    | SeveralEntries
    | NeedsDirection
    | UnknownMode
    | DirectionAbsent
    | LegacyDirection
    | AmbiguousDetector
    | AmbiguousGuardrail
    | NotAssigned
    | ReferencedElsewhere

  // ---------------------------------------------------------------- reading

  predicate IsDirectional(entry: Fields) {
    GetText(Object(entry), CONTENT_TYPE_MODE) == Some(PER_CONTENT_TYPE) || CONTENT_TYPE_CONFIGURATIONS in entry
  }

  /** The AI entries (absent or not an array: none). */
  function Entries(policy: Fields): seq<Value> {
    ItemsAt(policy, AI_PROFILES)
  }

  /** An entry's block: its `model-configuration`, or a direction's object. */
  function BlockOf(entry: Fields, direction: Option<string>): Option<Fields> {
    var holder := if direction.None? then entry else ObjectAt(entry, CONTENT_TYPE_CONFIGURATIONS);
    var key := if direction.None? then MODEL_CONFIGURATION else direction.value;
    if key in holder && holder[key].Object? then Some(holder[key].fields) else None
  }

  /** The configuration object at a place, when there is one. */
  function ConfigurationAt(policy: Fields, place: Place): Option<Fields> {
    var entries := Entries(policy);
    if place.index < |entries| && entries[place.index].Object? then
      BlockOf(entries[place.index].fields, place.direction)
    else None
  }

  /** Whether a block is enforced: not the `model-configuration` of a directional entry. */
  predicate IsActive(policy: Fields, place: Place) {
    var entries := Entries(policy);
    place.direction.Some?
    || !(place.index < |entries| && entries[place.index].Object? && IsDirectional(entries[place.index].fields))
  }

  function PlacesOf(entry: Value, index: nat): (places: set<Place>)
    ensures forall p :: p in places <==> p.index == index && entry.Object? && BlockOf(entry.fields, p.direction).Some?
  {
    if !entry.Object? then {}
    else
      var directions := ObjectAt(entry.fields, CONTENT_TYPE_CONFIGURATIONS);
      (if BlockOf(entry.fields, None).Some? then {Place(index, None)} else {})
      + set d | d in directions && directions[d].Object? :: Place(index, Some(d))
  }

  function PlacesFrom(entries: seq<Value>, from: nat): (places: set<Place>)
    requires from <= |entries|
    ensures forall p :: p in places <==>
              from <= p.index < |entries| && entries[p.index].Object?
              && BlockOf(entries[p.index].fields, p.direction).Some?
    decreases |entries| - from
  {
    if from == |entries| then {} else PlacesOf(entries[from], from) + PlacesFrom(entries, from + 1)
  }

  /** Every place of a policy that holds a protection block. */
  function Places(policy: Fields): (places: set<Place>)
    ensures forall p :: p in places <==> ConfigurationAt(policy, p).Some?
  {
    PlacesFrom(Entries(policy), 0)
  }

  // ---------------------------------------------------------------- blocks of a document

  /** A protection block, read off the document: an entry's `model-configuration`, or the
      configuration of a direction. */
  function BlockIn(policy: Fields, entry: nat, direction: Option<string>): Option<Value> {
    var found := Item(Inside(Some(Object(policy)), "ai-security-profiles"), entry);
    if direction.None? then Inside(found, "model-configuration")
    else Inside(Inside(found, "content-type-configurations"), direction.value)
  }

  /** Every place is read so, and a block counts when it is an object. */
  lemma BlocksAreRead(policy: Fields, place: Place)
    ensures ConfigurationAt(policy, place) ==
            match BlockIn(policy, place.index, place.direction) case Some(Object(block)) => Some(block) case _ => None
  {
  }

  // ---------------------------------------------------------------- listing

  /** The order of an entry's blocks: its `model-configuration`, the known directions, the rest. */
  function Rank(direction: Option<string>): nat {
    if direction.None? then 0
    else if direction.value == "prompt" then 1
    else if direction.value == "response" then 2
    else if direction.value == "tool-call" then 3
    else if direction.value == "tool-response" then 4
    else 5
  }

  predicate InOrder(a: Place, b: Place) {
    a.index < b.index || (a.index == b.index && Rank(a.direction) <= Rank(b.direction))
  }

  ghost predicate Listed(policy: Fields, found: seq<Location>) {
    && (forall i | 0 <= i < |found| ::
          ConfigurationAt(policy, found[i].place) == Some(found[i].configuration)
          && found[i].active == IsActive(policy, found[i].place))
    && (forall i, j | 0 <= i < j < |found| ::
          found[i].place != found[j].place && InOrder(found[i].place, found[j].place))
  }

  predicate Has(found: seq<Location>, place: Place) {
    exists i | 0 <= i < |found| :: found[i].place == place
  }

  /** The blocks of the entries before `index`, and those of this one up to a rank. */
  predicate Upto(policy: Fields, index: nat, rank: nat, p: Place) {
    ConfigurationAt(policy, p).Some? && (p.index < index || (p.index == index && Rank(p.direction) <= rank))
  }

  ghost predicate ListedUpto(policy: Fields, found: seq<Location>, index: nat, rank: nat) {
    Listed(policy, found) && forall p :: Has(found, p) <==> Upto(policy, index, rank, p)
  }

  /** The place of a location, when it holds a block, is listed last. */
  method Add(policy: Fields, found: seq<Location>, place: Place) returns (more: seq<Location>)
    requires Listed(policy, found) && !Has(found, place)
    requires forall p | Has(found, p) :: InOrder(p, place)
    ensures Listed(policy, more)
    ensures forall p :: Has(more, p) <==> Has(found, p) || (p == place && ConfigurationAt(policy, p).Some?)
  {
    var configuration := ConfigurationAt(policy, place);
    if configuration.None? {
      return found;
    }
    var location := Location(place, configuration.value, IsActive(policy, place));
    more := found + [location];
    assert forall i | 0 <= i < |found| :: Has(found, found[i].place);
    forall p
      ensures Has(more, p) <==> Has(found, p) || p == place
    {
      if Has(found, p) {
        var i :| 0 <= i < |found| && found[i].place == p;
        assert more[i].place == p;
      }
      assert more[|found|].place == place;
    }
  }

  /** Every protection block, in entry order; in an entry its `model-configuration`, then the
      known directions in their order, then any other. */
  method Locations(policy: Fields) returns (found: seq<Location>)
    ensures Listed(policy, found)
    ensures forall p :: Has(found, p) <==> ConfigurationAt(policy, p).Some?
  {
    found := [];
    var entries := Entries(policy);
    for index := 0 to |entries|
      invariant Listed(policy, found)
      invariant forall p :: Has(found, p) <==> ConfigurationAt(policy, p).Some? && p.index < index
    {
      found := ListEntry(policy, found, index);
    }
  }

  method ListEntry(policy: Fields, before: seq<Location>, index: nat) returns (found: seq<Location>)
    requires Listed(policy, before) && index < |Entries(policy)|
    requires forall p :: Has(before, p) <==> ConfigurationAt(policy, p).Some? && p.index < index
    ensures Listed(policy, found)
    ensures forall p :: Has(found, p) <==> ConfigurationAt(policy, p).Some? && p.index < index + 1
  {
    var entry := Entries(policy)[index];
    if !entry.Object? {
      return before;
    }
    found := Add(policy, before, Place(index, None));
    for k := 0 to 4
      invariant ListedUpto(policy, found, index, k)
    {
      found := Add(policy, found, Place(index, Some(DIRECTIONS[k])));
    }
    var others := set d | d in ObjectAt(entry.fields, CONTENT_TYPE_CONFIGURATIONS) && Rank(Some(d)) == 5;
    while others != {}
      invariant Listed(policy, found)
      invariant forall d | d in others :: Rank(Some(d)) == 5
      invariant forall p :: Has(found, p) <==>
                  Upto(policy, index, 5, p) && !(p.index == index && p.direction.Some? && p.direction.value in others)
      decreases others
    {
      var d :| d in others;
      found := Add(policy, found, Place(index, Some(d)));
      others := others - {d};
    }
  }

  // ---------------------------------------------------------------- selecting

  /** The policy with a list of AI entries: an absent or null one becomes empty. */
  function WithEntries(policy: Fields): Fields {
    if AI_PROFILES !in policy || policy[AI_PROFILES].Null? then policy[AI_PROFILES := Array([])] else policy
  }

  /** The entry an edit is about: the one asked for, or the only one; an empty list gains a
      default when none was asked for. */
  function SelectAiProfile(policy: Fields, selector: Selector): Result<(Fields, nat), Refusal> {
    var listed := WithEntries(policy);
    if !listed[AI_PROFILES].Array? then Err(NoSuchEntry)
    else
      var entries := listed[AI_PROFILES].items;
      if selector.index.None? && |entries| > 1 then Err(SeveralEntries)
      else if entries == [] && selector.index.None? then
        Ok((listed[AI_PROFILES := Array([Object(DEFAULT_ENTRY)])], 0))
      else
        var index := if selector.index.Some? then selector.index.value else 0;
        if index < |entries| && entries[index].Object? then Ok((listed, index)) else Err(NoSuchEntry)
  }

  /** The entry with a block at its place, the object around it created when needed. */
  function WithBlock(entry: Fields, direction: Option<string>, block: Fields): Fields {
    if direction.None? then entry[MODEL_CONFIGURATION := Object(block)]
    else
      var directions := ObjectAt(entry, CONTENT_TYPE_CONFIGURATIONS);
      entry[CONTENT_TYPE_CONFIGURATIONS := Object(directions[direction.value := Object(block)])]
  }

  /** Why the protection block of an edit is refused. */
  function LayoutRefusal(entry: Fields, direction: Option<string>, allowMissing: bool): Option<Refusal> {
    if IsDirectional(entry) then
      if direction.None? then Some(NeedsDirection)
      else if CONTENT_TYPE_MODE in entry && GetText(Object(entry), CONTENT_TYPE_MODE) != Some(PER_CONTENT_TYPE) then
        Some(UnknownMode)
      else if BlockOf(entry, direction).None? && !allowMissing then Some(DirectionAbsent)
      else None
    else if direction.Some? then Some(LegacyDirection)
    else if CONTENT_TYPE_MODE in entry then Some(UnknownMode)
    else None
  }

  /** The entry with the protection block of an edit, `{}` when it was absent. */
  function SelectProtections(entry: Fields, direction: Option<string>, allowMissing: bool): Result<Fields, Refusal> {
    var refusal := LayoutRefusal(entry, direction, allowMissing);
    if refusal.Some? then Err(refusal.value) else Ok(WithBlock(entry, direction, BlockOrEmpty(entry, direction)))
  }

  function BlockOrEmpty(entry: Fields, direction: Option<string>): Fields {
    if BlockOf(entry, direction).Some? then BlockOf(entry, direction).value else map[]
  }

  predicate HasEntry(policy: Fields, index: nat) {
    index < |Entries(policy)| && Entries(policy)[index].Object?
  }

  function EntryAt(policy: Fields, index: nat): Fields
    requires HasEntry(policy, index)
  {
    Entries(policy)[index].fields
  }

  function WithEntry(policy: Fields, index: nat, entry: Fields): Fields
    requires HasEntry(policy, index)
  {
    policy[AI_PROFILES := Array(Entries(policy)[index := Object(entry)])]
  }

  /** The policy with a block at a place. */
  function WithConfiguration(policy: Fields, place: Place, block: Fields): Fields
    requires HasEntry(policy, place.index)
  {
    WithEntry(policy, place.index, WithBlock(EntryAt(policy, place.index), place.direction, block))
  }

  /** The selected entry is there; nothing else changes, but for the one default entry that an
      empty list gets. */
  lemma SelectedEntry(policy: Fields, selector: Selector)
    requires SelectAiProfile(policy, selector).Ok?
    ensures var (selected, index) := SelectAiProfile(policy, selector).value;
            && HasEntry(selected, index)
            && (selector.index.Some? ==> index == selector.index.value && selected == policy)
            && (selector.index.None? ==> index == 0 && |Entries(selected)| == 1)
            && (Entries(policy) != [] ==> selected == policy)
            && (Entries(policy) == [] ==> EntryAt(selected, 0) == map["model-type" := String("default")])
            && (forall key | key != AI_PROFILES ::
                  (key in selected <==> key in policy) && (key in policy ==> selected[key] == policy[key]))
  {
  }

  /** An entry can be selected, read off the document: the one asked for is an object of the list;
      where none is asked for, the list is empty, or null or absent, or has one object. */
  predicate Selects(policy: Fields, index: Option<nat>) {
    var list := Inside(Some(Object(policy)), "ai-security-profiles");
    && (list.None? || list.value.Null? || list.value.Array?)
    && (match index
        case None => |ItemsIn(list)| <= 1 && forall item | item in ItemsIn(list) :: item.Object?
        case Some(i) => i < |ItemsIn(list)| && ItemsIn(list)[i].Object?)
  }

  lemma SelectedExactly(policy: Fields, selector: Selector)
    ensures SelectAiProfile(policy, selector).Ok? <==> Selects(policy, selector.index)
    ensures var several := |ItemsIn(Inside(Some(Object(policy)), "ai-security-profiles"))| > 1;
            SelectAiProfile(policy, selector).Err? ==>
              SelectAiProfile(policy, selector).error ==
              if selector.index.None? && several then SeveralEntries else NoSuchEntry
  {
  }

  // ---------------------------------------------------------------- what an edit leaves

  predicate SameAt(a: Fields, b: Fields, key: string) {
    (key in a <==> key in b) && (key in a ==> a[key] == b[key])
  }

  /** Two entries that differ in one block at most. */
  ghost predicate OtherBlocksSame(before: Fields, after: Fields, direction: Option<string>) {
    if direction.None? then forall key | key != MODEL_CONFIGURATION :: SameAt(before, after, key)
    else
      && (forall key | key != CONTENT_TYPE_CONFIGURATIONS :: SameAt(before, after, key))
      && (forall d | d != direction.value ::
            SameAt(ObjectAt(before, CONTENT_TYPE_CONFIGURATIONS), ObjectAt(after, CONTENT_TYPE_CONFIGURATIONS), d))
  }

  /** Two policies that differ in one place at most (an empty list counts as the default entry). */
  ghost predicate OnlyPlaceChanged(before: Fields, after: Fields, place: Place) {
    && (forall key | key != AI_PROFILES :: SameAt(before, after, key))
    && HasEntry(after, place.index)
    && (if Entries(before) == [] then
          |Entries(after)| == 1 && OtherBlocksSame(DEFAULT_ENTRY, EntryAt(after, 0), place.direction)
        else
          && |Entries(after)| == |Entries(before)|
          && (forall i | 0 <= i < |Entries(before)| && i != place.index :: Entries(after)[i] == Entries(before)[i])
          && HasEntry(before, place.index)
          && OtherBlocksSame(EntryAt(before, place.index), EntryAt(after, place.index), place.direction))
  }

  lemma BlockWritten(entry: Fields, direction: Option<string>, block: Fields)
    ensures BlockOf(WithBlock(entry, direction, block), direction) == Some(block)
    ensures forall d | d != direction :: BlockOf(WithBlock(entry, direction, block), d) == BlockOf(entry, d)
    ensures OtherBlocksSame(entry, WithBlock(entry, direction, block), direction)
    ensures forall b :: WithBlock(WithBlock(entry, direction, block), direction, b) == WithBlock(entry, direction, b)
    ensures BlockOf(entry, direction) == Some(block) ==> WithBlock(entry, direction, block) == entry
  {
    var written := WithBlock(entry, direction, block);
    forall b
      ensures WithBlock(written, direction, b) == WithBlock(entry, direction, b)
    {
      if direction.Some? {
        var directions := ObjectAt(entry, CONTENT_TYPE_CONFIGURATIONS);
        assert directions[direction.value := Object(block)][direction.value := Object(b)]
            == directions[direction.value := Object(b)];
      }
    }
    if BlockOf(entry, direction) == Some(block) && direction.Some? {
      var directions := ObjectAt(entry, CONTENT_TYPE_CONFIGURATIONS);
      assert directions[direction.value := Object(block)] == directions;
    }
  }

  /** Writing a block at a place: it is there, every other place keeps its own. */
  lemma ConfigurationWritten(policy: Fields, place: Place, block: Fields)
    requires HasEntry(policy, place.index)
    ensures ConfigurationAt(WithConfiguration(policy, place, block), place) == Some(block)
    ensures forall p | p != place ::
              ConfigurationAt(WithConfiguration(policy, place, block), p) == ConfigurationAt(policy, p)
    ensures OnlyPlaceChanged(policy, WithConfiguration(policy, place, block), place)
    ensures ConfigurationAt(policy, place) == Some(block) ==> WithConfiguration(policy, place, block) == policy
  {
    var entry := EntryAt(policy, place.index);
    BlockWritten(entry, place.direction, block);
    if ConfigurationAt(policy, place) == Some(block) {
      assert Entries(policy)[place.index := Object(entry)] == Entries(policy);
    }
  }

  lemma OtherBlocksTransitive(a: Fields, b: Fields, c: Fields, direction: Option<string>)
    requires OtherBlocksSame(a, b, direction) && OtherBlocksSame(b, c, direction)
    ensures OtherBlocksSame(a, c, direction)
  {
    var key := if direction.None? then MODEL_CONFIGURATION else CONTENT_TYPE_CONFIGURATIONS;
    forall k | k != key
      ensures SameAt(a, c, k)
    {
      assert SameAt(a, b, k) && SameAt(b, c, k);
    }
    if direction.Some? {
      forall d | d != direction.value
        ensures SameAt(ObjectAt(a, CONTENT_TYPE_CONFIGURATIONS), ObjectAt(c, CONTENT_TYPE_CONFIGURATIONS), d)
      {
        assert SameAt(ObjectAt(a, CONTENT_TYPE_CONFIGURATIONS), ObjectAt(b, CONTENT_TYPE_CONFIGURATIONS), d);
        assert SameAt(ObjectAt(b, CONTENT_TYPE_CONFIGURATIONS), ObjectAt(c, CONTENT_TYPE_CONFIGURATIONS), d);
      }
    }
  }

  lemma OnlyPlaceTransitive(a: Fields, b: Fields, c: Fields, place: Place)
    requires OnlyPlaceChanged(a, b, place) && OnlyPlaceChanged(b, c, place)
    ensures OnlyPlaceChanged(a, c, place)
  {
    forall k | k != AI_PROFILES
      ensures SameAt(a, c, k)
    {
      assert SameAt(a, b, k) && SameAt(b, c, k);
    }
    var first := if Entries(a) == [] then DEFAULT_ENTRY else EntryAt(a, place.index);
    OtherBlocksTransitive(first, EntryAt(b, place.index), EntryAt(c, place.index), place.direction);
  }

  /** An allowed edit names a direction exactly when the entry is directional, and never makes a
      legacy entry directional or the reverse; without leave the direction was there before. */
  lemma EditKeepsLayout(entry: Fields, direction: Option<string>, allowMissing: bool, block: Fields)
    requires LayoutRefusal(entry, direction, allowMissing) == None
    ensures direction.Some? <==> IsDirectional(entry)
    ensures IsDirectional(WithBlock(entry, direction, block)) == IsDirectional(entry)
    ensures direction.Some? && !allowMissing ==> BlockOf(entry, direction).Some?
  {
  }

  /** When an edit is allowed, on the entry's own keys: without a direction neither key of the
      directional layout is there; with one the entry is directional, its mode is the known one
      or none, and, unless it may be missing, the direction has an object. */
  predicate Allows(entry: Fields, direction: Option<string>, allowMissing: bool) {
    if direction.None? then "content-type-mode" !in entry && "content-type-configurations" !in entry
    else
      && ("content-type-mode" in entry || "content-type-configurations" in entry)
      && ("content-type-mode" in entry ==> entry["content-type-mode"] == String("per_content_type"))
      && (!allowMissing ==>
            var found := Inside(Inside(Some(Object(entry)), "content-type-configurations"), direction.value);
            found.Some? && found.value.Object?)
  }

  lemma AllowedExactly(entry: Fields, direction: Option<string>, allowMissing: bool)
    ensures LayoutRefusal(entry, direction, allowMissing) == None <==> Allows(entry, direction, allowMissing)
  {
  }

  /** And why it is refused. */
  lemma RefusedBecause(entry: Fields, direction: Option<string>, allowMissing: bool)
    requires LayoutRefusal(entry, direction, allowMissing).Some?
    ensures var refusal := LayoutRefusal(entry, direction, allowMissing).value;
            var mode := Inside(Some(Object(entry)), "content-type-mode");
            var known := mode == Some(String("per_content_type"));
            var directional := known || "content-type-configurations" in entry;
            && (refusal == NeedsDirection <==> directional && direction.None?)
            && (refusal == LegacyDirection <==> !directional && direction.Some?)
            && (refusal == UnknownMode <==> mode.Some? && !known && (directional <==> direction.Some?))
            && (refusal == DirectionAbsent <==> directional && direction.Some? && (mode.None? || known))
  {
  }

  /** What is enforced: everything but the `model-configuration` of a directional entry. */
  lemma ActiveExactly(policy: Fields, place: Place)
    ensures var entry := Item(Inside(Some(Object(policy)), "ai-security-profiles"), place.index);
            IsActive(policy, place) <==>
            || place.direction.Some?
            || (Inside(entry, "content-type-mode") != Some(String("per_content_type"))
                && Inside(entry, "content-type-configurations").None?)
  {
  }

  // ---------------------------------------------------------------- selecting again

  /** A block that was allowed is allowed again, whatever was written there. */
  lemma AllowedAgain(entry: Fields, direction: Option<string>, allowMissing: bool, block: Fields)
    requires LayoutRefusal(entry, direction, allowMissing) == None
    ensures LayoutRefusal(WithBlock(entry, direction, block), direction, false) == None
    ensures SelectProtections(WithBlock(entry, direction, block), direction, false)
            == Ok(WithBlock(entry, direction, block))
  {
    BlockWritten(entry, direction, block);
    BlockWritten(WithBlock(entry, direction, block), direction, block);
  }

  /** The entry that was selected is selected again, whatever it became. */
  lemma EntryAgain(policy: Fields, selector: Selector, entry: Fields)
    requires SelectAiProfile(policy, selector).Ok?
    ensures var (selected, index) := SelectAiProfile(policy, selector).value;
            && HasEntry(selected, index)
            && SelectAiProfile(WithEntry(selected, index, entry), selector)
               == Ok((WithEntry(selected, index, entry), index))
  {
    SelectedEntry(policy, selector);
  }
}
