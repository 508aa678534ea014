/**
 * `merge_settings`: flags laid over a configuration, object by object. Arrays of detectors go by
 * name: an item changes the one detector of its name, joins at the end when there is none, and is
 * refused when there are two.
 */
module SettingsMerge {
  import opened Wrappers
  import opened Json

  const NAME := "name"
  const MALICIOUS_PROTECTION := "malicious-code-protection"

  /** The detector arrays merged by `name`. */
  predicate IsNamedArray(key: string) {
    key == "model-protection" || key == "agent-protection" || key == "database-security"
  }

  /** How many items have exactly this name (none at all counts as a name too). */
  function Count(items: seq<Value>, name: Option<Value>): nat {
    if items == [] then 0 else (if Get(items[0], NAME) == name then 1 else 0) + Count(items[1..], name)
  }

  /** The first item of this name. */
  function First(items: seq<Value>, name: Option<Value>): (at: nat)
    requires Count(items, name) > 0
    ensures at < |items| && Get(items[at], NAME) == name
    ensures forall i | 0 <= i < at :: Get(items[i], NAME) != name
  {
    if Get(items[0], NAME) == name then 0 else 1 + First(items[1..], name)
  }

  // ---------------------------------------------------------------- what a merge gives

  /** The merged configuration; `None` is the refusal of an ambiguous name. */
  function Merge(base: Fields, patch: Fields): Option<Fields>
    decreases Object(patch), 0
  {
    if forall key | key in patch :: MergeValue(base, key, patch[key]).Some? then
      Some(map key | key in base.Keys + patch.Keys ::
             if key in patch then MergeValue(base, key, patch[key]).value else base[key])
    else None
  }

  /** The value a patched key gets. */
  function MergeValue(base: Fields, key: string, value: Value): Option<Value>
    decreases value, 1
  {
    if value.Array? && IsNamedArray(key) then
      match MergeItems(ItemsAt(base, key), value.items)
      case None => None
      case Some(merged) => Some(Array(merged))
    else if value.Object? then
      match Merge(ObjectAt(base, key), value.fields)
      case None => None
      case Some(target) => Some(Object(Named(key, target)))
    else Some(value)
  }

  /** A malicious-code object without a name gets one. */
  function Named(key: string, target: Fields): Fields {
    if key == MALICIOUS_PROTECTION && NAME !in target then target[NAME := String("malicious-code")] else target
  }

  function MergeItems(merged: seq<Value>, items: seq<Value>): Option<seq<Value>>
    decreases items
  {
    if items == [] then Some(merged)
    else
      match MergeItem(merged, items[0])
      case None => None
      case Some(next) => MergeItems(next, items[1..])
  }

  function MergeItem(merged: seq<Value>, item: Value): Option<seq<Value>>
    decreases item, 2
  {
    var name := Get(item, NAME);
    var count := Count(merged, name);
    if count == 0 then Some(merged + [item])
    else if count > 1 then None
    else
      var at := First(merged, name);
      match MergeOne(merged[at], item)
      case None => None
      case Some(slot) => Some(merged[at := slot])
  }

  /** Two objects are merged; anything else is replaced. */
  function MergeOne(slot: Value, item: Value): Option<Value>
    decreases item, 1
  {
    if slot.Object? && item.Object? then
      match Merge(slot.fields, item.fields)
      case None => None
      case Some(fields) => Some(Object(fields))
    else Some(item)
  }

  // ---------------------------------------------------------------- the loops

  /**
   * The two loops of `merge_settings`, over the patch's keys in any order and over a detector
   * array's items. It fails exactly when the merge is refused.
   */
  method MergeSettings(base: Fields, patch: Fields) returns (r: Result<Fields, ()>)
    ensures r.Ok? <==> Merge(base, patch).Some?
    ensures r.Ok? ==> r.value == Merge(base, patch).value
    decreases Object(patch), 0
  {
    var fields := base;
    var todo := patch.Keys;
    while todo != {}
      invariant todo <= patch.Keys && MergedBut(base, patch, todo, fields)
      decreases todo
    {
      var key :| key in todo;
      var value := MergeKey(fields, key, patch[key]);
      SameAtKey(base, fields, key, patch[key]);
      if value.Err? {
        return Err(());
      }
      MergedMore(base, patch, todo, fields, key, value.value);
      fields := fields[key := value.value];
      todo := todo - {key};
    }
    MergedAll(base, patch, fields);
    r := Ok(fields);
  }

  /** The configuration with the patch's keys merged, but for some. */
  ghost predicate MergedBut(base: Fields, patch: Fields, todo: set<string>, fields: Fields) {
    && fields.Keys == base.Keys + (patch.Keys - todo)
    && (forall key | key in patch && key !in todo :: MergeValue(base, key, patch[key]).Some?)
    && (forall key | key in fields ::
          fields[key] == if key in patch && key !in todo then MergeValue(base, key, patch[key]).value else base[key])
  }

  lemma MergedMore(base: Fields, patch: Fields, todo: set<string>, fields: Fields, key: string, value: Value)
    requires MergedBut(base, patch, todo, fields) && key in todo && key in patch
    requires MergeValue(base, key, patch[key]) == Some(value)
    ensures MergedBut(base, patch, todo - {key}, fields[key := value])
  {
  }

  lemma MergedAll(base: Fields, patch: Fields, fields: Fields)
    requires MergedBut(base, patch, {}, fields)
    ensures Merge(base, patch) == Some(fields)
  {
    assert Merge(base, patch).value == fields;
  }

  /** A key's merge reads the base at that key alone. */
  lemma SameAtKey(base: Fields, fields: Fields, key: string, value: Value)
    requires key in base <==> key in fields
    requires key in base ==> base[key] == fields[key]
    ensures MergeValue(fields, key, value) == MergeValue(base, key, value)
  {
  }

  method MergeKey(base: Fields, key: string, value: Value) returns (r: Result<Value, ()>)
    ensures r.Ok? <==> MergeValue(base, key, value).Some?
    ensures r.Ok? ==> r.value == MergeValue(base, key, value).value
    decreases value, 1
  {
    if value.Array? && IsNamedArray(key) {
      var merged := MergeArray(ItemsAt(base, key), value.items);
      return if merged.Ok? then Ok(Array(merged.value)) else Err(());
    }
    if value.Object? {
      var target := MergeSettings(ObjectAt(base, key), value.fields);
      return if target.Ok? then Ok(Object(Named(key, target.value))) else Err(());
    }
    return Ok(value);
  }

  method MergeArray(existing: seq<Value>, items: seq<Value>) returns (r: Result<seq<Value>, ()>)
    ensures r.Ok? <==> MergeItems(existing, items).Some?
    ensures r.Ok? ==> r.value == MergeItems(existing, items).value
    decreases items
  {
    var merged := existing;
    for i := 0 to |items|
      invariant MergeItems(merged, items[i..]) == MergeItems(existing, items)
    {
      assert items[i..][0] == items[i] && items[i..][1..] == items[i + 1..];
      var next := MergeDetector(merged, items[i]);
      if next.Err? {
        return Err(());
      }
      merged := next.value;
    }
    r := Ok(merged);
  }

  method MergeDetector(merged: seq<Value>, item: Value) returns (r: Result<seq<Value>, ()>)
    ensures r.Ok? <==> MergeItem(merged, item).Some?
    ensures r.Ok? ==> r.value == MergeItem(merged, item).value
    decreases item, 2
  {
    var name := Get(item, NAME);
    var count := Count(merged, name);
    if count == 0 {
      return Ok(merged + [item]);
    }
    if count > 1 {
      return Err(());
    }
    var at := First(merged, name);
    if merged[at].Object? && item.Object? {
      var fields := MergeSettings(merged[at].fields, item.fields);
      return if fields.Ok? then Ok(merged[at := Object(fields.value)]) else Err(());
    }
    return Ok(merged[at := item]);
  }

  // ---------------------------------------------------------------- what a merge keeps

  /** A merge keeps the base's keys it does not patch, and drops none. */
  lemma UnpatchedKeysStay(base: Fields, patch: Fields)
    requires Merge(base, patch).Some?
    ensures Merge(base, patch).value.Keys == base.Keys + patch.Keys
    ensures forall key | key in base && key !in patch :: Merge(base, patch).value[key] == base[key]
  {
  }

  /** Names that merging leaves as they are: texts, numbers, or none. */
  predicate PlainNames(items: seq<Value>) {
    forall i | 0 <= i < |items| :: Get(items[i], NAME).Some? ==> !Get(items[i], NAME).value.Object?
  }

  lemma MergeOneKeepsName(slot: Value, item: Value)
    requires Get(slot, NAME) == Get(item, NAME) && PlainNames([item]) && MergeOne(slot, item).Some?
    ensures Get(MergeOne(slot, item).value, NAME) == Get(item, NAME)
  {
    assert PlainNames([item]) ==> Get([item][0], NAME).Some? ==> !Get([item][0], NAME).value.Object?;
    if slot.Object? && item.Object? {
      UnpatchedKeysStay(slot.fields, item.fields);
      if NAME in item.fields {
        assert MergeValue(slot.fields, NAME, item.fields[NAME]) == Some(item.fields[NAME]);
      }
    }
  }

  lemma {:induction false} CountAppend(a: seq<Value>, b: seq<Value>, name: Option<Value>)
    ensures Count(a + b, name) == Count(a, name) + Count(b, name)
  {
    if a == [] {
      assert a + b == b;
    } else {
      assert (a + b)[1..] == a[1..] + b;
      CountAppend(a[1..], b, name);
    }
  }

  lemma {:induction false} CountUpdate(items: seq<Value>, at: nat, value: Value, name: Option<Value>)
    requires at < |items| && Get(value, NAME) == Get(items[at], NAME)
    ensures Count(items[at := value], name) == Count(items, name)
  {
    if at == 0 {
      assert items[0 := value][1..] == items[1..];
    } else {
      assert items[at := value][1..] == items[1..][at - 1 := value];
      CountUpdate(items[1..], at - 1, value, name);
    }
  }

  lemma {:induction false} CountPositive(items: seq<Value>, at: nat)
    requires at < |items|
    ensures Count(items, Get(items[at], NAME)) >= 1
  {
    if at > 0 {
      CountPositive(items[1..], at - 1);
    }
  }

  lemma {:induction false} CountOneIsFirst(items: seq<Value>, at: nat)
    requires at < |items| && Count(items, Get(items[at], NAME)) == 1
    ensures First(items, Get(items[at], NAME)) == at
  {
    if at > 0 {
      CountPositive(items[1..], at - 1);
      CountOneIsFirst(items[1..], at - 1);
    }
  }

  /** How often a name occurs after one item is merged: a new name joins once. */
  lemma ItemCounts(merged: seq<Value>, item: Value, name: Option<Value>)
    requires PlainNames([item]) && MergeItem(merged, item).Some?
    ensures var next := MergeItem(merged, item).value;
            && Count(next, name) == (if name == Get(item, NAME) then 1 else Count(merged, name))
            && |next| == |merged| + (if Count(merged, Get(item, NAME)) == 0 then 1 else 0)
            && (forall q | 0 <= q < |merged| :: Get(next[q], NAME) == Get(merged[q], NAME))
            && (forall q | 0 <= q < |merged| && Get(merged[q], NAME) != Get(item, NAME) :: next[q] == merged[q])
  {
    var own := Get(item, NAME);
    if Count(merged, own) == 0 {
      CountAppend(merged, [item], name);
    } else {
      var at := First(merged, own);
      MergeOneKeepsName(merged[at], item);
      CountUpdate(merged, at, MergeOne(merged[at], item).value, name);
    }
  }

  predicate Patched(items: seq<Value>, name: Option<Value>) {
    exists i | 0 <= i < |items| :: Get(items[i], NAME) == name
  }

  /** No detector is dropped, moved or renamed; one whose name is not patched is untouched; a
      patched name occurs exactly once in the end; no other name joins. */
  lemma {:induction false} DetectorsStay(existing: seq<Value>, items: seq<Value>, name: Option<Value>)
    requires PlainNames(items) && MergeItems(existing, items).Some?
    ensures var merged := MergeItems(existing, items).value;
            && |existing| <= |merged|
            && (forall q | 0 <= q < |existing| :: Get(merged[q], NAME) == Get(existing[q], NAME))
            && (forall q | 0 <= q < |existing| && !Patched(items, Get(existing[q], NAME)) :: merged[q] == existing[q])
            && Count(merged, name) == (if Patched(items, name) then 1 else Count(existing, name))
    decreases |items|
  {
    if items != [] {
      var next := MergeItem(existing, items[0]).value;
      assert PlainNames([items[0]]);
      ItemCounts(existing, items[0], name);
      DetectorsStay(next, items[1..], name);
      assert forall n :: Patched(items, n) <==> Get(items[0], NAME) == n || Patched(items[1..], n) by {
        forall n
          ensures Patched(items, n) <==> Get(items[0], NAME) == n || Patched(items[1..], n)
        {
          PatchedHead(items, n);
        }
      }
    }
  }

  lemma PatchedHead(items: seq<Value>, name: Option<Value>)
    requires items != []
    ensures Patched(items, name) <==> Get(items[0], NAME) == name || Patched(items[1..], name)
  {
    if i :| 0 <= i < |items| && Get(items[i], NAME) == name {
      assert i > 0 ==> items[1..][i - 1] == items[i];
    }
    if i :| 0 <= i < |items[1..]| && Get(items[1..][i], NAME) == name {
      assert items[i + 1] == items[1..][i];
    }
  }

  // ---------------------------------------------------------------- flat patches

  /** A detector whose fields a merge just replaces. */
  predicate FlatItem(item: Value) {
    item.Object? ==>
      forall key | key in item.fields ::
        !item.fields[key].Object? && !(item.fields[key].Array? && IsNamedArray(key))
  }

  predicate FlatItems(items: seq<Value>) {
    forall i | 0 <= i < |items| :: FlatItem(items[i])
  }

  /** A patch whose detector items are flat, at any depth, as the flags build it. */
  predicate FlatPatch(patch: Fields)
    decreases Object(patch)
  {
    forall key | key in patch ::
      && (patch[key].Array? && IsNamedArray(key) ==> FlatItems(patch[key].items))
      && (patch[key].Object? ==> FlatPatch(patch[key].fields))
  }

  lemma FlatNamesArePlain(items: seq<Value>)
    requires FlatItems(items)
    ensures PlainNames(items)
  {
  }

  /** Merging flat fields is replacing them. */
  lemma FlatMerge(base: Fields, item: Value)
    requires item.Object? && FlatItem(item)
    ensures Merge(base, item.fields) == Some(base + item.fields)
  {
    forall key | key in item.fields
      ensures MergeValue(base, key, item.fields[key]) == Some(item.fields[key])
    {
    }
    assert Merge(base, item.fields).value == base + item.fields;
  }

  /** The slot after a flat item is merged into it. */
  function Overlaid(slot: Value, item: Value): Value {
    if slot.Object? && item.Object? then Object(slot.fields + item.fields) else item
  }

  lemma FlatMergeOne(slot: Value, item: Value)
    requires FlatItem(item)
    ensures MergeOne(slot, item) == Some(Overlaid(slot, item))
  {
    if slot.Object? && item.Object? {
      FlatMerge(slot.fields, item);
    }
  }

  // ---------------------------------------------------------------- when a merge is refused

  /** A patched name occurs at least twice in the array it reaches. */
  predicate AmbiguousItems(existing: seq<Value>, items: seq<Value>) {
    exists i | 0 <= i < |items| :: Count(existing, Get(items[i], NAME)) >= 2
  }

  predicate Ambiguous(base: Fields, patch: Fields)
    decreases Object(patch)
  {
    exists key | key in patch ::
      || (patch[key].Array? && IsNamedArray(key) && AmbiguousItems(ItemsAt(base, key), patch[key].items))
      || (patch[key].Object? && Ambiguous(ObjectAt(base, key), patch[key].fields))
  }

  lemma {:induction false} ItemsRefused(existing: seq<Value>, items: seq<Value>)
    requires FlatItems(items)
    ensures MergeItems(existing, items).None? <==> AmbiguousItems(existing, items)
    decreases |items|
  {
    if items != [] {
      var item := items[0];
      assert FlatItem(item);
      var own := Get(item, NAME);
      if Count(existing, own) == 1 {
        FlatMergeOne(existing[First(existing, own)], item);
      }
      if Count(existing, own) < 2 {
        var next := MergeItem(existing, item).value;
        assert PlainNames([item]);
        forall name
          ensures Count(next, name) >= 2 <==> Count(existing, name) >= 2
        {
          ItemCounts(existing, item, name);
        }
        assert FlatItems(items[1..]);
        ItemsRefused(next, items[1..]);
        assert AmbiguousItems(existing, items) <==> AmbiguousItems(next, items[1..]) by {
          if i :| 0 <= i < |items| && Count(existing, Get(items[i], NAME)) >= 2 {
            assert items[1..][i - 1] == items[i];
          }
          if i :| 0 <= i < |items[1..]| && Count(next, Get(items[1..][i], NAME)) >= 2 {
            assert items[i + 1] == items[1..][i];
          }
        }
      } else {
        assert AmbiguousItems(existing, items);
      }
    }
  }

  /** A flat patch is refused exactly when a patched name is ambiguous where it reaches. */
  lemma {:induction false} RefusedExactly(base: Fields, patch: Fields)
    requires FlatPatch(patch)
    ensures Merge(base, patch).None? <==> Ambiguous(base, patch)
    decreases Object(patch)
  {
    forall key | key in patch
      ensures MergeValue(base, key, patch[key]).None? <==>
              || (patch[key].Array? && IsNamedArray(key) && AmbiguousItems(ItemsAt(base, key), patch[key].items))
              || (patch[key].Object? && Ambiguous(ObjectAt(base, key), patch[key].fields))
    {
      if patch[key].Array? && IsNamedArray(key) {
        ItemsRefused(ItemsAt(base, key), patch[key].items);
      } else if patch[key].Object? {
        RefusedExactly(ObjectAt(base, key), patch[key].fields);
      }
    }
  }

  // ---------------------------------------------------------------- merging twice

  /** What the items of one name do to a slot, whatever it holds. */
  datatype Effect = Keep | Overlay(fields: Fields) | Replace(value: Value)

  function Apply(effect: Effect, slot: Value): Value {
    match effect
    case Keep => slot
    case Overlay(fields) => if slot.Object? then Object(slot.fields + fields) else Object(fields)
    case Replace(value) => value
  }

  /** The effect of all items of a name, in order. */
  function EffectOf(items: seq<Value>, name: Option<Value>): Effect {
    if items == [] then Keep
    else
      var last := items[|items| - 1];
      var before := EffectOf(items[..|items| - 1], name);
      if Get(last, NAME) != name then before
      else if !last.Object? then Replace(last)
      else
        match before
        case Keep => Overlay(last.fields)
        case Overlay(fields) => Overlay(fields + last.fields)
        case Replace(value) => Replace(Overlaid(value, last))
  }

  lemma EffectTwice(effect: Effect, slot: Value)
    ensures Apply(effect, Apply(effect, slot)) == Apply(effect, slot)
  {
    if effect.Overlay? && slot.Object? {
      assert slot.fields + effect.fields + effect.fields == slot.fields + effect.fields;
    }
  }

  /** One more item of the name is overlaid on what the earlier ones did. */
  lemma EffectGrows(items: seq<Value>, slot: Value)
    requires items != []
    ensures var last := items[|items| - 1];
            var name := Get(last, NAME);
            Apply(EffectOf(items, name), slot) == Overlaid(Apply(EffectOf(items[..|items| - 1], name), slot), last)
  {
    var last := items[|items| - 1];
    var before := EffectOf(items[..|items| - 1], Get(last, NAME));
    if before.Overlay? && last.Object? && slot.Object? {
      assert slot.fields + (before.fields + last.fields) == (slot.fields + before.fields) + last.fields;
    }
  }

  lemma {:induction false} MergeItemsSnoc(merged: seq<Value>, items: seq<Value>, k: nat)
    requires k < |items|
    ensures items[..k + 1] == items[..k] + [items[k]]
    ensures MergeItems(merged, items[..k + 1]) ==
            match MergeItems(merged, items[..k]) case None => None case Some(next) => MergeItem(next, items[k])
    decreases k
  {
    assert items[..k + 1] == items[..k] + [items[k]];
    if k > 0 {
      assert items[..k][1..] == items[1..][..k - 1] && items[..k + 1][1..] == items[1..][..k];
      if MergeItem(merged, items[0]).Some? {
        MergeItemsSnoc(MergeItem(merged, items[0]).value, items[1..], k - 1);
      }
    }
  }

  /** Every item's name occurs exactly once. */
  predicate EachOnce(merged: seq<Value>, items: seq<Value>) {
    forall i | 0 <= i < |items| :: Count(merged, Get(items[i], NAME)) == 1
  }

  /** Each existing slot gets exactly its name's items, in order. */
  lemma {:induction false} SlotsAreOverlaid(slots: seq<Value>, items: seq<Value>, k: nat)
    requires FlatItems(items) && k <= |items| && MergeItems(slots, items[..k]).Some?
    ensures var merged := MergeItems(slots, items[..k]).value;
            && |slots| <= |merged|
            && forall q | 0 <= q < |slots| ::
                 && merged[q] == Apply(EffectOf(items[..k], Get(slots[q], NAME)), slots[q])
                 && Get(merged[q], NAME) == Get(slots[q], NAME)
    decreases k
  {
    if k > 0 {
      MergeItemsSnoc(slots, items, k - 1);
      SlotsAreOverlaid(slots, items, k - 1);
      var before, item := MergeItems(slots, items[..k - 1]).value, items[k - 1];
      assert items[..k][..k - 1] == items[..k - 1];
      forall q | 0 <= q < |slots|
        ensures var after := MergeItem(before, item).value[q];
                && after == Apply(EffectOf(items[..k], Get(slots[q], NAME)), slots[q])
                && Get(after, NAME) == Get(slots[q], NAME)
      {
        SlotAfter(before, item, q);
        if Get(slots[q], NAME) == Get(item, NAME) {
          EffectGrows(items[..k], slots[q]);
        }
      }
    }
  }

  /** Where every name is there once, nothing is refused and nothing appended. */
  lemma {:induction false} NothingJoins(slots: seq<Value>, items: seq<Value>, k: nat)
    requires FlatItems(items) && EachOnce(slots, items) && k <= |items|
    ensures MergeItems(slots, items[..k]).Some? && |MergeItems(slots, items[..k]).value| == |slots|
    decreases k
  {
    if k > 0 {
      NothingJoins(slots, items, k - 1);
      MergeItemsSnoc(slots, items, k - 1);
      SlotsAreOverlaid(slots, items, k - 1);
      var before, item := MergeItems(slots, items[..k - 1]).value, items[k - 1];
      SameNamesSameCount(before, slots, Get(item, NAME));
      FlatMergeOne(before[First(before, Get(item, NAME))], item);
    }
  }

  lemma {:induction false} SameNamesSameCount(a: seq<Value>, b: seq<Value>, name: Option<Value>)
    requires |a| == |b| && forall q | 0 <= q < |a| :: Get(a[q], NAME) == Get(b[q], NAME)
    ensures Count(a, name) == Count(b, name)
  {
    if a != [] {
      SameNamesSameCount(a[1..], b[1..], name);
    }
  }

  lemma {:induction false} UnpatchedHasNoEffect(items: seq<Value>, name: Option<Value>)
    requires !Patched(items, name)
    ensures EffectOf(items, name) == Keep
    decreases |items|
  {
    if items != [] {
      var init := items[..|items| - 1];
      assert Get(items[|items| - 1], NAME) != name;
      assert forall i | 0 <= i < |init| :: init[i] == items[i];
      UnpatchedHasNoEffect(init, name);
    }
  }

  /** A slot that is the effect of its name's items on some value of that name. */
  ghost predicate Made(items: seq<Value>, slot: Value) {
    exists was :: MadeFrom(items, slot, was)
  }

  ghost predicate AllMade(items: seq<Value>, slots: seq<Value>) {
    forall q | 0 <= q < |slots| :: Made(items, slots[q])
  }

  predicate MadeFrom(items: seq<Value>, slot: Value, was: Value) {
    Get(was, NAME) == Get(slot, NAME) && slot == Apply(EffectOf(items, Get(slot, NAME)), was)
  }

  /** After a merge every slot is made of its name's items. */
  lemma {:induction false} MergedAreMade(existing: seq<Value>, items: seq<Value>, k: nat)
    requires FlatItems(items) && k <= |items| && MergeItems(existing, items[..k]).Some?
    ensures AllMade(items[..k], MergeItems(existing, items[..k]).value)
    decreases k
  {
    if k == 0 {
      forall q | 0 <= q < |existing|
        ensures Made(items[..0], existing[q])
      {
        assert MadeFrom(items[..0], existing[q], existing[q]);
      }
    } else {
      MergeItemsSnoc(existing, items, k - 1);
      MergedAreMade(existing, items, k - 1);
      var before := MergeItems(existing, items[..k - 1]).value;
      assert items[..k][..k - 1] == items[..k - 1];
      if Patched(items[..k - 1], Get(items[k - 1], NAME)) {
        PatchedIsThere(existing, items[..k - 1], Get(items[k - 1], NAME));
      }
      ItemMakes(before, items[..k]);
    }
  }

  lemma PatchedIsThere(existing: seq<Value>, items: seq<Value>, name: Option<Value>)
    requires FlatItems(items) && MergeItems(existing, items).Some? && Patched(items, name)
    ensures Count(MergeItems(existing, items).value, name) > 0
  {
    FlatNamesArePlain(items);
    DetectorsStay(existing, items, name);
  }

  /** One more item: slots of other names stay made, the item's own slot is made anew, and a
      new slot is made of the item. */
  lemma MadeByOneMore(items: seq<Value>, slot: Value)
    requires items != [] && Made(items[..|items| - 1], slot)
    ensures Get(slot, NAME) != Get(items[|items| - 1], NAME) ==> Made(items, slot)
    ensures var item := items[|items| - 1];
            Get(slot, NAME) == Get(item, NAME) && Get(Overlaid(slot, item), NAME) == Get(item, NAME)
            ==> Made(items, Overlaid(slot, item))
  {
    var item := items[|items| - 1];
    var was :| MadeFrom(items[..|items| - 1], slot, was);
    if Get(slot, NAME) != Get(item, NAME) {
      assert MadeFrom(items, slot, was);
    } else if Get(Overlaid(slot, item), NAME) == Get(item, NAME) {
      EffectGrows(items, was);
      assert MadeFrom(items, Overlaid(slot, item), was);
    }
  }

  lemma MadeNew(items: seq<Value>)
    requires items != [] && !Patched(items[..|items| - 1], Get(items[|items| - 1], NAME))
    ensures Made(items, items[|items| - 1])
  {
    var item := items[|items| - 1];
    UnpatchedHasNoEffect(items[..|items| - 1], Get(item, NAME));
    EffectGrows(items, item);
    assert item.Object? ==> item.fields + item.fields == item.fields;
    assert MadeFrom(items, item, item);
  }

  lemma ItemMakes(before: seq<Value>, items: seq<Value>)
    requires items != [] && FlatItems(items) && MergeItem(before, items[|items| - 1]).Some?
    requires AllMade(items[..|items| - 1], before)
    requires Patched(items[..|items| - 1], Get(items[|items| - 1], NAME)) ==>
               Count(before, Get(items[|items| - 1], NAME)) > 0
    ensures AllMade(items, MergeItem(before, items[|items| - 1]).value)
  {
    var item := items[|items| - 1];
    var own, next := Get(item, NAME), MergeItem(before, item).value;
    assert PlainNames([item]);
    ItemCounts(before, item, own);
    forall q | 0 <= q < |next|
      ensures Made(items, next[q])
    {
      if q == |before| {
        MadeNew(items);
      } else {
        MadeByOneMore(items, before[q]);
        SlotAfter(before, item, q);
      }
    }
  }

  lemma SlotAfter(before: seq<Value>, item: Value, q: nat)
    requires FlatItem(item) && MergeItem(before, item).Some? && q < |before|
    ensures Get(before[q], NAME) == Get(item, NAME) ==>
              MergeItem(before, item).value[q] == Overlaid(before[q], item)
              && Get(Overlaid(before[q], item), NAME) == Get(item, NAME)
    ensures Get(before[q], NAME) != Get(item, NAME) ==> MergeItem(before, item).value[q] == before[q]
  {
    if Get(before[q], NAME) == Get(item, NAME) {
      CountPositive(before, q);
      CountOneIsFirst(before, q);
      FlatMergeOne(before[q], item);
    }
  }

  /** Merging the same flat items again changes nothing. */
  lemma ItemsTwice(existing: seq<Value>, items: seq<Value>)
    requires FlatItems(items) && MergeItems(existing, items).Some?
    ensures MergeItems(MergeItems(existing, items).value, items) == MergeItems(existing, items)
  {
    var merged := MergeItems(existing, items).value;
    assert items[..|items|] == items;
    FlatNamesArePlain(items);
    forall i | 0 <= i < |items|
      ensures Count(merged, Get(items[i], NAME)) == 1
    {
      DetectorsStay(existing, items, Get(items[i], NAME));
    }
    NothingJoins(merged, items, |items|);
    SlotsAreOverlaid(merged, items, |items|);
    MergedAreMade(existing, items, |items|);
    var again := MergeItems(merged, items).value;
    forall q | 0 <= q < |merged|
      ensures again[q] == merged[q]
    {
      var was :| MadeFrom(items, merged[q], was);
      EffectTwice(EffectOf(items, Get(merged[q], NAME)), was);
    }
    assert again == merged;
  }

  /** An unpatched key rides along. */
  lemma MergeWithMore(base: Fields, patch: Fields, key: string, value: Value)
    requires key !in patch && Merge(base, patch).Some?
    ensures Merge(base[key := value], patch) == Some(Merge(base, patch).value[key := value])
  {
    forall k | k in patch
      ensures MergeValue(base[key := value], k, patch[k]) == MergeValue(base, k, patch[k])
    {
      SameAtKey(base, base[key := value], k, patch[k]);
    }
    assert Merge(base[key := value], patch).value == Merge(base, patch).value[key := value];
  }

  /** A flat patch merged twice is a flat patch merged once. */
  lemma {:induction false} MergeTwice(base: Fields, patch: Fields)
    requires FlatPatch(patch) && Merge(base, patch).Some?
    ensures Merge(Merge(base, patch).value, patch) == Merge(base, patch)
    decreases Object(patch)
  {
    var merged := Merge(base, patch).value;
    forall key | key in patch
      ensures MergeValue(merged, key, patch[key]) == Some(merged[key])
    {
      if patch[key].Array? && IsNamedArray(key) {
        ItemsTwice(ItemsAt(base, key), patch[key].items);
      } else if patch[key].Object? {
        var target := Merge(ObjectAt(base, key), patch[key].fields).value;
        MergeTwice(ObjectAt(base, key), patch[key].fields);
        if Named(key, target) != target {
          MergeWithMore(target, patch[key].fields, NAME, String("malicious-code"));
        }
      }
    }
    assert Merge(merged, patch).value == merged;
  }

  // ---------------------------------------------------------------- patches that are not flat

  /** A detector `a` that holds detectors `x` of its own. */
  function Nesting(inner: seq<Value>): Value {
    Object(map[NAME := String("a"), "agent-protection" := Array(inner)])
  }

  function PatchOf(items: seq<Value>): Fields {
    map["model-protection" := Array(items)]
  }

  const X := Object(map[NAME := String("x")])

  lemma NestedTwiceRefused(inner: seq<Value>)
    requires Count(inner, Some(String("x"))) == 2
    ensures MergeItem([Nesting(inner)], Nesting([X])) == None
    ensures MergeItem([Nesting(inner)], Nesting([X, X])) == None
  {
    var slot := Nesting(inner);
    assert Count([slot], Some(String("a"))) == 1;
    forall more | more == [X] || more == [X, X]
      ensures MergeItem([slot], Nesting(more)) == None
    {
      var item := Nesting(more);
      assert Get(item, NAME) == Some(String("a")) && Get(more[0], NAME) == Some(String("x"));
      assert MergeItem(inner, more[0]) == None;
      assert MergeItems(inner, more) == None;
      assert MergeValue(slot.fields, "agent-protection", item.fields["agent-protection"]) == None;
      assert Merge(slot.fields, item.fields) == None;
    }
  }

  lemma TwoX()
    ensures Count([X, X], Some(String("x"))) == 2
  {
    assert Get(X, NAME) == Some(String("x")) && [X, X] == [X] + [X];
    CountAppend([X], [X], Some(String("x")));
    assert [X][1..] == [];
  }

  /** Into an empty array an item goes as it is. */
  lemma FirstItem(item: Value, rest: seq<Value>)
    ensures MergeItems([], [item] + rest) == MergeItems([item], rest)
  {
    assert [] + [item] == [item];
    assert ([item] + rest)[1..] == rest;
  }

  // No command passes such patches: what the flags build is flat at every depth.

  /** Without flatness a second merge can be refused: a detector that brings an ambiguous array
      of its own is appended as it is. */
  lemma OnceButNotTwice()
    ensures var patch := PatchOf([Nesting([X, X])]);
            Merge(map[], patch) == Some(patch) && Merge(patch, patch) == None
  {
    TwoX();
    NestedTwiceRefused([X, X]);
    var item := Nesting([X, X]);
    var patch := PatchOf([item]);
    FirstItem(item, []);
    assert [item] + [] == [item];
    assert MergeValue(map[], "model-protection", patch["model-protection"]) == Some(Array([item]));
    assert Merge(map[], patch).value == patch;
    assert MergeItems([item], [item]) == None;
    assert MergeValue(patch, "model-protection", patch["model-protection"]) == None;
  }

  /** And two items of one name can be refused though nothing is ambiguous where the patch
      reaches: the base is empty. */
  lemma RefusedOnEmptyBase()
    ensures var patch := PatchOf([Nesting([X, X]), Nesting([X])]);
            Merge(map[], patch) == None && !Ambiguous(map[], patch)
  {
    TwoX();
    NestedTwiceRefused([X, X]);
    var item, other := Nesting([X, X]), Nesting([X]);
    var patch := PatchOf([item, other]);
    FirstItem(item, [other]);
    assert [item] + [other] == [item, other];
    assert MergeItems([item], [other]) == None;
    assert MergeValue(map[], "model-protection", patch["model-protection"]) == None;
  }
}
