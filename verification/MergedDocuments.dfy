/**
 * What a merge leaves, read off the JSON documents path by path: every path of the patch, and
 * every path beside it.
 */
module MergedDocuments {
  import opened Wrappers
  import opened Json
  import opened JsonPaths
  import opened ProfileLayout
  import opened SettingsMerge
  import opened Policies
  import opened PolicyMerges

  // ---------------------------------------------------------------- what a path says

  function NameOf(item: Value): Option<Value> {
    Inside(Some(item), "name")
  }

  predicate NamedBy(items: seq<Value>, name: Option<Value>) {
    exists i | 0 <= i < |items| :: NameOf(items[i]) == name
  }

  /** No name is an object: those of the detectors are texts. */
  predicate SimpleNames(items: seq<Value>) {
    forall i | 0 <= i < |items| :: NameOf(items[i]).Some? ==> !NameOf(items[i]).value.Object?
  }

  predicate OnlyOfItsName(items: seq<Value>, i: nat) {
    i < |items| && forall k | 0 <= k < |items| && NameOf(items[k]) == NameOf(items[i]) :: k == i
  }

  /** A detector laid over another one. */
  predicate LaidOver(before: Value, item: Value, after: Value) {
    if before.Object? && item.Object? then
      after.Object? && Merge(before.fields, item.fields) == Some(after.fields)
    else after == item
  }

  /**
   * Detectors with a patch's laid over them: each keeps its place and its name, and is the same
   * where no item has its name; each item's name is there once, on the detector it changed or at
   * the end, as the item is; nothing else joins.
   */
  ghost predicate DetectorsKept(before: seq<Value>, items: seq<Value>, after: seq<Value>) {
    OthersStay(before, items, after) && EachNamedOnce(before, items, after) && ItemsLaid(before, items, after)
  }

  predicate OthersStay(before: seq<Value>, items: seq<Value>, after: seq<Value>) {
    && |before| <= |after|
    && (forall q | 0 <= q < |before| :: NameOf(after[q]) == NameOf(before[q]))
    && (forall q | 0 <= q < |before| && !NamedBy(items, NameOf(before[q])) :: after[q] == before[q])
  }

  predicate EachNamedOnce(before: seq<Value>, items: seq<Value>, after: seq<Value>) {
    && (forall q | |before| <= q < |after| :: NamedBy(items, NameOf(after[q])))
    && (forall q | 0 <= q < |after| && NamedBy(items, NameOf(after[q])) :: OnlyOfItsName(after, q))
    && (forall i | 0 <= i < |items| :: NamedBy(after, NameOf(items[i])))
  }

  /** An item that is the only one of its name, that is. */
  ghost predicate ItemsLaid(before: seq<Value>, items: seq<Value>, after: seq<Value>) {
    forall i: nat, q: nat | OnlyOfItsName(items, i) && q < |after| && NameOf(after[q]) == NameOf(items[i]) ::
      LaidAt(before, items[i], after, q)
  }

  predicate LaidAt(before: seq<Value>, item: Value, after: seq<Value>, q: nat)
    requires q < |after|
  {
    if q < |before| then LaidOver(before[q], item, after[q]) else after[q] == item
  }

  /** What a patch makes of a document at a path: the three arrays of detectors are merged by name,
      any other value replaces, and what the patch does not reach stays, but that a malicious-code
      object without a name gets one. */
  ghost predicate MergedAt(before: Option<Value>, patch: Fields, after: Option<Value>, path: seq<string>)
    requires path != []
  {
    var above, key := path[..|path| - 1], path[|path| - 1];
    match Follow(Some(Object(patch)), path)
    case Some(Array(items)) =>
      if key == "model-protection" || key == "agent-protection" || key == "database-security" then
        SimpleNames(items) ==>
          && Follow(after, path) == Some(Array(ItemsIn(Follow(after, path))))
          && DetectorsKept(ItemsIn(Follow(before, path)), items, ItemsIn(Follow(after, path)))
      else Follow(after, path) == Some(Array(items))
    case Some(Object(_)) => true
    case Some(value) => Follow(after, path) == Some(value)
    case None =>
      match Follow(Some(Object(patch)), above)
      case Some(Object(_)) =>
        Follow(after, path) ==
        if key == "name" && above != [] && above[|above| - 1] == "malicious-code-protection"
           && Follow(before, path).None?
        then Some(String("malicious-code")) else Follow(before, path)
      case _ => true
  }

  // ---------------------------------------------------------------- one array

  lemma NamesAreRead(items: seq<Value>)
    ensures forall i | 0 <= i < |items| :: NameOf(items[i]) == Get(items[i], NAME)
    ensures SimpleNames(items) <==> PlainNames(items)
    ensures forall name :: NamedBy(items, name) <==> Patched(items, name)
  {
    assert forall item :: NameOf(item) == Get(item, NAME);
  }

  /** A name counted once is on one item. */
  lemma {:induction false} CountedOnce(items: seq<Value>, name: Option<Value>)
    requires Count(items, name) == 1
    ensures NamedBy(items, name)
    ensures forall q | 0 <= q < |items| && NameOf(items[q]) == name :: OnlyOfItsName(items, q)
  {
    var at := First(items, name);
    assert NameOf(items[at]) == name;
    forall q | 0 <= q < |items| && NameOf(items[q]) == name
      ensures q == at
    {
      CountOneIsFirst(items, q);
    }
  }

  lemma {:induction false} MergeItemsInTurn(merged: seq<Value>, items: seq<Value>, i: nat)
    requires i < |items| && MergeItems(merged, items).Some?
    ensures MergeItems(merged, items[..i]).Some?
    ensures var before := MergeItems(merged, items[..i]).value;
            && MergeItem(before, items[i]).Some?
            && MergeItems(MergeItem(before, items[i]).value, items[i + 1..]) == MergeItems(merged, items)
    decreases i
  {
    if i > 0 {
      MergeItemsInTurn(MergeItem(merged, items[0]).value, items[1..], i - 1);
      assert items[..i][1..] == items[1..][..i - 1] && items[1..][i..] == items[i + 1..];
    }
  }

  /** Where one item lands. */
  lemma ItemLands(before: seq<Value>, item: Value) returns (at: nat)
    requires PlainNames([item]) && MergeItem(before, item).Some?
    ensures var next := MergeItem(before, item).value;
            && at < |next| && Get(next[at], NAME) == Get(item, NAME)
            && (if Count(before, Get(item, NAME)) == 0 then at == |before| && next[at] == item
                else Count(before, Get(item, NAME)) == 1 && at < |before|
                     && Get(before[at], NAME) == Get(item, NAME) && LaidOver(before[at], item, next[at]))
  {
    var own := Get(item, NAME);
    if Count(before, own) == 0 {
      at := |before|;
    } else {
      at := First(before, own);
      MergeOneKeepsName(before[at], item);
    }
  }

  /** The one detector of a name that nothing patches stays where it was. */
  lemma StaysAlone(existing: seq<Value>, items: seq<Value>, at: nat)
    requires PlainNames(items) && MergeItems(existing, items).Some? && at < |MergeItems(existing, items).value|
    requires var name := Get(MergeItems(existing, items).value[at], NAME);
             !Patched(items, name) && Count(MergeItems(existing, items).value, name) == 1
    ensures at < |existing| && MergeItems(existing, items).value[at] == existing[at]
  {
    var after := MergeItems(existing, items).value;
    var name := Get(after[at], NAME);
    DetectorsStay(existing, items, name);
    var was := First(existing, name);
    CountOneIsFirst(after, at);
    CountOneIsFirst(after, was);
  }

  /** What becomes of the one item of its name. */
  lemma OnlyItemLaid(existing: seq<Value>, items: seq<Value>, i: nat, q: nat)
    requires PlainNames(items) && MergeItems(existing, items).Some? && OnlyOfItsName(items, i)
    requires q < |MergeItems(existing, items).value|
    requires Get(MergeItems(existing, items).value[q], NAME) == Get(items[i], NAME)
    ensures LaidAt(existing, items[i], MergeItems(existing, items).value, q)
  {
    var after, own := MergeItems(existing, items).value, Get(items[i], NAME);
    MergeItemsInTurn(existing, items, i);
    var before := MergeItems(existing, items[..i]).value;
    var next := MergeItem(before, items[i]).value;
    NotPatchedElsewhere(items, i);
    DetectorsStay(next, items[i + 1..], own);
    DetectorsStay(existing, items, own);
    PatchedByItself(items, i);
    var at := ItemLands(before, items[i]);
    CountOneIsFirst(after, at);
    CountOneIsFirst(after, q);
    if Count(before, own) == 0 {
      DetectorsStay(existing, items[..i], own);
    } else {
      StaysAlone(existing, items[..i], at);
    }
  }

  lemma PatchedByItself(items: seq<Value>, i: nat)
    requires i < |items|
    ensures Patched(items, Get(items[i], NAME))
  {
  }

  lemma NotPatchedElsewhere(items: seq<Value>, i: nat)
    requires PlainNames(items) && OnlyOfItsName(items, i)
    ensures PlainNames(items[..i]) && PlainNames(items[i + 1..])
    ensures !Patched(items[..i], Get(items[i], NAME)) && !Patched(items[i + 1..], Get(items[i], NAME))
  {
    assert forall k | 0 <= k < i :: items[..i][k] == items[k] && NameOf(items[k]) == Get(items[k], NAME);
    var rest := items[i + 1..];
    assert forall k | 0 <= k < |rest| :: rest[k] == items[k + i + 1] && NameOf(rest[k]) == Get(rest[k], NAME);
  }

  lemma ArrayMerged(existing: seq<Value>, items: seq<Value>)
    requires SimpleNames(items) && MergeItems(existing, items).Some?
    ensures DetectorsKept(existing, items, MergeItems(existing, items).value)
  {
    NamesAreRead(items);
    ArrayStays(existing, items);
    ArrayNames(existing, items);
    ArrayLaid(existing, items);
  }

  lemma ArrayLaid(existing: seq<Value>, items: seq<Value>)
    requires PlainNames(items) && MergeItems(existing, items).Some?
    ensures ItemsLaid(existing, items, MergeItems(existing, items).value)
  {
    var after := MergeItems(existing, items).value;
    forall i: nat, q: nat | OnlyOfItsName(items, i) && q < |after| && NameOf(after[q]) == NameOf(items[i])
      ensures LaidAt(existing, items[i], after, q)
    {
      OnlyItemLaid(existing, items, i, q);
    }
  }

  lemma ArrayStays(existing: seq<Value>, items: seq<Value>)
    requires PlainNames(items) && MergeItems(existing, items).Some?
    ensures OthersStay(existing, items, MergeItems(existing, items).value)
  {
    DetectorsStay(existing, items, None);
    NamesAreRead(existing);
    NamesAreRead(items);
    NamesAreRead(MergeItems(existing, items).value);
  }

  lemma ArrayNames(existing: seq<Value>, items: seq<Value>)
    requires PlainNames(items) && MergeItems(existing, items).Some?
    ensures EachNamedOnce(existing, items, MergeItems(existing, items).value)
  {
    var after := MergeItems(existing, items).value;
    NamesAreRead(items);
    NewAreNamed(existing, items);
    forall q | 0 <= q < |after| && NamedBy(items, NameOf(after[q]))
      ensures OnlyOfItsName(after, q)
    {
      DetectorsStay(existing, items, NameOf(after[q]));
      CountedOnce(after, NameOf(after[q]));
    }
    forall i | 0 <= i < |items|
      ensures NamedBy(after, NameOf(items[i]))
    {
      PatchedByItself(items, i);
      DetectorsStay(existing, items, NameOf(items[i]));
      CountedOnce(after, NameOf(items[i]));
    }
  }

  /** What joins has an item's name. */
  lemma {:induction false} NewAreNamed(existing: seq<Value>, items: seq<Value>)
    requires PlainNames(items) && MergeItems(existing, items).Some?
    ensures var after := MergeItems(existing, items).value;
            forall q | |existing| <= q < |after| :: NamedBy(items, Get(after[q], NAME))
    decreases |items|
  {
    if items != [] {
      var next, after := MergeItem(existing, items[0]).value, MergeItems(existing, items).value;
      assert PlainNames([items[0]]);
      ItemCounts(existing, items[0], None);
      DetectorsStay(next, items[1..], None);
      NewAreNamed(next, items[1..]);
      forall q | |existing| <= q < |after|
        ensures NamedBy(items, Get(after[q], NAME))
      {
        if q < |next| {
          assert NameOf(items[0]) == Get(after[q], NAME);
        } else {
          var i :| 0 <= i < |items[1..]| && NameOf(items[1..][i]) == Get(after[q], NAME);
          assert items[i + 1] == items[1..][i];
        }
      }
    }
  }

  // ---------------------------------------------------------------- every path

  /** A path through an object of the patch goes on in the object that is merged there. */
  lemma PathGoesOn(base: Fields, patch: Fields, path: seq<string>)
    requires path != [] && Merge(base, patch).Some?
    requires path[0] in patch && patch[path[0]].Object?
    ensures Merge(ObjectAt(base, path[0]), patch[path[0]].fields).Some?
    ensures var target := Named(path[0], Merge(ObjectAt(base, path[0]), patch[path[0]].fields).value);
            Follow(Some(Object(Merge(base, patch).value)), path) == Follow(Some(Object(target)), path[1..])
    ensures Follow(Some(Object(patch)), path) == Follow(Some(patch[path[0]]), path[1..])
  {
    assert MergeValue(base, path[0], patch[path[0]]).Some?;
  }

  /** What is not an object has nothing inside. */
  lemma BaseGoesOn(base: Fields, path: seq<string>)
    requires |path| > 1
    ensures Follow(Some(Object(base)), path) == Follow(Some(Object(ObjectAt(base, path[0]))), path[1..])
  {
    NothingFollows(path[2..]);
    var inner := Inside(Some(Object(base)), path[0]);
    assert Follow(inner, path[1..]) == Follow(Inside(inner, path[1]), path[1..][1..]) && path[1..][1..] == path[2..];
  }

  /** The name that a malicious-code object gets is seen at its own path alone. */
  lemma NamedFollows(key: string, target: Fields, path: seq<string>)
    requires path != []
    ensures Follow(Some(Object(Named(key, target))), path) ==
            if key == "malicious-code-protection" && path == ["name"] && NAME !in target
            then Some(String("malicious-code")) else Follow(Some(Object(target)), path)
  {
    if path[0] == NAME && |path| > 1 {
      NothingFollows(path[2..]);
      assert path[1..][1..] == path[2..];
    }
  }

  lemma OneKey(fields: Fields, path: seq<string>)
    requires |path| == 1
    ensures Follow(Some(Object(fields)), path) == Inside(Some(Object(fields)), path[0])
    ensures ItemsIn(Follow(Some(Object(fields)), path)) == ItemsAt(fields, path[0])
    ensures path[..|path| - 1] == [] && Follow(Some(Object(fields)), []) == Some(Object(fields))
  {
    assert path[1..] == [];
  }

  lemma MergedAtKey(base: Fields, patch: Fields, path: seq<string>)
    requires |path| == 1 && Merge(base, patch).Some?
    ensures MergedAt(Some(Object(base)), patch, Some(Object(Merge(base, patch).value)), path)
  {
    var key, merged := path[0], Merge(base, patch).value;
    OneKey(base, path);
    OneKey(patch, path);
    OneKey(merged, path);
    if key in patch {
      assert MergeValue(base, key, patch[key]) == Some(merged[key]);
      if patch[key].Array? && IsNamedArray(key) && SimpleNames(patch[key].items) {
        ArrayMerged(ItemsAt(base, key), patch[key].items);
      }
    }
  }

  lemma NotPatchedBelow(patch: Fields, path: seq<string>)
    requires |path| > 1 && (path[0] in patch ==> !patch[path[0]].Object?)
    ensures Follow(Some(Object(patch)), path) == None
    ensures var above := Follow(Some(Object(patch)), path[..|path| - 1]);
            above.Some? ==> !above.value.Object?
  {
    var above := path[..|path| - 1];
    NothingFollows(path[2..]);
    assert path[1..][1..] == path[2..];
    if |above| > 1 {
      NothingFollows(above[2..]);
      assert above[1..][1..] == above[2..];
    }
  }

  /** What a merge makes of an object, seen from the document around it. */
  lemma MergedAround(base: Fields, patch: Fields, path: seq<string>)
    requires |path| > 1 && Merge(base, patch).Some? && path[0] in patch && patch[path[0]].Object?
    requires Merge(ObjectAt(base, path[0]), patch[path[0]].fields).Some?
    requires var target := Merge(ObjectAt(base, path[0]), patch[path[0]].fields).value;
             MergedAt(Some(Object(ObjectAt(base, path[0]))), patch[path[0]].fields, Some(Object(target)), path[1..])
    ensures MergedAt(Some(Object(base)), patch, Some(Object(Merge(base, patch).value)), path)
  {
    var key, fields := path[0], patch[path[0]].fields;
    var target := Merge(ObjectAt(base, key), fields).value;
    var above := path[..|path| - 1];
    PathGoesOn(base, patch, path);
    PathGoesOn(base, patch, above);
    BaseGoesOn(base, path);
    NamedFollows(key, target, path[1..]);
    assert path[1..][..|path| - 2] == above[1..];
    if path[1..] == ["name"] {
      UnpatchedKeysStay(ObjectAt(base, key), fields);
      assert above == [key] && above[1..] == [];
    }
  }

  /** At every path a merge makes of the base what the patch says. */
  lemma {:induction false} MergeAtPath(base: Fields, patch: Fields, path: seq<string>)
    requires path != [] && Merge(base, patch).Some?
    ensures MergedAt(Some(Object(base)), patch, Some(Object(Merge(base, patch).value)), path)
    decreases |path|
  {
    if |path| == 1 {
      MergedAtKey(base, patch, path);
    } else if path[0] in patch && patch[path[0]].Object? {
      PathGoesOn(base, patch, path);
      MergeAtPath(ObjectAt(base, path[0]), patch[path[0]].fields, path[1..]);
      MergedAround(base, patch, path);
    } else {
      NotPatchedBelow(patch, path);
    }
  }

  // ---------------------------------------------------------------- the blocks of a policy

  /** What is inside a block is inside its object, or nowhere. */
  lemma BlockFollows(policy: Fields, place: Place, path: seq<string>)
    requires path != []
    ensures Follow(BlockIn(policy, place.index, place.direction), path)
            == Follow(Some(Object(BlockAt(policy, place))), path)
  {
    BlocksAreRead(policy, place);
    NothingFollows(path[1..]);
  }

  /** Selecting an entry changes no block. */
  lemma SelectedBlocks(policy: Fields, selector: Selector, place: Place)
    requires SelectAiProfile(policy, selector).Ok?
    ensures BlockAt(SelectAiProfile(policy, selector).value.0, place) == BlockAt(policy, place)
  {
    SelectedEntry(policy, selector);
  }

  /** A merge leaves alone what is under a key that it does not patch. */
  lemma OtherKeysFollow(base: Fields, patch: Fields, path: seq<string>)
    requires path != [] && path[0] !in patch && Merge(base, patch).Some?
    ensures Follow(Some(Object(Merge(base, patch).value)), path) == Follow(Some(Object(base)), path)
  {
    UnpatchedKeysStay(base, patch);
  }

  /** The part of a patch that a key belongs to decides what becomes of it. */
  lemma TwoPatches(base: Fields, first: Fields, second: Fields, path: seq<string>)
    requires path != [] && Merge(base, first).Some? && Merge(Merge(base, first).value, second).Some?
    ensures var after := Some(Object(Merge(Merge(base, first).value, second).value));
            && (path[0] !in second ==> MergedAt(Some(Object(base)), first, after, path))
            && (path[0] !in first ==> MergedAt(Some(Object(base)), second, after, path))
  {
    var middle := Merge(base, first).value;
    MergeAtPath(base, first, path);
    MergeAtPath(middle, second, path);
    if path[0] !in second {
      OtherKeysFollow(middle, second, path);
    }
    if path[0] !in first {
      OtherKeysFollow(base, first, path);
    }
  }

  /** What a merge of two patches makes of a block and of the common one. */
  lemma BlocksAtPath(before: Fields, after: Fields, block: Place, common: Place, patch: Patch, path: seq<string>)
    requires path != [] && BlocksMerged(before, after, block, common, patch)
    ensures path[0] !in patch.shared ==>
              MergedAt(Some(Object(BlockAt(before, block))), patch.protection,
                       Some(Object(BlockAt(after, block))), path)
    ensures path[0] !in patch.protection ==>
              MergedAt(Some(Object(BlockAt(before, common))), patch.shared,
                       Some(Object(BlockAt(after, common))), path)
  {
    if block != common {
      MergeAtPath(BlockAt(before, block), patch.protection, path);
      MergeAtPath(BlockAt(before, common), patch.shared, path);
    } else {
      TwoPatches(BlockAt(before, common), patch.protection, patch.shared, path);
    }
  }

  /**
   * A successful update makes of the selected block, at every path, what the protections of the
   * patch say, and of the entry's `model-configuration` what its shared settings say (where one
   * key is not in both).
   */
  lemma UpdateAtPath(existing: Option<Value>, patch: Patch, selector: Selector, path: seq<string>)
    requires path != [] && MergePolicy(existing, Some(patch), selector).Ok?
    ensures var before, after := AsPolicy(existing), MergePolicy(existing, Some(patch), selector).value;
            var index := if selector.index.Some? then selector.index.value else 0;
            var direction := if patch.direction.Some? then patch.direction else selector.direction;
            && (path[0] !in patch.shared ==>
                  MergedAt(BlockIn(before, index, direction), patch.protection, BlockIn(after, index, direction), path))
            && (path[0] !in patch.protection ==>
                  MergedAt(BlockIn(before, index, None), patch.shared, BlockIn(after, index, None), path))
  {
    MergeChangesTwoBlocks(existing, patch, selector);
    var policy, after := AsPolicy(existing), MergePolicy(existing, Some(patch), selector).value;
    SelectedEntry(policy, selector);
    var (selected, index) := SelectAiProfile(policy, selector).value;
    var block, common := Place(index, Or(patch.direction, selector.direction)), Place(index, None);
    BlocksAtPath(selected, after, block, common, patch, path);
    SelectedBlocks(policy, selector, block);
    SelectedBlocks(policy, selector, common);
    BlockFollows(policy, block, path);
    BlockFollows(policy, common, path);
    BlockFollows(after, block, path);
    BlockFollows(after, common, path);
  }
}
