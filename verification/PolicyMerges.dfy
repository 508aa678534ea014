/**
 * `profiles update`: the flags of one command merged into the selected protection block, and
 * the settings shared by all directions into the entry's `model-configuration`.
 */
module PolicyMerges {
  import opened Wrappers
  import opened Json
  import opened ProfileLayout
  import opened SettingsMerge
  import opened Policies

  /** The settings shared by every direction. */
  const SHARED_KEYS: set<string> := {"latency", "mask-data-in-storage", "enable-full-conversation-inspection"}

  datatype Patch = Patch(protection: Fields, shared: Fields, direction: Option<string>)

  /** A configuration in two parts: the protections of a block, and what all blocks share. */
  function ExtractShared(config: Fields): (r: (Fields, Fields))
    ensures r.0.Keys == config.Keys - SHARED_KEYS && r.1.Keys == config.Keys * SHARED_KEYS
    ensures r.0 + r.1 == config
  {
    (config - SHARED_KEYS, map key | key in config && key in SHARED_KEYS :: config[key])
  }

  const SHARED_ORDER: seq<string> := ["latency", "mask-data-in-storage", "enable-full-conversation-inspection"]

  function SharedUpto(i: nat): set<string>
    requires i <= |SHARED_ORDER|
  {
    if i == 0 then {} else SharedUpto(i - 1) + {SHARED_ORDER[i - 1]}
  }

  /** The loop that takes them out, one key at a time. */
  method TakeShared(config: Fields) returns (rest: Fields, shared: Fields)
    ensures (rest, shared) == ExtractShared(config)
  {
    rest, shared := config, map[];
    for i := 0 to |SHARED_ORDER|
      invariant rest == config - SharedUpto(i)
      invariant shared == map key | key in config && key in SharedUpto(i) :: config[key]
    {
      var key := SHARED_ORDER[i];
      if key in rest {
        shared := shared[key := rest[key]];
        rest := rest - {key};
      }
    }
    assert SharedUpto(3) == SHARED_KEYS by {
      assert SharedUpto(0) == {} && SharedUpto(1) == {SHARED_ORDER[0]};
      assert SharedUpto(2) == SharedUpto(1) + {SHARED_ORDER[1]};
    }
    assert rest == ExtractShared(config).0 && shared == ExtractShared(config).1;
  }

  function Or<T>(first: Option<T>, second: Option<T>): Option<T> {
    if first.Some? then first else second
  }

  /** A patch merged into one block of the selected entry, created when absent. */
  function MergeInto(policy: Fields, place: Place, patch: Fields): Result<Fields, Refusal>
    requires HasEntry(policy, place.index)
  {
    match Merge(BlockOrEmpty(EntryAt(policy, place.index), place.direction), patch)
    case None => Err(AmbiguousDetector)
    case Some(block) => Ok(WithConfiguration(policy, place, block))
  }

  /** The protection part: nothing without a patch (a direction's layout is checked all the
      same), else the selected block, which must be there. */
  function MergeProtection(policy: Fields, index: nat, direction: Option<string>, protection: Fields)
    : Result<Fields, Refusal>
    requires HasEntry(policy, index)
  {
    if direction.None? && protection == map[] then Ok(policy)
    else
      var refusal := LayoutRefusal(EntryAt(policy, index), direction, protection == map[]);
      if refusal.Some? then Err(refusal.value)
      else if protection == map[] then Ok(policy)
      else MergeInto(policy, Place(index, direction), protection)
  }

  function MergeShared(policy: Fields, index: nat, shared: Fields): Result<Fields, Refusal>
    requires HasEntry(policy, index)
  {
    if shared == map[] then Ok(policy) else MergeInto(policy, Place(index, None), shared)
  }

  lemma MergeKeepsEntry(policy: Fields, place: Place, patch: Fields)
    requires HasEntry(policy, place.index) && MergeInto(policy, place, patch).Ok?
    ensures var after := MergeInto(policy, place, patch).value;
            && HasEntry(after, place.index)
            && OnlyPlaceChanged(policy, after, place)
            && ConfigurationAt(after, place) ==
               Merge(BlockOrEmpty(EntryAt(policy, place.index), place.direction), patch)
            && (forall p | p != place :: ConfigurationAt(after, p) == ConfigurationAt(policy, p))
  {
    var block := BlockOrEmpty(EntryAt(policy, place.index), place.direction);
    ConfigurationWritten(policy, place, Merge(block, patch).value);
  }

  function MergePolicy(existing: Option<Value>, patch: Option<Patch>, selector: Selector): Result<Fields, Refusal> {
    var policy := AsPolicy(existing);
    if patch.None? then
      var refusal := CheckLayout(policy, selector);
      if refusal.Some? then Err(refusal.value) else Ok(policy)
    else
      match SelectAiProfile(policy, selector)
      case Err(refusal) => Err(refusal)
      case Ok((selected, index)) =>
        SelectedEntry(policy, selector);
        match MergeProtection(selected, index, Or(patch.value.direction, selector.direction), patch.value.protection)
        case Err(refusal) => Err(refusal)
        case Ok(merged) =>
          ProtectionSays(selected, index, Or(patch.value.direction, selector.direction), patch.value.protection);
          MergeShared(merged, index, patch.value.shared)
  }

  /** Without a patch only the selector's checks are made, on a copy. */
  function CheckLayout(policy: Fields, selector: Selector): Option<Refusal> {
    if !selector.IsGiven() then None
    else
      match SelectAiProfile(policy, selector)
      case Err(refusal) => Some(refusal)
      case Ok((selected, index)) =>
        SelectedEntry(policy, selector);
        if selector.direction.None? then None
        else LayoutRefusal(EntryAt(selected, index), selector.direction, true)
  }

  // ---------------------------------------------------------------- what changes

  lemma ProtectionSays(policy: Fields, index: nat, direction: Option<string>, protection: Fields)
    requires HasEntry(policy, index) && MergeProtection(policy, index, direction, protection).Ok?
    ensures var after := MergeProtection(policy, index, direction, protection).value;
            && HasEntry(after, index)
            && (protection == map[] ==> after == policy)
            && (protection != map[] ==>
                  && OnlyPlaceChanged(policy, after, Place(index, direction))
                  && ConfigurationAt(after, Place(index, direction)) ==
                     Merge(BlockOrEmpty(EntryAt(policy, index), direction), protection)
                  && (forall p | p != Place(index, direction) ::
                        ConfigurationAt(after, p) == ConfigurationAt(policy, p)))
  {
    if protection != map[] {
      MergeKeepsEntry(policy, Place(index, direction), protection);
    }
  }

  lemma SharedSays(policy: Fields, index: nat, shared: Fields)
    requires HasEntry(policy, index) && MergeShared(policy, index, shared).Ok?
    ensures var after := MergeShared(policy, index, shared).value;
            && HasEntry(after, index)
            && (shared == map[] ==> after == policy)
            && (shared != map[] ==>
                  && OnlyPlaceChanged(policy, after, Place(index, None))
                  && ConfigurationAt(after, Place(index, None)) ==
                     Merge(BlockOrEmpty(EntryAt(policy, index), None), shared)
                  && (forall p | p != Place(index, None) :: ConfigurationAt(after, p) == ConfigurationAt(policy, p)))
  {
    if shared != map[] {
      MergeKeepsEntry(policy, Place(index, None), shared);
    }
  }

  /** Merging nothing leaves a block as it is. */
  lemma MergeNothing(block: Fields)
    ensures Merge(block, map[]) == Some(block)
  {
    assert Merge(block, map[]).value == block;
  }

  function BlockAt(policy: Fields, place: Place): Fields {
    if ConfigurationAt(policy, place).Some? then ConfigurationAt(policy, place).value else map[]
  }

  /**
   * A command without a patch is refused exactly when its selector would refuse an update that
   * changes nothing, for the same reason, and otherwise leaves the policy untouched; that update
   * differs from it by the default entry at most.
   */
  lemma NoPatchIsACheck(existing: Option<Value>, selector: Selector)
    ensures var update := MergePolicy(existing, Some(Patch(map[], map[], None)), selector);
            && MergePolicy(existing, None, selector) ==
               (if selector.IsGiven() && update.Err? then update else Ok(AsPolicy(existing)))
            && (update.Ok? ==> update.value == SelectAiProfile(AsPolicy(existing), selector).value.0)
  {
  }

  /** At most the first place changes, then at most the second. */
  ghost predicate StepsBetween(before: Fields, middle: Fields, after: Fields, first: Place, second: Place) {
    && (middle == before || OnlyPlaceChanged(before, middle, first))
    && (after == middle || OnlyPlaceChanged(middle, after, second))
  }

  /** The block is itself merged with the protection patch, the common one with the shared
      settings; where they are the same block, one after the other. */
  predicate BlocksMerged(before: Fields, after: Fields, block: Place, common: Place, patch: Patch) {
    if block != common then
      && Some(BlockAt(after, block)) == Merge(BlockAt(before, block), patch.protection)
      && Some(BlockAt(after, common)) == Merge(BlockAt(before, common), patch.shared)
    else
      && Merge(BlockAt(before, common), patch.protection).Some?
      && Some(BlockAt(after, common)) == Merge(Merge(BlockAt(before, common), patch.protection).value, patch.shared)
  }

  lemma BothMerged(before: Fields, index: nat, direction: Option<string>, patch: Patch)
    requires HasEntry(before, index) && MergeProtection(before, index, direction, patch.protection).Ok?
    requires var middle := MergeProtection(before, index, direction, patch.protection).value;
             HasEntry(middle, index) && MergeShared(middle, index, patch.shared).Ok?
    ensures var middle := MergeProtection(before, index, direction, patch.protection).value;
            var after := MergeShared(middle, index, patch.shared).value;
            var block, common := Place(index, direction), Place(index, None);
            && BlocksMerged(before, after, block, common, patch)
            && StepsBetween(before, middle, after, block, common)
            && (forall p | p != block && p != common :: ConfigurationAt(after, p) == ConfigurationAt(before, p))
  {
    ProtectionSays(before, index, direction, patch.protection);
    var middle := MergeProtection(before, index, direction, patch.protection).value;
    SharedSays(middle, index, patch.shared);
    MergeNothing(BlockAt(before, Place(index, direction)));
    MergeNothing(BlockAt(middle, Place(index, None)));
  }

  /**
   * A merge changes the selected block and the entry's `model-configuration` alone: the block
   * becomes itself merged with the protection patch, the configuration itself merged with the
   * shared settings. A shared-only edit touches no direction.
   */
  lemma MergeChangesTwoBlocks(existing: Option<Value>, patch: Patch, selector: Selector)
    requires MergePolicy(existing, Some(patch), selector).Ok?
    ensures SelectAiProfile(AsPolicy(existing), selector).Ok?
    ensures var before := SelectAiProfile(AsPolicy(existing), selector).value.0;
            var index := SelectAiProfile(AsPolicy(existing), selector).value.1;
            var after := MergePolicy(existing, Some(patch), selector).value;
            var block, common := Place(index, Or(patch.direction, selector.direction)), Place(index, None);
            && BlocksMerged(before, after, block, common, patch)
            && (forall p | p != block && p != common :: ConfigurationAt(after, p) == ConfigurationAt(before, p))
            && (patch.protection == map[] ==> after == before || OnlyPlaceChanged(before, after, common))
            && (patch.shared == map[] ==> after == before || OnlyPlaceChanged(before, after, block))
            && (exists middle :: StepsBetween(before, middle, after, block, common))
  {
    var policy := AsPolicy(existing);
    SelectedEntry(policy, selector);
    var (before, index) := SelectAiProfile(policy, selector).value;
    var direction := Or(patch.direction, selector.direction);
    ProtectionSays(before, index, direction, patch.protection);
    BothMerged(before, index, direction, patch);
  }

  // ---------------------------------------------------------------- step by step

  method MergeBlock(policy: Fields, place: Place, patch: Fields) returns (result: Result<Fields, Refusal>)
    requires HasEntry(policy, place.index)
    ensures result == MergeInto(policy, place, patch)
  {
    var entry := EntryAt(policy, place.index);
    var merged := MergeSettings(BlockOrEmpty(entry, place.direction), patch);
    if merged.Err? {
      return Err(AmbiguousDetector);
    }
    result := Ok(WithEntry(policy, place.index, WithBlock(entry, place.direction, merged.value)));
  }

  /** `merge` with a patch: the entry selected, the protections merged, then the shared settings. */
  method UpdatePolicy(existing: Option<Value>, patch: Patch, selector: Selector)
    returns (result: Result<Fields, Refusal>)
    ensures result == MergePolicy(existing, Some(patch), selector)
  {
    var policy := AsPolicy(existing);
    var selected := SelectAiProfile(policy, selector);
    if selected.Err? {
      return Err(selected.error);
    }
    SelectedEntry(policy, selector);
    var (ready, index) := selected.value;
    var direction := if patch.direction.Some? then patch.direction else selector.direction;
    ghost var before := ready;
    if direction.Some? || patch.protection != map[] {
      var refusal := LayoutRefusal(EntryAt(ready, index), direction, patch.protection == map[]);
      if refusal.Some? {
        return Err(refusal.value);
      }
      if patch.protection != map[] {
        var merged := MergeBlock(ready, Place(index, direction), patch.protection);
        if merged.Err? {
          return merged;
        }
        ready := merged.value;
      }
    }
    ProtectionSays(before, index, direction, patch.protection);
    if patch.shared != map[] {
      result := MergeBlock(ready, Place(index, None), patch.shared);
      return;
    }
    result := Ok(ready);
  }

  // ---------------------------------------------------------------- merging twice

  /** The patch gives every key of its own what the configuration has. */
  predicate KeysFixed(fields: Fields, patch: Fields) {
    forall key | key in patch :: key in fields && MergeValue(fields, key, patch[key]) == Some(fields[key])
  }

  lemma FixedByKeys(fields: Fields, patch: Fields)
    ensures Merge(fields, patch) == Some(fields) <==> KeysFixed(fields, patch)
  {
    if KeysFixed(fields, patch) {
      assert Merge(fields, patch).value == fields;
    }
  }

  /** A configuration that a patch leaves as it is stays so under a patch of other keys. */
  lemma FixedUnderOther(base: Fields, patch: Fields, other: Fields)
    requires Merge(base, patch) == Some(base) && patch.Keys !! other.Keys && Merge(base, other).Some?
    ensures Merge(Merge(base, other).value, patch) == Merge(base, other)
  {
    FixedByKeys(base, patch);
    var merged := Merge(base, other).value;
    UnpatchedKeysStay(base, other);
    forall key | key in patch
      ensures key in merged && MergeValue(merged, key, patch[key]) == Some(merged[key])
    {
      SameAtKey(base, merged, key, patch[key]);
    }
    FixedByKeys(merged, patch);
  }

  lemma SelectedAgain(policy: Fields, selector: Selector, after: Fields)
    requires SelectAiProfile(policy, selector).Ok?
    requires var (before, index) := SelectAiProfile(policy, selector).value;
             HasEntry(after, index) && |Entries(after)| == |Entries(before)|
    ensures SelectAiProfile(after, selector) == Ok((after, SelectAiProfile(policy, selector).value.1))
  {
    assert WithEntries(after) == after;
  }

  /** Writing the shared settings keeps a layout allowed. */
  lemma AllowedAfterShared(entry: Fields, direction: Option<string>, allowMissing: bool, block: Fields)
    requires LayoutRefusal(entry, direction, allowMissing) == None
    ensures LayoutRefusal(WithBlock(entry, None, block), direction, allowMissing) == None
  {
    if direction.Some? {
      BlockWritten(entry, None, block);
    }
  }

  /** A block that the protection patch leaves as it is, where the layout is allowed. */
  lemma ProtectionAgain(policy: Fields, index: nat, direction: Option<string>, protection: Fields)
    requires HasEntry(policy, index)
    requires (direction.None? && protection == map[])
             || LayoutRefusal(EntryAt(policy, index), direction, protection == map[]) == None
    requires protection != map[] ==>
               && ConfigurationAt(policy, Place(index, direction)).Some?
               && Merge(BlockAt(policy, Place(index, direction)), protection)
                  == Some(BlockAt(policy, Place(index, direction)))
    ensures MergeProtection(policy, index, direction, protection) == Ok(policy)
  {
    if protection != map[] {
      ConfigurationWritten(policy, Place(index, direction), BlockAt(policy, Place(index, direction)));
    }
  }

  lemma SharedAgain(policy: Fields, index: nat, shared: Fields)
    requires HasEntry(policy, index)
    requires shared != map[] ==>
               && ConfigurationAt(policy, Place(index, None)).Some?
               && Merge(BlockAt(policy, Place(index, None)), shared) == Some(BlockAt(policy, Place(index, None)))
    ensures MergeShared(policy, index, shared) == Ok(policy)
  {
    if shared != map[] {
      ConfigurationWritten(policy, Place(index, None), BlockAt(policy, Place(index, None)));
    }
  }

  /** The layout that allowed an update allows it again afterwards. */
  lemma AllowedStill(policy: Fields, index: nat, direction: Option<string>, protection: Fields, shared: Fields)
    requires HasEntry(policy, index) && MergeProtection(policy, index, direction, protection).Ok?
    requires var middle := MergeProtection(policy, index, direction, protection).value;
             HasEntry(middle, index) && MergeShared(middle, index, shared).Ok?
    requires direction.Some? || protection != map[]
    ensures var middle := MergeProtection(policy, index, direction, protection).value;
            var after := MergeShared(middle, index, shared).value;
            HasEntry(after, index) && LayoutRefusal(EntryAt(after, index), direction, protection == map[]) == None
  {
    var middle := MergeProtection(policy, index, direction, protection).value;
    if protection != map[] {
      var block := Merge(BlockOrEmpty(EntryAt(policy, index), direction), protection).value;
      AllowedAgain(EntryAt(policy, index), direction, false, block);
      assert EntryAt(middle, index) == WithBlock(EntryAt(policy, index), direction, block);
    }
    if shared != map[] {
      var common := Merge(BlockOrEmpty(EntryAt(middle, index), None), shared).value;
      AllowedAfterShared(EntryAt(middle, index), direction, protection == map[], common);
    }
  }

  /** A patch as the flags build it: flat detectors, and no shared key among the protections. */
  predicate FromFlags(patch: Patch) {
    FlatPatch(patch.protection) && FlatPatch(patch.shared) && patch.protection.Keys !! patch.shared.Keys
  }

  /** Both blocks are as both patches leave them. */
  lemma BlocksFixed(policy: Fields, index: nat, direction: Option<string>, patch: Patch)
    requires FromFlags(patch) && HasEntry(policy, index)
    requires MergeProtection(policy, index, direction, patch.protection).Ok?
    requires var middle := MergeProtection(policy, index, direction, patch.protection).value;
             HasEntry(middle, index) && MergeShared(middle, index, patch.shared).Ok?
    ensures var middle := MergeProtection(policy, index, direction, patch.protection).value;
            var after := MergeShared(middle, index, patch.shared).value;
            var block, common := Place(index, direction), Place(index, None);
            && (patch.protection != map[] ==>
                  && ConfigurationAt(after, block).Some?
                  && Merge(BlockAt(after, block), patch.protection) == Some(BlockAt(after, block)))
            && (patch.shared != map[] ==>
                  && ConfigurationAt(after, common).Some?
                  && Merge(BlockAt(after, common), patch.shared) == Some(BlockAt(after, common)))
  {
    ProtectionSays(policy, index, direction, patch.protection);
    var middle := MergeProtection(policy, index, direction, patch.protection).value;
    SharedSays(middle, index, patch.shared);
    var after := MergeShared(middle, index, patch.shared).value;
    if patch.protection != map[] {
      MergeTwice(BlockOrEmpty(EntryAt(policy, index), direction), patch.protection);
      if direction.None? && patch.shared != map[] {
        FixedUnderOther(BlockAt(middle, Place(index, None)), patch.protection, patch.shared);
      }
    }
    if patch.shared != map[] {
      MergeTwice(BlockOrEmpty(EntryAt(middle, index), None), patch.shared);
    }
  }

  /** Both steps again leave what they left. */
  lemma StepsAgain(before: Fields, index: nat, direction: Option<string>, patch: Patch)
    requires FromFlags(patch) && HasEntry(before, index)
    requires MergeProtection(before, index, direction, patch.protection).Ok?
    requires var middle := MergeProtection(before, index, direction, patch.protection).value;
             HasEntry(middle, index) && MergeShared(middle, index, patch.shared).Ok?
    ensures var middle := MergeProtection(before, index, direction, patch.protection).value;
            var after := MergeShared(middle, index, patch.shared).value;
            && HasEntry(after, index) && |Entries(after)| == |Entries(before)|
            && MergeProtection(after, index, direction, patch.protection) == Ok(after)
            && MergeShared(after, index, patch.shared) == Ok(after)
  {
    var middle := MergeProtection(before, index, direction, patch.protection).value;
    SharedSays(middle, index, patch.shared);
    var after := MergeShared(middle, index, patch.shared).value;
    BlocksFixed(before, index, direction, patch);
    if direction.Some? || patch.protection != map[] {
      AllowedStill(before, index, direction, patch.protection, patch.shared);
    }
    ProtectionAgain(after, index, direction, patch.protection);
    SharedAgain(after, index, patch.shared);
  }

  /** An update that succeeds succeeds again and then changes nothing. */
  lemma UpdateTwice(existing: Option<Value>, patch: Patch, selector: Selector)
    requires FromFlags(patch) && MergePolicy(existing, Some(patch), selector).Ok?
    ensures var after := MergePolicy(existing, Some(patch), selector).value;
            MergePolicy(Some(Object(after)), Some(patch), selector) == Ok(after)
  {
    var policy := AsPolicy(existing);
    SelectedEntry(policy, selector);
    var (before, index) := SelectAiProfile(policy, selector).value;
    var direction := Or(patch.direction, selector.direction);
    ProtectionSays(before, index, direction, patch.protection);
    StepsAgain(before, index, direction, patch);
    SelectedAgain(policy, selector, MergePolicy(existing, Some(patch), selector).value);
  }
}
