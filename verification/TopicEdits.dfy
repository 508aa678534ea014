/**
 * `topics apply` and `topics revert` step by step: the loops over groups and references, over
 * guardrail items and over protection blocks, each against the function that says what it does.
 */
module TopicEdits {
  import opened Wrappers
  import opened Json
  import opened TopicLists
  import opened Guardrails
  import opened ProfileLayout
  import opened Policies

  // ---------------------------------------------------------------- the topic list

  /** The inner loop of `ref_positions`, over one group's references. */
  method FindInGroup(refs: seq<Value>, topic: Topic, group: nat) returns (positions: seq<(nat, nat)>)
    ensures positions == PositionsIn(refs, topic, group, 0)
  {
    positions := [];
    for i := 0 to |refs|
      invariant positions + PositionsIn(refs, topic, group, i) == PositionsIn(refs, topic, group, 0)
    {
      if Owns(topic, refs[i]) {
        positions := positions + [(group, i)];
      }
    }
  }

  /** The outer loop, over the groups. */
  method FindRefs(groups: seq<Value>, topic: Topic) returns (positions: seq<(nat, nat)>)
    ensures positions == RefPositions(groups, topic, 0)
  {
    positions := [];
    for g := 0 to |groups|
      invariant positions + RefPositions(groups, topic, g) == RefPositions(groups, topic, 0)
    {
      if Refs(groups[g]).Some? {
        var found := FindInGroup(Refs(groups[g]).value, topic, g);
        assert positions + RefPositions(groups, topic, g) == (positions + found) + RefPositions(groups, topic, g + 1);
        positions := positions + found;
      }
    }
  }

  /** The filter on one group's references. */
  method RetainForeign(refs: seq<Value>, topic: Topic) returns (kept: seq<Value>)
    ensures kept == Foreign(refs, topic)
  {
    kept := [];
    for i := 0 to |refs|
      invariant kept + Foreign(refs[i..], topic) == Foreign(refs, topic)
    {
      assert refs[i..][0] == refs[i] && refs[i..][1..] == refs[i + 1..];
      if !Owns(topic, refs[i]) {
        kept := kept + [refs[i]];
      }
    }
  }

  /** One group without the topic's references: kept, or gone. */
  method RetainGroup(group: Value, topic: Topic) returns (kept: seq<Value>)
    ensures kept == Stripped(group, topic)
  {
    if Refs(group).None? {
      return [group];
    }
    var refs := Refs(group).value;
    var foreign := RetainForeign(refs, topic);
    kept := if |foreign| == |refs| || foreign != [] then [WithRefs(group, foreign)] else [];
  }

  /** The loop of `remove_refs`. */
  method RetainGroups(groups: seq<Value>, topic: Topic) returns (kept: seq<Value>)
    ensures kept == RemoveRefs(groups, topic)
  {
    kept := [];
    for g := 0 to |groups|
      invariant kept + RemoveRefs(groups[g..], topic) == RemoveRefs(groups, topic)
    {
      var left := RetainGroup(groups[g], topic);
      RemoveFrom(groups, topic, g);
      assert kept + (left + RemoveRefs(groups[g + 1..], topic)) == (kept + left) + RemoveRefs(groups[g + 1..], topic);
      kept := kept + left;
    }
  }

  lemma RemoveFrom(groups: seq<Value>, topic: Topic, g: nat)
    requires g < |groups|
    ensures RemoveRefs(groups[g..], topic) == Stripped(groups[g], topic) + RemoveRefs(groups[g + 1..], topic)
  {
    assert groups[g..][1..] == groups[g + 1..];
  }

  /** The search for the first group of the intent that can take the reference. */
  method JoinGroup(groups: seq<Value>, reference: Value, intent: string) returns (joined: seq<Value>)
    ensures joined == Join(groups, reference, intent)
  {
    var at := 0;
    while at < |groups| && !Usable(groups[at], intent)
      invariant at <= |groups| && forall i | 0 <= i < at :: !Usable(groups[i], intent)
    {
      at := at + 1;
    }
    JoinFirst(groups, at, reference, intent);
    if at < |groups| {
      var refs := RefsOf(groups[at]);
      joined := groups[at := WithRefs(groups[at], refs + [reference])];
    } else {
      joined := groups + [Object(map[ACTION := String(intent), TOPIC := Array([reference])])];
    }
  }

  method AssignReference(groups: seq<Value>, topic: Topic, reference: Value, intent: string)
    returns (edited: seq<Value>)
    ensures edited == Assign(groups, topic, reference, intent)
  {
    var positions := FindRefs(groups, topic);
    PositionsAreRefs(groups, topic, 0);
    if |positions| == 1 {
      var (group, index) := positions[0];
      assert positions[0] in positions;
      if HasAction(groups[group], intent) {
        var refs := Refs(groups[group]).value;
        return groups[group := WithRefs(groups[group], refs[index := reference])];
      }
    }
    var others := RetainGroups(groups, topic);
    edited := JoinGroup(others, reference, intent);
  }

  // ---------------------------------------------------------------- the guardrail

  /** Whether a block holds a reference of the topic, looking at every guardrail item. */
  method HoldsReference(block: Fields, topic: Topic) returns (holds: bool)
    ensures holds <==> Holds(block, topic)
  {
    var items := ItemsOf(block);
    for i := 0 to |items|
      invariant forall k | 0 <= k < i :: IsGuardrail(items[k]) ==> RefPositions(TopicList(items[k]), topic, 0) == []
    {
      if IsGuardrail(items[i]) {
        var positions := FindRefs(TopicList(items[i]), topic);
        if positions != [] {
          return true;
        }
      }
    }
    return false;
  }

  method CountGuardrails(items: seq<Value>) returns (count: nat)
    ensures count == GuardrailCount(items)
  {
    count := 0;
    for i := 0 to |items|
      invariant count + GuardrailCount(items[i..]) == GuardrailCount(items)
    {
      assert items[i..][0] == items[i] && items[i..][1..] == items[i + 1..];
      if IsGuardrail(items[i]) {
        count := count + 1;
      }
    }
  }

  /** The block edited in place by an apply: the item found or pushed, its list assigned. */
  method ApplyInBlock(block: Fields, topic: Topic, reference: Value, intent: string) returns (applied: Fields)
    ensures applied == ApplyBlock(block, topic, reference, intent)
  {
    var items := ItemsOf(block);
    var found := GuardrailIndex(items);
    var at := if found.Some? then found.value else |items|;
    if found.None? {
      items := items + [NewGuardrail(intent)];
    }
    var groups := AssignReference(TopicList(items[at]), topic, reference, intent);
    var item := Object(items[at].fields[TOPIC_LIST := Array(groups)]);
    item := Object(item.fields[ACTION := String(GuardAction(intent))]);
    applied := block[MODEL_PROTECTION := Array(items[at := item])];
  }

  /** The block edited in place by a revert; `None` where the program would panic. */
  method RevertInBlock(block: Fields, topic: Topic) returns (reverted: Option<Fields>)
    ensures reverted == RevertBlock(block, topic)
  {
    if MODEL_PROTECTION !in block || !block[MODEL_PROTECTION].Array? {
      return None;
    }
    var items := ItemsOf(block);
    var at := GuardrailIndex(items);
    if at.None? || GetItems(items[at.value], TOPIC_LIST).None? {
      return None;
    }
    var item := items[at.value];
    var groups := RetainGroups(TopicList(item), topic);
    var remaining, blocks := AnyLeft(groups);
    if !remaining {
      items := items[..at.value] + items[at.value + 1..];
    } else {
      items := items[at.value := Edited(item, groups, if blocks then "allow" else "block")];
    }
    reverted := Some(block[MODEL_PROTECTION := Array(items)]);
  }

  /** Whether a group still holds a reference, and whether such a group blocks. */
  method AnyLeft(groups: seq<Value>) returns (remaining: bool, blocks: bool)
    ensures remaining <==> Remaining(groups) != []
    ensures blocks <==> Blocks(Remaining(groups))
  {
    remaining, blocks := false, false;
    for i := 0 to |groups|
      invariant Remaining(groups) != [] <==> remaining || Remaining(groups[i..]) != []
      invariant Blocks(Remaining(groups)) <==> blocks || Blocks(Remaining(groups[i..]))
    {
      RemainingFrom(groups, i);
      if RefsOf(groups[i]) != [] {
        BlocksFirst(groups[i], Remaining(groups[i + 1..]));
        remaining, blocks := true, blocks || HasAction(groups[i], "block");
      }
    }
  }

  lemma RemainingFrom(groups: seq<Value>, i: nat)
    requires i < |groups|
    ensures Remaining(groups[i..]) ==
            if RefsOf(groups[i]) != [] then [groups[i]] + Remaining(groups[i + 1..]) else Remaining(groups[i + 1..])
  {
    assert groups[i..][1..] == groups[i + 1..];
  }

  // ---------------------------------------------------------------- the policy

  method ApplyToPolicy(policy: Option<Value>, selector: Selector, topic: Topic, reference: Value, intent: string)
    returns (result: Result<Fields, Refusal>)
    ensures result == ApplyTopic(policy, selector, topic, reference, intent)
  {
    var read := AsPolicy(policy);
    var selected := SelectBlock(read, selector);
    if selected.Err? {
      return Err(selected.error);
    }
    var (ready, place) := selected.value;
    SelectBlockSays(read, selector);
    var block := ConfigurationAt(ready, place).value;
    var count := CountGuardrails(ItemsOf(block));
    if count > 1 {
      return Err(AmbiguousGuardrail);
    }
    var applied := ApplyInBlock(block, topic, reference, intent);
    result := Ok(WithConfiguration(ready, place, applied));
  }

  /** A block in a revert's scope, the selected one or every active one, that holds the topic. */
  predicate HeldInScope(policy: Fields, topic: Topic, selected: Option<Place>, p: Place) {
    (if selected.Some? then p == selected.value else IsActive(policy, p)) && HoldsAt(policy, topic, p)
  }

  predicate HeldElsewhere(policy: Fields, topic: Topic, selected: Option<Place>, p: Place) {
    selected.Some? && p != selected.value && HoldsAt(policy, topic, p)
  }

  /** Every place is the place of a location, and no other. */
  ghost predicate Covers(policy: Fields, found: seq<Location>) {
    && (forall p | p in Places(policy) :: exists k | 0 <= k < |found| :: found[k].place == p)
    && (forall k | 0 <= k < |found| ::
          && found[k].place in Places(policy)
          && ConfigurationAt(policy, found[k].place) == Some(found[k].configuration)
          && found[k].active == IsActive(policy, found[k].place))
  }

  method FindLocations(policy: Fields) returns (found: seq<Location>)
    ensures Covers(policy, found)
  {
    found := Locations(policy);
    forall p | p in Places(policy)
      ensures exists k | 0 <= k < |found| :: found[k].place == p
    {
      assert Has(found, p);
    }
  }

  /** The first search of a revert: the topic is held in its scope. */
  method SearchScope(policy: Fields, found: seq<Location>, topic: Topic, selected: Option<Place>)
    returns (inScope: bool)
    requires Covers(policy, found)
    ensures inScope <==> exists p | p in Places(policy) :: HeldInScope(policy, topic, selected, p)
  {
    for i := 0 to |found|
      invariant forall k | 0 <= k < i :: !HeldInScope(policy, topic, selected, found[k].place)
    {
      var holds := HoldsReference(found[i].configuration, topic);
      if holds && (if selected.Some? then found[i].place == selected.value else found[i].active) {
        assert HeldInScope(policy, topic, selected, found[i].place);
        return true;
      }
    }
    return false;
  }

  /** The second: it is held outside the selected place. */
  method SearchElsewhere(policy: Fields, found: seq<Location>, topic: Topic, selected: Option<Place>)
    returns (elsewhere: bool)
    requires Covers(policy, found)
    ensures elsewhere <==> exists p | p in Places(policy) :: HeldElsewhere(policy, topic, selected, p)
  {
    for i := 0 to |found|
      invariant forall k | 0 <= k < i :: !HeldElsewhere(policy, topic, selected, found[k].place)
    {
      var holds := HoldsReference(found[i].configuration, topic);
      if holds && selected.Some? && found[i].place != selected.value {
        assert HeldElsewhere(policy, topic, selected, found[i].place);
        return true;
      }
    }
    return false;
  }

  method RevertSelected(read: Fields, selector: Selector, topic: Topic) returns (result: Reverting)
    ensures result == RevertWhereSelected(read, selector, topic)
  {
    var probe := SelectBlock(read, selector);
    if probe.Err? {
      return Refused(probe.error);
    }
    var (ready, place) := probe.value;
    SelectBlockSays(read, selector);
    var block := ConfigurationAt(ready, place).value;
    var count := CountGuardrails(ItemsOf(block));
    if count > 1 {
      return Refused(AmbiguousGuardrail);
    }
    var reverted := RevertInBlock(block, topic);
    if reverted.None? {
      return Panicked;
    }
    result := Done(WithConfiguration(ready, place, reverted.value));
  }

  method RevertInPolicy(policy: Option<Value>, selector: Selector, topic: Topic) returns (result: Reverting)
    ensures result == RevertTopic(policy, selector, topic)
  {
    var read := AsPolicy(policy);
    var probe := SelectBlock(read, selector);
    if selector.IsGiven() && probe.Err? {
      return Refused(probe.error);
    }
    var selected := if selector.IsGiven() then Some(probe.value.1) else None;
    var found := FindLocations(read);
    var inScope := SearchScope(read, found, topic, selected);
    if !inScope {
      return Refused(NotAssigned);
    }
    var elsewhere := SearchElsewhere(read, found, topic, selected);
    if elsewhere {
      return Refused(ReferencedElsewhere);
    }
    result := RevertSelected(read, selector, topic);
  }
}
