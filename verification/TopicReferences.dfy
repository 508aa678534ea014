/**
 * What `topics apply` and `topics revert` do to the references of a policy, read off the JSON
 * documents before and after.
 */
module TopicReferences {
  import opened Wrappers
  import opened Json
  import opened JsonPaths
  import opened TopicLists
  import opened Guardrails
  import opened ProfileLayout
  import opened Policies

  // ---------------------------------------------------------------- references of a document

  /** The topic list of an item of a block, if it is a guardrail. */
  function ListAt(policy: Fields, entry: nat, direction: Option<string>, item: nat): seq<Value> {
    var found := Item(Inside(BlockIn(policy, entry, direction), "model-protection"), item);
    if Inside(found, "name") == Some(String("topic-guardrails")) then ItemsIn(Inside(found, "topic-list")) else []
  }

  /** Where a reference is: its block, the item of the block, the group of the item's list, and
      its place in the group. */
  datatype Spot = Spot(entry: nat, direction: Option<string>, item: nat, group: nat, index: nat)

  function GroupAt(policy: Fields, spot: Spot): Option<Value> {
    Item(Some(Array(ListAt(policy, spot.entry, spot.direction, spot.item))), spot.group)
  }

  predicate ReferenceAt(policy: Fields, spot: Spot, reference: Value) {
    Item(Inside(GroupAt(policy, spot), "topic"), spot.index) == Some(reference)
  }

  /** A reference speaks of a topic by its name, or by the id of one of its revisions. */
  predicate Speaks(reference: Value, name: string, ids: seq<string>) {
    || Inside(Some(reference), "topic_name") == Some(String(name))
    || exists k | 0 <= k < |ids| :: Inside(Some(reference), "topic_id") == Some(String(ids[k]))
  }

  /** The references of a list that do not speak of the topic, each with its group's action. */
  function Strangers(groups: seq<Value>, name: string, ids: seq<string>): seq<(Option<Value>, Value)> {
    if groups == [] then []
    else
      var group := Some(groups[0]);
      StrangersIn(Inside(group, "action"), ItemsIn(Inside(group, "topic")), name, ids)
      + Strangers(groups[1..], name, ids)
  }

  function StrangersIn(action: Option<Value>, refs: seq<Value>, name: string, ids: seq<string>)
    : seq<(Option<Value>, Value)>
  {
    if refs == [] then []
    else (if Speaks(refs[0], name, ids) then [] else [(action, refs[0])]) + StrangersIn(action, refs[1..], name, ids)
  }

  // ---------------------------------------------------------------- the edits read them so

  lemma OwnsSpeaks(name: string, ids: seq<string>, reference: Value)
    ensures Owns(Topic(name, ids), reference) <==> Speaks(reference, name, ids)
  {
  }

  lemma ListSeen(policy: Fields, place: Place, item: nat)
    ensures ListAt(policy, place.index, place.direction, item) ==
            match ConfigurationAt(policy, place)
            case None => []
            case Some(block) =>
              var items := ItemsOf(block);
              if item < |items| && IsGuardrail(items[item]) then TopicList(items[item]) else []
  {
    BlocksAreRead(policy, place);
  }

  /** A list holds what speaks of the topic exactly where the search finds it. */
  lemma {:induction false} FoundInGroup(refs: seq<Value>, topic: Topic, group: nat, from: nat, index: nat)
    requires from <= index < |refs| && Owns(topic, refs[index])
    ensures (group, index) in PositionsIn(refs, topic, group, from)
    decreases |refs| - from
  {
    if from < index {
      FoundInGroup(refs, topic, group, from + 1, index);
    }
  }

  lemma {:induction false} Found(groups: seq<Value>, topic: Topic, from: nat, group: nat, index: nat)
    requires from <= group < |groups| && Refs(groups[group]).Some? && index < |Refs(groups[group]).value|
    requires Owns(topic, Refs(groups[group]).value[index])
    ensures (group, index) in RefPositions(groups, topic, from)
    decreases |groups| - from
  {
    if from < group {
      Found(groups, topic, from + 1, group, index);
    } else {
      FoundInGroup(Refs(groups[group]).value, topic, group, 0, index);
    }
  }

  /** A place that is not said to hold the topic has no reference that speaks of it. */
  lemma NothingSpeaks(policy: Fields, name: string, ids: seq<string>, spot: Spot, reference: Value)
    requires !HoldsAt(policy, Topic(name, ids), Place(spot.entry, spot.direction))
    requires ReferenceAt(policy, spot, reference)
    ensures !Speaks(reference, name, ids)
  {
    ListSeen(policy, Place(spot.entry, spot.direction), spot.item);
    OwnsSpeaks(name, ids, reference);
    if Speaks(reference, name, ids) {
      var groups := ListAt(policy, spot.entry, spot.direction, spot.item);
      Found(groups, Topic(name, ids), 0, spot.group, spot.index);
    }
  }

  // ---------------------------------------------------------------- strangers stay

  lemma {:induction false} StrangersInAppend(action: Option<Value>, a: seq<Value>, b: seq<Value>,
                                             name: string, ids: seq<string>)
    ensures StrangersIn(action, a + b, name, ids)
            == StrangersIn(action, a, name, ids) + StrangersIn(action, b, name, ids)
  {
    if a == [] {
      assert a + b == b;
    } else {
      assert (a + b)[1..] == a[1..] + b;
      StrangersInAppend(action, a[1..], b, name, ids);
    }
  }

  lemma {:induction false} StrangersAppend(a: seq<Value>, b: seq<Value>, name: string, ids: seq<string>)
    ensures Strangers(a + b, name, ids) == Strangers(a, name, ids) + Strangers(b, name, ids)
  {
    if a == [] {
      assert a + b == b;
    } else {
      assert (a + b)[1..] == a[1..] + b;
      StrangersAppend(a[1..], b, name, ids);
    }
  }

  /** The strangers of one group. */
  function StrangersOf(group: Value, name: string, ids: seq<string>): seq<(Option<Value>, Value)> {
    StrangersIn(Inside(Some(group), "action"), ItemsIn(Inside(Some(group), "topic")), name, ids)
  }

  lemma OneGroupOf(group: Value, name: string, ids: seq<string>)
    ensures Strangers([group], name, ids) == StrangersOf(group, name, ids)
  {
    assert [group][1..] == [];
  }

  lemma {:induction false} ForeignAreStrangers(action: Option<Value>, refs: seq<Value>, name: string, ids: seq<string>)
    ensures StrangersIn(action, Foreign(refs, Topic(name, ids)), name, ids) == StrangersIn(action, refs, name, ids)
  {
    if refs != [] {
      ForeignAreStrangers(action, refs[1..], name, ids);
      OwnsSpeaks(name, ids, refs[0]);
      var rest := Foreign(refs[1..], Topic(name, ids));
      assert [] + rest == rest && ([refs[0]] + rest)[1..] == rest;
    }
  }

  lemma StrippedStrangers(group: Value, name: string, ids: seq<string>)
    ensures Strangers(Stripped(group, Topic(name, ids)), name, ids) == StrangersOf(group, name, ids)
  {
    if Refs(group).None? {
      OneGroupOf(group, name, ids);
    } else {
      var refs := Refs(group).value;
      var kept := Foreign(refs, Topic(name, ids));
      ForeignAreStrangers(Inside(Some(group), "action"), refs, name, ids);
      OneGroupOf(WithRefs(group, kept), name, ids);
    }
  }

  lemma {:induction false} RemovedStrangers(groups: seq<Value>, name: string, ids: seq<string>)
    ensures Strangers(RemoveRefs(groups, Topic(name, ids)), name, ids) == Strangers(groups, name, ids)
  {
    if groups != [] {
      StrippedStrangers(groups[0], name, ids);
      RemovedStrangers(groups[1..], name, ids);
      StrangersAppend(Stripped(groups[0], Topic(name, ids)), RemoveRefs(groups[1..], Topic(name, ids)), name, ids);
    }
  }

  lemma {:induction false} NoReferenceNoStranger(groups: seq<Value>, name: string, ids: seq<string>)
    requires RefCount(groups) == 0
    ensures Strangers(groups, name, ids) == []
  {
    if groups != [] {
      NoReferenceNoStranger(groups[1..], name, ids);
    }
  }

  // ---------------------------------------------------------------- revert

  /** In a block with one guardrail at most. */
  lemma GuardedSeen(block: Fields, item: nat)
    requires GuardrailCount(ItemsOf(block)) <= 1
    ensures item < |ItemsOf(block)| && IsGuardrail(ItemsOf(block)[item]) <==>
            GuardrailIndex(ItemsOf(block)) == Some(item)
  {
    if item < |ItemsOf(block)| && IsGuardrail(ItemsOf(block)[item]) {
      OnlyGuardrail(ItemsOf(block), item);
    }
  }

  /** The list of an item of a block. */
  function ListIn(block: Fields, item: nat): seq<Value> {
    if GuardrailIndex(ItemsOf(block)) == Some(item) then GuardedList(block) else []
  }

  lemma ListIsIn(policy: Fields, place: Place, item: nat)
    requires ConfigurationAt(policy, place).Some?
    requires GuardrailCount(ItemsOf(ConfigurationAt(policy, place).value)) <= 1
    ensures ListAt(policy, place.index, place.direction, item) == ListIn(ConfigurationAt(policy, place).value, item)
  {
    ListSeen(policy, place, item);
    GuardedSeen(ConfigurationAt(policy, place).value, item);
  }

  lemma RevertedStrangers(block: Fields, name: string, ids: seq<string>, item: nat)
    requires GuardrailCount(ItemsOf(block)) <= 1 && Holds(block, Topic(name, ids))
    ensures RevertBlock(block, Topic(name, ids)).Some?
    ensures var after := RevertBlock(block, Topic(name, ids)).value;
            && GuardrailCount(ItemsOf(after)) <= 1
            && Strangers(ListIn(after, item), name, ids) == Strangers(ListIn(block, item), name, ids)
  {
    Reverted(block, Topic(name, ids));
    var after, groups := RevertBlock(block, Topic(name, ids)).value, RemoveRefs(GuardedList(block), Topic(name, ids));
    RemovedStrangers(GuardedList(block), name, ids);
    if RefCount(groups) == 0 {
      NoReferenceNoStranger(groups, name, ids);
      NoneWhenZero(ItemsOf(after));
    }
  }

  /**
   * After a successful revert no reference anywhere, in any entry, direction, guardrail item or
   * group, has the topic's name or one of its ids; every item of every block has the references
   * with neither that it had, in their order and under their actions.
   */
  lemma RevertTakesJustTheTopic(policy: Option<Value>, selector: Selector, name: string, ids: seq<string>)
    requires RevertTopic(policy, selector, Topic(name, ids)).Done?
    ensures var after := RevertTopic(policy, selector, Topic(name, ids)).policy;
            forall spot, reference | ReferenceAt(after, spot, reference) :: !Speaks(reference, name, ids)
    ensures var before, after := AsPolicy(policy), RevertTopic(policy, selector, Topic(name, ids)).policy;
            forall entry: nat, direction, item: nat ::
              Strangers(ListAt(after, entry, direction, item), name, ids)
              == Strangers(ListAt(before, entry, direction, item), name, ids)
  {
    var topic := Topic(name, ids);
    RevertLeavesNoReference(policy, selector, topic, "");
    HeldWhereSelected(policy, selector, topic);
    var before, after := AsPolicy(policy), RevertTopic(policy, selector, topic).policy;
    var place := GuardedBlock(before, selector).value.1;
    forall spot, reference | ReferenceAt(after, spot, reference)
      ensures !Speaks(reference, name, ids)
    {
      assert !HoldsAt(after, topic, Place(spot.entry, spot.direction));
      NothingSpeaks(after, name, ids, spot, reference);
    }
    RevertedThere(policy, selector, name, ids);
    forall entry: nat, direction, item: nat
      ensures Strangers(ListAt(after, entry, direction, item), name, ids)
              == Strangers(ListAt(before, entry, direction, item), name, ids)
    {
      var p := Place(entry, direction);
      if p == place {
        RevertedStrangers(ConfigurationAt(before, place).value, name, ids, item);
        ListIsIn(before, place, item);
        ListIsIn(after, place, item);
      } else {
        assert ConfigurationAt(after, p) == ConfigurationAt(before, p);
        ListSeen(before, p, item);
        ListSeen(after, p, item);
      }
    }
  }

  /** The block a revert writes. */
  lemma RevertedThere(policy: Option<Value>, selector: Selector, name: string, ids: seq<string>)
    requires RevertTopic(policy, selector, Topic(name, ids)).Done?
    ensures GuardedBlock(AsPolicy(policy), selector).Ok?
    ensures var before, place := AsPolicy(policy), GuardedBlock(AsPolicy(policy), selector).value.1;
            && HoldsAt(before, Topic(name, ids), place)
            && GuardrailCount(ItemsOf(ConfigurationAt(before, place).value)) <= 1
            && ConfigurationAt(RevertTopic(policy, selector, Topic(name, ids)).policy, place)
               == RevertBlock(ConfigurationAt(before, place).value, Topic(name, ids))
  {
    HeldWhereSelected(policy, selector, Topic(name, ids));
    var before, place := AsPolicy(policy), GuardedBlock(AsPolicy(policy), selector).value.1;
    Reverted(ConfigurationAt(before, place).value, Topic(name, ids));
    SelectBlockSays(before, selector);
    ConfigurationWritten(before, place, RevertBlock(ConfigurationAt(before, place).value, Topic(name, ids)).value);
  }

  // ---------------------------------------------------------------- apply

  lemma {:induction false} JoinedStrangers(groups: seq<Value>, reference: Value, intent: string,
                                           name: string, ids: seq<string>)
    requires Speaks(reference, name, ids)
    ensures Strangers(Join(groups, reference, intent), name, ids) == Strangers(groups, name, ids)
  {
    if groups == [] {
      var group := Join(groups, reference, intent)[0];
      OneGroupOf(group, name, ids);
      assert [reference][1..] == [];
      assert StrangersIn(Inside(Some(group), "action"), [reference], name, ids) == [];
    } else if Usable(groups[0], intent) {
      JoinedGroup(groups[0], reference, name, ids);
      assert Join(groups, reference, intent)[1..] == groups[1..];
    } else {
      JoinedStrangers(groups[1..], reference, intent, name, ids);
    }
  }

  lemma JoinedGroup(group: Value, reference: Value, name: string, ids: seq<string>)
    requires group.Object? && Speaks(reference, name, ids)
    ensures StrangersOf(Joined(group, reference), name, ids) == StrangersOf(group, name, ids)
  {
    var action := Inside(Some(group), "action");
    StrangersInAppend(action, RefsOf(group), [reference], name, ids);
    assert [reference][1..] == [];
  }

  lemma {:induction false} GroupReplacedStrangers(groups: seq<Value>, at: nat, group: Value,
                                                  name: string, ids: seq<string>)
    requires at < |groups| && StrangersOf(group, name, ids) == StrangersOf(groups[at], name, ids)
    ensures Strangers(groups[at := group], name, ids) == Strangers(groups, name, ids)
  {
    var after := groups[at := group];
    if at == 0 {
      assert after[1..] == groups[1..];
    } else {
      assert after[1..] == groups[1..][at - 1 := group] && after[0] == groups[0];
      GroupReplacedStrangers(groups[1..], at - 1, group, name, ids);
    }
  }

  lemma ReplacedStrangers(groups: seq<Value>, at: (nat, nat), reference: Value, name: string, ids: seq<string>)
    requires at.0 < |groups| && Refs(groups[at.0]).Some? && at.1 < |Refs(groups[at.0]).value|
    requires Speaks(Refs(groups[at.0]).value[at.1], name, ids) && Speaks(reference, name, ids)
    ensures Strangers(Replaced(groups, at, reference), name, ids) == Strangers(groups, name, ids)
  {
    var refs := Refs(groups[at.0]).value;
    ReplacedInGroup(Inside(Some(groups[at.0]), "action"), refs, at.1, reference, name, ids);
    GroupReplacedStrangers(groups, at.0, WithRefs(groups[at.0], refs[at.1 := reference]), name, ids);
  }

  lemma ReplacedInGroup(action: Option<Value>, refs: seq<Value>, at: nat, reference: Value,
                        name: string, ids: seq<string>)
    requires at < |refs| && Speaks(refs[at], name, ids) && Speaks(reference, name, ids)
    ensures StrangersIn(action, refs[at := reference], name, ids) == StrangersIn(action, refs, name, ids)
  {
    assert refs == refs[..at] + ([refs[at]] + refs[at + 1..]);
    assert refs[at := reference] == refs[..at] + ([reference] + refs[at + 1..]);
    StrangersInAppend(action, refs[..at], [refs[at]] + refs[at + 1..], name, ids);
    StrangersInAppend(action, refs[..at], [reference] + refs[at + 1..], name, ids);
    assert ([refs[at]] + refs[at + 1..])[1..] == ([reference] + refs[at + 1..])[1..];
  }

  lemma AssignedStrangers(groups: seq<Value>, reference: Value, intent: string, name: string, ids: seq<string>)
    requires Speaks(reference, name, ids)
    ensures Strangers(Assign(groups, Topic(name, ids), reference, intent), name, ids) == Strangers(groups, name, ids)
  {
    var topic := Topic(name, ids);
    var positions := RefPositions(groups, topic, 0);
    PositionsAreRefs(groups, topic, 0);
    if |positions| == 1 && HasAction(groups[positions[0].0], intent) {
      assert positions[0] in positions;
      var at := positions[0];
      OwnsSpeaks(name, ids, Refs(groups[at.0]).value[at.1]);
      ReplacedStrangers(groups, at, reference, name, ids);
    } else {
      RemovedStrangers(groups, name, ids);
      JoinedStrangers(RemoveRefs(groups, topic), reference, intent, name, ids);
    }
  }

  /** Where in a list the new reference is. */
  predicate JustThere(groups: seq<Value>, group: nat, index: nat, reference: Value, intent: string) {
    && Item(Inside(Item(Some(Array(groups)), group), "topic"), index) == Some(reference)
    && Inside(Item(Some(Array(groups)), group), "action") == Some(String(intent))
  }

  lemma JoinedThere(groups: seq<Value>, reference: Value, intent: string) returns (group: nat, index: nat)
    ensures JustThere(Join(groups, reference, intent), group, index, reference, intent)
  {
    group := FirstUsable(groups, intent);
    JoinFirst(groups, group, reference, intent);
    index := if group < |groups| then |RefsOf(groups[group])| else 0;
  }

  lemma AssignedThere(groups: seq<Value>, topic: Topic, reference: Value, intent: string)
      returns (group: nat, index: nat)
    ensures JustThere(Assign(groups, topic, reference, intent), group, index, reference, intent)
  {
    var positions := RefPositions(groups, topic, 0);
    PositionsAreRefs(groups, topic, 0);
    if |positions| == 1 && HasAction(groups[positions[0].0], intent) {
      assert positions[0] in positions;
      group, index := positions[0].0, positions[0].1;
      assert Replaced(groups, positions[0], reference)[group]
          == WithRefs(groups[group], Refs(groups[group]).value[index := reference]);
    } else {
      group, index := JoinedThere(RemoveRefs(groups, topic), reference, intent);
    }
  }

  /** A spot of a list that speaks of the topic. */
  predicate SpeaksAt(groups: seq<Value>, group: nat, index: nat, name: string, ids: seq<string>) {
    var found := Item(Inside(Item(Some(Array(groups)), group), "topic"), index);
    found.Some? && Speaks(found.value, name, ids)
  }

  lemma SpeakingIsFound(groups: seq<Value>, group: nat, index: nat, name: string, ids: seq<string>)
    requires SpeaksAt(groups, group, index, name, ids)
    ensures (group, index) in RefPositions(groups, Topic(name, ids), 0)
  {
    OwnsSpeaks(name, ids, Refs(groups[group]).value[index]);
    Found(groups, Topic(name, ids), 0, group, index);
  }

  /** A list in which the topic owns one reference at most has one spot at most that speaks of it. */
  lemma OneSpot(groups: seq<Value>, name: string, ids: seq<string>, a: (nat, nat), b: (nat, nat))
    requires |OwnedIn(groups, Topic(name, ids))| <= 1
    requires SpeaksAt(groups, a.0, a.1, name, ids) && SpeaksAt(groups, b.0, b.1, name, ids)
    ensures a == b
  {
    SpeakingIsFound(groups, a.0, a.1, name, ids);
    SpeakingIsFound(groups, b.0, b.1, name, ids);
    PositionsCount(groups, Topic(name, ids), 0);
    assert groups[0..] == groups;
    var positions := RefPositions(groups, Topic(name, ids), 0);
    assert a in positions && b in positions && |positions| <= 1;
  }

  /** After an assignment only the new reference can speak of the topic. */
  lemma OnlyTheNewSpeaks(before: seq<Value>, name: string, ids: seq<string>, reference: Value, intent: string,
                         at: (nat, nat), spot: (nat, nat))
    requires var groups := Assign(before, Topic(name, ids), reference, intent);
             JustThere(groups, at.0, at.1, reference, intent) && SpeaksAt(groups, spot.0, spot.1, name, ids)
    ensures spot == at
  {
    var groups := Assign(before, Topic(name, ids), reference, intent);
    AssignSays(before, Topic(name, ids), reference, intent);
    SpeakingIsFound(groups, spot.0, spot.1, name, ids);
    PositionsCount(groups, Topic(name, ids), 0);
    assert groups[0..] == groups;
    OwnsSpeaks(name, ids, reference);
    assert Owns(Topic(name, ids), reference);
    OneSpot(groups, name, ids, at, spot);
  }

  /** The block an apply writes, and the one it had before. */
  lemma AppliedThere(policy: Option<Value>, selector: Selector, topic: Topic, reference: Value, intent: string)
      returns (place: Place, was: Fields)
    requires ApplyTopic(policy, selector, topic, reference, intent).Ok?
    ensures SelectBlock(AsPolicy(policy), selector).Ok?
    ensures place == SelectBlock(AsPolicy(policy), selector).value.1
    ensures was == (match ConfigurationAt(AsPolicy(policy), place) case Some(block) => block case None => map[])
    ensures GuardrailCount(ItemsOf(was)) <= 1
    ensures var after := ApplyTopic(policy, selector, topic, reference, intent).value;
            && ConfigurationAt(after, place) == Some(ApplyBlock(was, topic, reference, intent))
            && forall p | p != place :: ConfigurationAt(after, p) == ConfigurationAt(AsPolicy(policy), p)
  {
    var before := AsPolicy(policy);
    SelectBlockSays(before, selector);
    var (ready, where) := GuardedBlock(before, selector).value;
    place := where;
    was := ConfigurationAt(ready, place).value;
    ConfigurationWritten(ready, place, ApplyBlock(was, topic, reference, intent));
  }

  lemma AppliedListIn(block: Fields, topic: Topic, reference: Value, intent: string, item: nat)
    requires GuardrailCount(ItemsOf(block)) <= 1
    ensures var after := ApplyBlock(block, topic, reference, intent);
            && GuardrailCount(ItemsOf(after)) <= 1
            && ListIn(after, item) == (if item == WithGuardrail(ItemsOf(block), intent).1
                                       then Assign(GuardedList(block), topic, reference, intent) else [])
            && ListIn(block, item) == (if item == WithGuardrail(ItemsOf(block), intent).1
                                       then GuardedList(block) else [])
  {
    Applied(block, topic, reference, intent);
  }

  /** In the block an apply wrote, a reference that speaks of the topic is the new one. */
  lemma OnlyOneSpeaks(policy: Fields, place: Place, was: Fields, name: string, ids: seq<string>,
                      reference: Value, intent: string, at: (nat, nat), s: Spot, r: Value)
    requires GuardrailCount(ItemsOf(was)) <= 1 && Place(s.entry, s.direction) == place
    requires ConfigurationAt(policy, place) == Some(ApplyBlock(was, Topic(name, ids), reference, intent))
    requires JustThere(Assign(GuardedList(was), Topic(name, ids), reference, intent), at.0, at.1, reference, intent)
    requires ReferenceAt(policy, s, r) && Speaks(r, name, ids)
    ensures s.item == WithGuardrail(ItemsOf(was), intent).1 && (s.group, s.index) == at
  {
    AppliedListIn(was, Topic(name, ids), reference, intent, s.item);
    ListIsIn(policy, place, s.item);
    assert ListAt(policy, s.entry, s.direction, s.item) != [];
    OnlyTheNewSpeaks(GuardedList(was), name, ids, reference, intent, at, (s.group, s.index));
  }

  /**
   * A successful apply puts the reference under the intent into the selected block, where no
   * other reference has the topic's name or one of its ids afterwards.
   */
  lemma ApplyLeavesOneReference(policy: Option<Value>, selector: Selector, name: string, ids: seq<string>,
                                reference: Value, intent: string)
      returns (spot: Spot)
    requires ApplyTopic(policy, selector, Topic(name, ids), reference, intent).Ok?
    ensures SelectBlock(AsPolicy(policy), selector).Ok?
    ensures Place(spot.entry, spot.direction) == SelectBlock(AsPolicy(policy), selector).value.1
    ensures var after := ApplyTopic(policy, selector, Topic(name, ids), reference, intent).value;
            && ReferenceAt(after, spot, reference)
            && Inside(GroupAt(after, spot), "action") == Some(String(intent))
            && forall s, r |
                 ReferenceAt(after, s, r) && s.entry == spot.entry && s.direction == spot.direction
                 && Speaks(r, name, ids) :: s == spot
  {
    var topic := Topic(name, ids);
    var after := ApplyTopic(policy, selector, topic, reference, intent).value;
    var place, was := AppliedThere(policy, selector, topic, reference, intent);
    var item := WithGuardrail(ItemsOf(was), intent).1;
    var group, index := AssignedThere(GuardedList(was), topic, reference, intent);
    spot := Spot(place.index, place.direction, item, group, index);
    AppliedListIn(was, topic, reference, intent, item);
    ListIsIn(after, place, item);
    forall s, r |
      ReferenceAt(after, s, r) && s.entry == spot.entry && s.direction == spot.direction && Speaks(r, name, ids)
      ensures s == spot
    {
      OnlyOneSpeaks(after, place, was, name, ids, reference, intent, (group, index), s, r);
    }
  }

  /** Every item of every block keeps the references with neither the name nor an id, in their
      order and under their actions. */
  lemma ApplyKeepsStrangers(policy: Option<Value>, selector: Selector, name: string, ids: seq<string>,
                            reference: Value, intent: string)
    requires ApplyTopic(policy, selector, Topic(name, ids), reference, intent).Ok? && Speaks(reference, name, ids)
    ensures var before := AsPolicy(policy);
            var after := ApplyTopic(policy, selector, Topic(name, ids), reference, intent).value;
            forall entry: nat, direction, item: nat ::
              Strangers(ListAt(after, entry, direction, item), name, ids)
              == Strangers(ListAt(before, entry, direction, item), name, ids)
  {
    var topic, before := Topic(name, ids), AsPolicy(policy);
    var after := ApplyTopic(policy, selector, topic, reference, intent).value;
    var place, was := AppliedThere(policy, selector, topic, reference, intent);
    forall entry: nat, direction, item: nat
      ensures Strangers(ListAt(after, entry, direction, item), name, ids)
              == Strangers(ListAt(before, entry, direction, item), name, ids)
    {
      var p := Place(entry, direction);
      ListSeen(before, p, item);
      ListSeen(after, p, item);
      if p == place {
        AppliedListIn(was, topic, reference, intent, item);
        GuardedSeen(was, item);
        ListIsIn(after, place, item);
        AssignedStrangers(GuardedList(was), reference, intent, name, ids);
      } else {
        assert ConfigurationAt(after, p) == ConfigurationAt(before, p);
      }
    }
  }

  // ---------------------------------------------------------------- when they succeed

  /** The parts of a group, read off it. */
  lemma GroupsAreRead(group: Value, refs: seq<Value>, intent: string)
    ensures Refs(group) == (match Inside(Some(group), "topic") case Some(Array(items)) => Some(items) case _ => None)
    ensures group.Object? ==> WithRefs(group, refs) == Object(group.fields["topic" := Array(refs)])
    ensures HasAction(group, intent) <==> Inside(Some(group), "action") == Some(String(intent))
    ensures Usable(group, intent) <==>
            && Inside(Some(group), "action") == Some(String(intent))
            && (Inside(Some(group), "topic").None? || Inside(Some(group), "topic").value.Array?)
  {
  }

  predicate IsGuardrailItem(item: Value) {
    Inside(Some(item), "name") == Some(String("topic-guardrails"))
  }

  /** No block with two guardrails. */
  predicate OneGuardrail(items: seq<Value>) {
    forall j, k | 0 <= j < k < |items| :: !(IsGuardrailItem(items[j]) && IsGuardrailItem(items[k]))
  }

  lemma {:induction false} TwoGuardrails(items: seq<Value>) returns (j: nat, k: nat)
    requires GuardrailCount(items) >= 2
    ensures j < k < |items| && IsGuardrailItem(items[j]) && IsGuardrailItem(items[k])
  {
    if IsGuardrail(items[0]) {
      NoneWhenZero(items[1..]);
      j, k := 0, GuardrailIndex(items[1..]).value + 1;
    } else {
      j, k := TwoGuardrails(items[1..]);
      j, k := j + 1, k + 1;
    }
  }

  lemma OneGuardrailCounts(items: seq<Value>)
    ensures GuardrailCount(items) <= 1 <==> OneGuardrail(items)
  {
    if GuardrailCount(items) >= 2 {
      var j, k := TwoGuardrails(items);
    } else {
      forall j, k | 0 <= j < k < |items|
        ensures !(IsGuardrailItem(items[j]) && IsGuardrailItem(items[k]))
      {
        if IsGuardrailItem(items[j]) && IsGuardrailItem(items[k]) {
          OnlyGuardrail(items, j);
          OnlyGuardrail(items, k);
        }
      }
    }
  }

  /** The entry of an edit: an empty list stands for a default one. */
  function EntryIn(policy: Fields, index: nat): Fields {
    match Item(Inside(Some(Object(policy)), "ai-security-profiles"), index)
    case Some(Object(entry)) => entry
    case _ => map["model-type" := String("default")]
  }

  /** A topic edit can be made: an entry is selected, its layout allows the edit, and the block
      has one guardrail at most. */
  predicate Editable(policy: Fields, selector: Selector) {
    var index := if selector.index.Some? then selector.index.value else 0;
    && Selects(policy, selector.index)
    && Allows(EntryIn(policy, index), selector.direction, false)
    && OneGuardrail(ItemsIn(Inside(BlockIn(policy, index, selector.direction), "model-protection")))
  }

  lemma EntryIsIn(policy: Fields, selector: Selector)
    requires SelectAiProfile(policy, selector).Ok?
    ensures var (selected, index) := SelectAiProfile(policy, selector).value;
            && index == (if selector.index.Some? then selector.index.value else 0)
            && HasEntry(selected, index) && EntryAt(selected, index) == EntryIn(policy, index)
  {
    SelectedEntry(policy, selector);
  }

  lemma SelectsBlockExactly(policy: Fields, selector: Selector)
    ensures SelectBlock(policy, selector).Ok? <==>
            && Selects(policy, selector.index)
            && Allows(EntryIn(policy, if selector.index.Some? then selector.index.value else 0),
                      selector.direction, false)
    ensures SelectBlock(policy, selector).Ok? ==>
              SelectBlock(policy, selector).value.1
              == Place(if selector.index.Some? then selector.index.value else 0, selector.direction)
  {
    SelectedExactly(policy, selector);
    if SelectAiProfile(policy, selector).Ok? {
      EntryIsIn(policy, selector);
      AllowedExactly(EntryIn(policy, SelectAiProfile(policy, selector).value.1), selector.direction, false);
    }
  }

  lemma ItemsAreRead(policy: Fields, place: Place)
    ensures ItemsIn(Inside(BlockIn(policy, place.index, place.direction), "model-protection"))
            == (if ConfigurationAt(policy, place).Some? then ItemsOf(ConfigurationAt(policy, place).value) else [])
  {
    BlocksAreRead(policy, place);
  }

  lemma EditableExactly(policy: Fields, selector: Selector)
    ensures GuardedBlock(policy, selector).Ok? <==> Editable(policy, selector)
  {
    SelectsBlockExactly(policy, selector);
    if SelectBlock(policy, selector).Ok? {
      SelectBlockSays(policy, selector);
      var place := SelectBlock(policy, selector).value.1;
      ItemsAreRead(policy, place);
      OneGuardrailCounts(ItemsIn(Inside(BlockIn(policy, place.index, place.direction), "model-protection")));
    }
  }

  /** An apply succeeds exactly where the edit can be made. */
  lemma ApplySucceedsExactly(policy: Option<Value>, selector: Selector, name: string, ids: seq<string>,
                             reference: Value, intent: string)
    ensures ApplyTopic(policy, selector, Topic(name, ids), reference, intent).Ok? <==>
            Editable(AsPolicy(policy), selector)
  {
    EditableExactly(AsPolicy(policy), selector);
  }

  /** Some reference of a block speaks of the topic. */
  ghost predicate SpeaksIn(policy: Fields, entry: nat, direction: Option<string>, name: string, ids: seq<string>) {
    exists spot, reference |
      ReferenceAt(policy, spot, reference) && spot.entry == entry && spot.direction == direction ::
      Speaks(reference, name, ids)
  }

  lemma HeldSpeaks(policy: Fields, place: Place, name: string, ids: seq<string>)
    ensures HoldsAt(policy, Topic(name, ids), place) <==> SpeaksIn(policy, place.index, place.direction, name, ids)
  {
    var topic := Topic(name, ids);
    if HoldsAt(policy, topic, place) {
      var items := ItemsOf(ConfigurationAt(policy, place).value);
      var i: nat :| i < |items| && IsGuardrail(items[i]) && RefPositions(TopicList(items[i]), topic, 0) != [];
      var groups := TopicList(items[i]);
      PositionsAreRefs(groups, topic, 0);
      var p := RefPositions(groups, topic, 0)[0];
      assert p in RefPositions(groups, topic, 0);
      ListSeen(policy, place, i);
      var reference := Refs(groups[p.0]).value[p.1];
      OwnsSpeaks(name, ids, reference);
      assert ReferenceAt(policy, Spot(place.index, place.direction, i, p.0, p.1), reference);
    } else {
      forall spot, reference |
        ReferenceAt(policy, spot, reference) && spot.entry == place.index && spot.direction == place.direction
        ensures !Speaks(reference, name, ids)
      {
        NothingSpeaks(policy, name, ids, spot, reference);
      }
    }
  }

  /** A revert succeeds exactly where the edit can be made and just the selected block has
      references that speak of the topic. */
  lemma RevertSucceedsJustThere(policy: Option<Value>, selector: Selector, name: string, ids: seq<string>)
    ensures RevertTopic(policy, selector, Topic(name, ids)).Done? <==>
            && Editable(AsPolicy(policy), selector)
            && forall entry: nat, direction ::
                 SpeaksIn(AsPolicy(policy), entry, direction, name, ids) <==>
                 entry == (if selector.index.Some? then selector.index.value else 0) && direction == selector.direction
  {
    var before := AsPolicy(policy);
    RevertSucceedsExactly(policy, selector, Topic(name, ids));
    EditableExactly(before, selector);
    SelectsBlockExactly(before, selector);
    forall entry: nat, direction
      ensures HoldsAt(before, Topic(name, ids), Place(entry, direction)) <==>
              SpeaksIn(before, entry, direction, name, ids)
    {
      HeldSpeaks(before, Place(entry, direction), name, ids);
    }
    forall p: Place
      ensures HoldsAt(before, Topic(name, ids), p) <==> SpeaksIn(before, p.index, p.direction, name, ids)
    {
      HeldSpeaks(before, p, name, ids);
    }
  }

  /** A block that is enforced, read off the document. */
  predicate ActiveIn(policy: Fields, entry: nat, direction: Option<string>) {
    var found := Item(Inside(Some(Object(policy)), "ai-security-profiles"), entry);
    || direction.Some?
    || (Inside(found, "content-type-mode") != Some(String("per_content_type"))
        && Inside(found, "content-type-configurations").None?)
  }

  /** Selecting refuses for reasons of its own. */
  lemma OtherRefusals(policy: Fields, selector: Selector)
    ensures GuardedBlock(policy, selector).Err? ==>
              GuardedBlock(policy, selector).error != NotAssigned
              && GuardedBlock(policy, selector).error != ReferencedElsewhere
    ensures SelectBlock(policy, selector).Err? ==>
              GuardedBlock(policy, selector) == Err(SelectBlock(policy, selector).error)
  {
  }

  lemma RefusedByPlaces(policy: Option<Value>, selector: Selector, topic: Topic)
    ensures var before, result := AsPolicy(policy), RevertTopic(policy, selector, topic);
            var selected := SelectBlock(before, selector);
            && (result == Refused(NotAssigned) <==>
                  if selector.IsGiven() then selected.Ok? && !HoldsAt(before, topic, selected.value.1)
                  else forall p | IsActive(before, p) :: !HoldsAt(before, topic, p))
            && (result == Refused(ReferencedElsewhere) <==>
                  selector.IsGiven() && selected.Ok? && HoldsAt(before, topic, selected.value.1)
                  && exists p | p != selected.value.1 :: HoldsAt(before, topic, p))
  {
    OtherRefusals(AsPolicy(policy), selector);
  }

  /** Reading places off the document. */
  lemma PlacesAreRead(policy: Fields, name: string, ids: seq<string>)
    ensures forall p: Place ::
              HoldsAt(policy, Topic(name, ids), p) <==> SpeaksIn(policy, p.index, p.direction, name, ids)
    ensures forall p: Place :: IsActive(policy, p) <==> ActiveIn(policy, p.index, p.direction)
  {
    forall p: Place
      ensures HoldsAt(policy, Topic(name, ids), p) <==> SpeaksIn(policy, p.index, p.direction, name, ids)
      ensures IsActive(policy, p) <==> ActiveIn(policy, p.index, p.direction)
    {
      HeldSpeaks(policy, p, name, ids);
      ActiveExactly(policy, p);
    }
  }

  /** Nothing enforced speaks of the topic. */
  ghost predicate NowhereEnforced(policy: Fields, name: string, ids: seq<string>) {
    forall entry: nat, direction | ActiveIn(policy, entry, direction) :: !SpeaksIn(policy, entry, direction, name, ids)
  }

  /** Some other block than the one at a place speaks of the topic. */
  ghost predicate Elsewhere(policy: Fields, entry: nat, direction: Option<string>, name: string, ids: seq<string>) {
    exists e: nat, d | e != entry || d != direction :: SpeaksIn(policy, e, d, name, ids)
  }

  lemma EverywhereIsRead(policy: Fields, name: string, ids: seq<string>)
    ensures NowhereEnforced(policy, name, ids) <==>
            forall p: Place | IsActive(policy, p) :: !HoldsAt(policy, Topic(name, ids), p)
  {
    PlacesAreRead(policy, name, ids);
    forall entry: nat, direction
      ensures Place(entry, direction).index == entry && Place(entry, direction).direction == direction
      ensures HoldsAt(policy, Topic(name, ids), Place(entry, direction)) <==>
              SpeaksIn(policy, entry, direction, name, ids)
    {
    }
  }

  lemma ElsewhereIsRead(policy: Fields, place: Place, name: string, ids: seq<string>)
    ensures Elsewhere(policy, place.index, place.direction, name, ids) <==>
            exists p | p != place :: HoldsAt(policy, Topic(name, ids), p)
  {
    PlacesAreRead(policy, name, ids);
    if e: nat, d :| (e != place.index || d != place.direction) && SpeaksIn(policy, e, d, name, ids) {
      assert HoldsAt(policy, Topic(name, ids), Place(e, d)) && Place(e, d) != place;
    }
    if p :| p != place && HoldsAt(policy, Topic(name, ids), p) {
      assert SpeaksIn(policy, p.index, p.direction, name, ids);
    }
  }

  /** A revert's own refusals. With a direction or an index given, the topic is not assigned where
      the selected block does not speak of it, and is referenced elsewhere where another one does
      too; with none given, it is not assigned where no enforced block speaks of it. */
  lemma RevertRefusedBecause(policy: Option<Value>, selector: Selector, name: string, ids: seq<string>)
    ensures var before, result := AsPolicy(policy), RevertTopic(policy, selector, Topic(name, ids));
            var given := selector.direction.Some? || selector.index.Some?;
            var index := if selector.index.Some? then selector.index.value else 0;
            var entry := EntryIn(before, index);
            var selected := Selects(before, selector.index) && Allows(entry, selector.direction, false);
            && (result == Refused(NotAssigned) <==>
                  if given then selected && !SpeaksIn(before, index, selector.direction, name, ids)
                  else NowhereEnforced(before, name, ids))
            && (result == Refused(ReferencedElsewhere) <==>
                  && given && selected && SpeaksIn(before, index, selector.direction, name, ids)
                  && Elsewhere(before, index, selector.direction, name, ids))
  {
    var before := AsPolicy(policy);
    var place := Place(if selector.index.Some? then selector.index.value else 0, selector.direction);
    SelectsBlockExactly(before, selector);
    RefusedByPlaces(policy, selector, Topic(name, ids));
    HeldSpeaks(before, place, name, ids);
    EverywhereIsRead(before, name, ids);
    ElsewhereIsRead(before, place, name, ids);
  }
}
