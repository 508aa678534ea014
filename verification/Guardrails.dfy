/**
 * The topic guardrails of one protection block: the `topic-guardrails` item of its
 * `model-protection` array, whose `topic-list` an apply or a revert edits.
 */
module Guardrails {
  import opened Wrappers
  import opened Json
  import opened TopicLists

  const MODEL_PROTECTION := "model-protection"
  const TOPIC_LIST := "topic-list"
  const GUARDRAIL := "topic-guardrails"

  predicate IsGuardrail(item: Value) {
    GetText(item, "name") == Some(GUARDRAIL)
  }

  function GuardrailCount(items: seq<Value>): nat {
    if items == [] then 0 else (if IsGuardrail(items[0]) then 1 else 0) + GuardrailCount(items[1..])
  }

  /** The position of the first guardrail item. */
  function GuardrailIndex(items: seq<Value>): (at: Option<nat>)
    ensures at.Some? ==> at.value < |items| && IsGuardrail(items[at.value])
    ensures at.Some? ==> forall i | 0 <= i < at.value :: !IsGuardrail(items[i])
    ensures at.None? ==> forall i | 0 <= i < |items| :: !IsGuardrail(items[i])
  {
    if items == [] then None
    else if IsGuardrail(items[0]) then Some(0)
    else
      match GuardrailIndex(items[1..])
      case None => None
      case Some(at) => Some(at + 1)
  }

  function ItemsOf(block: Fields): seq<Value> {
    ItemsAt(block, MODEL_PROTECTION)
  }

  /** An item's topic list, `[]` when it has none. */
  function TopicList(item: Value): seq<Value> {
    if GetItems(item, TOPIC_LIST).Some? then GetItems(item, TOPIC_LIST).value else []
  }

  /** Whether a block holds a reference of the topic in any guardrail item. */
  predicate Holds(block: Fields, topic: Topic) {
    exists i | 0 <= i < |ItemsOf(block)| ::
      IsGuardrail(ItemsOf(block)[i]) && RefPositions(TopicList(ItemsOf(block)[i]), topic, 0) != []
  }

  // ---------------------------------------------------------------- apply

  /** The guardrail's action beside an intent. */
  function GuardAction(intent: string): string {
    if intent == "block" then "allow" else "block"
  }

  function NewGuardrail(intent: string): Value {
    Object(map["name" := String(GUARDRAIL), ACTION := String(GuardAction(intent)),
               "options" := Array([]), TOPIC_LIST := Array([])])
  }

  /** The items with a guardrail among them, and where it is. */
  function WithGuardrail(items: seq<Value>, intent: string): (r: (seq<Value>, nat))
    ensures r.1 < |r.0| && IsGuardrail(r.0[r.1])
  {
    var at := GuardrailIndex(items);
    if at.Some? then (items, at.value) else (items + [NewGuardrail(intent)], |items|)
  }

  /** A guardrail item with a new list and action. */
  function Edited(item: Value, groups: seq<Value>, action: string): Value
    requires item.Object?
  {
    Object(item.fields[TOPIC_LIST := Array(groups)][ACTION := String(action)])
  }

  function ApplyBlock(block: Fields, topic: Topic, reference: Value, intent: string): Fields {
    var (items, at) := WithGuardrail(ItemsOf(block), intent);
    var groups := Assign(TopicList(items[at]), topic, reference, intent);
    block[MODEL_PROTECTION := Array(items[at := Edited(items[at], groups, GuardAction(intent))])]
  }

  // ---------------------------------------------------------------- revert

  /** The groups that still hold a reference. */
  function Remaining(groups: seq<Value>): seq<Value> {
    if groups == [] then []
    else (if RefsOf(groups[0]) != [] then [groups[0]] else []) + Remaining(groups[1..])
  }

  predicate Blocks(groups: seq<Value>) {
    exists i | 0 <= i < |groups| :: HasAction(groups[i], "block")
  }

  /** The block without the topic's references; without any reference left the item goes too.
      `None` is a panic of the program: the block has no list to edit. */
  function RevertBlock(block: Fields, topic: Topic): Option<Fields> {
    if !(MODEL_PROTECTION in block && block[MODEL_PROTECTION].Array?) then None
    else
      var items := ItemsOf(block);
      var at := GuardrailIndex(items);
      if at.None? || GetItems(items[at.value], TOPIC_LIST).None? then None
      else
        var item := items[at.value];
        var groups := RemoveRefs(TopicList(item), topic);
        var remaining := Remaining(groups);
        if remaining == [] then
          Some(block[MODEL_PROTECTION := Array(items[..at.value] + items[at.value + 1..])])
        else
          var action := if Blocks(remaining) then "allow" else "block";
          Some(block[MODEL_PROTECTION := Array(items[at.value := Edited(item, groups, action)])])
  }

  // ---------------------------------------------------------------- one guardrail at most

  lemma {:induction false} CountAt(items: seq<Value>, at: nat, item: Value)
    requires at < |items|
    ensures GuardrailCount(items[at := item]) ==
            GuardrailCount(items) - (if IsGuardrail(items[at]) then 1 else 0) + (if IsGuardrail(item) then 1 else 0)
  {
    if at == 0 {
      assert items[0 := item][1..] == items[1..];
    } else {
      assert items[at := item][1..] == items[1..][at - 1 := item];
      CountAt(items[1..], at - 1, item);
    }
  }

  lemma {:induction false} CountMore(items: seq<Value>, item: Value)
    ensures GuardrailCount(items + [item]) == GuardrailCount(items) + (if IsGuardrail(item) then 1 else 0)
  {
    if items == [] {
      assert [item][1..] == [];
      assert [] + [item] == [item];
    } else {
      assert (items + [item])[1..] == items[1..] + [item];
      CountMore(items[1..], item);
    }
  }

  lemma {:induction false} CountWithout(items: seq<Value>, at: nat)
    requires at < |items|
    ensures GuardrailCount(items[..at] + items[at + 1..]) ==
            GuardrailCount(items) - (if IsGuardrail(items[at]) then 1 else 0)
  {
    if at == 0 {
      assert items[..0] + items[1..] == items[1..];
    } else {
      assert (items[..at] + items[at + 1..])[1..] == items[1..][..at - 1] + items[1..][at..];
      CountWithout(items[1..], at - 1);
    }
  }

  lemma {:induction false} NoneWhenZero(items: seq<Value>)
    ensures GuardrailCount(items) == 0 <==> GuardrailIndex(items).None?
  {
    if items != [] {
      NoneWhenZero(items[1..]);
    }
  }

  /** With one guardrail at most, it is the first one. */
  lemma {:induction false} OnlyGuardrail(items: seq<Value>, at: nat)
    requires GuardrailCount(items) <= 1 && at < |items| && IsGuardrail(items[at])
    ensures GuardrailIndex(items) == Some(at) && GuardrailCount(items) == 1
  {
    if at == 0 {
    } else {
      OnlyGuardrail(items[1..], at - 1);
      NoneWhenZero(items[1..]);
    }
  }

  lemma HoldsIsOwned(groups: seq<Value>, topic: Topic)
    ensures RefPositions(groups, topic, 0) != [] <==> OwnedIn(groups, topic) != []
  {
    PositionsCount(groups, topic, 0);
    assert groups[0..] == groups;
  }

  /** The list of the block's one guardrail, `[]` without one. */
  function GuardedList(block: Fields): seq<Value> {
    var at := GuardrailIndex(ItemsOf(block));
    if at.Some? then TopicList(ItemsOf(block)[at.value]) else []
  }

  lemma HoldsInList(block: Fields, topic: Topic)
    requires GuardrailCount(ItemsOf(block)) <= 1
    ensures Holds(block, topic) <==> OwnedIn(GuardedList(block), topic) != []
  {
    var items := ItemsOf(block);
    HoldsIsOwned(GuardedList(block), topic);
    forall i | 0 <= i < |items| && IsGuardrail(items[i])
      ensures GuardrailIndex(items) == Some(i)
    {
      OnlyGuardrail(items, i);
    }
  }

  /** Keys of an item other than its list and its action. */
  predicate SameItem(a: Value, b: Value) {
    && a.Object? && b.Object?
    && forall key | key in a.fields.Keys + b.fields.Keys && key != TOPIC_LIST && key != ACTION ::
         key in a.fields && key in b.fields && a.fields[key] == b.fields[key]
  }

  /** Every other key of the block, every other item in its place, and every other key of the
      guardrail are the same. */
  predicate OnlyGuardrailChanged(before: Fields, after: Fields, at: nat) {
    && (forall key | key in before.Keys + after.Keys && key != MODEL_PROTECTION ::
          key in before && key in after && before[key] == after[key])
    && at < |ItemsOf(before)| == |ItemsOf(after)|
    && SameItem(ItemsOf(before)[at], ItemsOf(after)[at])
    && forall i | 0 <= i < |ItemsOf(before)| && i != at :: ItemsOf(after)[i] == ItemsOf(before)[i]
  }

  /** The block an apply edits: with a guardrail, added when it was missing. */
  function Prepared(block: Fields, intent: string): Fields {
    block[MODEL_PROTECTION := Array(WithGuardrail(ItemsOf(block), intent).0)]
  }

  lemma EditedSays(item: Value, groups: seq<Value>, action: string)
    requires item.Object?
    ensures TopicList(Edited(item, groups, action)) == groups
    ensures IsGuardrail(Edited(item, groups, action)) == IsGuardrail(item)
    ensures SameItem(item, Edited(item, groups, action))
    ensures Edited(Edited(item, groups, action), groups, action) == Edited(item, groups, action)
  {
    var once := Edited(item, groups, action).fields;
    assert once[TOPIC_LIST := Array(groups)][ACTION := String(action)] == once;
  }

  /** What an apply makes of a block with one guardrail at most. */
  lemma Applied(block: Fields, topic: Topic, reference: Value, intent: string)
    requires GuardrailCount(ItemsOf(block)) <= 1
    ensures var after := ApplyBlock(block, topic, reference, intent);
            var (items, at) := WithGuardrail(ItemsOf(block), intent);
            var groups := Assign(GuardedList(block), topic, reference, intent);
            && after == block[MODEL_PROTECTION := Array(ItemsOf(after))]
            && ItemsOf(after) == items[at := Edited(items[at], groups, GuardAction(intent))]
            && GuardrailCount(ItemsOf(after)) == 1
            && GuardrailIndex(ItemsOf(after)) == Some(at)
            && GuardedList(after) == groups
  {
    var items, at := WithGuardrail(ItemsOf(block), intent).0, WithGuardrail(ItemsOf(block), intent).1;
    if GuardrailIndex(ItemsOf(block)).None? {
      NoneWhenZero(ItemsOf(block));
      CountMore(ItemsOf(block), NewGuardrail(intent));
    }
    assert TopicList(items[at]) == GuardedList(block);
    var groups := Assign(GuardedList(block), topic, reference, intent);
    EditedSays(items[at], groups, GuardAction(intent));
    var item := Edited(items[at], groups, GuardAction(intent));
    OnlyGuardrail(items, at);
    CountAt(items, at, item);
    OnlyGuardrail(items[at := item], at);
  }

  lemma AppliedList(block: Fields, topic: Topic, reference: Value, intent: string)
    requires GuardrailCount(ItemsOf(block)) <= 1
    ensures var before, after := GuardedList(block), GuardedList(ApplyBlock(block, topic, reference, intent));
            && OwnedIn(after, topic) == Tag(topic, reference, intent)
            && Assigned(before, after, topic, reference, intent)
            && (Owns(topic, reference) ==> Others(after, topic, intent) == Others(before, topic, intent))
  {
    Applied(block, topic, reference, intent);
    AssignSays(GuardedList(block), topic, reference, intent);
    AssignIsAssigned(GuardedList(block), topic, reference, intent);
  }

  /** One guardrail item more, the last, with no options and no other key. */
  predicate GuardrailAdded(before: seq<Value>, after: seq<Value>) {
    && |after| == |before| + 1 && after[..|before|] == before
    && after[|before|].Object? && IsGuardrail(after[|before|])
    && after[|before|].fields.Keys == {"name", ACTION, "options", TOPIC_LIST}
    && GetItems(after[|before|], "options") == Some([])
  }

  lemma AppliedAdds(block: Fields, topic: Topic, reference: Value, intent: string)
    requires GuardrailIndex(ItemsOf(block)).None?
    ensures GuardrailAdded(ItemsOf(block), ItemsOf(ApplyBlock(block, topic, reference, intent)))
  {
  }

  lemma AppliedItem(block: Fields, topic: Topic, reference: Value, intent: string)
    requires GuardrailCount(ItemsOf(block)) <= 1
    ensures var at := WithGuardrail(ItemsOf(block), intent).1;
            OnlyGuardrailChanged(Prepared(block, intent), ApplyBlock(block, topic, reference, intent), at)
  {
    Applied(block, topic, reference, intent);
    var items, at := WithGuardrail(ItemsOf(block), intent).0, WithGuardrail(ItemsOf(block), intent).1;
    EditedSays(items[at], Assign(GuardedList(block), topic, reference, intent), GuardAction(intent));
  }

  /**
   * An apply leaves the topic exactly the new reference, under the intent, and everything else
   * as it was: the list differs as an assignment says, the block in its guardrail alone.
   */
  lemma AppliedSays(block: Fields, topic: Topic, reference: Value, intent: string)
    requires GuardrailCount(ItemsOf(block)) <= 1
    ensures var after := ApplyBlock(block, topic, reference, intent);
            && OwnedIn(GuardedList(after), topic) == Tag(topic, reference, intent)
            && Assigned(GuardedList(block), GuardedList(after), topic, reference, intent)
            && (if GuardrailIndex(ItemsOf(block)).None? then GuardrailAdded(ItemsOf(block), ItemsOf(after))
                else OnlyGuardrailChanged(block, after, GuardrailIndex(ItemsOf(block)).value))
            && OnlyGuardrailChanged(Prepared(block, intent), after, WithGuardrail(ItemsOf(block), intent).1)
            && (Owns(topic, reference) ==>
                  Others(GuardedList(after), topic, intent) == Others(GuardedList(block), topic, intent))
  {
    AppliedList(block, topic, reference, intent);
    AppliedItem(block, topic, reference, intent);
    AppliedWhere(block, topic, reference, intent);
  }

  lemma AppliedWhere(block: Fields, topic: Topic, reference: Value, intent: string)
    requires GuardrailCount(ItemsOf(block)) <= 1
    ensures var after, at := ApplyBlock(block, topic, reference, intent), GuardrailIndex(ItemsOf(block));
            if at.None? then GuardrailAdded(ItemsOf(block), ItemsOf(after))
            else OnlyGuardrailChanged(block, after, at.value)
  {
    if GuardrailIndex(ItemsOf(block)).None? {
      AppliedAdds(block, topic, reference, intent);
    } else {
      AppliedItem(block, topic, reference, intent);
      assert Prepared(block, intent) == block;
    }
  }

  /** Applying twice is applying once exactly when the topic owns the reference. */
  lemma ApplyBlockTwice(block: Fields, topic: Topic, reference: Value, intent: string)
    requires GuardrailCount(ItemsOf(block)) <= 1
    ensures ApplyBlock(ApplyBlock(block, topic, reference, intent), topic, reference, intent)
              == ApplyBlock(block, topic, reference, intent)
            <==> Owns(topic, reference)
  {
    var once := ApplyBlock(block, topic, reference, intent);
    Applied(block, topic, reference, intent);
    Applied(once, topic, reference, intent);
    AssignTwice(GuardedList(block), topic, reference, intent);
    if Owns(topic, reference) {
      var items, at := WithGuardrail(ItemsOf(block), intent).0, WithGuardrail(ItemsOf(block), intent).1;
      EditedSays(items[at], GuardedList(once), GuardAction(intent));
      SameAgain(items, at, ItemsOf(once)[at]);
    }
  }

  lemma SameAgain(items: seq<Value>, at: nat, item: Value)
    requires at < |items|
    ensures items[at := item][at := item] == items[at := item]
  {
  }

  lemma {:induction false} RemainingCounts(groups: seq<Value>)
    ensures Remaining(groups) == [] <==> RefCount(groups) == 0
  {
    if groups != [] {
      RemainingCounts(groups[1..]);
    }
  }

  lemma HeldHasList(block: Fields, topic: Topic)
    requires GuardrailCount(ItemsOf(block)) <= 1 && Holds(block, topic)
    ensures MODEL_PROTECTION in block && block[MODEL_PROTECTION].Array?
    ensures var at := GuardrailIndex(ItemsOf(block));
            at.Some? && GetItems(ItemsOf(block)[at.value], TOPIC_LIST) == Some(GuardedList(block))
            && GuardrailCount(ItemsOf(block)) == 1
  {
    HoldsInList(block, topic);
    var i :| 0 <= i < |ItemsOf(block)| && IsGuardrail(ItemsOf(block)[i]);
    OnlyGuardrail(ItemsOf(block), i);
  }

  /** The items a revert leaves; it never panics where the topic is held. */
  lemma RevertedItems(block: Fields, topic: Topic)
    requires GuardrailCount(ItemsOf(block)) <= 1 && Holds(block, topic)
    ensures RevertBlock(block, topic).Some? && GuardrailIndex(ItemsOf(block)).Some?
    ensures var after := RevertBlock(block, topic).value;
            var (items, at) := (ItemsOf(block), GuardrailIndex(ItemsOf(block)).value);
            var groups := RemoveRefs(GuardedList(block), topic);
            && after == block[MODEL_PROTECTION := Array(ItemsOf(after))]
            && ItemsOf(after) ==
               if RefCount(groups) == 0 then items[..at] + items[at + 1..]
               else items[at := Edited(items[at], groups, if Blocks(Remaining(groups)) then "allow" else "block")]
  {
    HeldHasList(block, topic);
    RemainingCounts(RemoveRefs(GuardedList(block), topic));
  }

  /** What a revert makes of a block that holds the topic; it never panics there. */
  lemma Reverted(block: Fields, topic: Topic)
    requires GuardrailCount(ItemsOf(block)) <= 1 && Holds(block, topic)
    ensures RevertBlock(block, topic).Some? && GuardrailIndex(ItemsOf(block)).Some?
    ensures var after := RevertBlock(block, topic).value;
            var (items, at) := (ItemsOf(block), GuardrailIndex(ItemsOf(block)).value);
            var groups := RemoveRefs(GuardedList(block), topic);
            && after == block[MODEL_PROTECTION := Array(ItemsOf(after))]
            && (if RefCount(groups) == 0 then
                  ItemsOf(after) == items[..at] + items[at + 1..] && GuardrailCount(ItemsOf(after)) == 0
                else
                  var action := if Blocks(Remaining(groups)) then "allow" else "block";
                  && ItemsOf(after) == items[at := Edited(items[at], groups, action)]
                  && GuardrailCount(ItemsOf(after)) == 1
                  && GuardrailIndex(ItemsOf(after)) == Some(at)
                  && GuardedList(after) == groups)
  {
    HeldHasList(block, topic);
    RevertedItems(block, topic);
    var items, at := ItemsOf(block), GuardrailIndex(ItemsOf(block)).value;
    var groups := RemoveRefs(GuardedList(block), topic);
    if RefCount(groups) == 0 {
      CountWithout(items, at);
    } else {
      EditedAlone(items, at, groups, if Blocks(Remaining(groups)) then "allow" else "block");
    }
  }

  /** The one guardrail item edited is still the one. */
  lemma EditedAlone(items: seq<Value>, at: nat, groups: seq<Value>, action: string)
    requires GuardrailCount(items) == 1 && GuardrailIndex(items) == Some(at)
    ensures var after := items[at := Edited(items[at], groups, action)];
            && GuardrailCount(after) == 1 && GuardrailIndex(after) == Some(at)
            && TopicList(after[at]) == groups
  {
    EditedSays(items[at], groups, action);
    CountAt(items, at, Edited(items[at], groups, action));
    OnlyGuardrail(items[at := Edited(items[at], groups, action)], at);
  }

  /**
   * A revert leaves no reference of the topic and every other one, or, when there was no other
   * one, takes the guardrail item away.
   */
  lemma RevertedSays(block: Fields, topic: Topic, intent: string)
    requires GuardrailCount(ItemsOf(block)) <= 1 && Holds(block, topic)
    ensures RevertBlock(block, topic).Some?
    ensures var after := RevertBlock(block, topic).value;
            var (items, at) := (ItemsOf(block), GuardrailIndex(ItemsOf(block)).value);
            && !Holds(after, topic)
            && (if RefCount(RemoveRefs(GuardedList(block), topic)) == 0 then
                  && after == block[MODEL_PROTECTION := Array(ItemsOf(after))]
                  && ItemsOf(after) == items[..at] + items[at + 1..]
                else
                  && OnlyGuardrailChanged(block, after, at)
                  && OnlyOwnedGo(GuardedList(block), GuardedList(after), topic)
                  && Others(GuardedList(after), topic, intent) == Others(GuardedList(block), topic, intent))
  {
    Reverted(block, topic);
    var after := RevertBlock(block, topic).value;
    RemovedLeavesOthers(GuardedList(block), topic, intent);
    HoldsInList(after, topic);
    NoneWhenZero(ItemsOf(after));
    if RefCount(RemoveRefs(GuardedList(block), topic)) != 0 {
      var from := RemovedKeeps(GuardedList(block), topic);
      var at := GuardrailIndex(ItemsOf(block)).value;
      var action := if Blocks(Remaining(GuardedList(after))) then "allow" else "block";
      EditedSays(ItemsOf(block)[at], GuardedList(after), action);
    }
  }

  /** The guardrail item of a block. */
  function GuardrailOf(block: Fields): Option<Value> {
    var at := GuardrailIndex(ItemsOf(block));
    if at.None? then None else Some(ItemsOf(block)[at.value])
  }

  lemma EditedAction(item: Value, groups: seq<Value>, action: string)
    requires item.Object?
    ensures GetText(Edited(item, groups, action), ACTION) == Some(action)
  {
  }

  /** After an apply the guardrail allows what its groups block, and blocks otherwise. */
  lemma ApplySetsAction(block: Fields, topic: Topic, reference: Value, intent: string)
    requires GuardrailCount(ItemsOf(block)) <= 1
    ensures var after := GuardrailOf(ApplyBlock(block, topic, reference, intent));
            && after.Some?
            && (GetText(after.value, ACTION) == Some("allow") <==> intent == "block")
            && (GetText(after.value, ACTION) == Some("block") <==> intent != "block")
  {
    Applied(block, topic, reference, intent);
    var (items, at) := WithGuardrail(ItemsOf(block), intent);
    EditedAction(items[at], Assign(GuardedList(block), topic, reference, intent), GuardAction(intent));
  }

  lemma BlocksFirst(group: Value, rest: seq<Value>)
    ensures Blocks([group] + rest) <==> HasAction(group, "block") || Blocks(rest)
  {
    var all := [group] + rest;
    if Blocks(rest) {
      var i :| 0 <= i < |rest| && HasAction(rest[i], "block");
      assert HasAction(all[i + 1], "block");
    }
    if HasAction(group, "block") {
      assert HasAction(all[0], "block");
    }
  }

  /** Some group that holds a reference blocks. */
  predicate Blocking(groups: seq<Value>) {
    exists i | 0 <= i < |groups| :: HasAction(groups[i], "block") && RefsOf(groups[i]) != []
  }

  lemma BlockingFirst(groups: seq<Value>)
    requires groups != []
    ensures Blocking(groups) <==> (HasAction(groups[0], "block") && RefsOf(groups[0]) != []) || Blocking(groups[1..])
  {
    if Blocking(groups[1..]) {
      var i :| 0 <= i < |groups[1..]| && HasAction(groups[1..][i], "block") && RefsOf(groups[1..][i]) != [];
      assert groups[i + 1] == groups[1..][i];
    }
    if Blocking(groups) {
      var i :| 0 <= i < |groups| && HasAction(groups[i], "block") && RefsOf(groups[i]) != [];
      assert i > 0 ==> groups[1..][i - 1] == groups[i];
    }
  }

  lemma {:induction false} BlocksAmongRemaining(groups: seq<Value>)
    ensures Blocks(Remaining(groups)) <==> Blocking(groups)
  {
    if groups != [] {
      BlocksAmongRemaining(groups[1..]);
      BlockingFirst(groups);
      var rest := Remaining(groups[1..]);
      BlocksFirst(groups[0], rest);
      assert Remaining(groups) == if RefsOf(groups[0]) != [] then [groups[0]] + rest else rest;
    }
  }

  /** After a revert that leaves references, the guardrail allows exactly when some group that
      still holds one blocks. */
  lemma RevertSetsAction(block: Fields, topic: Topic)
    requires GuardrailCount(ItemsOf(block)) <= 1 && Holds(block, topic)
    requires RefCount(RemoveRefs(GuardedList(block), topic)) > 0
    ensures RevertBlock(block, topic).Some?
    ensures var after := RevertBlock(block, topic).value;
            && GuardrailOf(after).Some?
            && (GetText(GuardrailOf(after).value, ACTION) == Some("allow") <==> Blocking(GuardedList(after)))
            && (GetText(GuardrailOf(after).value, ACTION) == Some("block") <==> !Blocking(GuardedList(after)))
  {
    Reverted(block, topic);
    var groups := RemoveRefs(GuardedList(block), topic);
    var action := if Blocks(Remaining(groups)) then "allow" else "block";
    EditedAction(ItemsOf(block)[GuardrailIndex(ItemsOf(block)).value], groups, action);
    BlocksAmongRemaining(GuardedList(RevertBlock(block, topic).value));
  }

  lemma {:induction false} JoinRemoveCounts(groups: seq<Value>, topic: Topic, reference: Value, intent: string)
    requires OwnedIn(groups, topic) == [] && Owns(topic, reference)
    ensures RefCount(RemoveRefs(Join(groups, reference, intent), topic)) == RefCount(groups)
  {
    if groups == [] {
      var group := Join(groups, reference, intent)[0];
      assert Refs(group) == Some([reference]);
      OneRef(reference, None, topic);
      assert RemoveRefs([group], topic) == [];
    } else {
      assert groups == [groups[0]] + groups[1..];
      OwnedAppend([groups[0]], groups[1..], topic);
      if Usable(groups[0], intent) {
        JoinedAndStripped(groups[0], topic, reference, intent);
        RemovedNothing(groups[1..], topic);
        assert Join(groups, reference, intent)[1..] == groups[1..];
        assert [] + groups[1..] == groups[1..];
      } else {
        JoinRemoveCounts(groups[1..], topic, reference, intent);
        StrippedKeeps(groups[0], topic, intent);
        assert Join(groups, reference, intent)[1..] == Join(groups[1..], reference, intent);
      }
    }
  }

  lemma AssignedRemoved(groups: seq<Value>, topic: Topic, reference: Value, intent: string)
    requires OwnedIn(groups, topic) == [] && Owns(topic, reference)
    ensures RefCount(RemoveRefs(Assign(groups, topic, reference, intent), topic)) == RefCount(groups)
    ensures RemoveRefs(Assign(groups, topic, reference, intent), topic) == groups <==> LeavesNoTrace(groups, intent)
  {
    PositionsCount(groups, topic, 0);
    assert groups[0..] == groups;
    RemovedNothing(groups, topic);
    JoinRemoveCounts(groups, topic, reference, intent);
    AssignAndRemove(groups, topic, reference, intent);
  }

  /** What an apply then a revert make of a block without the topic. */
  lemma Back(block: Fields, topic: Topic, reference: Value, intent: string)
    requires GuardrailCount(ItemsOf(block)) <= 1 && !Holds(block, topic) && Owns(topic, reference)
    ensures var applied := ApplyBlock(block, topic, reference, intent);
            var groups := RemoveRefs(GuardedList(applied), topic);
            && GuardrailCount(ItemsOf(applied)) == 1 && Holds(applied, topic)
            && RefCount(groups) == RefCount(GuardedList(block))
            && (groups == GuardedList(block) <==> LeavesNoTrace(GuardedList(block), intent))
  {
    Applied(block, topic, reference, intent);
    AppliedSays(block, topic, reference, intent);
    HoldsInList(block, topic);
    HoldsInList(ApplyBlock(block, topic, reference, intent), topic);
    AssignedRemoved(GuardedList(block), topic, reference, intent);
  }

  /**
   * Where the topic is not referenced, a revert after an apply takes the guardrail item away
   * again when the apply added it; otherwise it restores the topic list exactly when the list
   * held some reference and the group that was joined, if any, was not empty.
   */
  lemma ThereAndBack(block: Fields, topic: Topic, reference: Value, intent: string)
    requires GuardrailCount(ItemsOf(block)) <= 1 && !Holds(block, topic) && Owns(topic, reference)
    ensures var applied := ApplyBlock(block, topic, reference, intent);
            && Holds(applied, topic) && RevertBlock(applied, topic).Some?
    ensures var back := RevertBlock(ApplyBlock(block, topic, reference, intent), topic).value;
            match GuardrailIndex(ItemsOf(block))
            case None => ItemsOf(back) == ItemsOf(block)
            case Some(at) =>
              GuardrailIndex(ItemsOf(back)) == Some(at) && GuardedList(back) == GuardedList(block)
              <==> RefCount(GuardedList(block)) > 0 && LeavesNoTrace(GuardedList(block), intent)
  {
    var applied := ApplyBlock(block, topic, reference, intent);
    Back(block, topic, reference, intent);
    Reverted(applied, topic);
    if GuardrailIndex(ItemsOf(block)).None? {
      BackWithout(block, topic, reference, intent);
    } else {
      Applied(block, topic, reference, intent);
      NoneWhenZero(ItemsOf(RevertBlock(applied, topic).value));
    }
  }

  lemma BackWithout(block: Fields, topic: Topic, reference: Value, intent: string)
    requires GuardrailCount(ItemsOf(block)) <= 1 && GuardrailIndex(ItemsOf(block)).None?
    ensures var applied := ApplyBlock(block, topic, reference, intent);
            var n := |ItemsOf(block)|;
            && |ItemsOf(applied)| == n + 1 && GuardrailIndex(ItemsOf(applied)) == Some(n)
            && ItemsOf(applied)[..n] + ItemsOf(applied)[n + 1..] == ItemsOf(block)
  {
    Applied(block, topic, reference, intent);
  }
}
