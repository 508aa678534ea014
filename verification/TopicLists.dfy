/**
 * The edits of a guardrail's `topic-list`: groups (objects with an `action`) that hold topic
 * references. A topic's references are replaced, added or removed; everybody else's stay.
 */
module TopicLists {
  import opened Wrappers
  import opened Json

  const ACTION := "action"
  const TOPIC := "topic"

  /** A topic, as a reference may speak of it: by its name, or by the id of one of its revisions. */
  datatype Topic = Topic(name: string, ids: seq<string>)

  /** Whether a reference belongs to the topic. */
  predicate Owns(topic: Topic, reference: Value) {
    || GetText(reference, "topic_name") == Some(topic.name)
    || (GetText(reference, "topic_id").Some? && GetText(reference, "topic_id").value in topic.ids)
  }

  /** The references of a group, when its `topic` is an array. */
  function Refs(group: Value): Option<seq<Value>> {
    GetItems(group, TOPIC)
  }

  function WithRefs(group: Value, refs: seq<Value>): Value
    requires group.Object?
  {
    Object(group.fields[TOPIC := Array(refs)])
  }

  predicate HasAction(group: Value, action: string) {
    GetText(group, ACTION) == Some(action)
  }

  // ---------------------------------------------------------------- the edits

  /** The positions of the topic's references in one group's array. */
  function PositionsIn(refs: seq<Value>, topic: Topic, group: nat, from: nat): seq<(nat, nat)>
    requires from <= |refs|
    decreases |refs| - from
  {
    if from == |refs| then []
    else (if Owns(topic, refs[from]) then [(group, from)] else []) + PositionsIn(refs, topic, group, from + 1)
  }

  /** The `(group, reference)` positions of the topic's references. */
  function RefPositions(groups: seq<Value>, topic: Topic, from: nat): seq<(nat, nat)>
    requires from <= |groups|
    decreases |groups| - from
  {
    if from == |groups| then []
    else
      var refs := Refs(groups[from]);
      (if refs.Some? then PositionsIn(refs.value, topic, from, 0) else []) + RefPositions(groups, topic, from + 1)
  }

  /** The references of others, in order. */
  function Foreign(refs: seq<Value>, topic: Topic): seq<Value> {
    if refs == [] then []
    else (if Owns(topic, refs[0]) then [] else [refs[0]]) + Foreign(refs[1..], topic)
  }

  /** Remove the topic's references; a group this leaves empty goes too. */
  function RemoveRefs(groups: seq<Value>, topic: Topic): seq<Value> {
    if groups == [] then [] else Stripped(groups[0], topic) + RemoveRefs(groups[1..], topic)
  }

  /** A group without the topic's references: none, when they were all it had. */
  function Stripped(group: Value, topic: Topic): seq<Value> {
    if Refs(group).None? then [group]
    else
      var refs := Refs(group).value;
      var kept := Foreign(refs, topic);
      if |kept| == |refs| || kept != [] then [WithRefs(group, kept)] else []
  }

  /** A group a reference can join: the action, and references or no `topic` at all. */
  predicate Usable(group: Value, intent: string) {
    HasAction(group, intent) && (Get(group, TOPIC).None? || Refs(group).Some?)
  }

  /** The first usable group takes the reference at its end; without one a group is added. */
  function Join(groups: seq<Value>, reference: Value, intent: string): seq<Value> {
    if groups == [] then [Object(map[ACTION := String(intent), TOPIC := Array([reference])])]
    else if Usable(groups[0], intent) then [Joined(groups[0], reference)] + groups[1..]
    else [groups[0]] + Join(groups[1..], reference, intent)
  }

  function Joined(group: Value, reference: Value): Value
    requires group.Object?
  {
    WithRefs(group, RefsOf(group) + [reference])
  }

  lemma PositionsAreRefs(groups: seq<Value>, topic: Topic, from: nat)
    requires from <= |groups|
    ensures forall p | p in RefPositions(groups, topic, from) ::
              from <= p.0 < |groups| && Refs(groups[p.0]).Some? && p.1 < |Refs(groups[p.0]).value|
              && Owns(topic, Refs(groups[p.0]).value[p.1])
    decreases |groups| - from
  {
    if from < |groups| {
      PositionsAreRefs(groups, topic, from + 1);
      if Refs(groups[from]).Some? {
        PositionsInAreRefs(Refs(groups[from]).value, topic, from, 0);
      }
    }
  }

  lemma PositionsInAreRefs(refs: seq<Value>, topic: Topic, group: nat, from: nat)
    requires from <= |refs|
    ensures forall p | p in PositionsIn(refs, topic, group, from) ::
              p.0 == group && from <= p.1 < |refs| && Owns(topic, refs[p.1])
    decreases |refs| - from
  {
  }

  /** Replace the reference at a position. */
  function Replaced(groups: seq<Value>, at: (nat, nat), reference: Value): seq<Value>
    requires at.0 < |groups| && Refs(groups[at.0]).Some? && at.1 < |Refs(groups[at.0]).value|
  {
    groups[at.0 := WithRefs(groups[at.0], Refs(groups[at.0]).value[at.1 := reference])]
  }

  /** The topic's one reference is replaced where it already has the intent; otherwise all of
      them are removed and the new one joins. */
  function Assign(groups: seq<Value>, topic: Topic, reference: Value, intent: string): seq<Value> {
    var positions := RefPositions(groups, topic, 0);
    PositionsAreRefs(groups, topic, 0);
    if |positions| == 1 && HasAction(groups[positions[0].0], intent) then
      assert positions[0] in positions;
      Replaced(groups, positions[0], reference)
    else Join(RemoveRefs(groups, topic), reference, intent)
  }

  // ---------------------------------------------------------------- what a list says

  /** The topic's references, each with its group's action. */
  function OwnedIn(groups: seq<Value>, topic: Topic): seq<(Option<string>, Value)> {
    if groups == [] then []
    else
      (if Refs(groups[0]).Some? then Tagged(GetText(groups[0], ACTION), Refs(groups[0]).value, topic) else [])
      + OwnedIn(groups[1..], topic)
  }

  function Tagged(action: Option<string>, refs: seq<Value>, topic: Topic): seq<(Option<string>, Value)> {
    if refs == [] then []
    else (if Owns(topic, refs[0]) then [(action, refs[0])] else []) + Tagged(action, refs[1..], topic)
  }

  /** All that is not the topic's, in order: each group with the references of others, but for
      groups that hold only the topic's, and for the intent's groups that hold none. */
  function Others(groups: seq<Value>, topic: Topic, intent: string): seq<Value> {
    if groups == [] then [] else OthersOf(groups[0], topic, intent) + Others(groups[1..], topic, intent)
  }

  function OthersOf(group: Value, topic: Topic, intent: string): seq<Value> {
    if Refs(group).None? then (if Usable(group, intent) then [] else [group])
    else
      var refs := Refs(group).value;
      var foreign := Foreign(refs, topic);
      if foreign != [] then [WithRefs(group, foreign)]
      else if refs == [] && !HasAction(group, intent) then [group]
      else []
  }

  // ---------------------------------------------------------------- appending

  lemma {:induction false} ForeignAppend(a: seq<Value>, b: seq<Value>, topic: Topic)
    ensures Foreign(a + b, topic) == Foreign(a, topic) + Foreign(b, topic)
  {
    if a == [] {
      assert a + b == b;
    } else {
      assert (a + b)[1..] == a[1..] + b;
      ForeignAppend(a[1..], b, topic);
    }
  }

  lemma {:induction false} TaggedAppend(action: Option<string>, a: seq<Value>, b: seq<Value>, topic: Topic)
    ensures Tagged(action, a + b, topic) == Tagged(action, a, topic) + Tagged(action, b, topic)
  {
    if a == [] {
      assert a + b == b;
    } else {
      assert (a + b)[1..] == a[1..] + b;
      TaggedAppend(action, a[1..], b, topic);
    }
  }

  lemma {:induction false} OwnedAppend(a: seq<Value>, b: seq<Value>, topic: Topic)
    ensures OwnedIn(a + b, topic) == OwnedIn(a, topic) + OwnedIn(b, topic)
  {
    if a == [] {
      assert a + b == b;
    } else {
      assert (a + b)[1..] == a[1..] + b;
      OwnedAppend(a[1..], b, topic);
    }
  }

  lemma {:induction false} OthersAppend(a: seq<Value>, b: seq<Value>, topic: Topic, intent: string)
    ensures Others(a + b, topic, intent) == Others(a, topic, intent) + Others(b, topic, intent)
  {
    if a == [] {
      assert a + b == b;
    } else {
      assert (a + b)[1..] == a[1..] + b;
      OthersAppend(a[1..], b, topic, intent);
    }
  }

  // ---------------------------------------------------------------- removing

  lemma {:induction false} ForeignIsForeign(refs: seq<Value>, action: Option<string>, topic: Topic)
    ensures Foreign(Foreign(refs, topic), topic) == Foreign(refs, topic)
    ensures Tagged(action, Foreign(refs, topic), topic) == []
    ensures |Foreign(refs, topic)| + |Tagged(action, refs, topic)| == |refs|
    ensures Tagged(action, refs, topic) == [] ==> Foreign(refs, topic) == refs
  {
    if refs != [] {
      var rest := Foreign(refs[1..], topic);
      ForeignIsForeign(refs[1..], action, topic);
      assert [] + rest == rest && ([refs[0]] + rest)[1..] == rest;
    }
  }

  /** A list of one. */
  lemma OneRef(reference: Value, action: Option<string>, topic: Topic)
    ensures Foreign([reference], topic) == if Owns(topic, reference) then [] else [reference]
    ensures Tagged(action, [reference], topic) == if Owns(topic, reference) then [(action, reference)] else []
  {
    assert [reference][1..] == [];
  }

  lemma OneGroup(group: Value, topic: Topic)
    ensures OwnedIn([group], topic) ==
            if Refs(group).Some? then Tagged(GetText(group, ACTION), Refs(group).value, topic) else []
  {
    assert [group][1..] == [];
  }

  lemma WithRefsTwice(group: Value, a: seq<Value>, b: seq<Value>)
    requires group.Object?
    ensures WithRefs(WithRefs(group, a), b) == WithRefs(group, b)
    ensures Refs(WithRefs(group, a)) == Some(a)
    ensures GetText(WithRefs(group, a), ACTION) == GetText(group, ACTION)
    ensures Refs(group) == Some(a) ==> WithRefs(group, a) == group
  {
  }

  lemma StrippedKeeps(group: Value, topic: Topic, intent: string)
    ensures OwnedIn(Stripped(group, topic), topic) == []
    ensures Others(Stripped(group, topic), topic, intent) == OthersOf(group, topic, intent)
    ensures OwnedIn([group], topic) == [] ==> Stripped(group, topic) == [group]
  {
    if Refs(group).Some? {
      var refs := Refs(group).value;
      ForeignIsForeign(refs, GetText(group, ACTION), topic);
      WithRefsTwice(group, Foreign(refs, topic), Foreign(refs, topic));
      WithRefsTwice(group, refs, refs);
    }
  }

  /** Nothing of the topic is left, and everything else is. */
  lemma {:induction false} RemovedLeavesOthers(groups: seq<Value>, topic: Topic, intent: string)
    ensures OwnedIn(RemoveRefs(groups, topic), topic) == []
    ensures Others(RemoveRefs(groups, topic), topic, intent) == Others(groups, topic, intent)
  {
    if groups != [] {
      StrippedKeeps(groups[0], topic, intent);
      RemovedLeavesOthers(groups[1..], topic, intent);
      OwnedAppend(Stripped(groups[0], topic), RemoveRefs(groups[1..], topic), topic);
      OthersAppend(Stripped(groups[0], topic), RemoveRefs(groups[1..], topic), topic, intent);
    }
  }

  /** A list without the topic is not touched. */
  lemma {:induction false} RemovedNothing(groups: seq<Value>, topic: Topic)
    requires OwnedIn(groups, topic) == []
    ensures RemoveRefs(groups, topic) == groups
  {
    if groups != [] {
      OwnedAppend([groups[0]], groups[1..], topic);
      assert groups == [groups[0]] + groups[1..];
      StrippedKeeps(groups[0], topic, "");
      RemovedNothing(groups[1..], topic);
    }
  }

  // ---------------------------------------------------------------- joining

  /** What the topic owns through a reference under an intent. */
  function Tag(topic: Topic, reference: Value, intent: string): seq<(Option<string>, Value)> {
    if Owns(topic, reference) then [(Some(intent), reference)] else []
  }

  /** A group's references, none counted as an empty list. */
  function RefsOf(group: Value): seq<Value> {
    if Refs(group).Some? then Refs(group).value else []
  }

  lemma JoinedRefs(group: Value, topic: Topic, reference: Value)
    requires group.Object?
    ensures Refs(Joined(group, reference)) == Some(RefsOf(group) + [reference])
    ensures GetText(Joined(group, reference), ACTION) == GetText(group, ACTION)
    ensures Owns(topic, reference) ==> Foreign(RefsOf(group) + [reference], topic) == Foreign(RefsOf(group), topic)
  {
    ForeignAppend(RefsOf(group), [reference], topic);
    OneRef(reference, None, topic);
    assert Foreign(RefsOf(group), topic) + [] == Foreign(RefsOf(group), topic);
  }

  lemma JoinedSays(group: Value, topic: Topic, reference: Value, intent: string)
    requires Usable(group, intent) && OwnedIn([group], topic) == []
    ensures OwnedIn([Joined(group, reference)], topic) == Tag(topic, reference, intent)
  {
    JoinedRefs(group, topic, reference);
    TaggedAppend(GetText(group, ACTION), RefsOf(group), [reference], topic);
    OneRef(reference, GetText(group, ACTION), topic);
    OneGroup(group, topic);
    OneGroup(Joined(group, reference), topic);
  }

  lemma JoinedKeepsOthers(group: Value, topic: Topic, reference: Value, intent: string)
    requires Usable(group, intent) && Owns(topic, reference)
    ensures OthersOf(Joined(group, reference), topic, intent) == OthersOf(group, topic, intent)
  {
    JoinedRefs(group, topic, reference);
    WithRefsTwice(group, RefsOf(group) + [reference], Foreign(RefsOf(group), topic));
  }

  lemma {:induction false} JoinSays(groups: seq<Value>, topic: Topic, reference: Value, intent: string)
    requires OwnedIn(groups, topic) == []
    ensures OwnedIn(Join(groups, reference, intent), topic) == Tag(topic, reference, intent)
    ensures Owns(topic, reference) ==>
              Others(Join(groups, reference, intent), topic, intent) == Others(groups, topic, intent)
  {
    if groups == [] {
      var group := Object(map[ACTION := String(intent), TOPIC := Array([reference])]);
      assert Refs(group) == Some([reference]) && GetText(group, ACTION) == Some(intent);
      OneGroup(group, topic);
      OneRef(reference, Some(intent), topic);
    } else {
      assert groups == [groups[0]] + groups[1..];
      OwnedAppend([groups[0]], groups[1..], topic);
      if Usable(groups[0], intent) {
        JoinedSays(groups[0], topic, reference, intent);
        if Owns(topic, reference) {
          JoinedKeepsOthers(groups[0], topic, reference, intent);
        }
        OwnedAppend([Joined(groups[0], reference)], groups[1..], topic);
      } else {
        JoinSays(groups[1..], topic, reference, intent);
        OwnedAppend([groups[0]], Join(groups[1..], reference, intent), topic);
      }
    }
  }

  // ---------------------------------------------------------------- replacing

  lemma {:induction false} PositionsCount(groups: seq<Value>, topic: Topic, from: nat)
    requires from <= |groups|
    ensures |RefPositions(groups, topic, from)| == |OwnedIn(groups[from..], topic)|
    decreases |groups| - from
  {
    if from < |groups| {
      PositionsCount(groups, topic, from + 1);
      assert groups[from..][1..] == groups[from + 1..];
      if Refs(groups[from]).Some? {
        PositionsInCount(GetText(groups[from], ACTION), Refs(groups[from]).value, topic, from, 0);
      }
    }
  }

  lemma {:induction false} PositionsInCount(action: Option<string>, refs: seq<Value>, topic: Topic,
                                            group: nat, from: nat)
    requires from <= |refs|
    ensures |PositionsIn(refs, topic, group, from)| == |Tagged(action, refs[from..], topic)|
    decreases |refs| - from
  {
    if from < |refs| {
      PositionsInCount(action, refs, topic, group, from + 1);
      assert refs[from..][1..] == refs[from + 1..];
    }
  }

  /** A list split at a group. */
  lemma SplitAt(groups: seq<Value>, at: nat, group: Value, topic: Topic, intent: string)
    requires at < |groups|
    ensures OwnedIn(groups[at := group], topic) ==
            OwnedIn(groups[..at], topic) + OwnedIn([group], topic) + OwnedIn(groups[at + 1..], topic)
    ensures Others(groups[at := group], topic, intent) ==
            Others(groups[..at], topic, intent) + OthersOf(group, topic, intent)
            + Others(groups[at + 1..], topic, intent)
  {
    assert groups[at := group] == groups[..at] + [group] + groups[at + 1..];
    OwnedAppend(groups[..at] + [group], groups[at + 1..], topic);
    OwnedAppend(groups[..at], [group], topic);
    OthersAppend(groups[..at] + [group], groups[at + 1..], topic, intent);
    OthersAppend(groups[..at], [group], topic, intent);
  }

  /** One owned reference among a group's, replaced. */
  lemma ReplacedIn(refs: seq<Value>, at: nat, reference: Value, action: Option<string>, topic: Topic)
    requires at < |refs| && Owns(topic, refs[at])
    ensures Tagged(action, refs, topic) != []
    ensures |Tagged(action, refs, topic)| == 1 ==>
              && Tagged(action, refs, topic) == [(action, refs[at])]
              && Tagged(action, refs[at := reference], topic) ==
                 (if Owns(topic, reference) then [(action, reference)] else [])
    ensures Owns(topic, reference) ==> Foreign(refs[at := reference], topic) == Foreign(refs, topic)
  {
    var a, b := refs[..at], refs[at + 1..];
    assert refs == a + [refs[at]] + b && refs[at := reference] == a + [reference] + b;
    TaggedAppend(action, a + [refs[at]], b, topic);
    TaggedAppend(action, a, [refs[at]], topic);
    TaggedAppend(action, a + [reference], b, topic);
    TaggedAppend(action, a, [reference], topic);
    ForeignAppend(a + [refs[at]], b, topic);
    ForeignAppend(a, [refs[at]], topic);
    ForeignAppend(a + [reference], b, topic);
    ForeignAppend(a, [reference], topic);
  }

  /** The same, seen from the group around the references. */
  lemma GroupReplaced(group: Value, at: nat, topic: Topic, reference: Value, intent: string)
    requires Refs(group).Some? && at < |Refs(group).value| && Owns(topic, Refs(group).value[at])
    ensures OwnedIn([group], topic) != []
    ensures var action := GetText(group, ACTION);
            |OwnedIn([group], topic)| == 1 ==>
              && OwnedIn([group], topic) == [(action, Refs(group).value[at])]
              && OwnedIn([WithRefs(group, Refs(group).value[at := reference])], topic) ==
                 (if Owns(topic, reference) then [(action, reference)] else [])
    ensures Owns(topic, reference) ==>
              OthersOf(WithRefs(group, Refs(group).value[at := reference]), topic, intent)
              == OthersOf(group, topic, intent)
  {
    var refs := Refs(group).value;
    var refs' := refs[at := reference];
    OneGroup(group, topic);
    OneGroup(WithRefs(group, refs'), topic);
    ReplacedIn(refs, at, reference, GetText(group, ACTION), topic);
    WithRefsTwice(group, refs', Foreign(refs, topic));
  }

  lemma OnlyMiddle<T>(a: seq<T>, b: seq<T>, c: seq<T>)
    requires |a + b + c| == 1 && b != []
    ensures a == [] && c == [] && a + b + c == b
  {
  }

  /** The topic's only reference, and what replacing it says. */
  lemma ReplacedSays(groups: seq<Value>, at: (nat, nat), topic: Topic, reference: Value, intent: string)
    requires at.0 < |groups| && Refs(groups[at.0]).Some? && at.1 < |Refs(groups[at.0]).value|
    requires Owns(topic, Refs(groups[at.0]).value[at.1]) && |OwnedIn(groups, topic)| == 1
    ensures OwnedIn(groups, topic) == [(GetText(groups[at.0], ACTION), Refs(groups[at.0]).value[at.1])]
    ensures HasAction(groups[at.0], intent) ==>
              OwnedIn(Replaced(groups, at, reference), topic) == Tag(topic, reference, intent)
    ensures Owns(topic, reference) ==>
              Others(Replaced(groups, at, reference), topic, intent) == Others(groups, topic, intent)
  {
    ReplacedOwned(groups, at, topic, reference, intent);
    if Owns(topic, reference) {
      ReplacedOthers(groups, at, topic, reference, intent);
    }
  }

  lemma ReplacedOwned(groups: seq<Value>, at: (nat, nat), topic: Topic, reference: Value, intent: string)
    requires at.0 < |groups| && Refs(groups[at.0]).Some? && at.1 < |Refs(groups[at.0]).value|
    requires Owns(topic, Refs(groups[at.0]).value[at.1]) && |OwnedIn(groups, topic)| == 1
    ensures OwnedIn(groups, topic) == [(GetText(groups[at.0], ACTION), Refs(groups[at.0]).value[at.1])]
    ensures HasAction(groups[at.0], intent) ==>
              OwnedIn(Replaced(groups, at, reference), topic) == Tag(topic, reference, intent)
  {
    var group := groups[at.0];
    var group' := WithRefs(group, Refs(group).value[at.1 := reference]);
    assert groups[at.0 := group] == groups;
    SplitAt(groups, at.0, group, topic, intent);
    SplitAt(groups, at.0, group', topic, intent);
    GroupReplaced(group, at.1, topic, reference, intent);
    OnlyMiddle(OwnedIn(groups[..at.0], topic), OwnedIn([group], topic), OwnedIn(groups[at.0 + 1..], topic));
    assert OwnedIn(groups[at.0 := group'], topic) == [] + OwnedIn([group'], topic) + [];
  }

  lemma ReplacedOthers(groups: seq<Value>, at: (nat, nat), topic: Topic, reference: Value, intent: string)
    requires at.0 < |groups| && Refs(groups[at.0]).Some? && at.1 < |Refs(groups[at.0]).value|
    requires Owns(topic, Refs(groups[at.0]).value[at.1]) && Owns(topic, reference)
    ensures Others(Replaced(groups, at, reference), topic, intent) == Others(groups, topic, intent)
  {
    var group := groups[at.0];
    assert groups[at.0 := group] == groups;
    SplitAt(groups, at.0, group, topic, intent);
    SplitAt(groups, at.0, WithRefs(group, Refs(group).value[at.1 := reference]), topic, intent);
    GroupReplaced(group, at.1, topic, reference, intent);
  }

  // ---------------------------------------------------------------- assigning

  lemma {:induction false} AssignSays(groups: seq<Value>, topic: Topic, reference: Value, intent: string)
    ensures OwnedIn(Assign(groups, topic, reference, intent), topic) == Tag(topic, reference, intent)
    ensures Owns(topic, reference) ==>
              Others(Assign(groups, topic, reference, intent), topic, intent) == Others(groups, topic, intent)
  {
    var positions := RefPositions(groups, topic, 0);
    PositionsAreRefs(groups, topic, 0);
    PositionsCount(groups, topic, 0);
    assert groups[0..] == groups;
    if |positions| == 1 && HasAction(groups[positions[0].0], intent) {
      assert positions[0] in positions;
      ReplacedSays(groups, positions[0], topic, reference, intent);
    } else {
      RemovedLeavesOthers(groups, topic, intent);
      JoinSays(RemoveRefs(groups, topic), topic, reference, intent);
    }
  }

  // ---------------------------------------------------------------- place by place

  lemma {:induction false} JoinFirst(groups: seq<Value>, at: nat, reference: Value, intent: string)
    requires at <= |groups| && forall i | 0 <= i < at :: !Usable(groups[i], intent)
    requires at < |groups| ==> Usable(groups[at], intent)
    ensures Join(groups, reference, intent) ==
            if at < |groups| then groups[at := Joined(groups[at], reference)]
            else groups + [Object(map[ACTION := String(intent), TOPIC := Array([reference])])]
  {
    if at > 0 {
      JoinFirst(groups[1..], at - 1, reference, intent);
    }
  }

  /** The reference joins at the end of the first group that can take it, or in a new one; every
      other group, and every other key of that group, is the same. */
  predicate JoinsAt(before: seq<Value>, after: seq<Value>, at: nat, reference: Value, intent: string) {
    && at <= |before| && (forall i | 0 <= i < at :: !Usable(before[i], intent))
    && (if at < |before| then
          Usable(before[at], intent) && after == before[at := WithRefs(before[at], RefsOf(before[at]) + [reference])]
        else
          after == before + [Object(map[ACTION := String(intent), TOPIC := Array([reference])])])
  }

  ghost predicate Joins(before: seq<Value>, after: seq<Value>, reference: Value, intent: string) {
    exists at: nat :: JoinsAt(before, after, at, reference, intent)
  }

  lemma {:induction false} FirstUsable(groups: seq<Value>, intent: string) returns (at: nat)
    ensures at <= |groups| && forall i | 0 <= i < at :: !Usable(groups[i], intent)
    ensures at < |groups| ==> Usable(groups[at], intent)
  {
    if groups == [] || Usable(groups[0], intent) {
      at := 0;
    } else {
      var rest := FirstUsable(groups[1..], intent);
      at := rest + 1;
    }
  }

  lemma JoinJoins(groups: seq<Value>, reference: Value, intent: string)
    ensures Joins(groups, Join(groups, reference, intent), reference, intent)
  {
    var at := FirstUsable(groups, intent);
    JoinFirst(groups, at, reference, intent);
    assert JoinsAt(groups, Join(groups, reference, intent), at, reference, intent);
  }

  /** A group without the topic's references, its other keys the same. */
  function Without(group: Value, topic: Topic): Value {
    if Refs(group).None? then group else WithRefs(group, Foreign(Refs(group).value, topic))
  }

  /** A group that holds references, all of them the topic's. */
  predicate HoldsOnly(group: Value, topic: Topic) {
    && Refs(group).Some? && Refs(group).value != []
    && forall i | 0 <= i < |Refs(group).value| :: Owns(topic, Refs(group).value[i])
  }

  predicate Increasing(from: seq<nat>) {
    forall j, k | 0 <= j < k < |from| :: from[j] < from[k]
  }

  /** `from` lists where the groups left came from. */
  predicate LeftFrom(before: seq<Value>, after: seq<Value>, topic: Topic, from: seq<nat>) {
    && |from| == |after| && Increasing(from)
    && (forall k | 0 <= k < |from| :: from[k] < |before| && after[k] == Without(before[from[k]], topic))
    && (forall i | 0 <= i < |before| :: i !in from ==> HoldsOnly(before[i], topic))
  }

  /** Groups that hold only the topic's references go, every other one stays in its order without
      them. */
  ghost predicate OnlyOwnedGo(before: seq<Value>, after: seq<Value>, topic: Topic) {
    exists from :: LeftFrom(before, after, topic, from)
  }

  /** `from` lists where the references left came from: just those of others. */
  predicate ForeignFrom(refs: seq<Value>, kept: seq<Value>, topic: Topic, from: seq<nat>) {
    && |from| == |kept| && Increasing(from)
    && (forall k | 0 <= k < |from| :: from[k] < |refs| && kept[k] == refs[from[k]])
    && (forall i | 0 <= i < |refs| :: i in from <==> !Owns(topic, refs[i]))
  }

  function Shift(from: seq<nat>): (shifted: seq<nat>)
    ensures |shifted| == |from| && forall k | 0 <= k < |from| :: shifted[k] == from[k] + 1
  {
    seq(|from|, k requires 0 <= k < |from| => from[k] + 1)
  }

  /** Positions in a list from those in its tail, and whether its head is one. */
  function Led(head: bool, rest: seq<nat>): seq<nat> {
    (if head then [0] else []) + Shift(rest)
  }

  lemma LedSays(head: bool, rest: seq<nat>)
    ensures Increasing(rest) ==> Increasing(Led(head, rest))
    ensures 0 in Led(head, rest) <==> head
    ensures forall i: nat :: i + 1 in Led(head, rest) <==> i in rest
  {
    var shifted := Shift(rest);
    forall i: nat
      ensures i + 1 in Led(head, rest) <==> i in rest
    {
      if i in rest {
        var k :| 0 <= k < |rest| && rest[k] == i;
        assert shifted[k] == i + 1 && i + 1 in shifted;
      }
    }
  }

  lemma {:induction false} ForeignKeeps(refs: seq<Value>, topic: Topic) returns (from: seq<nat>)
    ensures ForeignFrom(refs, Foreign(refs, topic), topic, from)
  {
    if refs == [] {
      from := [];
    } else {
      var rest := ForeignKeeps(refs[1..], topic);
      from := Led(!Owns(topic, refs[0]), rest);
      LedSays(!Owns(topic, refs[0]), rest);
      forall i | 0 <= i < |refs|
        ensures i in from <==> !Owns(topic, refs[i])
      {
        if i > 0 {
          assert (i - 1) + 1 in from <==> i - 1 in rest;
          assert refs[1..][i - 1] == refs[i];
        }
      }
      KeptAt(refs, Foreign(refs[1..], topic), !Owns(topic, refs[0]), rest);
    }
  }

  /** Where what is kept of a list came from, given that of its tail. */
  lemma KeptAt(all: seq<Value>, kept: seq<Value>, head: bool, rest: seq<nat>)
    requires all != [] && |rest| == |kept|
    requires forall k | 0 <= k < |rest| :: rest[k] < |all[1..]| && kept[k] == all[1..][rest[k]]
    ensures var from, whole := Led(head, rest), (if head then [all[0]] else []) + kept;
            |from| == |whole| && forall k | 0 <= k < |from| :: from[k] < |all| && whole[k] == all[from[k]]
  {
    var from, whole := Led(head, rest), (if head then [all[0]] else []) + kept;
    var d := if head then 1 else 0;
    forall k | 0 <= k < |from|
      ensures from[k] < |all| && whole[k] == all[from[k]]
    {
      if k >= d {
        assert from[k] == rest[k - d] + 1 && whole[k] == kept[k - d];
      }
    }
  }

  lemma {:induction false} NothingForeign(refs: seq<Value>, topic: Topic)
    requires Foreign(refs, topic) == []
    ensures forall i | 0 <= i < |refs| :: Owns(topic, refs[i])
  {
    if refs != [] {
      NothingForeign(refs[1..], topic);
      assert forall i | 1 <= i < |refs| :: refs[i] == refs[1..][i - 1];
    }
  }

  lemma StrippedIs(group: Value, topic: Topic)
    ensures Stripped(group, topic) == if HoldsOnly(group, topic) then [] else [Without(group, topic)]
  {
    if Refs(group).Some? {
      var refs := Refs(group).value;
      if Foreign(refs, topic) == [] {
        NothingForeign(refs, topic);
      } else {
        var from := ForeignKeeps(refs, topic);
        assert from[0] in from && !Owns(topic, refs[from[0]]);
      }
    }
  }

  /** A removal, place by place. */
  lemma {:induction false} RemovedKeeps(groups: seq<Value>, topic: Topic) returns (from: seq<nat>)
    ensures LeftFrom(groups, RemoveRefs(groups, topic), topic, from)
  {
    if groups == [] {
      from := [];
    } else {
      var rest := RemovedKeeps(groups[1..], topic);
      StrippedIs(groups[0], topic);
      from := Led(!HoldsOnly(groups[0], topic), rest);
      RemovedOneMore(groups, RemoveRefs(groups[1..], topic), topic, rest);
    }
  }

  /** Every group without the topic's references. */
  function AllWithout(groups: seq<Value>, topic: Topic): (without: seq<Value>)
    ensures |without| == |groups| && forall i | 0 <= i < |groups| :: without[i] == Without(groups[i], topic)
  {
    seq(|groups|, i requires 0 <= i < |groups| => Without(groups[i], topic))
  }

  lemma LeftOut(groups: seq<Value>, topic: Topic, rest: seq<nat>, head: bool)
    requires groups != [] && (!head ==> HoldsOnly(groups[0], topic))
    requires forall i | 0 <= i < |groups[1..]| :: i !in rest ==> HoldsOnly(groups[1..][i], topic)
    ensures forall i | 0 <= i < |groups| :: i !in Led(head, rest) ==> HoldsOnly(groups[i], topic)
  {
    LedSays(head, rest);
    forall i | 0 <= i < |groups| && i !in Led(head, rest)
      ensures HoldsOnly(groups[i], topic)
    {
      if i > 0 {
        assert (i - 1) + 1 in Led(head, rest) <==> i - 1 in rest;
        assert groups[1..][i - 1] == groups[i];
      }
    }
  }

  lemma RemovedOneMore(groups: seq<Value>, left: seq<Value>, topic: Topic, rest: seq<nat>)
    requires groups != [] && LeftFrom(groups[1..], left, topic, rest)
    ensures var gone := HoldsOnly(groups[0], topic);
            LeftFrom(groups, (if gone then [] else [Without(groups[0], topic)]) + left, topic, Led(!gone, rest))
  {
    var head, without := !HoldsOnly(groups[0], topic), AllWithout(groups, topic);
    LedSays(head, rest);
    LeftOut(groups, topic, rest, head);
    assert without[1..] == AllWithout(groups[1..], topic);
    KeptAt(without, left, head, rest);
  }

  /** One reference of a group with the intent is another one, and nothing else differs. */
  predicate ReplacesAt(before: seq<Value>, after: seq<Value>, at: (nat, nat), topic: Topic,
                       reference: Value, intent: string)
  {
    && at.0 < |before| && HasAction(before[at.0], intent)
    && Refs(before[at.0]).Some? && at.1 < |Refs(before[at.0]).value|
    && Owns(topic, Refs(before[at.0]).value[at.1])
    && after == before[at.0 := WithRefs(before[at.0], Refs(before[at.0]).value[at.1 := reference])]
  }

  /**
   * What an assignment does to a list, place by place: the topic's only reference is replaced
   * where it has the intent already; otherwise the topic's references go and the new one joins.
   */
  ghost predicate Assigned(before: seq<Value>, after: seq<Value>, topic: Topic, reference: Value, intent: string) {
    if |OwnedIn(before, topic)| == 1 && OwnedIn(before, topic)[0].0 == Some(intent) then
      exists at :: ReplacesAt(before, after, at, topic, reference, intent)
    else
      exists middle :: OnlyOwnedGo(before, middle, topic) && Joins(middle, after, reference, intent)
  }

  lemma AssignIsAssigned(groups: seq<Value>, topic: Topic, reference: Value, intent: string)
    ensures Assigned(groups, Assign(groups, topic, reference, intent), topic, reference, intent)
  {
    var positions, after := RefPositions(groups, topic, 0), Assign(groups, topic, reference, intent);
    PositionsAreRefs(groups, topic, 0);
    PositionsCount(groups, topic, 0);
    assert groups[0..] == groups;
    if |positions| == 1 {
      assert positions[0] in positions;
      ReplacedSays(groups, positions[0], topic, reference, intent);
    }
    if |positions| == 1 && HasAction(groups[positions[0].0], intent) {
      assert ReplacesAt(groups, after, positions[0], topic, reference, intent);
    } else {
      var middle := RemoveRefs(groups, topic);
      var from := RemovedKeeps(groups, topic);
      assert LeftFrom(groups, middle, topic, from);
      JoinJoins(middle, reference, intent);
      assert OnlyOwnedGo(groups, middle, topic) && Joins(middle, after, reference, intent);
    }
  }

  /** How many references a list holds. */
  function RefCount(groups: seq<Value>): nat {
    if groups == [] then 0 else (if Refs(groups[0]).Some? then |Refs(groups[0]).value| else 0) + RefCount(groups[1..])
  }

  lemma {:induction false} JoinCounts(groups: seq<Value>, reference: Value, intent: string)
    ensures RefCount(Join(groups, reference, intent)) == RefCount(groups) + 1
  {
    if groups == [] {
      assert Refs(Join(groups, reference, intent)[0]) == Some([reference]);
    } else if Usable(groups[0], intent) {
      WithRefsTwice(groups[0], RefsOf(groups[0]) + [reference], []);
      assert Join(groups, reference, intent)[1..] == groups[1..];
    } else {
      JoinCounts(groups[1..], reference, intent);
    }
  }

  /** Assigning twice is assigning once exactly when the topic owns the reference. */
  lemma AssignTwice(groups: seq<Value>, topic: Topic, reference: Value, intent: string)
    ensures Assign(Assign(groups, topic, reference, intent), topic, reference, intent)
              == Assign(groups, topic, reference, intent)
            <==> Owns(topic, reference)
  {
    var once := Assign(groups, topic, reference, intent);
    AssignSays(groups, topic, reference, intent);
    PositionsAreRefs(once, topic, 0);
    PositionsCount(once, topic, 0);
    assert once[0..] == once;
    if Owns(topic, reference) {
      var at := RefPositions(once, topic, 0)[0];
      assert at in RefPositions(once, topic, 0);
      ReplacedSays(once, at, topic, reference, intent);
      var refs := Refs(once[at.0]).value;
      assert refs[at.1 := reference] == refs;
      WithRefsTwice(once[at.0], refs, refs);
    } else {
      RemovedNothing(once, topic);
      JoinCounts(once, reference, intent);
    }
  }

  // ---------------------------------------------------------------- there and back

  /** Whether a joining reference leaves no trace when it is removed: the group it joins, if it
      finds one, holds references already. */
  predicate LeavesNoTrace(groups: seq<Value>, intent: string) {
    if groups == [] then true
    else if Usable(groups[0], intent) then Refs(groups[0]).Some? && Refs(groups[0]).value != []
    else LeavesNoTrace(groups[1..], intent)
  }

  lemma JoinedAndStripped(group: Value, topic: Topic, reference: Value, intent: string)
    requires Usable(group, intent) && OwnedIn([group], topic) == [] && Owns(topic, reference)
    ensures Stripped(Joined(group, reference), topic) ==
            if Refs(group).Some? && Refs(group).value != [] then [group] else []
  {
    var refs := RefsOf(group);
    JoinedRefs(group, topic, reference);
    WithRefsTwice(group, refs + [reference], refs);
    WithRefsTwice(group, refs, refs);
    ForeignIsForeign(refs, GetText(group, ACTION), topic);
    OneGroup(group, topic);
  }

  /** Where the topic has no reference, removing what an assignment added restores the list
      exactly when the group it joined was not empty. */
  lemma {:induction false} AssignAndRemove(groups: seq<Value>, topic: Topic, reference: Value, intent: string)
    requires OwnedIn(groups, topic) == [] && Owns(topic, reference)
    ensures RemoveRefs(Assign(groups, topic, reference, intent), topic) == groups <==> LeavesNoTrace(groups, intent)
  {
    PositionsCount(groups, topic, 0);
    assert groups[0..] == groups;
    RemovedNothing(groups, topic);
    JoinAndRemove(groups, topic, reference, intent);
  }

  lemma {:induction false} JoinAndRemove(groups: seq<Value>, topic: Topic, reference: Value, intent: string)
    requires OwnedIn(groups, topic) == [] && Owns(topic, reference)
    ensures var back := RemoveRefs(Join(groups, reference, intent), topic);
            (back == groups <==> LeavesNoTrace(groups, intent)) && |back| <= |groups|
  {
    if groups == [] {
      var group := Join(groups, reference, intent)[0];
      assert Refs(group) == Some([reference]);
      assert Foreign([reference], topic) == [];
      assert RemoveRefs([group], topic) == [];
    } else {
      assert groups == [groups[0]] + groups[1..];
      OwnedAppend([groups[0]], groups[1..], topic);
      if Usable(groups[0], intent) {
        JoinedAndStripped(groups[0], topic, reference, intent);
        RemovedNothing(groups[1..], topic);
        assert Join(groups, reference, intent)[1..] == groups[1..];
      } else {
        JoinAndRemove(groups[1..], topic, reference, intent);
        StrippedKeeps(groups[0], topic, intent);
        assert Join(groups, reference, intent)[1..] == Join(groups[1..], reference, intent);
      }
    }
  }
}
