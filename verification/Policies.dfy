/**
 * Topic edits of a security-profile policy: a topic applied or reverted in the one block the
 * selector picks.
 */
module Policies {
  import opened Wrappers
  import opened Json
  import opened TopicLists
  import opened Guardrails
  import opened ProfileLayout

  /** The policy as read: absent or not an object counts as `{}`. */
  function AsPolicy(policy: Option<Value>): Fields {
    match policy
    case Some(Object(fields)) => fields
    case _ => map[]
  }

  // ---------------------------------------------------------------- the guarded block

  /** The policy with the selector's block in it, and its place. */
  function SelectBlock(policy: Fields, selector: Selector): Result<(Fields, Place), Refusal> {
    match SelectAiProfile(policy, selector)
    case Err(refusal) => Err(refusal)
    case Ok((selected, index)) =>
      SelectedEntry(policy, selector);
      match SelectProtections(EntryAt(selected, index), selector.direction, false)
      case Err(refusal) => Err(refusal)
      case Ok(entry) => Ok((WithEntry(selected, index, entry), Place(index, selector.direction)))
  }

  lemma SelectBlockSays(policy: Fields, selector: Selector)
    requires SelectBlock(policy, selector).Ok?
    ensures var (ready, place) := SelectBlock(policy, selector).value;
            && HasEntry(ready, place.index) && place.direction == selector.direction
            && OnlyPlaceChanged(policy, ready, place)
            && ConfigurationAt(ready, place) ==
               Some(if ConfigurationAt(policy, place).Some? then ConfigurationAt(policy, place).value else map[])
            && (ConfigurationAt(policy, place).Some? ==> ready == policy)
            && (forall p | p != place :: ConfigurationAt(ready, p) == ConfigurationAt(policy, p))
  {
    SelectedEntry(policy, selector);
    var (selected, index) := SelectAiProfile(policy, selector).value;
    var block := BlockOrEmpty(EntryAt(selected, index), selector.direction);
    ConfigurationWritten(selected, Place(index, selector.direction), block);
  }

  /** Selecting again, with another block written at the place, finds the same place. */
  lemma SelectAgain(policy: Fields, selector: Selector, block: Fields)
    requires SelectBlock(policy, selector).Ok?
    ensures var (ready, place) := SelectBlock(policy, selector).value;
            && HasEntry(ready, place.index)
            && SelectBlock(WithConfiguration(ready, place, block), selector)
               == Ok((WithConfiguration(ready, place, block), place))
  {
    SelectedEntry(policy, selector);
    var (selected, index) := SelectAiProfile(policy, selector).value;
    var was := EntryAt(selected, index);
    var entry := WithBlock(was, selector.direction, BlockOrEmpty(was, selector.direction));
    var entry' := WithBlock(entry, selector.direction, block);
    BlockWritten(was, selector.direction, BlockOrEmpty(was, selector.direction));
    AllowedAgain(was, selector.direction, false, block);
    EntryAgain(policy, selector, entry');
    EntryTwice(selected, index, entry, entry');
    EntryTwice(selected, index, entry', entry');
  }

  lemma EntryTwice(policy: Fields, index: nat, first: Fields, second: Fields)
    requires HasEntry(policy, index)
    ensures HasEntry(WithEntry(policy, index, first), index)
    ensures EntryAt(WithEntry(policy, index, first), index) == first
    ensures WithEntry(WithEntry(policy, index, first), index, second) == WithEntry(policy, index, second)
  {
    assert Entries(policy)[index := Object(first)][index := Object(second)] == Entries(policy)[index := Object(second)];
  }

  /** The selected block of a topic edit, with one guardrail at most. */
  function GuardedBlock(policy: Fields, selector: Selector): Result<(Fields, Place), Refusal> {
    match SelectBlock(policy, selector)
    case Err(refusal) => Err(refusal)
    case Ok((ready, place)) =>
      var block := ConfigurationAt(ready, place);
      if block.Some? && GuardrailCount(ItemsOf(block.value)) > 1 then Err(AmbiguousGuardrail) else Ok((ready, place))
  }

  // ---------------------------------------------------------------- apply

  function ApplyTopic(policy: Option<Value>, selector: Selector, topic: Topic, reference: Value, intent: string)
    : Result<Fields, Refusal>
  {
    match GuardedBlock(AsPolicy(policy), selector)
    case Err(refusal) => Err(refusal)
    case Ok((ready, place)) =>
      SelectBlockSays(AsPolicy(policy), selector);
      var block := ConfigurationAt(ready, place).value;
      Ok(WithConfiguration(ready, place, ApplyBlock(block, topic, reference, intent)))
  }

  lemma OnlyPlaceAgain(before: Fields, middle: Fields, place: Place, block: Fields)
    requires OnlyPlaceChanged(before, middle, place)
    ensures OnlyPlaceChanged(before, WithConfiguration(middle, place, block), place)
  {
    ConfigurationWritten(middle, place, block);
    OnlyPlaceTransitive(before, middle, WithConfiguration(middle, place, block), place);
  }

  /**
   * A successful apply changes the selected block alone; there the topic owns exactly the new
   * reference, under the intent, and everybody else's references, groups, items and keys stay.
   */
  lemma ApplyChangesOneReference(policy: Option<Value>, selector: Selector, topic: Topic,
                                 reference: Value, intent: string)
    requires ApplyTopic(policy, selector, topic, reference, intent).Ok?
    ensures GuardedBlock(AsPolicy(policy), selector).Ok?
    ensures var before := AsPolicy(policy);
            var after := ApplyTopic(policy, selector, topic, reference, intent).value;
            var place := GuardedBlock(before, selector).value.1;
            && OnlyPlaceChanged(before, after, place)
            && (forall p | p != place :: ConfigurationAt(after, p) == ConfigurationAt(before, p))
            && ConfigurationAt(after, place).Some?
            && (var was := if ConfigurationAt(before, place).Some? then ConfigurationAt(before, place).value else map[];
                var now := ConfigurationAt(after, place).value;
                && GuardrailCount(ItemsOf(now)) == 1
                && OwnedIn(GuardedList(now), topic) == Tag(topic, reference, intent)
                && Assigned(GuardedList(was), GuardedList(now), topic, reference, intent)
                && OnlyGuardrailChanged(Prepared(was, intent), now, WithGuardrail(ItemsOf(was), intent).1)
                && (Owns(topic, reference) ==>
                      Others(GuardedList(now), topic, intent) == Others(GuardedList(was), topic, intent)))
  {
    var before := AsPolicy(policy);
    SelectBlockSays(before, selector);
    var (ready, place) := GuardedBlock(before, selector).value;
    var block := ConfigurationAt(ready, place).value;
    var now := ApplyBlock(block, topic, reference, intent);
    ConfigurationWritten(ready, place, now);
    OnlyPlaceAgain(before, ready, place, now);
    Applied(block, topic, reference, intent);
    AppliedSays(block, topic, reference, intent);
  }

  /** An apply where the selected block is there already, with one guardrail at most. */
  lemma ApplyThere(policy: Fields, selector: Selector, place: Place, topic: Topic, reference: Value, intent: string)
    requires SelectBlock(policy, selector) == Ok((policy, place)) && HasEntry(policy, place.index)
    requires ConfigurationAt(policy, place).Some?
    requires GuardrailCount(ItemsOf(ConfigurationAt(policy, place).value)) <= 1
    ensures ApplyTopic(Some(Object(policy)), selector, topic, reference, intent)
            == Ok(WithConfiguration(policy, place,
                    ApplyBlock(ConfigurationAt(policy, place).value, topic, reference, intent)))
  {
  }

  /** An apply that succeeds writes its block at the selected place, where the next one finds it. */
  lemma ApplyWrites(policy: Option<Value>, selector: Selector, topic: Topic, reference: Value, intent: string)
      returns (once: Fields, place: Place, block: Fields)
    requires ApplyTopic(policy, selector, topic, reference, intent).Ok?
    ensures ApplyTopic(policy, selector, topic, reference, intent) == Ok(once)
    ensures SelectBlock(once, selector) == Ok((once, place)) && HasEntry(once, place.index)
    ensures GuardrailCount(ItemsOf(block)) <= 1
    ensures ConfigurationAt(once, place) == Some(ApplyBlock(block, topic, reference, intent))
  {
    var before := AsPolicy(policy);
    SelectBlockSays(before, selector);
    var (ready, where) := GuardedBlock(before, selector).value;
    place := where;
    block := ConfigurationAt(ready, place).value;
    var now := ApplyBlock(block, topic, reference, intent);
    once := WithConfiguration(ready, place, now);
    ConfigurationWritten(ready, place, now);
    SelectAgain(before, selector, now);
  }

  /** A successful apply repeated changes nothing, exactly when the topic owns the reference. */
  lemma ApplyTwice(policy: Option<Value>, selector: Selector, topic: Topic, reference: Value, intent: string)
    requires ApplyTopic(policy, selector, topic, reference, intent).Ok?
    ensures var once := ApplyTopic(policy, selector, topic, reference, intent).value;
            ApplyTopic(Some(Object(once)), selector, topic, reference, intent) == Ok(once) <==> Owns(topic, reference)
  {
    var once, place, block := ApplyWrites(policy, selector, topic, reference, intent);
    var now := ApplyBlock(block, topic, reference, intent);
    Applied(block, topic, reference, intent);
    ApplyThere(once, selector, place, topic, reference, intent);
    ApplyBlockTwice(block, topic, reference, intent);
    ConfigurationWritten(once, place, ApplyBlock(now, topic, reference, intent));
  }

  // ---------------------------------------------------------------- revert

  /** A revert's end; `Panicked` is one of the program's `unreachable!` or `expect` calls. */
  datatype Reverting = Done(policy: Fields) | Refused(refusal: Refusal) | Panicked

  predicate HoldsAt(policy: Fields, topic: Topic, place: Place) {
    ConfigurationAt(policy, place).Some? && Holds(ConfigurationAt(policy, place).value, topic)
  }

  /** The edit itself: the selected block, with one guardrail at most, loses the topic. */
  function RevertWhereSelected(read: Fields, selector: Selector, topic: Topic): Reverting {
    match GuardedBlock(read, selector)
    case Err(refusal) => Refused(refusal)
    case Ok((ready, place)) =>
      SelectBlockSays(read, selector);
      match RevertBlock(ConfigurationAt(ready, place).value, topic)
      case None => Panicked
      case Some(block) => Done(WithConfiguration(ready, place, block))
  }

  function RevertTopic(policy: Option<Value>, selector: Selector, topic: Topic): Reverting {
    var read := AsPolicy(policy);
    var probe := SelectBlock(read, selector);
    if selector.IsGiven() && probe.Err? then Refused(probe.error)
    else
      var found := Places(read);
      var inScope := exists p | p in found ::
        (if selector.IsGiven() then p == probe.value.1 else IsActive(read, p)) && HoldsAt(read, topic, p);
      if !inScope then Refused(NotAssigned)
      else if selector.IsGiven() && exists p | p in found :: p != probe.value.1 && HoldsAt(read, topic, p) then
        Refused(ReferencedElsewhere)
      else
        RevertWhereSelected(read, selector, topic)
  }

  /** Without a selector the one block that can be edited is the only one there is. */
  lemma OnlyBlock(policy: Fields, selector: Selector, p: Place)
    requires !selector.IsGiven() && SelectBlock(policy, selector).Ok? && ConfigurationAt(policy, p).Some?
    ensures p == SelectBlock(policy, selector).value.1
  {
    SelectedEntry(policy, selector);
  }

  /** When a revert gets past its refusals, the selected block holds the topic and no other does. */
  lemma HeldWhereSelected(policy: Option<Value>, selector: Selector, topic: Topic)
    requires !RevertTopic(policy, selector, topic).Refused?
    ensures GuardedBlock(AsPolicy(policy), selector).Ok?
    ensures var place := GuardedBlock(AsPolicy(policy), selector).value.1;
            && HoldsAt(AsPolicy(policy), topic, place)
            && GuardedBlock(AsPolicy(policy), selector).value.0 == AsPolicy(policy)
            && GuardrailCount(ItemsOf(ConfigurationAt(AsPolicy(policy), place).value)) <= 1
            && (forall p | p != place :: !HoldsAt(AsPolicy(policy), topic, p))
  {
    var read := AsPolicy(policy);
    var place := GuardedBlock(read, selector).value.1;
    SelectBlockSays(read, selector);
    if !selector.IsGiven() {
      forall p | ConfigurationAt(read, p).Some?
        ensures p == place
      {
        OnlyBlock(read, selector, p);
      }
    }
    var p :| p in Places(read) && HoldsAt(read, topic, p)
             && (selector.IsGiven() ==> p == SelectBlock(read, selector).value.1);
    assert p == place;
  }

  /** No input makes a revert reach its `unreachable!` or `expect` calls. */
  lemma RevertNeverPanics(policy: Option<Value>, selector: Selector, topic: Topic)
    ensures !RevertTopic(policy, selector, topic).Panicked?
  {
    if RevertTopic(policy, selector, topic).Panicked? {
      HeldWhereSelected(policy, selector, topic);
      var place := GuardedBlock(AsPolicy(policy), selector).value.1;
      Reverted(ConfigurationAt(AsPolicy(policy), place).value, topic);
    }
  }

  /** A revert succeeds exactly when the selected block can be edited and is the one block that
      holds the topic. */
  lemma RevertSucceedsExactly(policy: Option<Value>, selector: Selector, topic: Topic)
    ensures RevertTopic(policy, selector, topic).Done? <==>
            match GuardedBlock(AsPolicy(policy), selector)
            case Err(_) => false
            case Ok((_, place)) => forall p :: HoldsAt(AsPolicy(policy), topic, p) <==> p == place
  {
    var read := AsPolicy(policy);
    if RevertTopic(policy, selector, topic).Done? {
      HeldWhereSelected(policy, selector, topic);
    }
    if GuardedBlock(read, selector).Ok? {
      var place := GuardedBlock(read, selector).value.1;
      if forall p :: HoldsAt(read, topic, p) <==> p == place {
        RevertsAlone(read, selector, topic, place);
        assert RevertTopic(policy, selector, topic) == RevertTopic(Some(Object(read)), selector, topic);
      }
    }
  }

  lemma RevertsAlone(read: Fields, selector: Selector, topic: Topic, place: Place)
    requires GuardedBlock(read, selector).Ok? && GuardedBlock(read, selector).value.1 == place
    requires forall p :: HoldsAt(read, topic, p) <==> p == place
    ensures RevertTopic(Some(Object(read)), selector, topic).Done?
  {
    assert HoldsAt(read, topic, place);
    SelectBlockSays(read, selector);
    Reverted(ConfigurationAt(read, place).value, topic);
    RevertsWhereHeld(read, selector, topic, place);
  }

  /**
   * After a successful revert no block anywhere, active or retained, holds a reference of the
   * topic; only the selected block changed, and in it every other topic's reference is kept.
   */
  lemma RevertLeavesNoReference(policy: Option<Value>, selector: Selector, topic: Topic, intent: string)
    requires RevertTopic(policy, selector, topic).Done?
    ensures GuardedBlock(AsPolicy(policy), selector).Ok?
    ensures var before := AsPolicy(policy);
            var after := RevertTopic(policy, selector, topic).policy;
            var place := GuardedBlock(before, selector).value.1;
            && (forall p :: !HoldsAt(after, topic, p))
            && OnlyPlaceChanged(before, after, place)
            && (forall p | p != place :: ConfigurationAt(after, p) == ConfigurationAt(before, p))
            && HoldsAt(before, topic, place) && ConfigurationAt(after, place).Some?
            && GuardrailIndex(ItemsOf(ConfigurationAt(before, place).value)).Some?
            && (var was, now := ConfigurationAt(before, place).value, ConfigurationAt(after, place).value;
                var at := GuardrailIndex(ItemsOf(was)).value;
                if RefCount(RemoveRefs(GuardedList(was), topic)) == 0 then
                  && now == was[MODEL_PROTECTION := Array(ItemsOf(now))]
                  && ItemsOf(now) == ItemsOf(was)[..at] + ItemsOf(was)[at + 1..]
                else
                  && OnlyGuardrailChanged(was, now, at)
                  && OnlyOwnedGo(GuardedList(was), GuardedList(now), topic)
                  && Others(GuardedList(now), topic, intent) == Others(GuardedList(was), topic, intent))
  {
    HeldWhereSelected(policy, selector, topic);
    var before := AsPolicy(policy);
    var place := GuardedBlock(before, selector).value.1;
    var was := ConfigurationAt(before, place).value;
    Reverted(was, topic);
    RevertedSays(was, topic, intent);
    SelectBlockSays(before, selector);
    ConfigurationWritten(before, place, RevertBlock(was, topic).value);
    var after := RevertTopic(policy, selector, topic).policy;
    forall p
      ensures !HoldsAt(after, topic, p)
    {
      assert p != place ==> !HoldsAt(before, topic, p);
    }
  }

  // ---------------------------------------------------------------- there and back

  /** After an apply of an owned reference to a policy without the topic, the topic is held in
      the selected block and nowhere else. */
  lemma AppliedIsHeld(policy: Option<Value>, selector: Selector, topic: Topic, reference: Value, intent: string)
    requires ApplyTopic(policy, selector, topic, reference, intent).Ok? && Owns(topic, reference)
    requires forall p :: !HoldsAt(AsPolicy(policy), topic, p)
    ensures SelectBlock(AsPolicy(policy), selector).Ok?
    ensures var applied := ApplyTopic(policy, selector, topic, reference, intent).value;
            var place := SelectBlock(AsPolicy(policy), selector).value.1;
            && GuardedBlock(applied, selector) == Ok((applied, place))
            && forall p :: HoldsAt(applied, topic, p) <==> p == place
  {
    ApplyChangesOneReference(policy, selector, topic, reference, intent);
    var before := AsPolicy(policy);
    SelectBlockSays(before, selector);
    var (ready, place) := SelectBlock(before, selector).value;
    var now := ApplyBlock(ConfigurationAt(ready, place).value, topic, reference, intent);
    var applied := ApplyTopic(policy, selector, topic, reference, intent).value;
    SelectAgain(before, selector, now);
    ConfigurationWritten(ready, place, now);
    HoldsInList(now, topic);
    forall p
      ensures HoldsAt(applied, topic, p) <==> p == place
    {
      assert p != place ==> !HoldsAt(before, topic, p);
    }
  }

  /** The block of an edit is always an enforced one, before and after. */
  lemma SelectedIsActive(policy: Fields, selector: Selector)
    requires SelectBlock(policy, selector).Ok?
    ensures var (ready, place) := SelectBlock(policy, selector).value;
            IsActive(policy, place) && IsActive(ready, place)
  {
    SelectedEntry(policy, selector);
    var (selected, index) := SelectAiProfile(policy, selector).value;
    var entry := EntryAt(selected, index);
    EditKeepsLayout(entry, selector.direction, false, BlockOrEmpty(entry, selector.direction));
  }

  /** A revert of a policy whose selected block alone holds the topic. */
  lemma RevertsWhereHeld(policy: Fields, selector: Selector, topic: Topic, place: Place)
    requires GuardedBlock(policy, selector) == Ok((policy, place)) && HasEntry(policy, place.index)
    requires forall p :: HoldsAt(policy, topic, p) <==> p == place
    requires ConfigurationAt(policy, place).Some? && RevertBlock(ConfigurationAt(policy, place).value, topic).Some?
    ensures RevertTopic(Some(Object(policy)), selector, topic)
            == Done(WithConfiguration(policy, place, RevertBlock(ConfigurationAt(policy, place).value, topic).value))
  {
    if !selector.IsGiven() {
      SelectedIsActive(policy, selector);
    }
    assert place in Places(policy) && HoldsAt(policy, topic, place);
  }

  /**
   * Where the topic is referenced nowhere, a revert after an apply succeeds in the same block;
   * it takes the guardrail item away when the apply added it, and otherwise restores the topic
   * list exactly when it held some reference and the group joined, if any, was not empty.
   */
  lemma RevertUndoesApply(policy: Option<Value>, selector: Selector, topic: Topic, reference: Value, intent: string)
    requires ApplyTopic(policy, selector, topic, reference, intent).Ok? && Owns(topic, reference)
    requires forall p :: !HoldsAt(AsPolicy(policy), topic, p)
    ensures var applied := ApplyTopic(policy, selector, topic, reference, intent).value;
            RevertTopic(Some(Object(applied)), selector, topic).Done?
    ensures SelectBlock(AsPolicy(policy), selector).Ok?
    ensures var before := AsPolicy(policy);
            var applied := ApplyTopic(policy, selector, topic, reference, intent).value;
            var back := RevertTopic(Some(Object(applied)), selector, topic).policy;
            var place := SelectBlock(before, selector).value.1;
            && ConfigurationAt(back, place).Some?
            && (var was := if ConfigurationAt(before, place).Some? then ConfigurationAt(before, place).value else map[];
                var now := ConfigurationAt(back, place).value;
                match GuardrailIndex(ItemsOf(was))
                case None => ItemsOf(now) == ItemsOf(was)
                case Some(at) =>
                  GuardrailIndex(ItemsOf(now)) == Some(at) && GuardedList(now) == GuardedList(was)
                  <==> RefCount(GuardedList(was)) > 0 && LeavesNoTrace(GuardedList(was), intent))
  {
    AppliedIsHeld(policy, selector, topic, reference, intent);
    var before := AsPolicy(policy);
    SelectBlockSays(before, selector);
    var (ready, place) := SelectBlock(before, selector).value;
    var was := ConfigurationAt(ready, place).value;
    assert !Holds(was, topic) by {
      assert !HoldsAt(before, topic, place);
    }
    ThereAndBack(was, topic, reference, intent);
    var block := ApplyBlock(was, topic, reference, intent);
    var applied := WithConfiguration(ready, place, block);
    ConfigurationWritten(ready, place, block);
    RevertsWhereHeld(applied, selector, topic, place);
    ConfigurationWritten(applied, place, RevertBlock(block, topic).value);
  }
}
