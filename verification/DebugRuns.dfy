/**
 * Whole runs of a debug log: attempts, holds and registrations in any order and any nesting.
 */
module DebugRuns {
  import opened Wrappers
  import opened ByteStrings
  import opened SecretSets
  import opened DebugLogs

  /** What the program does with a log, its attempts and holds (by number), and the secret set. */
  datatype Use =
    | Begin(token: bool, head: Bytes, url: Bytes, headers: seq<Header>)
    | End(attempt: nat, took: Bytes, outcome: Outcome)
    | Hold
    | Release(hold: nat)
    | DropHold(hold: nat)
    | Register(form: Bytes)

  /** An attempt that began, and the record it ended with. */
  datatype Begun = Begun(entry: Entry, end: Option<Finished>)

  /** What a run comes to: its attempts, whether each hold has ended, the events of the log, the
      forms registered, and the lines due with the number of uses made before each. */
  datatype World = World(attempts: seq<Begun>, holds: seq<bool>, events: seq<Event>,
                         forms: seq<Bytes>, due: seq<Bytes>, moments: seq<nat>)

  // ---------------------------------------------------------------- the story of a run

  predicate Ends(w: World, use: Use) {
    match use
    case End(i, _, _) => i < |w.attempts| && w.attempts[i].end.None?
    case Release(i) => i < |w.holds| && !w.holds[i]
    case DropHold(i) => i < |w.holds| && !w.holds[i]
    case _ => false
  }

  /** The event of the log that a use is, if any: a second end of an attempt or a hold is none. */
  function EventOf(w: World, use: Use): Option<Event> {
    match use
    case Hold => Some(HoldEvent)
    case End(i, took, outcome) =>
      if Ends(w, use) then Some(FinishEvent(Finished(w.attempts[i].entry, took, outcome))) else None
    case Release(_) => if Ends(w, use) then Some(ReleaseEvent) else None
    case DropHold(_) => if Ends(w, use) then Some(DropEvent) else None
    case _ => None
  }

  function AttemptsAfter(w: World, use: Use): seq<Begun> {
    match use
    case Begin(token, head, url, headers) =>
      w.attempts + [Begun(Entry(token, head, url, Masked(headers, w.forms)), None)]
    case End(i, took, outcome) =>
      if Ends(w, use) then
        w.attempts[i := w.attempts[i].(end := Some(Finished(w.attempts[i].entry, took, outcome)))]
      else w.attempts
    case _ => w.attempts
  }

  function HoldsAfter(w: World, use: Use): seq<bool> {
    match use
    case Hold => w.holds + [false]
    case Release(i) => if Ends(w, use) then w.holds[i := true] else w.holds
    case DropHold(i) => if Ends(w, use) then w.holds[i := true] else w.holds
    case _ => w.holds
  }

  function EventsAfter(w: World, use: Use): seq<Event> {
    var e := EventOf(w, use);
    if e.Some? then w.events + [e.value] else w.events
  }

  /** The lines due for a use, with the forms registered then. */
  function LinesFor(w: World, use: Use): seq<Bytes> {
    var e := EventOf(w, use);
    if e.None? then [] else LinesOf(Next(After(w.events).0, e.value).1, w.forms)
  }

  function Tell(w: World, use: Use, moment: nat): World {
    var lines := LinesFor(w, use);
    World(AttemptsAfter(w, use), HoldsAfter(w, use),
      EventsAfter(w, use),
      if use.Register? then Inserted(w.forms, use.form) else w.forms,
      w.due + lines, w.moments + seq(|lines|, _ => moment))
  }

  function Story(forms: seq<Bytes>, uses: seq<Use>): World
    decreases |uses|
  {
    if uses == [] then World([], [], [], forms, [], [])
    else Tell(Story(forms, uses[..|uses| - 1]), uses[|uses| - 1], |uses| - 1)
  }

  lemma StoryNext(forms: seq<Bytes>, uses: seq<Use>, i: nat)
    requires i < |uses|
    ensures Story(forms, uses[..i + 1]) == Tell(Story(forms, uses[..i]), uses[i], i)
  {
    assert uses[..i + 1][..i] == uses[..i];
  }

  // ---------------------------------------------------------------- holds end once

  function Open(holds: seq<bool>): nat {
    if holds == [] then 0 else (if holds[0] then 0 else 1) + Open(holds[1..])
  }

  lemma {:induction false} OpenMore(holds: seq<bool>)
    ensures Open(holds + [false]) == Open(holds) + 1
  {
    if holds == [] {
      assert (holds + [false])[1..] == [];
    } else {
      assert (holds + [false])[1..] == holds[1..] + [false];
      OpenMore(holds[1..]);
    }
  }

  lemma {:induction false} OpenLess(holds: seq<bool>, i: nat)
    requires i < |holds| && !holds[i]
    ensures Open(holds[i := true]) == Open(holds) - 1
  {
    if i == 0 {
      assert holds[0 := true][1..] == holds[1..];
    } else {
      assert holds[i := true][1..] == holds[1..][i - 1 := true];
      OpenLess(holds[1..], i - 1);
    }
  }

  lemma SensibleMore(events: seq<Event>, e: Event)
    requires Sensible(events) && Live(events + [e]) >= 0
    ensures Sensible(events + [e])
  {
    var all := events + [e];
    forall n | 0 <= n <= |all|
      ensures Live(all[..n]) >= 0
    {
      if n <= |events| {
        assert all[..n] == events[..n];
      } else {
        assert all[..n] == all;
      }
    }
  }

  /** What an event adds to the live holds. */
  function Change(e: Option<Event>): int {
    if e.None? || e.value.FinishEvent? then 0 else if e.value.HoldEvent? then 1 else -1
  }

  lemma LiveMore(events: seq<Event>, e: Event)
    ensures Live(events + [e]) == Live(events) + Change(Some(e))
  {
    assert (events + [e])[..|events|] == events;
  }

  lemma OpenFollows(w: World, use: Use)
    ensures Open(HoldsAfter(w, use)) == Open(w.holds) + Change(EventOf(w, use))
  {
    if use.Hold? {
      OpenMore(w.holds);
    } else if use.Release? && Ends(w, use) {
      OpenLess(w.holds, use.hold);
    } else if use.DropHold? && Ends(w, use) {
      OpenLess(w.holds, use.hold);
    }
  }

  /** A hold ends once, after it began: whatever the uses, the events are sensible, and the live
      holds are those that have not ended. */
  lemma {:induction false} StoryIsSensible(forms: seq<Bytes>, uses: seq<Use>)
    ensures Sensible(Story(forms, uses).events)
    ensures Live(Story(forms, uses).events) == Open(Story(forms, uses).holds)
    decreases |uses|
  {
    if uses != [] {
      var use := uses[|uses| - 1];
      StoryIsSensible(forms, uses[..|uses| - 1]);
      TellIsSensible(Story(forms, uses[..|uses| - 1]), use, |uses| - 1);
    }
  }

  lemma TellIsSensible(w: World, use: Use, n: nat)
    requires Sensible(w.events) && Live(w.events) == Open(w.holds)
    ensures Sensible(Tell(w, use, n).events) && Live(Tell(w, use, n).events) == Open(Tell(w, use, n).holds)
  {
    var e := EventOf(w, use);
    OpenFollows(w, use);
    if e.Some? {
      LiveMore(w.events, e.value);
      SensibleMore(w.events, e.value);
    }
  }

  // ---------------------------------------------------------------- one record per attempt

  /** The records that attempts ended with. */
  function Recorded(attempts: seq<Begun>): multiset<Finished> {
    if attempts == [] then multiset{}
    else
      var last := attempts[|attempts| - 1].end;
      Recorded(attempts[..|attempts| - 1]) + (if last.Some? then multiset{last.value} else multiset{})
  }

  lemma {:induction false} RecordedOneMore(attempts: seq<Begun>, i: nat, f: Finished)
    requires i < |attempts| && attempts[i].end.None?
    ensures Recorded(attempts[i := attempts[i].(end := Some(f))]) == Recorded(attempts) + multiset{f}
    decreases |attempts|
  {
    var now := attempts[i := attempts[i].(end := Some(f))];
    var n := |attempts| - 1;
    if i == n {
      assert now[..n] == attempts[..n];
    } else {
      assert now[..n] == attempts[..n][i := attempts[i].(end := Some(f))];
      RecordedOneMore(attempts[..n], i, f);
    }
  }

  /** All records of a run's events. */
  ghost function AllFinished(events: seq<Event>): multiset<Finished> {
    multiset(FinishedIn(events, true)) + multiset(FinishedIn(events, false))
  }

  lemma AllFinishedMore(events: seq<Event>, e: Event)
    ensures AllFinished(events + [e]) ==
            AllFinished(events) + if e.FinishEvent? then multiset{e.record} else multiset{}
  {
    assert (events + [e])[..|events|] == events;
  }

  /** The events finish the record of each attempt that ended, once, and no other. */
  lemma {:induction false} StoryRecords(forms: seq<Bytes>, uses: seq<Use>)
    ensures AllFinished(Story(forms, uses).events) == Recorded(Story(forms, uses).attempts)
    decreases |uses|
  {
    if uses != [] {
      var w, use := Story(forms, uses[..|uses| - 1]), uses[|uses| - 1];
      StoryRecords(forms, uses[..|uses| - 1]);
      TellRecords(w, use, |uses| - 1);
    }
  }

  lemma TellRecords(w: World, use: Use, n: nat)
    requires AllFinished(w.events) == Recorded(w.attempts)
    ensures AllFinished(Tell(w, use, n).events) == Recorded(Tell(w, use, n).attempts)
  {
    TellFinishes(w, use);
    if use.Begin? {
      assert AttemptsAfter(w, use)[..|w.attempts|] == w.attempts;
    } else if use.End? && Ends(w, use) {
      RecordedOneMore(w.attempts, use.attempt, Finished(w.attempts[use.attempt].entry, use.took, use.outcome));
    }
  }

  lemma TellFinishes(w: World, use: Use)
    ensures AllFinished(EventsAfter(w, use)) ==
            AllFinished(w.events) +
            if use.End? && Ends(w, use) then
              multiset{Finished(w.attempts[use.attempt].entry, use.took, use.outcome)}
            else multiset{}
  {
    var e := EventOf(w, use);
    if use.End? && Ends(w, use) {
      AllFinishedMore(w.events, FinishEvent(Finished(w.attempts[use.attempt].entry, use.took, use.outcome)));
    } else if e.Some? {
      assert !e.value.FinishEvent?;
      AllFinishedMore(w.events, e.value);
    }
  }

  // ---------------------------------------------------------------- every line was clean

  /** The forms registered in a run. */
  function Registered(uses: seq<Use>): set<Bytes>
    decreases |uses|
  {
    if uses == [] then {}
    else
      var last := uses[|uses| - 1];
      Registered(uses[..|uses| - 1]) + if last.Register? then {last.form} else {}
  }

  lemma InsertedElements(forms: seq<Bytes>, form: Bytes, f: Bytes)
    ensures f in Inserted(forms, form) <==> f in forms || f == form
  {
    var at := Rank(forms, form);
    assert forms == forms[..at] + forms[at..];
  }

  lemma {:induction false} StoryForms(forms: seq<Bytes>, uses: seq<Use>, f: Bytes)
    ensures f in Story(forms, uses).forms <==> f in forms || f in Registered(uses)
    decreases |uses|
  {
    if uses != [] {
      StoryForms(forms, uses[..|uses| - 1], f);
      var last := uses[|uses| - 1];
      if last.Register? {
        InsertedElements(Story(forms, uses[..|uses| - 1]).forms, last.form, f);
      }
    }
  }

  /** A line without any form known from the start or registered in `uses`, in any ASCII case. */
  ghost predicate CleanOf(line: Bytes, forms: seq<Bytes>, uses: seq<Use>) {
    forall f, at: nat | (f in forms || f in Registered(uses)) && at <= |line| :: !OccursIgnoringCaseAt(line, f, at)
  }

  lemma CleanOfKnown(line: Bytes, forms: seq<Bytes>, uses: seq<Use>)
    requires !AppearsIgnoringCase(Story(forms, uses).forms, line)
    ensures CleanOf(line, forms, uses)
  {
    var known := Story(forms, uses).forms;
    forall f, at: nat | (f in forms || f in Registered(uses)) && at <= |line|
      ensures !OccursIgnoringCaseAt(line, f, at)
    {
      StoryForms(forms, uses, f);
      var k :| 0 <= k < |known| && known[k] == f;
      assert !OccursIgnoringCaseAt(line, known[k], at);
    }
  }

  /** Every line carries no form registered before the use that wrote it. */
  ghost predicate LinesWereClean(w: World, forms: seq<Bytes>, uses: seq<Use>) {
    && |w.moments| == |w.due|
    && forall i | 0 <= i < |w.due| :: w.moments[i] < |uses| && CleanOf(w.due[i], forms, uses[..w.moments[i]])
  }

  /** A line written by the last use. */
  lemma LastLineIsClean(forms: seq<Bytes>, uses: seq<Use>, use: Use, line: Bytes)
    requires line in LinesFor(Story(forms, uses), use)
    ensures CleanOf(line, forms, uses)
  {
    var w := Story(forms, uses);
    LinesAreClean(Next(After(w.events).0, EventOf(w, use).value).1, w.forms);
    CleanOfKnown(line, forms, uses);
  }

  lemma {:induction false} StoryIsClean(forms: seq<Bytes>, uses: seq<Use>)
    ensures LinesWereClean(Story(forms, uses), forms, uses)
    decreases |uses|
  {
    if uses != [] {
      var n := |uses| - 1;
      StoryIsClean(forms, uses[..n]);
      TellIsClean(Story(forms, uses[..n]), forms, uses);
    }
  }

  lemma TellIsClean(w: World, forms: seq<Bytes>, uses: seq<Use>)
    requires uses != [] && w == Story(forms, uses[..|uses| - 1])
    requires LinesWereClean(w, forms, uses[..|uses| - 1])
    ensures LinesWereClean(Tell(w, uses[|uses| - 1], |uses| - 1), forms, uses)
  {
    var n := |uses| - 1;
    var now := Tell(w, uses[n], n);
    DueGrows(w, uses[n], n);
    forall i | 0 <= i < |now.due|
      ensures now.moments[i] < |uses| && CleanOf(now.due[i], forms, uses[..now.moments[i]])
    {
      if i < |w.due| {
        assert uses[..n][..w.moments[i]] == uses[..w.moments[i]];
      } else {
        LastLineIsClean(forms, uses[..n], uses[n], now.due[i]);
      }
    }
  }

  /** The lines due before stay, with their moments; the others are this use's. */
  lemma DueGrows(w: World, use: Use, moment: nat)
    requires |w.moments| == |w.due|
    ensures var now := Tell(w, use, moment);
            && |now.moments| == |now.due| && |w.due| <= |now.due|
            && (forall i | 0 <= i < |w.due| :: now.due[i] == w.due[i] && now.moments[i] == w.moments[i])
            && (forall i | |w.due| <= i < |now.due| :: now.due[i] in LinesFor(w, use) && now.moments[i] == moment)
  {
  }

  // ---------------------------------------------------------------- the log itself

  ghost predicate MatchAttempts(log: DebugLog, attempts: seq<Attempt>, begun: seq<Begun>)
    reads attempts
  {
    && |attempts| == |begun|
    && (forall i | 0 <= i < |attempts| ::
          attempts[i].log == log && attempts[i].entry == begun[i].entry
          && attempts[i].finished == begun[i].end.Some?)
    && (forall i, j | 0 <= i < j < |attempts| :: attempts[i] != attempts[j])
  }

  ghost predicate MatchHolds(log: DebugLog, holds: seq<TokenHold>, ended: seq<bool>)
    reads holds
  {
    && |holds| == |ended|
    && (forall i | 0 <= i < |holds| :: holds[i].log == log && holds[i].ended == ended[i])
    && (forall i, j | 0 <= i < j < |holds| :: holds[i] != holds[j])
  }

  ghost predicate MatchLog(log: DebugLog, w: World)
    reads log, log.secrets
  {
    && log.Valid()
    && log.holds == After(w.events).0 && log.handed == After(w.events).1
    && log.due == w.due && log.secrets.entries == w.forms
  }

  lemma AfterMore(events: seq<Event>, e: Event)
    ensures After(events + [e]) == (Next(After(events).0, e).0, After(events).1 + Next(After(events).0, e).1)
  {
    assert (events + [e])[..|events|] == events;
  }

  /** The log after the event of a use. */
  lemma MovedMatches(log: DebugLog, w: World, use: Use, n: nat, handed: seq<Handed>)
    requires EventOf(w, use).Some? && !use.Register?
    requires log.Valid() && log.secrets.entries == w.forms
    requires handed == Next(After(w.events).0, EventOf(w, use).value).1
    requires log.holds == Next(After(w.events).0, EventOf(w, use).value).0
    requires log.handed == After(w.events).1 + handed
    requires log.due == w.due + LinesOf(handed, w.forms)
    ensures MatchLog(log, Tell(w, use, n))
  {
    AfterMore(w.events, EventOf(w, use).value);
  }

  lemma UnmovedMatches(log: DebugLog, w: World, use: Use, n: nat)
    requires EventOf(w, use).None? && !use.Register? && MatchLog(log, w)
    ensures MatchLog(log, Tell(w, use, n))
  {
    assert w.due + [] == w.due;
  }

  method BeginAttempt(log: DebugLog, attempts: seq<Attempt>, use: Use, ghost w: World, ghost n: nat)
    returns (attempts': seq<Attempt>)
    requires use.Begin? && MatchLog(log, w) && MatchAttempts(log, attempts, w.attempts)
    modifies log, log.secrets
    ensures MatchLog(log, Tell(w, use, n)) && MatchAttempts(log, attempts', AttemptsAfter(w, use))
    ensures |attempts'| == |attempts| + 1 && attempts' == attempts + [attempts'[|attempts|]]
    ensures fresh(attempts'[|attempts|])
  {
    var attempt := log.Begin(use.token, use.head, use.url, use.headers);
    attempts' := attempts + [attempt];
    UnmovedMatches(log, w, use, n);
  }

  method EndAttempt(log: DebugLog, attempts: seq<Attempt>, use: Use, ghost w: World, ghost n: nat)
    requires use.End? && MatchLog(log, w) && MatchAttempts(log, attempts, w.attempts)
    modifies log, log.secrets, attempts
    ensures MatchLog(log, Tell(w, use, n)) && MatchAttempts(log, attempts, AttemptsAfter(w, use))
  {
    if use.attempt >= |attempts| || attempts[use.attempt].finished {
      UnmovedMatches(log, w, use, n);
      return;
    }
    var attempt := attempts[use.attempt];
    attempt.End(use.took, use.outcome);
    MovedMatches(log, w, use, n, Next(After(w.events).0, EventOf(w, use).value).1);
  }

  method BeginHold(log: DebugLog, holds: seq<TokenHold>, ghost w: World, ghost n: nat)
    returns (holds': seq<TokenHold>)
    requires MatchLog(log, w) && MatchHolds(log, holds, w.holds)
    modifies log, log.secrets
    ensures MatchLog(log, Tell(w, Hold, n)) && MatchHolds(log, holds', HoldsAfter(w, Hold))
    ensures |holds'| == |holds| + 1 && holds' == holds + [holds'[|holds|]]
    ensures fresh(holds'[|holds|])
  {
    var hold := log.HoldTokens();
    holds' := holds + [hold];
    MovedMatches(log, w, Hold, n, []);
  }

  method EndHold(log: DebugLog, holds: seq<TokenHold>, use: Use, ghost w: World, ghost n: nat)
    requires (use.Release? || use.DropHold?) && MatchLog(log, w) && MatchHolds(log, holds, w.holds)
    modifies log, log.secrets, holds
    ensures MatchLog(log, Tell(w, use, n)) && MatchHolds(log, holds, HoldsAfter(w, use))
  {
    if use.hold >= |holds| || holds[use.hold].ended {
      UnmovedMatches(log, w, use, n);
      return;
    }
    var hold := holds[use.hold];
    if use.DropHold? {
      hold.Drop();
    } else {
      hold.Release();
    }
    MovedMatches(log, w, use, n, Next(After(w.events).0, EventOf(w, use).value).1);
  }

  method RegisterForm(log: DebugLog, form: Bytes, ghost w: World, ghost n: nat)
    requires MatchLog(log, w)
    modifies log.secrets
    ensures MatchLog(log, Tell(w, Use.Register(form), n))
  {
    log.secrets.Push(form);
    assert w.due + [] == w.due;
  }

  method DoAttempt(log: DebugLog, attempts: seq<Attempt>, use: Use, ghost w: World, ghost n: nat)
    returns (attempts': seq<Attempt>)
    requires (use.Begin? || use.End?) && MatchLog(log, w) && MatchAttempts(log, attempts, w.attempts)
    modifies log, log.secrets, attempts
    ensures MatchLog(log, Tell(w, use, n)) && MatchAttempts(log, attempts', AttemptsAfter(w, use))
    ensures attempts <= attempts' && forall i | |attempts| <= i < |attempts'| :: fresh(attempts'[i])
  {
    attempts' := attempts;
    if use.Begin? {
      attempts' := BeginAttempt(log, attempts, use, w, n);
    } else {
      EndAttempt(log, attempts, use, w, n);
    }
  }

  predicate OfHold(use: Use) {
    use.Hold? || use.Release? || use.DropHold?
  }

  method DoHold(log: DebugLog, holds: seq<TokenHold>, use: Use, ghost w: World, ghost n: nat)
    returns (holds': seq<TokenHold>)
    requires OfHold(use) && MatchLog(log, w) && MatchHolds(log, holds, w.holds)
    modifies log, log.secrets, holds
    ensures MatchLog(log, Tell(w, use, n)) && MatchHolds(log, holds', HoldsAfter(w, use))
    ensures holds <= holds' && forall i | |holds| <= i < |holds'| :: fresh(holds'[i])
  {
    holds' := holds;
    if use.Hold? {
      holds' := BeginHold(log, holds, w, n);
    } else {
      EndHold(log, holds, use, w, n);
    }
  }

  /** One use, by the log's, the attempts' and the holds' own methods. */
  method Do(log: DebugLog, attempts: seq<Attempt>, holds: seq<TokenHold>, use: Use, ghost w: World, ghost n: nat)
    returns (attempts': seq<Attempt>, holds': seq<TokenHold>)
    requires MatchLog(log, w) && MatchAttempts(log, attempts, w.attempts) && MatchHolds(log, holds, w.holds)
    modifies log, log.secrets, attempts, holds
    ensures MatchLog(log, Tell(w, use, n))
    ensures MatchAttempts(log, attempts', AttemptsAfter(w, use)) && MatchHolds(log, holds', HoldsAfter(w, use))
    ensures attempts <= attempts' && forall i | |attempts| <= i < |attempts'| :: fresh(attempts'[i])
    ensures holds <= holds' && forall i | |holds| <= i < |holds'| :: fresh(holds'[i])
  {
    attempts', holds' := attempts, holds;
    if use.Register? {
      RegisterForm(log, use.form, w, n);
    } else if OfHold(use) {
      holds' := DoHold(log, holds, use, w, n);
    } else {
      attempts' := DoAttempt(log, attempts, use, w, n);
    }
  }

  /** What a run leaves of the log. */
  ghost predicate Tells(log: DebugLog, w: World, forms: seq<Bytes>, uses: seq<Use>)
    reads log
  {
    // Every attempt that ended has its one record, handed over once or waiting for a live hold.
    && multiset(Given(log.handed, true)) + multiset(Given(log.handed, false)) + multiset(log.holds.pending)
       == Recorded(w.attempts)
    && (Open(w.holds) == 0 ==> log.holds.pending == [])
    // No line of the file carries a form registered before it was written.
    && |log.lines| <= |w.moments|
    && (forall i | 0 <= i < |log.lines| ::
          w.moments[i] < |uses| && CleanOf(log.lines[i], forms, uses[..w.moments[i]]))
  }

  /**
   * Any run over a new log: the log's state, all it handed over and all lines due are those of
   * the run's story, whose events are sensible.
   */
  method Run(log: DebugLog, uses: seq<Use>) returns (attempts: seq<Attempt>, holds: seq<TokenHold>)
    requires log.Valid() && log.holds == Holds(0, false, []) && log.handed == [] && log.due == []
    modifies log, log.secrets
    ensures var w := Story(old(log.secrets.entries), uses);
            && MatchLog(log, w) && MatchAttempts(log, attempts, w.attempts) && MatchHolds(log, holds, w.holds)
            && Sensible(w.events)
            && Tells(log, w, old(log.secrets.entries), uses)
  {
    attempts, holds := [], [];
    ghost var forms := log.secrets.entries;
    for i := 0 to |uses|
      invariant MatchLog(log, Story(forms, uses[..i]))
      invariant MatchAttempts(log, attempts, Story(forms, uses[..i]).attempts)
      invariant MatchHolds(log, holds, Story(forms, uses[..i]).holds)
      invariant forall k | 0 <= k < |attempts| :: fresh(attempts[k])
      invariant forall k | 0 <= k < |holds| :: fresh(holds[k])
    {
      StoryNext(forms, uses, i);
      attempts, holds := Do(log, attempts, holds, uses[i], Story(forms, uses[..i]), i);
    }
    assert uses[..|uses|] == uses;
    StoryIsSensible(forms, uses);
    StoryTells(log, forms, uses);
  }

  lemma StoryTells(log: DebugLog, forms: seq<Bytes>, uses: seq<Use>)
    requires MatchLog(log, Story(forms, uses))
    ensures Tells(log, Story(forms, uses), forms, uses)
  {
    var w := Story(forms, uses);
    StoryHands(forms, uses);
    StoryIsClean(forms, uses);
    LinesOfStory(log, forms, uses);
  }

  /** The records handed over, and those that wait. */
  lemma StoryHands(forms: seq<Bytes>, uses: seq<Use>)
    ensures var w := Story(forms, uses);
            var (holds, handed) := After(w.events);
            && multiset(Given(handed, true)) + multiset(Given(handed, false)) + multiset(holds.pending)
               == Recorded(w.attempts)
            && (Open(w.holds) == 0 ==> holds.pending == [])
  {
    var w := Story(forms, uses);
    StoryIsSensible(forms, uses);
    EveryRecordOnce(w.events);
    StoryRecords(forms, uses);
    var tokens, pending := Given(After(w.events).1, true), After(w.events).0.pending;
    assert multiset(tokens + pending) == multiset(tokens) + multiset(pending);
  }

  /** The lines of the file are the first of those due. */
  lemma LinesOfStory(log: DebugLog, forms: seq<Bytes>, uses: seq<Use>)
    requires MatchLog(log, Story(forms, uses)) && LinesWereClean(Story(forms, uses), forms, uses)
    ensures var w := Story(forms, uses);
            && |log.lines| <= |w.moments|
            && forall i | 0 <= i < |log.lines| ::
                 w.moments[i] < |uses| && CleanOf(log.lines[i], forms, uses[..w.moments[i]])
  {
    var w := Story(forms, uses);
    forall i | 0 <= i < |log.lines|
      ensures w.moments[i] < |uses| && CleanOf(log.lines[i], forms, uses[..w.moments[i]])
    {
      assert log.lines[i] == w.due[i];
    }
  }
}
