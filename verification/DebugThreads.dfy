/**
 * The debug log used by several threads at once. A step is what one thread does under one lock:
 * the holds, the secret set or the file. The program itself drives its log from one thread; the
 * theorems say what that is needed for.
 */
module DebugThreads {
  import opened Wrappers
  import opened ByteStrings
  import opened SecretSets
  import opened DebugLogs

  /** Where a thread is: outside the log, or with records to write, the first of them in hand. */
  datatype Place =
    | Outside
    | Writing(queue: seq<Handed>)                               // nothing built yet
    | Built(full: Bytes, queue: seq<Handed>)
    | LineChecked(full: Bytes, known: seq<Bytes>, queue: seq<Handed>)
    | Falling(queue: seq<Handed>)                               // the fallback is to be checked
    | Passed(line: Bytes, known: seq<Bytes>, queue: seq<Handed>)

  /** A line of the file, and the forms that were registered when it was checked. */
  datatype Line = Line(text: Bytes, known: seq<Bytes>)

  /** The shared state, the threads, and what happened: the records finished, those dealt with. */
  datatype State = State(holds: Holds, forms: seq<Bytes>, open: bool, lines: seq<Line>,
                         threads: seq<Place>, finished: seq<Finished>, done: seq<Handed>)

  datatype Act =
    | Finish(record: Finished)
    | Hold
    | EndHold(dropped: bool)
    | Register(form: Bytes)
    | Build(full: Bytes)       // any text: header values are judged at moments of their own
    | CheckLine
    | CheckUrl
    | CheckFallback
    | Write(works: bool)

  datatype Step = Step(thread: nat, act: Act)

  // ---------------------------------------------------------------- one step

  function QueueOf(place: Place): seq<Handed> {
    if place.Outside? then [] else place.queue
  }

  /** A thread that has these records to write, if any. */
  function WithQueue(queue: seq<Handed>): Place {
    if queue == [] then Outside
    else if queue[0].withhold then Falling(queue)
    else Writing(queue)
  }

  function Put(s: State, thread: nat, place: Place): State
    requires thread < |s.threads|
  {
    s.(threads := s.threads[thread := place])
  }

  /** The record in hand is dealt with. */
  function NextRecord(s: State, thread: nat, queue: seq<Handed>): State
    requires thread < |s.threads| && queue != []
  {
    Put(s.(done := s.done + [queue[0]]), thread, WithQueue(queue[1..]))
  }

  /** What a thread outside the log can do, each under one lock. */
  function Enter(s: State, thread: nat, act: Act): Option<State>
    requires thread < |s.threads|
  {
    match act
    case Finish(f) =>
      var (holds, handed) := Next(s.holds, FinishEvent(f));
      Some(Put(s.(holds := holds, finished := s.finished + [f]), thread, WithQueue(handed)))
    case Hold => Some(s.(holds := Next(s.holds, HoldEvent).0))
    case EndHold(dropped) =>
      var (holds, handed) := EndOne(s.holds, dropped);
      Some(Put(s.(holds := holds), thread, WithQueue(handed)))
    case Register(form) => Some(s.(forms := Inserted(s.forms, form)))
    case _ => None
  }

  /** Where the next step of writing a record leads, but for the steps that end with it. */
  function NextPlace(forms: seq<Bytes>, place: Place, act: Act): Option<Place>
    requires !place.Outside? && place.queue != []
  {
    var record := place.queue[0].record;
    match act
    case Build(full) => if place.Writing? then Some(Built(full, place.queue)) else None
    case CheckLine =>
      if !place.Built? then None
      else if AppearsIgnoringCase(forms, place.full) then Some(Falling(place.queue))
      else Some(LineChecked(place.full, forms, place.queue))
    case CheckUrl =>
      if !place.LineChecked? then None
      else if AppearsIgnoringCase(forms, record.entry.url) then Some(Falling(place.queue))
      else Some(Passed(place.full, place.known, place.queue))
    case CheckFallback =>
      if !place.Falling? || AppearsIgnoringCase(forms, FallbackLine(record)) then None
      else Some(Passed(FallbackLine(record), forms, place.queue))
    case _ => None
  }

  /** The steps that end with a record: its line goes to the file, or it may have none. */
  predicate EndsRecord(forms: seq<Bytes>, place: Place, act: Act)
    requires !place.Outside? && place.queue != []
  {
    || (act.Write? && place.Passed?)
    || (act.CheckFallback? && place.Falling? && AppearsIgnoringCase(forms, FallbackLine(place.queue[0].record)))
  }

  /** The file after a step that ends with a record. */
  function Filed(s: State, place: Place, act: Act): State {
    if act.Write? && place.Passed? then
      s.(open := s.open && act.works,
         lines := if s.open && act.works then s.lines + [Line(place.line, place.known)] else s.lines)
    else s
  }

  /** The steps of writing the record in hand. */
  function Proceed(s: State, thread: nat, act: Act): Option<State>
    requires thread < |s.threads| && !s.threads[thread].Outside?
  {
    var place := s.threads[thread];
    if place.queue == [] then None
    else if EndsRecord(s.forms, place, act) then Some(NextRecord(Filed(s, place, act), thread, place.queue))
    else
      match NextPlace(s.forms, place, act)
      case None => None
      case Some(next) => Some(Put(s, thread, next))
  }

  function Next1(s: State, step: Step): Option<State> {
    if step.thread >= |s.threads| then None
    else if s.threads[step.thread].Outside? then Enter(s, step.thread, step.act)
    else Proceed(s, step.thread, step.act)
  }

  function Run(start: State, steps: seq<Step>): Option<State>
    decreases |steps|
  {
    if steps == [] then Some(start)
    else
      match Run(start, steps[..|steps| - 1])
      case None => None
      case Some(s) => Next1(s, steps[|steps| - 1])
  }

  function Start(threads: nat, forms: seq<Bytes>): State {
    State(Holds(0, false, []), forms, true, [], seq(threads, _ => Outside), [], [])
  }

  // ---------------------------------------------------------------- every record once

  /** How often a record is in a list. */
  function Many(records: seq<Finished>, f: Finished): nat {
    if records == [] then 0 else (if records[0] == f then 1 else 0) + Many(records[1..], f)
  }

  function ManyHanded(handed: seq<Handed>, f: Finished): nat {
    if handed == [] then 0 else (if handed[0].record == f then 1 else 0) + ManyHanded(handed[1..], f)
  }

  /** How often the threads have it in hand. */
  function InHand(threads: seq<Place>, f: Finished): nat {
    if threads == [] then 0 else ManyHanded(QueueOf(threads[0]), f) + InHand(threads[1..], f)
  }

  lemma {:induction false} ManyMore(records: seq<Finished>, last: Finished, f: Finished)
    ensures Many(records + [last], f) == Many(records, f) + if last == f then 1 else 0
  {
    if records == [] {
      assert (records + [last])[1..] == [];
    } else {
      assert (records + [last])[1..] == records[1..] + [last];
      ManyMore(records[1..], last, f);
    }
  }

  lemma {:induction false} ManyHandedMore(handed: seq<Handed>, last: Handed, f: Finished)
    ensures ManyHanded(handed + [last], f) == ManyHanded(handed, f) + if last.record == f then 1 else 0
  {
    if handed == [] {
      assert (handed + [last])[1..] == [];
    } else {
      assert (handed + [last])[1..] == handed[1..] + [last];
      ManyHandedMore(handed[1..], last, f);
    }
  }

  lemma {:induction false} ManyOfAll(records: seq<Finished>, withhold: bool, f: Finished)
    ensures ManyHanded(HandedAll(records, withhold), f) == Many(records, f)
  {
    if records != [] {
      assert HandedAll(records, withhold)[1..] == HandedAll(records[1..], withhold);
      ManyOfAll(records[1..], withhold, f);
    }
  }

  lemma {:induction false} InHandPut(threads: seq<Place>, i: nat, place: Place, f: Finished)
    requires i < |threads|
    ensures InHand(threads[i := place], f) ==
            InHand(threads, f) - ManyHanded(QueueOf(threads[i]), f) + ManyHanded(QueueOf(place), f)
  {
    var now := threads[i := place];
    if i == 0 {
      assert now[1..] == threads[1..];
    } else {
      assert now[1..] == threads[1..][i - 1 := place] && now[0] == threads[0];
      InHandPut(threads[1..], i - 1, place, f);
    }
  }

  lemma {:induction false} InHandOutside(threads: seq<Place>, f: Finished)
    requires forall i | 0 <= i < |threads| :: threads[i].Outside?
    ensures InHand(threads, f) == 0
  {
    if threads != [] {
      InHandOutside(threads[1..], f);
    }
  }

  /** Dealt with, in hand or waiting, as often as it was finished. */
  predicate Conserved(s: State, f: Finished) {
    ManyHanded(s.done, f) + InHand(s.threads, f) + Many(s.holds.pending, f) == Many(s.finished, f)
  }

  lemma FinishKeeps(s: State, thread: nat, record: Finished, f: Finished)
    requires thread < |s.threads| && s.threads[thread].Outside? && Conserved(s, f)
    ensures Conserved(Enter(s, thread, Finish(record)).value, f)
  {
    var (holds, handed) := Next(s.holds, FinishEvent(record));
    InHandPut(s.threads, thread, WithQueue(handed), f);
    ManyMore(s.finished, record, f);
    ManyMore(s.holds.pending, record, f);
  }

  lemma EndKeeps(s: State, thread: nat, dropped: bool, f: Finished)
    requires thread < |s.threads| && s.threads[thread].Outside? && Conserved(s, f)
    ensures Conserved(Enter(s, thread, EndHold(dropped)).value, f)
  {
    var (holds, handed) := EndOne(s.holds, dropped);
    InHandPut(s.threads, thread, WithQueue(handed), f);
    ManyOfAll(s.holds.pending, s.holds.cancelled || dropped, f);
  }

  lemma NextRecordKeeps(s: State, thread: nat, f: Finished)
    requires thread < |s.threads| && Conserved(s, f) && QueueOf(s.threads[thread]) != []
    ensures Conserved(NextRecord(s, thread, QueueOf(s.threads[thread])), f)
  {
    var queue := QueueOf(s.threads[thread]);
    InHandPut(s.threads, thread, WithQueue(queue[1..]), f);
    ManyHandedMore(s.done, queue[0], f);
  }

  lemma PutKeeps(s: State, thread: nat, place: Place, f: Finished)
    requires thread < |s.threads| && Conserved(s, f) && QueueOf(place) == QueueOf(s.threads[thread])
    ensures Conserved(Put(s, thread, place), f)
  {
    InHandPut(s.threads, thread, place, f);
  }

  lemma NextPlaceQueue(forms: seq<Bytes>, place: Place, act: Act)
    requires !place.Outside? && place.queue != [] && NextPlace(forms, place, act).Some?
    ensures QueueOf(NextPlace(forms, place, act).value) == place.queue
  {
  }

  lemma ProceedKeeps(s: State, thread: nat, act: Act, f: Finished)
    requires thread < |s.threads| && !s.threads[thread].Outside?
    requires Conserved(s, f) && Proceed(s, thread, act).Some?
    ensures Conserved(Proceed(s, thread, act).value, f)
  {
    var place := s.threads[thread];
    if EndsRecord(s.forms, place, act) {
      NextRecordKeeps(Filed(s, place, act), thread, f);
    } else {
      NextPlaceQueue(s.forms, place, act);
      PutKeeps(s, thread, NextPlace(s.forms, place, act).value, f);
    }
  }

  lemma EnterKeeps(s: State, thread: nat, act: Act, f: Finished)
    requires thread < |s.threads| && s.threads[thread].Outside? && Conserved(s, f) && Enter(s, thread, act).Some?
    ensures Conserved(Enter(s, thread, act).value, f)
  {
    match act
    case Finish(record) => FinishKeeps(s, thread, record, f);
    case EndHold(dropped) => EndKeeps(s, thread, dropped, f);
    case _ =>
  }

  lemma {:induction false} RunKeeps(start: State, steps: seq<Step>, f: Finished)
    requires Conserved(start, f) && Run(start, steps).Some?
    ensures Conserved(Run(start, steps).value, f)
    decreases |steps|
  {
    if steps != [] {
      RunKeeps(start, steps[..|steps| - 1], f);
      var s, step := Run(start, steps[..|steps| - 1]).value, steps[|steps| - 1];
      if s.threads[step.thread].Outside? {
        EnterKeeps(s, step.thread, step.act, f);
      } else {
        ProceedKeeps(s, step.thread, step.act, f);
      }
    }
  }

  /** However the threads interleave, every finished record is dealt with once, is in some thread's
      hands, or waits for a hold. */
  lemma EveryRecordOnceInThreads(threads: nat, forms: seq<Bytes>, steps: seq<Step>, f: Finished)
    requires Run(Start(threads, forms), steps).Some?
    ensures Conserved(Run(Start(threads, forms), steps).value, f)
  {
    InHandOutside(Start(threads, forms).threads, f);
    RunKeeps(Start(threads, forms), steps, f);
  }

  // ---------------------------------------------------------------- every line was checked

  predicate PlaceClean(place: Place) {
    && (place.LineChecked? ==> !AppearsIgnoringCase(place.known, place.full))
    && (place.Passed? ==> !AppearsIgnoringCase(place.known, place.line))
  }

  ghost predicate Checked(s: State) {
    && (forall i | 0 <= i < |s.threads| :: PlaceClean(s.threads[i]))
    && (forall i | 0 <= i < |s.lines| :: !AppearsIgnoringCase(s.lines[i].known, s.lines[i].text))
  }

  lemma NextPlaceChecks(forms: seq<Bytes>, place: Place, act: Act)
    requires !place.Outside? && place.queue != [] && NextPlace(forms, place, act).Some? && PlaceClean(place)
    ensures PlaceClean(NextPlace(forms, place, act).value)
  {
  }

  lemma PutChecks(s: State, thread: nat, place: Place)
    requires thread < |s.threads| && Checked(s) && PlaceClean(place)
    ensures Checked(Put(s, thread, place))
  {
  }

  lemma FiledChecks(s: State, thread: nat, act: Act)
    requires thread < |s.threads| && Checked(s)
    ensures Checked(Filed(s, s.threads[thread], act))
  {
    assert PlaceClean(s.threads[thread]);
  }

  lemma StepChecks(s: State, step: Step)
    requires Checked(s) && Next1(s, step).Some?
    ensures Checked(Next1(s, step).value)
  {
    var place := s.threads[step.thread];
    if place.Outside? {
      EnterChecks(s, step.thread, step.act);
    } else if EndsRecord(s.forms, place, step.act) {
      FiledChecks(s, step.thread, step.act);
      var filed := Filed(s, place, step.act);
      PutChecks(filed.(done := filed.done + [place.queue[0]]), step.thread, WithQueue(place.queue[1..]));
    } else {
      assert PlaceClean(place);
      NextPlaceChecks(s.forms, place, step.act);
      PutChecks(s, step.thread, NextPlace(s.forms, place, step.act).value);
    }
  }

  lemma EnterChecks(s: State, thread: nat, act: Act)
    requires thread < |s.threads| && Checked(s) && Enter(s, thread, act).Some?
    ensures Checked(Enter(s, thread, act).value)
  {
    match act
    case Finish(f) =>
      var (holds, handed) := Next(s.holds, FinishEvent(f));
      PutChecks(s.(holds := holds, finished := s.finished + [f]), thread, WithQueue(handed));
    case EndHold(dropped) =>
      var (holds, handed) := EndOne(s.holds, dropped);
      PutChecks(s.(holds := holds), thread, WithQueue(handed));
    case _ =>
  }

  lemma {:induction false} RunChecks(start: State, steps: seq<Step>)
    requires Checked(start) && Run(start, steps).Some?
    ensures Checked(Run(start, steps).value)
    decreases |steps|
  {
    if steps != [] {
      RunChecks(start, steps[..|steps| - 1]);
      StepChecks(Run(start, steps[..|steps| - 1]).value, steps[|steps| - 1]);
    }
  }

  /** However the threads interleave, no line carries a form registered when it was checked. */
  lemma LinesWereChecked(threads: nat, forms: seq<Bytes>, steps: seq<Step>)
    requires Run(Start(threads, forms), steps).Some?
    ensures forall i | 0 <= i < |Run(Start(threads, forms), steps).value.lines| ::
              var line := Run(Start(threads, forms), steps).value.lines[i];
              !AppearsIgnoringCase(line.known, line.text)
  {
    RunChecks(Start(threads, forms), steps);
  }

  // ---------------------------------------------------------------- one thread at a time

  /** All threads but one are outside the log. */
  predicate Alone(threads: seq<Place>, thread: nat) {
    forall i | 0 <= i < |threads| && i != thread :: threads[i].Outside?
  }

  /** Every step is made while all other threads are outside. */
  predicate OneAtATime(start: State, steps: seq<Step>)
    decreases |steps|
  {
    steps == [] ||
      var before := Run(start, steps[..|steps| - 1]);
      && OneAtATime(start, steps[..|steps| - 1])
      && before.Some? && Alone(before.value.threads, steps[|steps| - 1].thread)
  }

  /** A single thread is always alone. */
  lemma {:induction false} OneThreadIsAlone(forms: seq<Bytes>, steps: seq<Step>)
    requires Run(Start(1, forms), steps).Some?
    ensures OneAtATime(Start(1, forms), steps) && |Run(Start(1, forms), steps).value.threads| == 1
    decreases |steps|
  {
    if steps != [] {
      OneThreadIsAlone(forms, steps[..|steps| - 1]);
    }
  }

  /** The records of the one thread that has some. */
  function Queue(threads: seq<Place>): seq<Handed> {
    if threads == [] then [] else QueueOf(threads[0]) + Queue(threads[1..])
  }

  lemma {:induction false} QueueAlone(threads: seq<Place>, thread: nat)
    requires thread < |threads| && Alone(threads, thread)
    ensures Queue(threads) == QueueOf(threads[thread])
  {
    if thread == 0 {
      QueueNone(threads[1..]);
    } else {
      assert Alone(threads[1..], thread - 1);
      QueueAlone(threads[1..], thread - 1);
    }
  }

  lemma {:induction false} QueueNone(threads: seq<Place>)
    requires forall i | 0 <= i < |threads| :: threads[i].Outside?
    ensures Queue(threads) == []
  {
    if threads != [] {
      QueueNone(threads[1..]);
    }
  }

  function OfKind(records: seq<Finished>, token: bool): seq<Finished> {
    if records == [] then []
    else
      var last := records[|records| - 1];
      OfKind(records[..|records| - 1], token) + (if last.entry.token == token then [last] else [])
  }

  /** Records dealt with, then those in hand, then those that wait: in the order they finished in,
      the token records among themselves, and the others. */
  ghost predicate Ordered(done: seq<Handed>, queue: seq<Handed>, pending: seq<Finished>, finished: seq<Finished>) {
    && Given(done + queue, true) + pending == OfKind(finished, true)
    && Given(done + queue, false) == OfKind(finished, false)
  }

  ghost predicate InOrder(s: State) {
    && (s.holds.active == 0 ==> s.holds.pending == [])
    && (forall f | f in s.holds.pending :: f.entry.token)
    && Ordered(s.done, Queue(s.threads), s.holds.pending, s.finished)
  }

  lemma GivenMore(handed: seq<Handed>, h: Handed, token: bool)
    ensures Given(handed + [h], token) ==
            Given(handed, token) + if h.record.entry.token == token then [h.record] else []
  {
    assert (handed + [h])[..|handed|] == handed;
  }

  lemma OfKindMore(records: seq<Finished>, f: Finished, token: bool)
    ensures OfKind(records + [f], token) == OfKind(records, token) + if f.entry.token == token then [f] else []
  {
    assert (records + [f])[..|records|] == records;
  }

  lemma OrderedWaits(done: seq<Handed>, pending: seq<Finished>, finished: seq<Finished>, f: Finished)
    requires Ordered(done, [], pending, finished) && f.entry.token
    ensures Ordered(done, [], pending + [f], finished + [f])
  {
    OfKindMore(finished, f, true);
    OfKindMore(finished, f, false);
    var given := Given(done + [], true);
    assert given + (pending + [f]) == (given + pending) + [f];
  }

  lemma OrderedGoesOut(done: seq<Handed>, pending: seq<Finished>, finished: seq<Finished>, f: Finished)
    requires Ordered(done, [], pending, finished) && (f.entry.token ==> pending == [])
    ensures Ordered(done, [Handed(f, false)], pending, finished + [f])
  {
    assert done + [] == done;
    OfKindMore(finished, f, true);
    OfKindMore(finished, f, false);
    GivenMore(done, Handed(f, false), true);
    GivenMore(done, Handed(f, false), false);
  }

  lemma OrderedFlush(done: seq<Handed>, pending: seq<Finished>, finished: seq<Finished>, withhold: bool)
    requires Ordered(done, [], pending, finished) && forall f | f in pending :: f.entry.token
    ensures Ordered(done, HandedAll(pending, withhold), [], finished)
  {
    assert done + [] == done;
    GivenAll(pending, withhold);
    GivenAppends(done, HandedAll(pending, withhold), true);
    GivenAppends(done, HandedAll(pending, withhold), false);
  }

  lemma OrderedNext(done: seq<Handed>, queue: seq<Handed>, pending: seq<Finished>, finished: seq<Finished>)
    requires Ordered(done, queue, pending, finished) && queue != []
    ensures Ordered(done + [queue[0]], queue[1..], pending, finished)
  {
    assert done + [queue[0]] + queue[1..] == done + queue;
  }

  lemma FinishInOrder(s: State, thread: nat, f: Finished)
    requires thread < |s.threads| && s.threads[thread].Outside? && Alone(s.threads, thread) && InOrder(s)
    ensures InOrder(Enter(s, thread, Finish(f)).value)
  {
    var next := Enter(s, thread, Finish(f)).value;
    QueueAlone(s.threads, thread);
    QueueAlone(next.threads, thread);
    if f.entry.token && s.holds.active > 0 {
      OrderedWaits(s.done, s.holds.pending, s.finished, f);
    } else {
      OrderedGoesOut(s.done, s.holds.pending, s.finished, f);
    }
  }

  /** A hold ends: nothing goes out while another is live. */
  lemma EndsWithout(holds: Holds, dropped: bool)
    requires holds.active > 1
    ensures EndOne(holds, dropped) == (Holds(holds.active - 1, holds.cancelled || dropped, holds.pending), [])
  {
  }

  lemma EndsLast(holds: Holds, dropped: bool)
    requires holds.active <= 1
    ensures EndOne(holds, dropped) == (Holds(0, false, []), HandedAll(holds.pending, holds.cancelled || dropped))
  {
  }

  lemma EndInOrder(s: State, thread: nat, dropped: bool)
    requires thread < |s.threads| && s.threads[thread].Outside? && Alone(s.threads, thread) && InOrder(s)
    ensures InOrder(Enter(s, thread, EndHold(dropped)).value)
  {
    var next := Enter(s, thread, EndHold(dropped)).value;
    QueueAlone(s.threads, thread);
    QueueAlone(next.threads, thread);
    if s.holds.active > 1 {
      EndsWithout(s.holds, dropped);
    } else {
      EndsLast(s.holds, dropped);
      OrderedFlush(s.done, s.holds.pending, s.finished, s.holds.cancelled || dropped);
    }
  }

  lemma RecordInOrder(s: State, thread: nat)
    requires thread < |s.threads| && Alone(s.threads, thread) && InOrder(s) && QueueOf(s.threads[thread]) != []
    ensures InOrder(NextRecord(s, thread, QueueOf(s.threads[thread])))
  {
    var queue := QueueOf(s.threads[thread]);
    QueueAlone(s.threads, thread);
    QueueAlone(s.threads[thread := WithQueue(queue[1..])], thread);
    OrderedNext(s.done, QueueOf(s.threads[thread]), s.holds.pending, s.finished);
  }

  lemma PutInOrder(s: State, thread: nat, place: Place)
    requires thread < |s.threads| && Alone(s.threads, thread) && InOrder(s)
    requires QueueOf(place) == QueueOf(s.threads[thread])
    ensures InOrder(Put(s, thread, place))
  {
    QueueAlone(s.threads, thread);
    QueueAlone(s.threads[thread := place], thread);
  }

  lemma StepInOrder(s: State, step: Step)
    requires InOrder(s) && Next1(s, step).Some? && Alone(s.threads, step.thread)
    ensures InOrder(Next1(s, step).value)
  {
    var place := s.threads[step.thread];
    if place.Outside? {
      match step.act
      case Finish(f) => FinishInOrder(s, step.thread, f);
      case EndHold(dropped) => EndInOrder(s, step.thread, dropped);
      case _ =>
    } else if EndsRecord(s.forms, place, step.act) {
      RecordInOrder(Filed(s, place, step.act), step.thread);
    } else {
      NextPlaceQueue(s.forms, place, step.act);
      PutInOrder(s, step.thread, NextPlace(s.forms, place, step.act).value);
    }
  }

  /** With one thread at a time in the log, records are dealt with in finish order. */
  lemma {:induction false} FinishOrderIsKept(threads: nat, forms: seq<Bytes>, steps: seq<Step>)
    requires Run(Start(threads, forms), steps).Some? && OneAtATime(Start(threads, forms), steps)
    ensures InOrder(Run(Start(threads, forms), steps).value)
    decreases |steps|
  {
    if steps == [] {
      QueueNone(Start(threads, forms).threads);
    } else {
      FinishOrderIsKept(threads, forms, steps[..|steps| - 1]);
      StepInOrder(Run(Start(threads, forms), steps[..|steps| - 1]).value, steps[|steps| - 1]);
    }
  }

  predicate FreshPlace(place: Place, forms: seq<Bytes>) {
    place.LineChecked? || place.Passed? ==> place.known == forms
  }

  /** What was checked was checked against the forms of now. */
  ghost predicate Fresh(s: State) {
    forall i | 0 <= i < |s.threads| :: FreshPlace(s.threads[i], s.forms)
  }

  lemma NextPlaceIsFresh(forms: seq<Bytes>, place: Place, act: Act)
    requires !place.Outside? && place.queue != [] && NextPlace(forms, place, act).Some? && FreshPlace(place, forms)
    ensures FreshPlace(NextPlace(forms, place, act).value, forms)
  {
  }

  lemma PutIsFresh(s: State, thread: nat, place: Place)
    requires thread < |s.threads| && Fresh(s) && FreshPlace(place, s.forms)
    ensures Fresh(Put(s, thread, place))
  {
  }

  lemma EnterIsFresh(s: State, thread: nat, act: Act)
    requires thread < |s.threads| && s.threads[thread].Outside? && Enter(s, thread, act).Some?
    requires Alone(s.threads, thread)
    ensures Fresh(Enter(s, thread, act).value)
  {
    var next := Enter(s, thread, act).value;
    forall i | 0 <= i < |next.threads|
      ensures FreshPlace(next.threads[i], next.forms)
    {
      assert i != thread ==> next.threads[i] == s.threads[i];
    }
  }

  lemma StepIsFresh(s: State, step: Step)
    requires Fresh(s) && Next1(s, step).Some? && Alone(s.threads, step.thread)
    ensures Fresh(Next1(s, step).value)
  {
    var place := s.threads[step.thread];
    if place.Outside? {
      EnterIsFresh(s, step.thread, step.act);
    } else if EndsRecord(s.forms, place, step.act) {
      var filed := Filed(s, place, step.act);
      PutIsFresh(filed.(done := filed.done + [place.queue[0]]), step.thread, WithQueue(place.queue[1..]));
    } else {
      assert FreshPlace(place, s.forms);
      NextPlaceIsFresh(s.forms, place, step.act);
      PutIsFresh(s, step.thread, NextPlace(s.forms, place, step.act).value);
    }
  }

  lemma {:induction false} RunIsFresh(threads: nat, forms: seq<Bytes>, steps: seq<Step>)
    requires Run(Start(threads, forms), steps).Some? && OneAtATime(Start(threads, forms), steps)
    ensures Fresh(Run(Start(threads, forms), steps).value)
    decreases |steps|
  {
    if steps != [] {
      RunIsFresh(threads, forms, steps[..|steps| - 1]);
      StepIsFresh(Run(Start(threads, forms), steps[..|steps| - 1]).value, steps[|steps| - 1]);
    }
  }

  lemma WriteIsClean(s: State, step: Step)
    requires Checked(s) && Fresh(s) && Next1(s, step).Some?
    ensures var lines := Next1(s, step).value.lines;
            s.lines <= lines && forall i | |s.lines| <= i < |lines| :: !AppearsIgnoringCase(s.forms, lines[i].text)
  {
    var place := s.threads[step.thread];
    assert PlaceClean(place) && FreshPlace(place, s.forms);
  }

  /** With one thread at a time in the log, a line carries no form registered when it is written. */
  lemma LinesAreCleanWhenWritten(threads: nat, forms: seq<Bytes>, steps: seq<Step>, step: Step)
    requires Run(Start(threads, forms), steps).Some? && OneAtATime(Start(threads, forms), steps)
    requires Next1(Run(Start(threads, forms), steps).value, step).Some?
    ensures var s := Run(Start(threads, forms), steps).value;
            var lines := Next1(s, step).value.lines;
            s.lines <= lines && forall i | |s.lines| <= i < |lines| :: !AppearsIgnoringCase(s.forms, lines[i].text)
  {
    RunIsFresh(threads, forms, steps);
    RunChecks(Start(threads, forms), steps);
    WriteIsClean(Run(Start(threads, forms), steps).value, step);
  }

  // ---------------------------------------------------------------- two threads

  lemma OneMore(start: State, steps: seq<Step>, step: Step) returns (more: seq<Step>)
    ensures more == steps + [step]
    ensures Run(start, more) == match Run(start, steps) case None => None case Some(s) => Next1(s, step)
  {
    more := steps + [step];
    assert more[..|more| - 1] == steps;
  }

  const FIRST := Finished(Entry(true, [49], [], []), [], Failed)
  const SECOND := Finished(Entry(true, [50], [], []), [], Failed)

  /** Two threads, the first with a record in hand and the second still outside. */
  function Racing(first: Place, second: Place, finished: seq<Finished>, lines: seq<Line>, done: seq<Handed>): State {
    State(Holds(0, false, []), [], true, lines, [first, second], finished, done)
  }

  lemma NothingAppears(text: Bytes)
    ensures !AppearsIgnoringCase([], text)
  {
  }

  /** With no form registered, a thread's line passes its checks. */
  lemma Passes(start: State, steps: seq<Step>, s: State, thread: nat, text: Bytes)
      returns (more: seq<Step>, now: State)
    requires Run(start, steps) == Some(s) && s.forms == []
    requires thread < |s.threads| && s.threads[thread].Writing? && s.threads[thread].queue != []
    ensures now == Put(s, thread, Passed(text, [], s.threads[thread].queue)) && Run(start, more) == Some(now)
  {
    var queue := s.threads[thread].queue;
    NothingAppears(text);
    NothingAppears(queue[0].record.entry.url);
    more := OneMore(start, steps, Step(thread, Build(text)));
    now := Put(s, thread, Built(text, queue));
    assert Run(start, more) == Some(now);
    PutTwice(s, thread, Built(text, queue), LineChecked(text, [], queue));
    more := OneMore(start, more, Step(thread, CheckLine));
    now := Put(s, thread, LineChecked(text, [], queue));
    assert Run(start, more) == Some(now);
    PutTwice(s, thread, LineChecked(text, [], queue), Passed(text, [], queue));
    more := OneMore(start, more, Step(thread, CheckUrl));
    now := Put(s, thread, Passed(text, [], queue));
    assert Run(start, more) == Some(now);
  }

  lemma PutTwice(s: State, thread: nat, first: Place, second: Place)
    requires thread < |s.threads|
    ensures Put(Put(s, thread, first), thread, second) == Put(s, thread, second)
  {
    assert s.threads[thread := first][thread := second] == s.threads[thread := second];
  }

  lemma FirstInHand() returns (steps: seq<Step>, s: State)
    ensures s == Racing(Writing([Handed(FIRST, false)]), Outside, [FIRST], [], [])
    ensures Run(Start(2, []), steps) == Some(s)
  {
    steps, s := [], Start(2, []);
    assert s == Racing(Outside, Outside, [], [], []);
    var next := Racing(Writing([Handed(FIRST, false)]), Outside, [FIRST], [], []);
    assert s.threads[0 := Writing([Handed(FIRST, false)])] == next.threads && s.finished + [FIRST] == [FIRST];
    steps := OneMore(Start(2, []), steps, Step(0, Finish(FIRST)));
    s := next;
    assert Run(Start(2, []), steps) == Some(s);
  }

  lemma SecondInHand() returns (steps: seq<Step>, s: State)
    ensures s == Racing(Writing([Handed(FIRST, false)]), Writing([Handed(SECOND, false)]), [FIRST, SECOND], [], [])
    ensures Run(Start(2, []), steps) == Some(s)
  {
    steps, s := FirstInHand();
    var next := Racing(Writing([Handed(FIRST, false)]), Writing([Handed(SECOND, false)]), [FIRST, SECOND], [], []);
    assert s.threads[1 := Writing([Handed(SECOND, false)])] == next.threads;
    assert s.finished + [SECOND] == [FIRST, SECOND];
    steps := OneMore(Start(2, []), steps, Step(1, Finish(SECOND)));
    s := next;
    assert Run(Start(2, []), steps) == Some(s);
  }

  /** Two threads that are both in the log can write in another order: the record that finished
      later is dealt with while the earlier one is still in hand. */
  lemma FinishOrderCanFail() returns (steps: seq<Step>, s: State)
    ensures Run(Start(2, []), steps) == Some(s)
    ensures OfKind(s.finished, true) == [FIRST, SECOND] && Given(s.done, true) == [SECOND]
  {
    steps, s := SecondInHand();
    var first, queue, text := Writing([Handed(FIRST, false)]), [Handed(SECOND, false)], FullLine(SECOND, []);
    var finished := [FIRST, SECOND];
    assert s.threads[1 := Passed(text, [], queue)] == [first, Passed(text, [], queue)];
    steps, s := Passes(Start(2, []), steps, s, 1, text);
    assert s.threads[1 := Outside] == [first, Outside] && queue[1..] == [];
    assert s.lines + [Line(text, [])] == [Line(text, [])] && s.done + [queue[0]] == queue;
    steps := OneMore(Start(2, []), steps, Step(1, Write(true)));
    s := Racing(first, Outside, finished, [Line(text, [])], queue);
    assert Run(Start(2, []), steps) == Some(s);
    BothFinished();
  }

  lemma BothFinished()
    ensures OfKind([FIRST, SECOND], true) == [FIRST, SECOND] && Given([Handed(SECOND, false)], true) == [SECOND]
  {
    GivenMore([], Handed(SECOND, false), true);
    assert [] + [Handed(SECOND, false)] == [Handed(SECOND, false)];
    OfKindMore([FIRST], SECOND, true);
    OfKindMore([], FIRST, true);
    assert [] + [FIRST] == [FIRST] && [FIRST] + [SECOND] == [FIRST, SECOND];
  }

  /** The first byte of the first record's line. */
  const SECRET: Bytes := [49]

  lemma FirstPassed() returns (steps: seq<Step>, s: State)
    ensures s == Racing(Passed(FullLine(FIRST, []), [], [Handed(FIRST, false)]), Outside, [FIRST], [], [])
    ensures Run(Start(2, []), steps) == Some(s)
  {
    steps, s := FirstInHand();
    var place := Passed(FullLine(FIRST, []), [], [Handed(FIRST, false)]);
    assert s.threads[0 := place] == [place, Outside];
    steps, s := Passes(Start(2, []), steps, s, 0, FullLine(FIRST, []));
  }

  /** And a form that one thread registers between another's check and its write is written. */
  lemma CheckedLineCanCarryAForm() returns (steps: seq<Step>, s: State)
    ensures Run(Start(2, []), steps) == Some(s)
    ensures |s.lines| == 1 && AppearsIgnoringCase(s.forms, s.lines[0].text)
  {
    steps, s := FirstPassed();
    var queue, text := [Handed(FIRST, false)], FullLine(FIRST, []);
    var registered := s.(forms := [SECRET]);
    assert Inserted([], SECRET) == [SECRET];
    steps := OneMore(Start(2, []), steps, Step(1, Act.Register(SECRET)));
    s := registered;
    assert Run(Start(2, []), steps) == Some(s);
    var next := registered.(lines := [Line(text, [])], threads := [Outside, Outside], done := queue);
    assert s.threads[0 := Outside] == next.threads && queue[1..] == [];
    assert s.lines + [Line(text, [])] == next.lines && s.done + [queue[0]] == queue;
    steps := OneMore(Start(2, []), steps, Step(0, Write(true)));
    s := next;
    assert Run(Start(2, []), steps) == Some(s);
    assert text[0] == 49;
    assert OccursIgnoringCaseAt(text, s.forms[0], 0);
  }

  // ---------------------------------------------------------------- one record alone

  /** The line that a record's event has due, filed while the log is open. */
  function Recorded(s: State, h: Handed): seq<Line> {
    var line := LineOf(h, s.forms);
    if line.Some? && s.open then [Line(line.value, s.forms)] else []
  }

  /** A state with the record in hand dealt with, and its line filed. */
  function Dealt(s: State, thread: nat, queue: seq<Handed>, filed: seq<Line>): State
    requires thread < |s.threads| && queue != []
  {
    NextRecord(s.(lines := s.lines + filed), thread, queue)
  }

  lemma DealtAfterPut(s: State, thread: nat, place: Place, queue: seq<Handed>, filed: seq<Line>)
    requires thread < |s.threads| && queue != []
    ensures Dealt(Put(s, thread, place), thread, queue, filed) == Dealt(s, thread, queue, filed)
  {
    assert s.threads[thread := place][thread := WithQueue(queue[1..])] == s.threads[thread := WithQueue(queue[1..])];
  }

  /** A line that passed its checks is written. */
  lemma WriteAlone(start: State, steps: seq<Step>, s: State, thread: nat, line: Bytes, queue: seq<Handed>)
      returns (more: seq<Step>)
    requires Run(start, steps) == Some(s) && thread < |s.threads| && queue != []
    requires s.threads[thread] == Passed(line, s.forms, queue)
    ensures Run(start, more) == Some(Dealt(s, thread, queue, if s.open then [Line(line, s.forms)] else []))
  {
    more := OneMore(start, steps, Step(thread, Write(true)));
    assert s.lines + [] == s.lines;
  }

  /** The fallback, alone. */
  lemma FallsAlone(start: State, steps: seq<Step>, s: State, thread: nat, queue: seq<Handed>)
      returns (more: seq<Step>)
    requires Run(start, steps) == Some(s) && thread < |s.threads| && queue != []
    requires s.threads[thread] == Falling(queue)
    ensures var fallback := FallbackLine(queue[0].record);
            var clear := !AppearsIgnoringCase(s.forms, fallback);
            Run(start, more) == Some(Dealt(s, thread, queue, if clear && s.open then [Line(fallback, s.forms)] else []))
  {
    var fallback := FallbackLine(queue[0].record);
    more := OneMore(start, steps, Step(thread, CheckFallback));
    if AppearsIgnoringCase(s.forms, fallback) {
      assert s.lines + [] == s.lines;
    } else {
      var passed := Passed(fallback, s.forms, queue);
      more := WriteAlone(start, more, Put(s, thread, passed), thread, fallback, queue);
      DealtAfterPut(s, thread, passed, queue, if s.open then [Line(fallback, s.forms)] else []);
    }
  }

  lemma BuildAlone(s: State, thread: nat, queue: seq<Handed>, full: Bytes)
    requires thread < |s.threads| && queue != [] && s.threads[thread] == Writing(queue)
    ensures Next1(s, Step(thread, Build(full))) == Some(Put(s, thread, Built(full, queue)))
  {
  }

  lemma LineAlone(s: State, thread: nat, queue: seq<Handed>, full: Bytes)
    requires thread < |s.threads| && queue != []
    ensures Next1(Put(s, thread, Built(full, queue)), Step(thread, CheckLine)) ==
            Some(Put(s, thread, if AppearsIgnoringCase(s.forms, full) then Falling(queue)
                                else LineChecked(full, s.forms, queue)))
  {
    PutTwice(s, thread, Built(full, queue), Falling(queue));
    PutTwice(s, thread, Built(full, queue), LineChecked(full, s.forms, queue));
  }

  lemma UrlAlone(s: State, thread: nat, queue: seq<Handed>, full: Bytes)
    requires thread < |s.threads| && queue != []
    ensures Next1(Put(s, thread, LineChecked(full, s.forms, queue)), Step(thread, CheckUrl)) ==
            Some(Put(s, thread, if AppearsIgnoringCase(s.forms, queue[0].record.entry.url) then Falling(queue)
                                else Passed(full, s.forms, queue)))
  {
    PutTwice(s, thread, LineChecked(full, s.forms, queue), Falling(queue));
    PutTwice(s, thread, LineChecked(full, s.forms, queue), Passed(full, s.forms, queue));
  }

  /** The whole line, alone: it passes, or falls back. */
  lemma ChecksAlone(start: State, steps: seq<Step>, s: State, thread: nat, queue: seq<Handed>)
      returns (more: seq<Step>)
    requires Run(start, steps) == Some(s) && thread < |s.threads| && queue != []
    requires s.threads[thread] == Writing(queue)
    ensures var full := FullLine(queue[0].record, s.forms);
            var carried := AppearsIgnoringCase(s.forms, full)
                           || AppearsIgnoringCase(s.forms, queue[0].record.entry.url);
            Run(start, more) == Some(Put(s, thread, if carried then Falling(queue) else Passed(full, s.forms, queue)))
  {
    var full := FullLine(queue[0].record, s.forms);
    BuildAlone(s, thread, queue, full);
    LineAlone(s, thread, queue, full);
    UrlAlone(s, thread, queue, full);
    more := OneMore(start, steps, Step(thread, Build(full)));
    more := OneMore(start, more, Step(thread, CheckLine));
    if !AppearsIgnoringCase(s.forms, full) {
      more := OneMore(start, more, Step(thread, CheckUrl));
    }
  }

  /** A thread whose steps nothing comes between files for a record just the line that the
      record's event has due. */
  lemma RecordAlone(s: State, thread: nat, queue: seq<Handed>) returns (steps: seq<Step>)
    requires thread < |s.threads| && queue != [] && s.threads[thread] == WithQueue(queue)
    ensures Run(s, steps) == Some(Dealt(s, thread, queue, Recorded(s, queue[0])))
  {
    var h := queue[0];
    steps := [];
    if h.withhold {
      steps := FallsAlone(s, steps, s, thread, queue);
    } else {
      steps := ChecksAlone(s, steps, s, thread, queue);
      var full := FullLine(h.record, s.forms);
      if AppearsIgnoringCase(s.forms, full) || AppearsIgnoringCase(s.forms, h.record.entry.url) {
        var falling := Put(s, thread, Falling(queue));
        steps := FallsAlone(s, steps, falling, thread, queue);
        DealtAfterPut(s, thread, Falling(queue), queue, Recorded(s, h));
      } else {
        var passed := Passed(full, s.forms, queue);
        steps := WriteAlone(s, steps, Put(s, thread, passed), thread, full, queue);
        DealtAfterPut(s, thread, passed, queue, Recorded(s, h));
      }
    }
  }

  /** What a thread with a record in hand can do, one thing at each place. */
  lemma StepsInTurn(s: State, thread: nat, act: Act)
    requires thread < |s.threads| && !s.threads[thread].Outside? && s.threads[thread].queue != []
    ensures var place := s.threads[thread];
            Next1(s, Step(thread, act)).Some? <==>
            || (place.Writing? && act.Build?)
            || (place.Built? && act.CheckLine?)
            || (place.LineChecked? && act.CheckUrl?)
            || (place.Falling? && act.CheckFallback?)
            || (place.Passed? && act.Write?)
  {
  }

  /** A failing write files nothing and closes the log, and a closed log files nothing more. */
  lemma FailedWriteCloses(s: State, thread: nat, line: Bytes, known: seq<Bytes>, queue: seq<Handed>, works: bool)
    requires thread < |s.threads| && queue != [] && s.threads[thread] == Passed(line, known, queue)
    requires !works || !s.open
    ensures Next1(s, Step(thread, Write(works))) == Some(NextRecord(s.(open := false), thread, queue))
  {
    assert !s.open || !works;
  }
}
