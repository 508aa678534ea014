/**
 * The signal protocol: the command thread and the signal thread share five sequentially
 * consistent atomics and no lock. A state is the atomics with each thread's position; an
 * action is one load, store, swap, compare-exchange or outside effect of one thread, so the
 * action sequences are the interleavings.
 */
module Signals {
  import opened Wrappers
  import opened ByteStrings

  const EXIT_SIGINT := 130
  const EXIT_SIGTERM := 143

  datatype Phase = Normal | Prompt | Waiting | WaitingBody

  datatype Context = OutputIncomplete | NoConfigurationChanged | NothingChanged

  /** What the signal thread decides for one signal. */
  datatype Decision =
    | Cancel
    | Exit(code: int, context: Option<Context>)
    | CancelPrompt(code: int)
    | ForwardToChild(code: int)
    | KillChild

  /** How a commit ended, as `commit_data` reports it. */
  datatype CommitEnd = Written | Interrupted | Failed

  /** How the write itself went, before the report. */
  datatype WriteEnd = Whole | ClosedPipe | WriteError | SawSignal

  /** A commit that ended: its buffer, what of it was written, how the write went, what was
      reported, and the signal's code the report found (0 for none). */
  datatype Commit = Commit(buffer: Bytes, written: Bytes, went: WriteEnd, end: CommitEnd, code: int)

  /** Where the command thread is. */
  datatype Command =
    | Idle
    | Raised                                            // `writing` is set, the code not read yet
    | Writing(buffer: Bytes, written: Bytes)
    | Closing(buffer: Bytes, written: Bytes, went: WriteEnd) // the guard has still to drop
    | Reporting(buffer: Bytes, written: Bytes, went: WriteEnd)
    | Ready                                             // no code was there; a child is spawned
    | Attaching(pgid: int)                              // `forwarded` is cleared
    | Attached                                          // `child` is stored, the code not read yet
    | Forwarding(code: int)
    | Swapping(code: int, pgid: int)
    | Sending(code: int, pgid: int)

  /** Where the signal thread is. */
  datatype Watcher =
    | Listening
    | First(code: int)                                  // the code is recorded
    | Later(first: int)                                 // an earlier code was there
    | CheckWriting(code: int)
    | CheckPhase(code: int)
    | Relay(code: int)                                  // forward_once, before its load
    | RelaySwap(code: int, pgid: int)
    | RelaySend(code: int, pgid: int)
    | Kill
    | Exiting(code: int)
    | Ended

  datatype Send = Send(pgid: int, code: int)

  datatype State = State(
    code: int, writing: bool, phase: Phase, child: int, forwarded: bool,
    command: Command, watcher: Watcher,
    buffer: Bytes, stdout: Bytes, commits: seq<Commit>,
    decisions: seq<Decision>, sends: seq<Send>, attached: seq<int>)

  const INITIAL := State(0, false, Normal, 0, false, Idle, Listening, [], [], [], [], [], [])

  datatype Action =
    // the command thread
    | Data(bytes: Bytes) | Discard
    | BeginWrite | ReadCode | WriteSome(n: nat) | EndWrite(went: WriteEnd) | DropGuard | Report
    | Enter(to: Phase) | Leave
    | ReadPending | SpawnFails | ClearForwarded(pgid: int) | StoreChild
    | ReadCodeOnce | LoadChild | SwapForwarded | SendSignal | Detach
    // the signal thread
    | Arrive(signal: int) | ReadChild | ReadWriting | ReadPhase
    | RelayLoad | RelayDoSwap | RelayDoSend | KillGroup | EndProcess

  // ---------------------------------------------------------------- one action

  /** The command thread's actions, when it is where the action happens. */
  function CommandStep(s: State, a: Action): Option<State> {
    var c := s.command;
    match a
    case Data(bytes) => if c.Idle? then Some(s.(buffer := s.buffer + bytes)) else None
    case Discard => if c.Idle? then Some(s.(buffer := [])) else None
    case BeginWrite =>
      // An empty buffer commits nothing.
      if c.Idle? && s.buffer != [] then Some(s.(writing := true, command := Raised)) else None
    case ReadCode =>
      if !c.Raised? then None
      else if s.code != 0 then Some(s.(command := Closing(s.buffer, [], SawSignal), buffer := []))
      else Some(s.(command := Writing(s.buffer, []), buffer := []))
    case WriteSome(n) =>
      if c.Writing? && |c.written| < n <= |c.buffer| then
        Some(s.(command := Writing(c.buffer, c.buffer[..n]), stdout := s.stdout + c.buffer[|c.written|..n]))
      else None
    case EndWrite(went) =>
      if !c.Writing? || went.SawSignal? || (went.Whole? && c.written != c.buffer) then None
      else Some(s.(command := Closing(c.buffer, c.written, went)))
    case DropGuard =>
      if c.Closing? then Some(s.(writing := false, command := Reporting(c.buffer, c.written, c.went))) else None
    case Report =>
      if !c.Reporting? then None
      else
        var end := if c.went.Whole? || c.went.ClosedPipe? then Written else if s.code != 0 then Interrupted else Failed;
        Some(s.(command := Idle, commits := s.commits + [Commit(c.buffer, c.written, c.went, end, s.code)]))
    case Enter(to) => if c.Idle? then Some(s.(phase := to)) else None
    case Leave => if c.Idle? then Some(s.(phase := Normal)) else None
    case ReadPending =>
      // A child is started only where no signal is pending.
      if c.Idle? && s.child == 0 then Some(s.(command := if s.code == 0 then Ready else Idle)) else None
    case SpawnFails => if c.Ready? then Some(s.(command := Idle)) else None
    case ClearForwarded(pgid) =>
      if c.Ready? then Some(s.(forwarded := false, command := Attaching(pgid))) else None
    case StoreChild =>
      if c.Attaching? then Some(s.(child := c.pgid, command := Attached, attached := s.attached + [c.pgid])) else None
    case ReadCodeOnce =>
      if c.Attached? then Some(s.(command := if s.code == 0 then Idle else Forwarding(s.code))) else None
    case LoadChild =>
      if c.Forwarding? then Some(s.(command := if s.child == 0 then Idle else Swapping(c.code, s.child))) else None
    case SwapForwarded =>
      if c.Swapping? then Some(s.(forwarded := true, command := if s.forwarded then Idle else Sending(c.code, c.pgid)))
      else None
    case SendSignal => if c.Sending? then Some(s.(command := Idle, sends := s.sends + [Send(c.pgid, c.code)])) else None
    case Detach => if c.Idle? then Some(s.(child := 0)) else None
    case _ => None
  }

  function Decide(s: State, d: Decision, watcher: Watcher): Option<State> {
    Some(s.(decisions := s.decisions + [d], watcher := watcher))
  }

  /** The signal thread's actions: `on_signal`, then `act`. */
  function WatcherStep(s: State, a: Action): Option<State> {
    var w := s.watcher;
    match a
    case Arrive(signal) =>
      if !w.Listening? || (signal != EXIT_SIGINT && signal != EXIT_SIGTERM) then None
      else if s.code == 0 then Some(s.(code := signal, watcher := First(signal)))
      else Some(s.(watcher := Later(s.code)))
    case ReadChild =>
      if w.First? then
        if s.child != 0 then Decide(s, ForwardToChild(w.code), Relay(w.code))
        else Some(s.(watcher := CheckWriting(w.code)))
      else if w.Later? then
        if s.child != 0 then Decide(s, KillChild, Kill) else Decide(s, Exit(w.first, None), Exiting(w.first))
      else None
    case ReadWriting =>
      if !w.CheckWriting? then None
      else if s.writing then Decide(s, Exit(w.code, Some(OutputIncomplete)), Exiting(w.code))
      else Some(s.(watcher := CheckPhase(w.code)))
    case ReadPhase =>
      if !w.CheckPhase? then None
      else
        (match s.phase
         case Prompt => Decide(s, CancelPrompt(w.code), Exiting(w.code))
         case Waiting => Decide(s, Exit(w.code, Some(NoConfigurationChanged)), Exiting(w.code))
         case WaitingBody => Decide(s, Exit(w.code, Some(NothingChanged)), Exiting(w.code))
         case Normal => Decide(s, Cancel, Listening))
    case RelayLoad =>
      if w.Relay? then Some(s.(watcher := if s.child == 0 then Listening else RelaySwap(w.code, s.child))) else None
    case RelayDoSwap =>
      if !w.RelaySwap? then None
      else Some(s.(forwarded := true, watcher := if s.forwarded then Listening else RelaySend(w.code, w.pgid)))
    case RelayDoSend =>
      if w.RelaySend? then Some(s.(watcher := Listening, sends := s.sends + [Send(w.pgid, w.code)])) else None
    case KillGroup => if w.Kill? then Some(s.(watcher := Listening)) else None
    case EndProcess => if w.Exiting? then Some(s.(watcher := Ended)) else None
    case _ => None
  }

  predicate OfWatcher(a: Action) {
    || a.Arrive? || a.ReadChild? || a.ReadWriting? || a.ReadPhase?
    || a.RelayLoad? || a.RelayDoSwap? || a.RelayDoSend? || a.KillGroup? || a.EndProcess?
  }

  /** One action, when its thread is at it and the process still runs. */
  function Step(s: State, a: Action): Option<State> {
    if s.watcher.Ended? then None
    else if OfWatcher(a) then WatcherStep(s, a)
    else CommandStep(s, a)
  }

  /** An interleaving, when every action of it can happen in turn. */
  function Run(s: State, actions: seq<Action>): Option<State>
    decreases |actions|
  {
    if actions == [] then Some(s)
    else
      match Step(s, actions[0])
      case None => None
      case Some(next) => Run(next, actions[1..])
  }

  /** What holds at the start and is kept by every action holds after every interleaving. */
  lemma {:induction false} RunSplits(s: State, first: seq<Action>, more: seq<Action>)
    ensures Run(s, first + more) ==
            match Run(s, first) case None => None case Some(middle) => Run(middle, more)
    decreases |first|
  {
    if first == [] {
      assert first + more == more;
    } else {
      assert (first + more)[1..] == first[1..] + more;
      if Step(s, first[0]).Some? {
        RunSplits(Step(s, first[0]).value, first[1..], more);
      }
    }
  }

  // ---------------------------------------------------------------- writing and the first signal

  predicate WritingFlag(command: Command) {
    command.Raised? || command.Writing? || command.Closing?
  }

  predicate CommitSound(c: Commit) {
    && c.written <= c.buffer
    && (c.went.Whole? ==> c.written == c.buffer)
    && (c.end.Written? <==> c.went.Whole? || c.went.ClosedPipe?)
    && (c.end.Interrupted? <==> !c.end.Written? && c.code != 0)
    && (c.went.SawSignal? ==> c.written == [] && c.end.Interrupted?)
  }

  predicate CommandSound(s: State) {
    match s.command
    case Writing(buffer, written) => written <= buffer
    case Closing(buffer, written, went) => EndSound(s, buffer, written, went)
    case Reporting(buffer, written, went) => EndSound(s, buffer, written, went)
    case _ => true
  }

  predicate EndSound(s: State, buffer: Bytes, written: Bytes, went: WriteEnd) {
    && written <= buffer
    && (went.Whole? ==> written == buffer)
    && (went.SawSignal? ==> written == [] && s.code != 0)
  }

  /** The code a decision ends the process or signals the child with. */
  predicate DecisionSound(d: Decision, code: int) {
    match d
    case Exit(c, _) => c == code
    case CancelPrompt(c) => c == code
    case ForwardToChild(c) => c == code
    case _ => true
  }

  predicate WatcherSound(s: State) {
    match s.watcher
    case First(code) => code == s.code
    case CheckWriting(code) => code == s.code
    case CheckPhase(code) => code == s.code
    case Later(first) => first == s.code
    case Relay(code) => code == s.code
    case RelaySwap(code, _) => code == s.code
    case RelaySend(code, _) => code == s.code
    case Exiting(code) => code == s.code
    case _ => true
  }

  function BytesOf(commits: seq<Commit>): Bytes {
    if commits == [] then [] else BytesOf(commits[..|commits| - 1]) + commits[|commits| - 1].written
  }

  /** The bytes of the commit going on. */
  function Current(command: Command): Bytes {
    if command.Writing? || command.Closing? || command.Reporting? then command.written else []
  }

  /** The positions agree with the atomics. */
  predicate Control(s: State) {
    && (s.writing <==> WritingFlag(s.command))
    && (s.watcher.CheckPhase? ==> !s.command.Writing?)
    && (s.code == 0 ==> s.watcher.Listening?)
    && (s.code == 0 || s.code == EXIT_SIGINT || s.code == EXIT_SIGTERM)
    && CommandSound(s)
    && WatcherSound(s)
  }

  /** What was decided so far. */
  ghost predicate Decided(s: State) {
    && (s.code == 0 ==> s.decisions == [])
    && (Cancel in s.decisions ==> !s.command.Writing?)
    && (forall d | d in s.decisions :: DecisionSound(d, s.code))
    && (s.watcher.First? || s.watcher.CheckWriting? || s.watcher.CheckPhase? ==> s.decisions == [])
  }

  /** What was written so far. */
  ghost predicate Committed(s: State) {
    && (forall c | c in s.commits :: CommitSound(c) && (c.code == 0 || c.code == s.code))
    && s.stdout == BytesOf(s.commits) + Current(s.command)
  }

  ghost predicate Invariant(s: State) {
    Control(s) && Decided(s) && Committed(s)
  }

  lemma CommandControl(s: State, a: Action)
    requires Control(s) && CommandStep(s, a).Some?
    ensures Control(CommandStep(s, a).value)
  {
  }

  /** The command thread never touches the code or the signal thread, and starts no write once
      a signal is recorded. */
  lemma CommandFrame(s: State, a: Action)
    requires CommandStep(s, a).Some?
    ensures var next := CommandStep(s, a).value;
            && next.code == s.code && next.watcher == s.watcher && next.decisions == s.decisions
            && (s.code != 0 && !s.command.Writing? ==> !next.command.Writing? && next.stdout == s.stdout)
  {
  }

  /** Only a write, its end and the report touch what was written. */
  lemma CommandKeepsOutput(s: State, a: Action)
    requires Control(s) && CommandStep(s, a).Some? && !a.WriteSome? && !a.Report?
    ensures var next := CommandStep(s, a).value;
            next.commits == s.commits && next.stdout == s.stdout && Current(next.command) == Current(s.command)
  {
  }

  lemma CommandWrites(s: State, a: Action)
    requires Control(s) && Committed(s) && CommandStep(s, a).Some?
    ensures Committed(CommandStep(s, a).value)
  {
    if a.WriteSome? {
      WriteGrows(s, a.n);
    } else if a.Report? {
      ReportCommits(s);
    } else {
      CommandKeepsOutput(s, a);
    }
  }

  lemma WriteGrows(s: State, n: nat)
    requires Control(s) && Committed(s) && CommandStep(s, WriteSome(n)).Some?
    ensures Committed(CommandStep(s, WriteSome(n)).value)
  {
    var buffer, written := s.command.buffer, s.command.written;
    assert buffer[..n] == written + buffer[|written|..n];
    Associative(BytesOf(s.commits), written, buffer[|written|..n]);
  }

  lemma ReportCommits(s: State)
    requires Control(s) && Committed(s) && CommandStep(s, Report).Some?
    ensures Committed(CommandStep(s, Report).value)
  {
    var next := CommandStep(s, Report).value;
    var last := next.commits[|next.commits| - 1];
    assert next.commits == s.commits + [last] && next.commits[..|next.commits| - 1] == s.commits;
    ReportIsSound(s);
    forall c | c in next.commits
      ensures CommitSound(c) && (c.code == 0 || c.code == s.code)
    {
      assert c in s.commits || c == last;
    }
  }

  lemma ReportIsSound(s: State)
    requires Control(s) && CommandStep(s, Report).Some?
    ensures var next := CommandStep(s, Report).value;
            next.commits != [] && CommitSound(next.commits[|next.commits| - 1])
  {
  }

  lemma WatcherControl(s: State, a: Action)
    requires Control(s) && WatcherStep(s, a).Some?
    ensures Control(WatcherStep(s, a).value)
  {
  }

  /** The signal thread never touches the command thread, and keeps a recorded code. */
  lemma WatcherFrame(s: State, a: Action)
    requires WatcherStep(s, a).Some?
    ensures var next := WatcherStep(s, a).value;
            && next.command == s.command && next.commits == s.commits && next.stdout == s.stdout
            && next.writing == s.writing && next.attached == s.attached && next.child == s.child
            && (s.code != 0 ==> next.code == s.code)
  {
  }

  /** The actions that can decide. */
  predicate OfDecision(a: Action) {
    a.ReadChild? || a.ReadWriting? || a.ReadPhase?
  }

  /** A decision more, sound for the code, that cancels no write going on. */
  lemma OneMoreDecision(s: State, d: Decision, next: State)
    requires Decided(s) && s.code != 0 && DecisionSound(d, s.code) && (d.Cancel? ==> !s.command.Writing?)
    requires next.code == s.code && next.command == s.command && next.decisions == s.decisions + [d]
    requires !(next.watcher.First? || next.watcher.CheckWriting? || next.watcher.CheckPhase?)
    ensures Decided(next)
  {
    assert forall e | e in next.decisions :: e in s.decisions || e == d;
  }

  lemma DecisionDecides(s: State, a: Action)
    requires Control(s) && Decided(s) && OfDecision(a) && WatcherStep(s, a).Some?
    ensures Decided(WatcherStep(s, a).value)
  {
    var next := WatcherStep(s, a).value;
    if next.decisions != s.decisions {
      OneMoreDecision(s, next.decisions[|s.decisions|], next);
    }
  }

  lemma WatcherDecides(s: State, a: Action)
    requires Control(s) && Decided(s) && WatcherStep(s, a).Some?
    ensures Decided(WatcherStep(s, a).value)
  {
    if OfDecision(a) {
      DecisionDecides(s, a);
    } else {
      assert WatcherStep(s, a).value.decisions == s.decisions;
    }
  }

  lemma StepKeeps(s: State, a: Action)
    requires Invariant(s) && Step(s, a).Some?
    ensures Invariant(Step(s, a).value)
  {
    if OfWatcher(a) {
      WatcherControl(s, a);
      WatcherFrame(s, a);
      WatcherDecides(s, a);
    } else {
      CommandControl(s, a);
      CommandFrame(s, a);
      CommandWrites(s, a);
    }
  }

  lemma {:induction false} RunKeeps(s: State, actions: seq<Action>)
    requires Invariant(s) && Run(s, actions).Some?
    ensures Invariant(Run(s, actions).value)
    decreases |actions|
  {
    if actions != [] {
      StepKeeps(s, actions[0]);
      RunKeeps(Step(s, actions[0]).value, actions[1..]);
    }
  }

  lemma StepFrame(s: State, a: Action)
    requires Step(s, a).Some? && s.code != 0
    ensures var next := Step(s, a).value;
            next.code == s.code && (!s.command.Writing? ==> !next.command.Writing? && next.stdout == s.stdout)
  {
    if OfWatcher(a) {
      WatcherFrame(s, a);
    } else {
      CommandFrame(s, a);
    }
  }

  /** With a signal recorded and no write going on, no byte is ever written again. */
  lemma {:induction false} SilenceStays(s: State, actions: seq<Action>)
    requires s.code != 0 && !s.command.Writing? && Run(s, actions).Some?
    ensures Run(s, actions).value.code == s.code
    ensures !Run(s, actions).value.command.Writing? && Run(s, actions).value.stdout == s.stdout
    decreases |actions|
  {
    if actions != [] {
      var next := Step(s, actions[0]).value;
      StepFrame(s, actions[0]);
      SilenceStays(next, actions[1..]);
    }
  }

  /**
   * In every interleaving, when the first signal was only cancelled no stdout write is going
   * on, and none follows however the run goes on.
   */
  lemma CancelMeansSilence(actions: seq<Action>, more: seq<Action>)
    requires Run(INITIAL, actions + more).Some?
    ensures Run(INITIAL, actions).Some?
    ensures var s := Run(INITIAL, actions).value;
            Cancel in s.decisions ==>
              !s.command.Writing? && Run(INITIAL, actions + more).value.stdout == s.stdout
  {
    RunSplits(INITIAL, actions, more);
    RunKeeps(INITIAL, actions);
    var s := Run(INITIAL, actions).value;
    if Cancel in s.decisions {
      SilenceStays(s, more);
    }
  }

  /** A write going on when the first signal looks ends the process as an incomplete output. */
  lemma WriteInProgressExits(actions: seq<Action>)
    requires Run(INITIAL, actions).Some? && Run(INITIAL, actions).value.watcher.CheckWriting?
    requires Run(INITIAL, actions).value.command.Writing?
    ensures var s := Run(INITIAL, actions).value;
            Step(s, ReadWriting).Some? && Step(s, ReadWriting).value.decisions == [Exit(s.code, Some(OutputIncomplete))]
  {
    RunKeeps(INITIAL, actions);
  }

  /** Every commit wrote a prefix of its buffer: the whole of it when it succeeded without a
      closed pipe, nothing when it saw the signal; stdout holds just those bytes, in order. */
  lemma CommitsAreSound(actions: seq<Action>)
    requires Run(INITIAL, actions).Some?
    ensures var s := Run(INITIAL, actions).value;
            && (forall c | c in s.commits :: CommitSound(c) && (c.code == 0 || c.code == s.code))
            && (s.command.Idle? ==> s.stdout == BytesOf(s.commits))
  {
    RunKeeps(INITIAL, actions);
  }

  /** The first signal's code is kept: every exit and every forward carries it. */
  lemma {:induction false} FirstCodeIsKept(s: State, actions: seq<Action>)
    requires s.code != 0 && Run(s, actions).Some?
    ensures Run(s, actions).value.code == s.code
    decreases |actions|
  {
    if actions != [] {
      StepFrame(s, actions[0]);
      FirstCodeIsKept(Step(s, actions[0]).value, actions[1..]);
    }
  }

  lemma EveryDecisionHasTheFirstCode(actions: seq<Action>, more: seq<Action>)
    requires Run(INITIAL, actions + more).Some?
    requires Run(INITIAL, actions).Some? && Run(INITIAL, actions).value.code != 0
    ensures var first := Run(INITIAL, actions).value.code;
            forall d | d in Run(INITIAL, actions + more).value.decisions :: DecisionSound(d, first)
  {
    RunSplits(INITIAL, actions, more);
    RunKeeps(INITIAL, actions);
    FirstCodeIsKept(Run(INITIAL, actions).value, more);
    RunKeeps(INITIAL, actions + more);
  }

  // ---------------------------------------------------------------- what a signal decides

  /** What becomes of a first signal that finds neither a child nor a write. */
  function InPhase(phase: Phase, signal: int): Decision {
    if phase == Prompt then CancelPrompt(signal)
    else if phase == Waiting then Exit(signal, Some(NoConfigurationChanged))
    else if phase == WaitingBody then Exit(signal, Some(NothingChanged))
    else Cancel
  }

  /** A first signal goes to a child that runs. */
  lemma FirstSignalForwards(s: State, signal: int)
    requires s.watcher.Listening? && s.code == 0 && (signal == 130 || signal == 143)
    requires s.child != 0
    ensures Run(s, [Arrive(signal), ReadChild])
            == Some(s.(code := signal, watcher := Relay(signal), decisions := s.decisions + [ForwardToChild(signal)]))
  {
    var arrived := s.(code := signal, watcher := First(signal));
    TwoSteps(s, Arrive(signal), arrived, ReadChild);
  }

  /** Without one, where a write is going on, it ends the process with an incomplete output. */
  lemma FirstSignalStopsWrite(s: State, signal: int)
    requires s.watcher.Listening? && s.code == 0 && (signal == 130 || signal == 143)
    requires s.child == 0 && s.writing
    ensures Run(s, [Arrive(signal), ReadChild] + [ReadWriting])
            == Some(s.(code := signal, watcher := Exiting(signal),
                       decisions := s.decisions + [Exit(signal, Some(OutputIncomplete))]))
  {
    NoChildFound(s, signal);
    RunSplits(s, [Arrive(signal), ReadChild], [ReadWriting]);
    ThenRuns(s.(code := signal, watcher := CheckWriting(signal)), ReadWriting, []);
  }

  /** With neither, the phase decides. */
  lemma FirstSignalByPhase(s: State, signal: int)
    requires s.watcher.Listening? && s.code == 0 && (signal == 130 || signal == 143)
    requires s.child == 0 && !s.writing
    ensures Run(s, [Arrive(signal), ReadChild] + [ReadWriting, ReadPhase])
            == Some(s.(code := signal, watcher := if s.phase == Normal then Listening else Exiting(signal),
                       decisions := s.decisions + [InPhase(s.phase, signal)]))
  {
    NoChildFound(s, signal);
    RunSplits(s, [Arrive(signal), ReadChild], [ReadWriting, ReadPhase]);
    var looking := s.(code := signal, watcher := CheckWriting(signal));
    TwoSteps(looking, ReadWriting, looking.(watcher := CheckPhase(signal)), ReadPhase);
  }

  lemma NoChildFound(s: State, signal: int)
    requires s.watcher.Listening? && s.code == 0 && (signal == 130 || signal == 143)
    requires s.child == 0
    ensures Run(s, [Arrive(signal), ReadChild]) == Some(s.(code := signal, watcher := CheckWriting(signal)))
  {
    TwoSteps(s, Arrive(signal), s.(code := signal, watcher := First(signal)), ReadChild);
  }

  /** A later signal kills a child, and without one ends the process with the first code. */
  lemma LaterSignalDecides(s: State, signal: int)
    requires s.watcher.Listening? && s.code != 0 && (signal == 130 || signal == 143)
    ensures Run(s, [Arrive(signal), ReadChild])
            == Some(if s.child != 0 then s.(watcher := Kill, decisions := s.decisions + [KillChild])
                    else s.(watcher := Exiting(s.code), decisions := s.decisions + [Exit(s.code, None)]))
  {
    TwoSteps(s, Arrive(signal), s.(watcher := Later(s.code)), ReadChild);
  }

  lemma TwoSteps(s: State, a: Action, middle: State, b: Action)
    requires Step(s, a) == Some(middle)
    ensures Run(s, [a, b]) == Step(middle, b)
  {
    assert [a, b] == [a] + [b];
    ThenRuns(s, a, [b]);
    ThenRuns(middle, b, []);
    assert [b] == [b] + [];
  }

  lemma ThenRuns(s: State, a: Action, more: seq<Action>)
    ensures Run(s, [a] + more) == match Step(s, a) case None => None case Some(next) => Run(next, more)
  {
    assert ([a] + more)[1..] == more;
  }

  // ---------------------------------------------------------------- what can happen

  /** What the command thread can begin, and only between its other actions. */
  lemma BeginsExactly(s: State, bytes: Bytes)
    requires !s.watcher.Ended?
    ensures Step(s, Data(bytes)).Some? <==> s.command.Idle?
    ensures Step(s, Discard).Some? <==> s.command.Idle?
    ensures Step(s, BeginWrite).Some? <==> s.command.Idle? && s.buffer != []
    ensures Step(s, ReadPending).Some? <==> s.command.Idle? && s.child == 0
  {
  }

  /** The stores that it makes at once. */
  lemma SetsAtOnce(s: State, to: Phase)
    requires !s.watcher.Ended?
    ensures Step(s, Enter(to)) == if s.command.Idle? then Some(s.(phase := to)) else None
    ensures Step(s, Leave) == if s.command.Idle? then Some(s.(phase := Normal)) else None
    ensures Step(s, Detach) == if s.command.Idle? then Some(s.(child := 0)) else None
  {
  }

  /** The signal thread's ends: the kill is sent and it listens again, or the process is over. */
  lemma WatcherEnds(s: State)
    ensures s.watcher.Kill? ==> Step(s, KillGroup) == Some(s.(watcher := Listening))
    ensures s.watcher.Exiting? ==> Step(s, EndProcess) == Some(s.(watcher := Ended))
  {
  }

  /** Nothing happens once the process has ended. */
  lemma NothingAfterTheEnd(s: State, a: Action)
    requires s.watcher.Ended?
    ensures Step(s, a) == None
  {
  }

  /** From an idle command thread without a signal a commit can go through to its end, and has
      then written the whole buffer. */
  lemma CommitGoesThrough(s: State) returns (actions: seq<Action>)
    requires s.command.Idle? && s.code == 0 && s.watcher.Listening? && s.buffer != []
    ensures Run(s, actions) == Some(s.(buffer := [], stdout := s.stdout + s.buffer, writing := false,
              commits := s.commits + [Commit(s.buffer, s.buffer, Whole, Written, 0)]))
  {
    var n := |s.buffer|;
    var raised := s.(writing := true, command := Raised);
    var begun := raised.(buffer := [], command := Writing(s.buffer, []));
    var written := begun.(command := Writing(s.buffer, s.buffer), stdout := s.stdout + s.buffer);
    assert s.buffer[..n] == s.buffer && s.buffer[0..n] == s.buffer;
    assert Step(begun, WriteSome(n)) == Some(written);
    actions := [BeginWrite, ReadCode] + [WriteSome(n)] + [EndWrite(Whole), DropGuard] + [Report];
    TwoSteps(s, BeginWrite, raised, ReadCode);
    RunSplits(s, [BeginWrite, ReadCode], [WriteSome(n)]);
    ThenRuns(begun, WriteSome(n), []);
    CommitCloses(written);
    RunSplits(s, [BeginWrite, ReadCode] + [WriteSome(n)], [EndWrite(Whole), DropGuard] + [Report]);
    assert actions == [BeginWrite, ReadCode] + [WriteSome(n)] + ([EndWrite(Whole), DropGuard] + [Report]);
  }

  lemma CommitCloses(s: State)
    requires s.command.Writing? && s.command.written == s.command.buffer && s.code == 0 && !s.watcher.Ended?
    ensures Run(s, [EndWrite(Whole), DropGuard] + [Report])
            == Some(s.(writing := false, command := Idle,
                       commits := s.commits + [Commit(s.command.buffer, s.command.buffer, Whole, Written, 0)]))
  {
    var buffer := s.command.buffer;
    var closing := s.(command := Closing(buffer, buffer, Whole));
    TwoSteps(s, EndWrite(Whole), closing, DropGuard);
    RunSplits(s, [EndWrite(Whole), DropGuard], [Report]);
    ThenRuns(closing.(writing := false, command := Reporting(buffer, buffer, Whole)), Report, []);
  }

  lemma SawCode(s: State)
    requires s.command.Idle? && s.code != 0 && !s.watcher.Ended? && s.buffer != []
    ensures Run(s, [BeginWrite, ReadCode])
            == Some(s.(writing := true, buffer := [], command := Closing(s.buffer, [], SawSignal)))
  {
    TwoSteps(s, BeginWrite, s.(writing := true, command := Raised), ReadCode);
  }

  /** With a code recorded a commit writes nothing and is an interruption. */
  lemma CommitIsInterrupted(s: State)
    requires s.command.Idle? && s.code != 0 && !s.watcher.Ended? && s.buffer != []
    ensures Run(s, [BeginWrite, ReadCode] + [DropGuard, Report])
            == Some(s.(buffer := [], writing := false,
                       commits := s.commits + [Commit(s.buffer, [], SawSignal, Interrupted, s.code)]))
  {
    SawCode(s);
    var closing := s.(writing := true, buffer := [], command := Closing(s.buffer, [], SawSignal));
    RunSplits(s, [BeginWrite, ReadCode], [DropGuard, Report]);
    TwoSteps(closing, DropGuard, closing.(writing := false, command := Reporting(s.buffer, [], SawSignal)), Report);
  }

  /** A child is attached where no code is recorded, and not begun where one is. */
  lemma ChildIsAttached(s: State, pgid: int)
    requires s.command.Idle? && s.child == 0 && !s.watcher.Ended?
    ensures s.code == 0 ==>
              Run(s, [ReadPending, ClearForwarded(pgid)] + [StoreChild, ReadCodeOnce])
              == Some(s.(child := pgid, forwarded := false, attached := s.attached + [pgid]))
    ensures s.code != 0 ==> Step(s, ReadPending) == Some(s)
  {
    if s.code == 0 {
      var ready := s.(command := Ready);
      var clear := s.(forwarded := false, command := Attaching(pgid));
      TwoSteps(s, ReadPending, ready, ClearForwarded(pgid));
      RunSplits(s, [ReadPending, ClearForwarded(pgid)], [StoreChild, ReadCodeOnce]);
      var stored := clear.(child := pgid, command := Attached, attached := s.attached + [pgid]);
      TwoSteps(clear, StoreChild, stored, ReadCodeOnce);
    }
  }

  /** A child that cannot be started leaves nothing behind. */
  lemma SpawnCanFail(s: State)
    requires s.command.Idle? && s.child == 0 && s.code == 0 && !s.watcher.Ended?
    ensures Run(s, [ReadPending, SpawnFails]) == Some(s)
  {
    TwoSteps(s, ReadPending, s.(command := Ready), SpawnFails);
  }

  // ---------------------------------------------------------------- what the commits write

  /** The data of a run since its last discard or commit. */
  function Collected(actions: seq<Action>): Bytes
    decreases |actions|
  {
    if actions == [] then []
    else
      var before := Collected(actions[..|actions| - 1]);
      match actions[|actions| - 1]
      case Data(bytes) => before + bytes
      case Discard => []
      case Report => []
      case _ => before
  }

  /** What each commit of a run has to write: the data since the last discard or commit. */
  function Due(actions: seq<Action>): seq<Bytes>
    decreases |actions|
  {
    if actions == [] then []
    else
      var before := actions[..|actions| - 1];
      Due(before) + if actions[|actions| - 1].Report? then [Collected(before)] else []
  }

  /** All data of a run in order, but for what a discard drops before its commit ends. */
  function Undiscarded(actions: seq<Action>, dropping: bool): Bytes
    decreases |actions|
  {
    if actions == [] then []
    else
      var before := actions[..|actions| - 1];
      match actions[|actions| - 1]
      case Data(bytes) => Undiscarded(before, dropping) + if dropping then [] else bytes
      case Discard => Undiscarded(before, true)
      case Report => Undiscarded(before, false)
      case _ => Undiscarded(before, dropping)
  }

  /** The buffer left to a commit. */
  predicate InCommit(command: Command) {
    command.Writing? || command.Closing? || command.Reporting?
  }

  ghost predicate Buffered(s: State, actions: seq<Action>) {
    && |s.commits| == |Due(actions)|
    && (forall k | 0 <= k < |s.commits| :: s.commits[k].buffer == Due(actions)[k])
    && (if InCommit(s.command) then s.buffer == [] && s.command.buffer == Collected(actions)
        else s.buffer == Collected(actions))
  }

  lemma WatcherKeepsBuffer(s: State, a: Action)
    requires WatcherStep(s, a).Some?
    ensures var next := WatcherStep(s, a).value;
            next.buffer == s.buffer && next.command == s.command && next.commits == s.commits
  {
  }

  lemma OneMoreAction(actions: seq<Action>, a: Action)
    ensures Collected(actions + [a]) ==
            if a.Data? then Collected(actions) + a.bytes else if a.Discard? || a.Report? then [] else Collected(actions)
    ensures Due(actions + [a]) == if a.Report? then Due(actions) + [Collected(actions)] else Due(actions)
  {
    assert (actions + [a])[..|actions|] == actions;
  }

  /** Every other action leaves the buffers alone. */
  lemma CommandKeepsBuffers(s: State, a: Action)
    requires CommandStep(s, a).Some? && !a.Data? && !a.Discard? && !a.ReadCode? && !a.Report?
    ensures var next := CommandStep(s, a).value;
            && next.buffer == s.buffer && next.commits == s.commits
            && InCommit(next.command) == InCommit(s.command)
            && (InCommit(s.command) ==> next.command.buffer == s.command.buffer)
  {
  }

  lemma ReportBuffers(s: State, actions: seq<Action>)
    requires Buffered(s, actions) && CommandStep(s, Report).Some?
    ensures Buffered(CommandStep(s, Report).value, actions + [Report])
  {
    OneMoreAction(actions, Report);
  }

  lemma CommandBuffers(s: State, actions: seq<Action>, a: Action)
    requires Buffered(s, actions) && CommandStep(s, a).Some?
    ensures Buffered(CommandStep(s, a).value, actions + [a])
  {
    if a.Report? {
      ReportBuffers(s, actions);
    } else {
      OneMoreAction(actions, a);
      if !a.Data? && !a.Discard? && !a.ReadCode? {
        CommandKeepsBuffers(s, a);
      }
    }
  }

  lemma StepBuffers(s: State, actions: seq<Action>, a: Action)
    requires Buffered(s, actions) && Step(s, a).Some?
    ensures Buffered(Step(s, a).value, actions + [a])
  {
    if OfWatcher(a) {
      OneMoreAction(actions, a);
      WatcherKeepsBuffer(s, a);
    } else {
      CommandBuffers(s, actions, a);
    }
  }

  lemma {:induction false} RunBuffers(actions: seq<Action>)
    requires Run(INITIAL, actions).Some?
    ensures Buffered(Run(INITIAL, actions).value, actions)
    decreases |actions|
  {
    if actions != [] {
      var before, last := actions[..|actions| - 1], actions[|actions| - 1];
      assert actions == before + [last];
      RunSplits(INITIAL, before, [last]);
      RunBuffers(before);
      ThenRuns(Run(INITIAL, before).value, last, []);
      StepBuffers(Run(INITIAL, before).value, before, last);
    }
  }

  function Joined(parts: seq<Bytes>): Bytes {
    if parts == [] then [] else Joined(parts[..|parts| - 1]) + parts[|parts| - 1]
  }

  lemma JoinedMore(parts: seq<Bytes>, last: Bytes)
    ensures Joined(parts + [last]) == Joined(parts) + last
  {
    assert (parts + [last])[..|parts|] == parts;
  }

  /** The commits have to write what is not discarded, but for what is collected last. */
  lemma {:induction false} DueIsUndiscarded(actions: seq<Action>)
    ensures Undiscarded(actions, false) == Joined(Due(actions)) + Collected(actions)
    ensures Undiscarded(actions, true) == Joined(Due(actions))
    decreases |actions|
  {
    if actions != [] {
      var before, last := actions[..|actions| - 1], actions[|actions| - 1];
      assert actions == before + [last];
      DueIsUndiscarded(before);
      OneMoreAction(before, last);
      JoinedMore(Due(before), Collected(before));
      if last.Data? {
        Associative(Joined(Due(before)), Collected(before), last.bytes);
      }
    }
  }

  lemma {:induction false} WholeCommitsJoin(commits: seq<Commit>, due: seq<Bytes>)
    requires |commits| == |due| && forall k | 0 <= k < |due| :: commits[k].written == due[k]
    ensures BytesOf(commits) == Joined(due)
    decreases |due|
  {
    if due != [] {
      WholeCommitsJoin(commits[..|due| - 1], due[..|due| - 1]);
    }
  }

  lemma AllWhole(s: State)
    requires Committed(s) && forall c | c in s.commits :: c.went.Whole?
    ensures forall k | 0 <= k < |s.commits| :: s.commits[k].written == s.commits[k].buffer
  {
    forall k | 0 <= k < |s.commits|
      ensures s.commits[k].written == s.commits[k].buffer
    {
      assert s.commits[k] in s.commits;
    }
  }

  /** Every commit has to write the data since the last discard or commit, all of it. */
  lemma CommitsHaveTheData(actions: seq<Action>)
    requires Run(INITIAL, actions).Some?
    ensures var commits := Run(INITIAL, actions).value.commits;
            |commits| == |Due(actions)| && forall k | 0 <= k < |commits| :: commits[k].buffer == Due(actions)[k]
  {
    RunBuffers(actions);
  }

  /** Where no commit goes on and none fell short, stdout is all data not discarded, each byte
      once and in order, but for what no commit took yet. */
  lemma EveryByteOnce(actions: seq<Action>)
    requires Run(INITIAL, actions).Some? && !InCommit(Run(INITIAL, actions).value.command)
    requires forall c | c in Run(INITIAL, actions).value.commits :: c.went.Whole?
    ensures Run(INITIAL, actions).value.stdout + Collected(actions) == Undiscarded(actions, false)
  {
    RunBuffers(actions);
    RunKeeps(INITIAL, actions);
    WrittenOnce(Run(INITIAL, actions).value, actions);
  }

  lemma WrittenOnce(s: State, actions: seq<Action>)
    requires Buffered(s, actions) && Committed(s) && !InCommit(s.command)
    requires forall c | c in s.commits :: c.went.Whole?
    ensures s.stdout + Collected(actions) == Undiscarded(actions, false)
  {
    AllWhole(s);
    WholeCommitsJoin(s.commits, Due(actions));
    DueIsUndiscarded(actions);
  }

  // ---------------------------------------------------------------- forwarding to a child

  /** How many children the run has begun to attach. */
  function Children(s: State): nat {
    |s.attached| + if s.command.Attaching? then 1 else 0
  }

  /** Sends done and sends certain to follow. */
  function Sends(s: State): nat {
    |s.sends| + (if s.command.Sending? then 1 else 0) + (if s.watcher.RelaySend? then 1 else 0)
  }

  /** Some thread has still to try the swap for the attached child. */
  predicate Pending(s: State) {
    || s.command.Attached? || s.command.Forwarding? || s.command.Swapping?
    || s.watcher.First? || s.watcher.Relay? || s.watcher.RelaySwap?
  }

  /** No child is attached, and nothing of a forwarding has happened or is under way. */
  predicate Unrelayed(s: State) {
    && s.child == 0 && !s.forwarded && s.sends == []
    && !(s.command.Attached? || s.command.Forwarding? || s.command.Swapping? || s.command.Sending?)
    && !(s.watcher.Relay? || s.watcher.RelaySwap? || s.watcher.RelaySend?)
  }

  /** Whatever is forwarded goes to the last child attached, and the flag says whether it was. */
  predicate ToLast(s: State, pgid: int) {
    && (s.child == 0 || s.child == pgid)
    && Sends(s) == (if s.forwarded then 1 else 0)
    && (s.code != 0 && s.child != 0 && !s.forwarded ==> Pending(s))
    && (forall send | send in s.sends :: send == Send(pgid, s.code))
    && (s.command.Forwarding? ==> s.command.code == s.code)
    && (s.command.Swapping? || s.command.Sending? ==> s.command.code == s.code && s.command.pgid == pgid)
    && (s.watcher.RelaySwap? || s.watcher.RelaySend? ==> s.watcher.pgid == pgid)
  }

  ghost predicate Relaying(s: State) {
    && (s.code == 0 ==> !s.forwarded && Sends(s) == 0 && !s.command.Forwarding? && !s.command.Swapping?)
    && (s.attached == [] || s.command.Ready? || s.command.Attaching? ==> Unrelayed(s))
    && (s.attached != [] ==> ToLast(s, s.attached[|s.attached| - 1]))
  }

  /** The actions of the command thread that have to do with a child. */
  predicate OfChild(a: Action) {
    || a.ReadPending? || a.SpawnFails? || a.ClearForwarded? || a.StoreChild? || a.ReadCodeOnce?
    || a.LoadChild? || a.SwapForwarded? || a.SendSignal? || a.Detach?
  }

  /** Starting a child. */
  predicate OfStart(a: Action) {
    a.ReadPending? || a.SpawnFails? || a.ClearForwarded? || a.StoreChild?
  }

  lemma StartRelays(s: State, a: Action)
    requires Control(s) && Relaying(s) && OfStart(a) && CommandStep(s, a).Some?
    ensures Relaying(CommandStep(s, a).value)
  {
  }

  lemma ForwardRelays(s: State, a: Action)
    requires Control(s) && Relaying(s) && OfChild(a) && !OfStart(a) && CommandStep(s, a).Some?
    ensures Relaying(CommandStep(s, a).value)
  {
  }

  /** Output has nothing to do with children. */
  lemma OutputKeepsChildren(s: State, a: Action)
    requires !OfChild(a) && CommandStep(s, a).Some?
    ensures var next := CommandStep(s, a).value;
            && next.code == s.code && next.child == s.child && next.forwarded == s.forwarded
            && next.sends == s.sends && next.attached == s.attached && next.watcher == s.watcher
            && OutsideChild(s.command) && OutsideChild(next.command)
  {
  }

  predicate OutsideChild(command: Command) {
    command.Idle? || WritingFlag(command) || command.Reporting?
  }

  lemma OutputRelays(s: State, a: Action)
    requires Relaying(s) && !OfChild(a) && CommandStep(s, a).Some?
    ensures Relaying(CommandStep(s, a).value)
  {
    OutputKeepsChildren(s, a);
    RelayingElsewhere(s, CommandStep(s, a).value);
  }

  lemma RelayingElsewhere(s: State, next: State)
    requires Relaying(s) && OutsideChild(s.command) && OutsideChild(next.command)
    requires next.code == s.code && next.child == s.child && next.forwarded == s.forwarded
    requires next.sends == s.sends && next.attached == s.attached && next.watcher == s.watcher
    ensures Relaying(next)
  {
  }

  lemma CommandRelays(s: State, a: Action)
    requires Control(s) && Relaying(s) && CommandStep(s, a).Some?
    ensures Relaying(CommandStep(s, a).value)
  {
    if OfStart(a) {
      StartRelays(s, a);
    } else if OfChild(a) {
      ForwardRelays(s, a);
    } else {
      OutputRelays(s, a);
    }
  }

  /** The signal thread's forwarding, after its decision. */
  predicate OfRelay(a: Action) {
    a.RelayLoad? || a.RelayDoSwap? || a.RelayDoSend?
  }

  lemma RelayRelays(s: State, a: Action)
    requires Control(s) && Relaying(s) && OfRelay(a) && WatcherStep(s, a).Some?
    ensures Relaying(WatcherStep(s, a).value)
  {
    WatcherFrame(s, a);
  }

  lemma DecisionRelays(s: State, a: Action)
    requires Control(s) && Relaying(s) && !OfRelay(a) && WatcherStep(s, a).Some?
    ensures Relaying(WatcherStep(s, a).value)
  {
    if a.Arrive? {
      ArrivalRelays(s, a.signal);
    } else if a.ReadChild? {
      ReadChildRelays(s);
    } else {
      WatcherFrame(s, a);
    }
  }

  lemma ArrivalRelays(s: State, signal: int)
    requires Control(s) && Relaying(s) && WatcherStep(s, Arrive(signal)).Some?
    ensures Relaying(WatcherStep(s, Arrive(signal)).value)
  {
  }

  lemma ReadChildRelays(s: State)
    requires Control(s) && Relaying(s) && WatcherStep(s, ReadChild).Some?
    ensures Relaying(WatcherStep(s, ReadChild).value)
  {
  }

  lemma WatcherRelays(s: State, a: Action)
    requires Control(s) && Relaying(s) && WatcherStep(s, a).Some?
    ensures Relaying(WatcherStep(s, a).value)
  {
    if OfRelay(a) {
      RelayRelays(s, a);
    } else {
      DecisionRelays(s, a);
    }
  }

  lemma StepRelays(s: State, a: Action)
    requires Invariant(s) && Relaying(s) && Step(s, a).Some?
    ensures Invariant(Step(s, a).value) && Relaying(Step(s, a).value)
  {
    if OfWatcher(a) {
      WatcherRelays(s, a);
    } else {
      CommandRelays(s, a);
    }
    StepKeeps(s, a);
  }

  lemma {:induction false} RunRelays(s: State, actions: seq<Action>)
    requires Invariant(s) && Relaying(s) && Run(s, actions).Some?
    ensures Invariant(Run(s, actions).value) && Relaying(Run(s, actions).value)
    decreases |actions|
  {
    if actions != [] {
      StepRelays(s, actions[0]);
      RunRelays(Step(s, actions[0]).value, actions[1..]);
    }
  }

  /** Both threads at rest. */
  predicate Quiet(s: State) {
    s.command.Idle? && s.watcher.Listening?
  }

  /** The first signal is forwarded at most once, to the last child attached and with the first
      code; once both threads rest with a child attached, exactly once. */
  ghost predicate SignalledOnce(s: State) {
    && |s.sends| <= 1
    && (forall send | send in s.sends ::
          s.code != 0 && send.code == s.code && s.attached != [] && send.pgid == s.attached[|s.attached| - 1])
    && (Quiet(s) && s.code != 0 && s.child != 0 ==> s.sends == [Send(s.child, s.code)])
  }

  lemma RelayedOnce(s: State)
    requires Relaying(s)
    ensures SignalledOnce(s)
  {
    assert s.sends != [] ==> s.sends[0] in s.sends;
  }

  /** In every interleaving, however many children are attached one after the other. */
  lemma ChildrenAreSignalledOnce(actions: seq<Action>)
    requires Run(INITIAL, actions).Some?
    ensures SignalledOnce(Run(INITIAL, actions).value)
  {
    RunRelays(INITIAL, actions);
    RelayedOnce(Run(INITIAL, actions).value);
  }

  /** The children begun, and the one that is about to be. */
  function Started(s: State): nat {
    Children(s) + if s.command.Ready? then 1 else 0
  }

  lemma StepStarts(s: State, a: Action)
    requires s.code != 0 && Step(s, a).Some?
    ensures Started(Step(s, a).value) <= Started(s) && Step(s, a).value.code != 0
  {
    if OfWatcher(a) {
      WatcherFrame(s, a);
    } else {
      CommandFrame(s, a);
    }
  }

  /** Once a signal is recorded no child is attached any more, but for one that was about to be. */
  lemma {:induction false} NoChildFollowsASignal(s: State, actions: seq<Action>)
    requires s.code != 0 && Run(s, actions).Some?
    ensures Children(Run(s, actions).value) <= Started(s)
    decreases |actions|
  {
    if actions != [] {
      var next := Step(s, actions[0]).value;
      StepStarts(s, actions[0]);
      NoChildFollowsASignal(next, actions[1..]);
    }
  }

  // ---------------------------------------------------------------- attaching without a look

  /** An action of a caller that may attach a child without reading the code before. */
  function BareStep(s: State, a: Action): Option<State> {
    if a.ClearForwarded? && s.command.Idle? && s.child == 0 && !s.watcher.Ended? then
      Some(s.(forwarded := false, command := Attaching(a.pgid)))
    else Step(s, a)
  }

  function BareRun(actions: seq<Action>): Option<State>
    decreases |actions|
  {
    if actions == [] then Some(INITIAL)
    else
      match BareRun(actions[..|actions| - 1])
      case None => None
      case Some(s) => BareStep(s, actions[|actions| - 1])
  }

  /** The first child can be attached so. */
  lemma BareStepRelays(s: State, a: Action)
    requires Invariant(s) && BareStep(s, a).Some? && (Children(s) <= 1 ==> Relaying(s))
    ensures var next := BareStep(s, a).value;
            Invariant(next) && Children(s) <= Children(next) && (Children(next) <= 1 ==> Relaying(next))
  {
    if !(a.ClearForwarded? && s.command.Idle? && s.child == 0) {
      StepKeeps(s, a);
      StepAttaches(s, a);
      if Children(s) <= 1 {
        StepRelays(s, a);
      }
    }
  }

  lemma StepAttaches(s: State, a: Action)
    requires Step(s, a).Some?
    ensures Children(s) <= Children(Step(s, a).value)
  {
    if OfWatcher(a) {
      WatcherFrame(s, a);
    }
  }

  lemma {:induction false} BareRunRelays(actions: seq<Action>)
    requires BareRun(actions).Some?
    ensures var s := BareRun(actions).value; Invariant(s) && (Children(s) <= 1 ==> Relaying(s))
    decreases |actions|
  {
    if actions != [] {
      BareRunRelays(actions[..|actions| - 1]);
      BareStepRelays(BareRun(actions[..|actions| - 1]).value, actions[|actions| - 1]);
    }
  }

  /** Even such a caller forwards once, as long as it attaches one child. */
  lemma OneChildIsSignalledOnce(actions: seq<Action>)
    ensures BareRun(actions).Some? && Children(BareRun(actions).value) <= 1 ==> SignalledOnce(BareRun(actions).value)
  {
    if BareRun(actions).Some? && Children(BareRun(actions).value) <= 1 {
      BareRunRelays(actions);
      RelayedOnce(BareRun(actions).value);
    }
  }

  /** A state of the runs below: nothing is written and the phase is normal. */
  function Racing(code: int, child: int, forwarded: bool, command: Command, watcher: Watcher,
                  decisions: seq<Decision>, sends: seq<Send>, attached: seq<int>): State
  {
    State(code, false, Normal, child, forwarded, command, watcher, [], [], [], decisions, sends, attached)
  }

  lemma OneMore(actions: seq<Action>, a: Action) returns (more: seq<Action>)
    ensures more == actions + [a]
    ensures BareRun(more) == match BareRun(actions) case None => None case Some(s) => BareStep(s, a)
  {
    more := actions + [a];
    assert more[..|more| - 1] == actions;
  }

  lemma NothingDone() returns (actions: seq<Action>, s: State)
    ensures s == Racing(0, 0, false, Idle, Listening, [], [], [])
    ensures BareRun(actions) == Some(s)
  {
    actions, s := [], INITIAL;
  }

  lemma ChildOneAttached() returns (actions: seq<Action>, s: State)
    ensures s == Racing(0, 1, false, Attached, Listening, [], [], [1])
    ensures BareRun(actions) == Some(s)
  {
    actions, s := NothingDone();
    actions := OneMore(actions, ClearForwarded(1));
    s := Racing(0, 0, false, Attaching(1), Listening, [], [], []);
    assert BareRun(actions) == Some(s);
    assert s.attached + [s.command.pgid] == [1];
    actions := OneMore(actions, StoreChild);
    s := Racing(0, 1, false, Attached, Listening, [], [], [1]);
    assert BareRun(actions) == Some(s);
  }

  lemma SecondChildCanMissTheSignalStart() returns (actions: seq<Action>, s: State)
    ensures s == Racing(0, 1, false, Idle, Listening, [], [], [1])
    ensures BareRun(actions) == Some(s)
  {
    actions, s := ChildOneAttached();
    actions := OneMore(actions, ReadCodeOnce);
    s := Racing(0, 1, false, Idle, Listening, [], [], [1]);
    assert BareRun(actions) == Some(s);
  }

  lemma SecondChildCanMissTheSignalEarly() returns (actions: seq<Action>, s: State)
    ensures s == Racing(130, 1, false, Idle, RelaySwap(130, 1), [ForwardToChild(130)], [], [1])
    ensures BareRun(actions) == Some(s)
  {
    actions, s := SecondChildCanMissTheSignalStart();
    actions := OneMore(actions, Arrive(130));
    s := Racing(130, 1, false, Idle, First(130), [], [], [1]);
    assert BareRun(actions) == Some(s);
    assert s.decisions + [ForwardToChild(130)] == [ForwardToChild(130)];
    actions := OneMore(actions, ReadChild);
    s := Racing(130, 1, false, Idle, Relay(130), [ForwardToChild(130)], [], [1]);
    assert BareRun(actions) == Some(s);
    actions := OneMore(actions, RelayLoad);
    s := Racing(130, 1, false, Idle, RelaySwap(130, 1), [ForwardToChild(130)], [], [1]);
    assert BareRun(actions) == Some(s);
  }

  lemma SecondChildCanMissTheSignalMiddle() returns (actions: seq<Action>, s: State)
    ensures s == Racing(130, 0, true, Attaching(2), RelaySend(130, 1), [ForwardToChild(130)], [], [1])
    ensures BareRun(actions) == Some(s)
  {
    actions, s := SecondChildCanMissTheSignalEarly();
    actions := OneMore(actions, Detach);
    s := Racing(130, 0, false, Idle, RelaySwap(130, 1), [ForwardToChild(130)], [], [1]);
    assert BareRun(actions) == Some(s);
    actions := OneMore(actions, ClearForwarded(2));
    s := Racing(130, 0, false, Attaching(2), RelaySwap(130, 1), [ForwardToChild(130)], [], [1]);
    assert BareRun(actions) == Some(s);
    actions := OneMore(actions, RelayDoSwap);
    s := Racing(130, 0, true, Attaching(2), RelaySend(130, 1), [ForwardToChild(130)], [], [1]);
    assert BareRun(actions) == Some(s);
  }

  lemma SecondChildCanMissTheSignalLate() returns (actions: seq<Action>, s: State)
    ensures s == Racing(130, 2, true, Forwarding(130), RelaySend(130, 1), [ForwardToChild(130)], [], [1, 2])
    ensures BareRun(actions) == Some(s)
  {
    actions, s := SecondChildCanMissTheSignalMiddle();
    assert s.attached + [s.command.pgid] == [1, 2];
    actions := OneMore(actions, StoreChild);
    s := Racing(130, 2, true, Attached, RelaySend(130, 1), [ForwardToChild(130)], [], [1, 2]);
    assert BareRun(actions) == Some(s);
    actions := OneMore(actions, ReadCodeOnce);
    s := Racing(130, 2, true, Forwarding(130), RelaySend(130, 1), [ForwardToChild(130)], [], [1, 2]);
    assert BareRun(actions) == Some(s);
  }

  /** With a second child such a caller can fail: the relay has read the first child's group when that
      child is detached and the next one clears the flag, so its swap takes the second child's turn. */
  lemma SecondChildCanMissTheSignal() returns (actions: seq<Action>)
    ensures BareRun(actions).Some?
    ensures var s := BareRun(actions).value;
            Quiet(s) && s.code != 0 && s.child == 2 && s.attached == [1, 2] && s.sends == [Send(1, EXIT_SIGINT)]
  {
    var s;
    actions, s := SecondChildCanMissTheSignalLate();
    actions := OneMore(actions, LoadChild);
    s := Racing(130, 2, true, Swapping(130, 2), RelaySend(130, 1), [ForwardToChild(130)], [], [1, 2]);
    assert BareRun(actions) == Some(s);
    actions := OneMore(actions, SwapForwarded);
    s := Racing(130, 2, true, Idle, RelaySend(130, 1), [ForwardToChild(130)], [], [1, 2]);
    assert BareRun(actions) == Some(s);
    assert s.sends + [Send(1, 130)] == [Send(1, 130)];
    actions := OneMore(actions, RelayDoSend);
    s := Racing(130, 2, true, Idle, Listening, [ForwardToChild(130)], [Send(1, 130)], [1, 2]);
    assert BareRun(actions) == Some(s);
  }

  lemma FirstChildCanBeSignalledTwiceStart() returns (actions: seq<Action>, s: State)
    ensures s == Racing(130, 1, false, Attached, First(130), [], [], [1])
    ensures BareRun(actions) == Some(s)
  {
    actions, s := ChildOneAttached();
    actions := OneMore(actions, Arrive(130));
    s := Racing(130, 1, false, Attached, First(130), [], [], [1]);
    assert BareRun(actions) == Some(s);
  }

  lemma FirstChildCanBeSignalledTwiceEarly() returns (actions: seq<Action>, s: State)
    ensures s == Racing(130, 1, false, Forwarding(130), RelaySwap(130, 1), [ForwardToChild(130)], [], [1])
    ensures BareRun(actions) == Some(s)
  {
    actions, s := FirstChildCanBeSignalledTwiceStart();
    assert s.decisions + [ForwardToChild(130)] == [ForwardToChild(130)];
    actions := OneMore(actions, ReadChild);
    s := Racing(130, 1, false, Attached, Relay(130), [ForwardToChild(130)], [], [1]);
    assert BareRun(actions) == Some(s);
    actions := OneMore(actions, RelayLoad);
    s := Racing(130, 1, false, Attached, RelaySwap(130, 1), [ForwardToChild(130)], [], [1]);
    assert BareRun(actions) == Some(s);
    actions := OneMore(actions, ReadCodeOnce);
    s := Racing(130, 1, false, Forwarding(130), RelaySwap(130, 1), [ForwardToChild(130)], [], [1]);
    assert BareRun(actions) == Some(s);
  }

  lemma FirstChildCanBeSignalledTwiceMiddle() returns (actions: seq<Action>, s: State)
    ensures s == Racing(130, 1, true, Idle, RelaySwap(130, 1), [ForwardToChild(130)], [Send(1, 130)], [1])
    ensures BareRun(actions) == Some(s)
  {
    actions, s := FirstChildCanBeSignalledTwiceEarly();
    actions := OneMore(actions, LoadChild);
    s := Racing(130, 1, false, Swapping(130, 1), RelaySwap(130, 1), [ForwardToChild(130)], [], [1]);
    assert BareRun(actions) == Some(s);
    actions := OneMore(actions, SwapForwarded);
    s := Racing(130, 1, true, Sending(130, 1), RelaySwap(130, 1), [ForwardToChild(130)], [], [1]);
    assert BareRun(actions) == Some(s);
    assert s.sends + [Send(1, 130)] == [Send(1, 130)];
    actions := OneMore(actions, SendSignal);
    s := Racing(130, 1, true, Idle, RelaySwap(130, 1), [ForwardToChild(130)], [Send(1, 130)], [1]);
    assert BareRun(actions) == Some(s);
  }

  lemma FirstChildCanBeSignalledTwiceLate() returns (actions: seq<Action>, s: State)
    ensures s == Racing(130, 0, false, Attaching(2), RelaySwap(130, 1), [ForwardToChild(130)], [Send(1, 130)], [1])
    ensures BareRun(actions) == Some(s)
  {
    actions, s := FirstChildCanBeSignalledTwiceMiddle();
    actions := OneMore(actions, Detach);
    s := Racing(130, 0, true, Idle, RelaySwap(130, 1), [ForwardToChild(130)], [Send(1, 130)], [1]);
    assert BareRun(actions) == Some(s);
    actions := OneMore(actions, ClearForwarded(2));
    s := Racing(130, 0, false, Attaching(2), RelaySwap(130, 1), [ForwardToChild(130)], [Send(1, 130)], [1]);
    assert BareRun(actions) == Some(s);
  }

  /** And it can signal the first child twice. */
  lemma FirstChildCanBeSignalledTwice() returns (actions: seq<Action>)
    ensures BareRun(actions).Some?
    ensures BareRun(actions).value.sends == [Send(1, EXIT_SIGINT), Send(1, EXIT_SIGINT)]
  {
    var s;
    actions, s := FirstChildCanBeSignalledTwiceLate();
    actions := OneMore(actions, RelayDoSwap);
    s := Racing(130, 0, true, Attaching(2), RelaySend(130, 1), [ForwardToChild(130)], [Send(1, 130)], [1]);
    assert BareRun(actions) == Some(s);
    assert s.sends + [Send(1, 130)] == [Send(1, 130), Send(1, 130)];
    actions := OneMore(actions, RelayDoSend);
    s := Racing(130, 0, true, Attaching(2), Listening, [ForwardToChild(130)], [Send(1, 130), Send(1, 130)], [1]);
    assert BareRun(actions) == Some(s);
  }
}
