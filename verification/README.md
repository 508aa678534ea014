# Verified models of the CLI's protocols and edits

This project models the parts of the command-line tool whose correctness is hardest to see from
the code, and proves what they promise for every input, every run or every interleaving.
`dafny verify dfyconfig.toml` checks all of it. Source paths below are relative to the root of
the repository.

| modules | what they model |
|---|---|
| `Matchers`, `SecretSets` | the Aho–Corasick matcher of registered secrets, and the shared secret set with its two matchers built on demand and dropped when a form joins |
| `Redaction`, `RedactedPieces`, `Withholding`, `Base64` | what replaces a secret in forwarded text and printed documents; the encoded forms |
| `Segments` | the path-segment rule: percent-decoding to a fixpoint |
| `Signals` | the command thread and the signal thread over shared atomics, with the stdout commit |
| `DebugLogs`, `DebugRuns`, `DebugThreads`, `Calendar`, `Timestamps` | the debug log: holds on token records, the line check, whole runs, several threads, dates |
| `LineReader` | one bounded line of terminal input, cut into buffers |
| `Publishing` | a new file that never overwrites, over a filesystem others change too |
| `SettingsMerge`, `ProfileLayout`, `TopicLists`, `Guardrails`, `Policies`, `TopicEdits`, `PolicyMerges`, `FlagPatches` | edits of security-profile policies: flags merged in, topics applied and reverted |
| `JsonPaths`, `MergedDocuments`, `TopicReferences` | what those edits leave, read off the JSON documents at literal paths |
| `Wrappers`, `ByteStrings`, `Json` | option and result types, byte strings and substring search, JSON values |

## How it is built

A class or a method stands where the source updates state or loops; each is proved against a
function that says what it does, and the main results are lemmas about those functions or
invariants over whole runs.

- The matcher keeps a ghost shape beside the nodes: the path of each node. `New` establishes it,
  `Find` uses it, and nothing about the search is assumed of a caller but that the matcher was
  built from the patterns.
- The signal protocol is a state machine. One action is one atomic load, store, swap or
  compare-exchange of one thread, or one outside effect; a sequence of actions that can happen
  in turn is an interleaving, and the theorems quantify over all of them. Every atomic in the
  source is sequentially consistent, so nothing weaker is needed.
- In `Publishing` other processes change any path but our temporary between our steps; the
  ghost log holds what a reader sees before and after each of our own steps.
- `DebugRuns.Run` drives a log, its attempts and its holds through any sequence of uses, with forms
  registered in between; what it is proved to leave is a function of the uses.
- What the base definitions compute is stated apart from them, in literal keys, digits and fields:
  `TopicReferences` and `MergedDocuments` read the documents before and after an edit,
  `EachValueShows` the fields of a header, `CommitsHaveTheData` the actions of a run,
  `WrittenByteIsRead` the digits of an encoded byte, `FlagsAtPaths` the paths of a patch.
- `ApplyTopic`, `RevertTopic` and `MergePolicy` are the edits on values; `TopicEdits` and
  `PolicyMerges.UpdatePolicy` are the program's steps, proved to compute them.

## What the proofs say about the code

- `redact` leaves no registered form in its output, for every text, when no form can overlap the
  marker; for forms without brackets exactly when no nonempty form lies inside the word
  `withheld`. A form that does lie inside it is reproduced by the marker; `RedactIsNotClean`
  gives the text.
- A form with brackets can be completed by the marker itself: `a[` is left of `aa[`.
  `OneFormIsCleanExactly` says for every single form without a whole marker in it when that
  happens; `[x[`, which overlaps the marker too, never is left (`OverlapCanBeHarmless`).
- Where a form can meet a marker, redaction can also take part of one: with `abc` and `x[`
  registered, `xabc` ends as `[withheld]withheld]` (`MarkerCanBeCut`). Where none can, the output
  is the text with just some occurrences of forms replaced (`RedactKeepsTheRest`).
- The debug log keeps finish order, and its lines are clean when they are written, because the
  program drives it from one thread (src/lib.rs:145). Its locks alone give less: every record
  once, and lines clean when they are checked; `FinishOrderCanFail` and
  `CheckedLineCanCarryAForm` are runs of two threads.
- The first signal is forwarded at most once, and exactly once at rest with a child attached,
  for any number of children in turn. This rests on the caller, `run_step`
  (src/modelsec/uv.rs:505-515): it starts a child only after it has found no code. `SignalState`
  alone does not give it: `SecondChildCanMissTheSignal` and `FirstChildCanBeSignalledTwice` are
  runs of a caller that skips that look, which no caller in the program does;
  `OneChildIsSignalledOnce` says what such a caller still has.
- `apply_topic` is idempotent exactly when the topic owns the new reference; a reference of
  another identity is added again each time.
- `revert_topic` after `apply_topic` restores a topic list exactly when the list held some
  reference and the group that was joined, if one was found, was not empty; an emptied group is
  removed with its last reference, and a guardrail without references is removed whole.
- `merge_settings` is refused, for the flat patches the flags build, exactly when a patched
  name occurs at least twice in the array it reaches; that includes the absent name. For patches with nested detector arrays neither this nor
  idempotence holds (`RefusedOnEmptyBase`, `OnceButNotTwice`); the flags never build one, as
  `FlagsMakePatches` proves, so no command can pass such a patch.
- A segment that would need more than eight decodings is refused even where every decoding of
  it is safe; `SegmentOk` is an equivalence, so this shows in its statement.

## Model

| member | source | states |
|---|---|---|
| `Matchers.Insert` | src/secrets.rs:117-136 | walking a pattern down from the root keeps the nodes a trie with sorted children whose paths are exactly the prefixes of the patterns inserted so far, and marks as ends exactly the paths that are patterns |
| `Matchers.FailureOfChild` | src/secrets.rs:138-152 | climbing the failure links stops at the node of the longest suffix of the parent's path (less its first byte) that continues by this byte |
| `Matchers.Link` | src/secrets.rs:137-153 | the work queue terminates, visits every node exactly once, and leaves each with the failure link and `end` that its path calls for |
| `Matchers.EndFollowsFailure` | src/secrets.rs:146-149 | following `end` along one failure link is asking whether any pattern at all is a suffix of the path |
| `Matchers.FailureIsLongestPatternPrefix` | src/secrets.rs:113-154 | the trie's paths are exactly the prefixes of the patterns, and every failure link is the longest of them that is a proper suffix of the node's path |
| `Matchers.New` | src/secrets.rs:113-154 | from any list of patterns, duplicates and the empty one included, a finished automaton of those patterns |
| `Matchers.EndOfReached` | src/secrets.rs:165-188 | standing at the longest trie suffix of the text read, `end` holds if and only if some pattern ends here |
| `Matchers.Advance` | src/secrets.rs:172-186 | one byte moves to the longest suffix of the longer text that the trie holds; its steps are paid by the depth lost |
| `Matchers.Find` | src/secrets.rs:165-188 | true if and only if naive substring search finds some pattern; it stops at the first byte where one ends and takes at least one and at most two steps per byte read |
| `SecretSets.FoldedSearch` | src/secrets.rs:299-303 | lower-casing text and forms and searching is searching without ASCII case |
| `SecretSets.InsertedAscends` | src/secrets.rs:196-202 | inserting a new form at its rank keeps the set ordered, hence without duplicates |
| `SecretSets.Forms.Push` | src/secrets.rs:196-202 | a form joins once; an unknown one drops both matchers, a known one leaves everything as it is |
| `SecretSets.Forms.FoundIn` | src/secrets.rs:72-92 | through a matcher built on demand and kept, the answer is naive search's over the forms of this moment |
| `SecretSets.Forms.CarriedBy` | src/secrets.rs:293-295 | some form is a substring of the text |
| `SecretSets.Forms.AppearsInIgnoringCase` | src/secrets.rs:301-303 | some form occurs in the text up to ASCII case |
| `SecretSets.Forms.Taints` | src/secrets.rs:284-288 | some form is in the text, or the text has at least four bytes and is inside a form |
| `SecretSets.SearchElements` | src/secrets.rs:25-45 | an answer depends on the set of forms, not on how they are listed |
| `SecretSets.Do` | src/secrets.rs:191-303 | one use of the set answers what naive search over the set of forms before it answers |
| `SecretSets.Run` | src/secrets.rs:191-303 | over any sequence of registrations and reads every answer is naive search's over the forms of that moment, within two steps per byte read in all |
| `Redaction.Redact` | src/secrets.rs:315-325 | the loop over the forms, longest first and ties in set order, replaces leftmost matches one form at a time |
| `Redaction.ByLength` | src/secrets.rs:317-319 | the order used is a permutation of the forms with lengths that never grow |
| `Redaction.AcrossMarker` | src/secrets.rs:315-325 | a form that agrees with the marker at no overlap, in it, around it or across an end of it, only occurs beside a marker |
| `Redaction.BracketFreeIsApart` | src/secrets.rs:315-325 | a form without brackets that is not inside `withheld` is such a form |
| `Redaction.MakesNone` | src/secrets.rs:319-323 | replacing one form makes no occurrence of another |
| `Redaction.LeavesNone` | src/secrets.rs:319-323 | replacing a form leaves no occurrence of it |
| `Redaction.RedactIsClean` | src/secrets.rs:315-325 | for every text and every form set whose nonempty forms cannot overlap the marker, brackets or not, the output holds none of them |
| `Redaction.RedactIsNotClean` | src/secrets.rs:315-325 | a nonempty form inside the marker is still in the output when that form itself is redacted |
| `Redaction.RedactIsCleanExactly` | src/secrets.rs:315-325 | for bracket-free forms, clean on every text if and only if no nonempty form lies inside `withheld` |
| `Redaction.OneFormIsCleanExactly` | src/secrets.rs:315-325 | one registered form, brackets or not, that does not hold the whole marker: clean on every text if and only if no marker can complete the form, lying around it, going on after it, or beginning where the form ends without the form being found earlier |
| `Redaction.StraddlingSurvives` | src/secrets.rs:315-325 | the form `a[` is left of `aa[` |
| `Redaction.OverlapCanBeHarmless` | src/secrets.rs:315-325 | the form `[x[` overlaps the marker and is left of no text |
| `Redaction.FormIsWithheldWhole` | src/secrets.rs:315-325 | longest first: a registered secret becomes one marker, whatever parts of it are registered too |
| `RedactedPieces.RedactKeepsTheRest` | src/secrets.rs:315-325 | where no form can meet a marker, the output is the text with occurrences of forms, no two of which meet, each replaced by `[withheld]`, and every other byte kept in order |
| `RedactedPieces.MarkerCanBeCut` | src/secrets.rs:315-325 | where one can, it may take part of a marker: with `abc` and `x[`, `xabc` ends as `[withheld]withheld]` |
| `Withholding.DropThenWithhold` | src/secrets.rs:370-375 | dropping the members first and withholding the rest is the specified single pass |
| `Withholding.WithholdDocument` | src/secrets.rs:367-383 | the recursion through the secret set's matcher computes the specified document, at every depth |
| `Withholding.WithheldIsDiscreet` | src/secrets.rs:367-383 | no printed name carries a form and a printed string carries one only if it is the marker |
| `Withholding.DiscreetIsKept` | src/secrets.rs:367-383 | a document that shows no form is left exactly as it is |
| `Withholding.DiscreetMemberIsKept` | src/secrets.rs:370-375 | no member with a discreet name is lost |
| `Withholding.WithholdTwice` | src/secrets.rs:367-383 | withholding twice is withholding once |
| `Base64.Encode` | src/secrets.rs:345-361 | the two loops write the unpadded text of the sextets, in either alphabet |
| `Base64.SymbolsAreAlphabets` | src/secrets.rs:334-361 | the two alphabets (tables 1 and 2 of RFC 4648) |
| `Base64.SextetsRoundTrip` | src/secrets.rs:345-361 | the sextets decode to the bytes, for every length |
| `Base64.Base64RoundTrip` | src/secrets.rs:334-361 | either alphabet's text decodes to the bytes, so different secrets have different encoded forms |
| `Segments.DecodeRound` | src/segment.rs:41-57 | the moving index computes one round of percent-decoding (section 2.1 of RFC 3986), malformed triplets left as they are |
| `Segments.WrittenByteIsRead` | src/segment.rs:26-50 | a byte written as `%` and its two digits, in either case each, decodes to that byte wherever it stands, and the text around it as it would alone |
| `Segments.BarePercentStays` | src/segment.rs:43-53 | a `%` that two digits do not follow stays as it is |
| `Segments.SplitIsPart` | src/segment.rs:34-39 | every piece of the split is a maximal run between slashes |
| `Segments.PartIsSplit` | src/segment.rs:34-39 | and every maximal run between slashes is a piece of the split |
| `Segments.RefusedIsUnsafe` | src/segment.rs:30-40 | the scan of a decoded value refuses exactly the values with a control or backslash byte or a `.` or `..` part (section 5.2.4 of RFC 3986) |
| `Segments.RoundShortens` | src/segment.rs:41-58 | a round changes nothing or strictly shortens the bytes |
| `Segments.FixpointExists` | src/segment.rs:29-60 | after as many rounds as bytes nothing changes any more |
| `Segments.SegmentOk` | src/segment.rs:22-60 | accepted if and only if nonempty, at most 4096 bytes, free of control characters, free of control and backslash bytes and of `.` and `..` parts after any number of decodings however large, and stable after eight |
| `Segments.Utf8CharReads` | src/segment.rs:31 | a character's bytes, read back as section 3 of RFC 3629 has them |
| `Segments.WrittenDotsAreRefused` | src/segment.rs:29-60 | a value that at any decoding depth holds a `.` or `..` between slashes or the ends, each dot and slash written plainly or percent-encoded in either case, is refused |
| `Signals.RunKeeps` | src/signals.rs:143-280 | the invariant of positions, flags, decisions and bytes holds after every interleaving |
| `Signals.CancelMeansSilence` | src/signals.rs:258-279 | when the first signal was only cancelled, no stdout write is going on and none follows, however the run goes on |
| `Signals.SilenceStays` | src/output.rs:312-324 | with a code recorded and no write going on, no interleaving writes another byte |
| `Signals.WriteInProgressExits` | src/signals.rs:262-268 | a write going on when the first signal looks makes the action an exit with `OutputIncomplete` |
| `Signals.CommitsAreSound` | src/output.rs:312-341 | stdout holds just the bytes of the commits, each a prefix of its buffer: all of it when written whole, none when the code was seen first; a failed commit reports an interruption if and only if a code is there, which is the recorded one |
| `Signals.CommitsHaveTheData` | src/output.rs:282-346 | over the actions of any run: what each commit has to write is the data since the last discard or commit, all of it and in order |
| `Signals.EveryByteOnce` | src/output.rs:282-346 | in a run in which no commit fell short, stdout is all data that was not discarded, each byte once and in order, but for what no commit took yet |
| `Signals.CommitGoesThrough` | src/output.rs:312-341 | without a signal a commit can go through, and has then written the whole buffer |
| `Signals.CommitIsInterrupted` | src/output.rs:312-341 | with a code recorded it writes nothing and is an interruption |
| `Signals.FirstCodeIsKept` | src/signals.rs:258-260 | the compare-exchange lets no later signal replace the first code |
| `Signals.EveryDecisionHasTheFirstCode` | src/signals.rs:258-279 | every exit and every forward carries the first signal's code |
| `Signals.FirstSignalForwards` | src/signals.rs:258-263 | a first signal is forwarded to a child that runs |
| `Signals.FirstSignalStopsWrite` | src/signals.rs:258-267 | without a child, a write going on makes it an exit with an incomplete output |
| `Signals.FirstSignalByPhase` | src/signals.rs:258-275 | with neither, the phase decides: a prompt is cancelled, each kind of waiting exits with its own context, and otherwise the command is only told |
| `Signals.LaterSignalDecides` | src/signals.rs:264-278 | a later signal kills a child, and without one exits with the first signal's code |
| `Signals.ChildrenAreSignalledOnce` | src/modelsec/uv.rs:505-570 | in every interleaving, however many children are attached one after the other, the signal is forwarded at most once, to the last child and with the first code, and exactly once when both threads rest with a child attached |
| `Signals.NoChildFollowsASignal` | src/modelsec/uv.rs:505-515 | once a code is recorded no child is attached any more, but for one the caller had already looked for |
| `Signals.ChildIsAttached` | src/modelsec/uv.rs:505-515 | without a code a child can be attached; with one it is not begun |
| `Signals.OneChildIsSignalledOnce` | src/signals.rs:218-255 | even a caller that attaches without reading the code before has all of this as long as it attaches one child |
| `Signals.SecondChildCanMissTheSignal` | src/signals.rs:218-255 | a caller that attaches a second child without reading the code before: at rest that child is attached and was never signalled |
| `Signals.FirstChildCanBeSignalledTwice` | src/signals.rs:218-255 | such a caller again: the first child, detached, is signalled twice |
| `Calendar.YearFormula` | src/debug.rs:630-641 | the year-of-era quotient is exact on every day of every year of an era |
| `Calendar.MonthFormula` | src/debug.rs:636-639 | the month quotient is exact, leap days included |
| `Calendar.CivilIsDateOf` | src/debug.rs:630-641 | the arithmetic computes the date of a day's era, year and day of the year |
| `Calendar.Epoch` | src/debug.rs:628-641 | day 0 is 1970-01-01 |
| `Calendar.CivilIsADate` | src/debug.rs:630-641 | every integer gives a real date of the proleptic Gregorian calendar |
| `Calendar.NextDayFollows` | src/debug.rs:630-641 | for every integer d, the date of d + 1 is the calendar's next day after the date of d |
| `Calendar.DatesAreInOrder` | src/debug.rs:630-641 | a later day has a later date |
| `Calendar.CivilIsInjective` | src/debug.rs:630-641 | no two days share a date |
| `Timestamps.PaddedIsFixed` | src/debug.rs:619-625 | a number that fits its field is written with exactly the field's digits |
| `Timestamps.WrittenInOrder` | src/debug.rs:613-626 | fields that fit sort as texts in the order of their numbers |
| `Timestamps.FourDigitYears` | src/debug.rs:613-641 | the years have four digits through the last day of 9999 and no longer |
| `Timestamps.TextsSortInTimeOrder` | src/debug.rs:613-626 | through the year 9999 a later millisecond has a later text |
| `Timestamps.TimestampReadsBack` | src/debug.rs:613-626 | through the year 9999 the text has 24 bytes with its punctuation in place, and its digits read back as the date and the time of day |
| `Timestamps.EarlierReadsAs1970` | src/debug.rs:613-627 | a time before 1970 has the text of 1970 |
| `DebugLogs.DebugLog.WriteLine` | src/debug.rs:325-345 | the file holds exactly the lines due before the first write that failed; that failure closes the log with one warning and nothing is written after |
| `DebugLogs.KeptExactly` | src/debug.rs:325-334 | the lines of the file are those due before the first write that fails |
| `DebugLogs.DebugLog.CheckedLine` | src/debug.rs:306-320 | the full line unless it or the URL carries a form, else the fallback unless that carries one, else nothing |
| `DebugLogs.DebugLog.Begin` | src/debug.rs:238-262 | the request's headers are judged by the forms known when it is sent |
| `DebugLogs.DebugLog.HeaderValue` | src/debug.rs:558-582 | a value is shown if and only if its header may be shown, it is text, and no form is in it or in its cleaned form or has one of them as a fragment; else `***` |
| `DebugLogs.DebugLog.BuildFull` | src/debug.rs:472-510 | the whole line, the response's headers judged by the forms known now |
| `DebugLogs.DebugLog.Finish` | src/debug.rs:275-284 | a token record under a live hold waits, any other is handed over now |
| `DebugLogs.DebugLog.EndHold` | src/debug.rs:288-303 | the last hold out hands over what waited, in order, withheld when a hold was dropped |
| `DebugLogs.TokenHold.Release` | src/debug.rs:388-393 | ends the hold once; the drop after it does nothing |
| `DebugLogs.TokenHold.Drop` | src/debug.rs:396-402 | an unreleased hold ends as cancelled, a released one changes nothing |
| `DebugLogs.Attempt.End` | src/debug.rs:441-467 | an attempt produces one finished record, whichever endings follow |
| `DebugLogs.LineHidesMasked` | src/debug.rs:306-320 | what is written of a record is the same whatever its masked header values are, and of a withheld one whatever its URL and headers are |
| `DebugLogs.EachValueShows` | src/debug.rs:498-582 | each header of a response adds its name to the line, and its value if the header may be shown, is text, and neither it nor its cleaned form holds a form or is a fragment of one; else three asterisks |
| `DebugLogs.HiddenValuesDoNotShow` | src/debug.rs:472-582 | two records that differ only in values that may not be shown have the same line |
| `DebugLogs.LineIsDue` | src/debug.rs:281-320 | every record handed over that may be written gives its line, after those of the records before it |
| `DebugLogs.DueIsALine` | src/debug.rs:281-320 | and every line is that of a record handed over |
| `DebugLogs.StateIsWindow` | src/debug.rs:265-303 | the counters are a summary of the events since no hold was live, over every sensible run |
| `DebugLogs.LastHoldHandsOver` | src/debug.rs:288-303 | the last hold's end hands over just the token records finished since no hold was live, in finish order, withheld if and only if one of those holds was dropped |
| `DebugLogs.LiveHoldKeepsTokens` | src/debug.rs:275-284 | no token record is handed over while a hold stays live |
| `DebugLogs.EveryRecordOnce` | src/debug.rs:265-320 | over sensible events every finished record is handed over exactly once, in finish order, or still waits under a live hold |
| `DebugRuns.StoryIsSensible` | src/debug.rs:383-402 | whatever is done with holds, each ends once after it began, so the events of every run are sensible |
| `DebugRuns.StoryRecords` | src/debug.rs:441-467 | every attempt that ended has one finished record, its own, and no other record is made |
| `DebugRuns.StoryIsClean` | src/debug.rs:306-320 | every line due carries no form known at the start or registered before the use that wrote it, ignoring ASCII case |
| `DebugRuns.Run` | src/debug.rs:238-467 | the log driven through any sequence of attempts, holds and registrations: its state, the records handed over and the lines in its file are those of the run, every ended attempt's record is handed over once or waits for a live hold, and no line carries a form registered before it was written |
| `DebugThreads.EveryRecordOnceInThreads` | src/debug.rs:275-345 | for any number of threads and every interleaving of their locked steps, every finished record is dealt with once, is in some thread's hands, or waits for a hold |
| `DebugThreads.LinesWereChecked` | src/debug.rs:306-345 | in every such interleaving no line carries a form registered when it was checked, ignoring ASCII case |
| `DebugThreads.FinishOrderIsKept` | src/debug.rs:275-303 | while one thread at a time is in the log, token records, and the others, are dealt with in finish order |
| `DebugThreads.LinesAreCleanWhenWritten` | src/debug.rs:306-345 | and no line carries a form registered when it is written |
| `DebugThreads.OneThreadIsAlone` | src/lib.rs:145-166 | a single thread, as the program's runtime has, is always alone in the log |
| `DebugThreads.RecordAlone` | src/debug.rs:281-345 | a thread whose steps nothing comes between files for a record just the line that the record has due, whole, short or none |
| `DebugThreads.FailedWriteCloses` | src/debug.rs:325-345 | a failing write files nothing and closes the log, and a closed log files nothing more |
| `DebugThreads.FinishOrderCanFail` | src/debug.rs:288-303 | two threads that are both in the log: the record that finished later is dealt with first |
| `DebugThreads.CheckedLineCanCarryAForm` | src/debug.rs:306-345 | two threads: a form registered between a line's check and its write is in the file |
| `LineReader.TakeChunk` | src/input.rs:116-137 | a buffer is taken up to its first newline; what is kept is all bytes so far, or only that they are too many |
| `LineReader.ReadChunk` | src/input.rs:104-140 | one turn keeps the bytes read free of a newline, or meets the first one and leaves exactly the bytes after it |
| `LineReader.ReadLine` | src/input.rs:100-142 | however reads are cut or interrupted, the answer is the stream's first line and exactly its bytes are consumed; it fails if and only if the last read made failed |
| `LineReader.LineAfter` | src/input.rs:100-142 | bytes without a newline only lengthen the line that follows |
| `LineReader.TypedLineIsRead` | src/input.rs:83-142 | every line within 65536 bytes typed with `\n` or `\r\n` is read back as typed, a longer one is too long, and the rest is left |
| `LineReader.LastLineIsRead` | src/input.rs:83-142 | an input that ends without a newline is read as it is, an empty one as the end |
| `Publishing.ReserveNew` | src/files.rs:236-260 | a fresh private temporary, or nothing left behind |
| `Publishing.Reservation.WriteTemp` | src/files.rs:280-285 | the temporary holds all the bytes, or the write failed and it is removed |
| `Publishing.Reservation.WriteAndLink` | src/files.rs:278-292 | each step leaves the destination as it was or, where nothing was, whole; a failed write leaves no temporary, any other failure leaves it complete and still held, and which error it is says why |
| `Publishing.Reservation.LinkUnsynced` | src/files.rs:296-300 | a complete temporary whose sync failed can still be published, and says so |
| `Publishing.Reservation.LinkName` | src/files.rs:302-308 | the destination becomes a name of the whole contents unless something is there, which stays as it is |
| `Publishing.Reservation.Finish` | src/files.rs:311-319 | the linked temporary is disarmed and removed, nothing else changes |
| `Publishing.Reservation.LinkTo` | src/files.rs:302-319 | both: published and disarmed, or still held with the destination untouched |
| `Publishing.Reservation.Keep` | src/files.rs:322-325 | the kept temporary is still there and no longer removed |
| `Publishing.Reservation.Drop` | src/files.rs:328-335 | an armed temporary is removed, a disarmed one touches nothing |
| `Publishing.PublishNew` | src/files.rs:342-350 | for every outcome of every call and whatever other processes do in between, each own step leaves the destination as it was or brings it whole into being where nothing was; success means the bytes came into place, an error that the destination was not touched; no temporary survives a working unlink; undisturbed by others the outcome is determined both ways and only the destination differs in the end |
| `SettingsMerge.MergeSettings` | src/profile_policy.rs:337-391 | the loop over the patch's keys in any order computes the merge and fails exactly when it is refused |
| `SettingsMerge.MergeArray` | src/profile_policy.rs:343-374 | the loop over a detector array's items, each merged by name |
| `SettingsMerge.DetectorsStay` | src/profile_policy.rs:343-374 | no detector is dropped, moved or renamed; an unpatched one is untouched; a patched name occurs exactly once in the end |
| `SettingsMerge.SlotsAreOverlaid` | src/profile_policy.rs:343-374 | an existing detector becomes itself with the fields of its name's items, in order |
| `MergedDocuments.MergeAtPath` | src/profile_policy.rs:337-391 | at every path of keys: the three arrays of detectors (`model-protection`, `database-security`, `agent-protection`) keep each detector in its place, equal where no item has its name and merged with its one item where one has, each patched name once in the end; any other value of the patch replaces; what the patch does not reach stays, but that one malicious-code item that has no name is given the default |
| `MergedDocuments.UpdateAtPath` | src/policy.rs:453-491 | a successful update makes just this of the selected block and of the entry's `model-configuration`, read off the documents before and after |
| `SettingsMerge.RefusedExactly` | src/profile_policy.rs:366-372 | a flat patch is refused if and only if a patched name occurs at least twice in the array it reaches |
| `SettingsMerge.ItemsTwice` | src/profile_policy.rs:343-374 | merging the same flat items again changes nothing |
| `SettingsMerge.MergeTwice` | src/profile_policy.rs:337-391 | a flat patch merged twice is merged once |
| `SettingsMerge.OnceButNotTwice` | src/profile_policy.rs:359-365 | flatness is needed, though no command lacks it: a patch whose detector brings an ambiguous array of its own succeeds once and is refused the second time |
| `SettingsMerge.RefusedOnEmptyBase` | src/profile_policy.rs:359-372 | and two nested items of one name are refused although the base is empty |
| `ProfileLayout.Locations` | src/profile_policy.rs:134-179 | every protection block is listed exactly once with its activity, in entry order, `model-configuration` first, then the known directions, then the rest |
| `ProfileLayout.Places` | src/profile_policy.rs:134-179 | the places of a policy are exactly those with a block |
| `ProfileLayout.BlocksAreRead` | src/profile_policy.rs:124-209 | the blocks of a policy are the objects at the literal paths of its entries |
| `ProfileLayout.ActiveExactly` | src/profile_policy.rs:97-101 | everything is enforced but the `model-configuration` of an entry whose mode is `per_content_type` or that has `content-type-configurations` |
| `ProfileLayout.SelectedEntry` | src/profile_policy.rs:214-247 | a selected entry exists and is the one asked for or the only one; nothing else changes but for the default entry of an empty list |
| `ProfileLayout.SelectedExactly` | src/profile_policy.rs:214-247 | an entry is selected if and only if the one asked for is an object of the list, or none is asked for and the list is absent, null, empty or has one object; the refusal says which is missing |
| `ProfileLayout.ConfigurationWritten` | src/profile_policy.rs:197-209 | a block written at a place is there; every other place, entry and key keeps its own |
| `ProfileLayout.EditKeepsLayout` | src/profile_policy.rs:257-302 | an allowed edit names a direction exactly when the entry is directional and never turns one layout into the other; unless a missing one is allowed, the direction was there |
| `ProfileLayout.AllowedExactly` | src/profile_policy.rs:257-302 | on the entry's own keys, when an edit is allowed: a legacy one exactly when neither key of the directional layout is there, a directional one exactly when the mode is the known one or none and the direction's object is there where it must be |
| `ProfileLayout.RefusedBecause` | src/profile_policy.rs:257-302 | and which refusal it is otherwise |
| `ProfileLayout.AllowedAgain` | src/profile_policy.rs:262-302 | a block that could be selected can be selected again, whatever was written there |
| `TopicLists.ForeignKeeps` | src/policy.rs:548 | the references left of a group are just those of others, in their order |
| `TopicLists.RemovedKeeps` | src/policy.rs:540-551 | place by place: a group goes if and only if it holds references and all are the topic's; every other one, empty or without references too, stays in its order with its other keys and the references of others |
| `TopicLists.RemovedLeavesOthers` | src/policy.rs:540-551 | removal leaves no reference of the topic and everybody else's groups, references and order |
| `TopicLists.RemovedNothing` | src/policy.rs:540-551 | removing a topic that has no reference changes nothing |
| `TopicLists.JoinSays` | src/policy.rs:649-661 | the new reference joins one group of the intent; all other references keep group and order |
| `TopicLists.AssignIsAssigned` | src/policy.rs:639-663 | place by place: the topic's only reference is replaced where it has the intent already; otherwise its references go, and the new one joins at the end of the first group that can take it or in a new last group, with nothing else different |
| `TopicLists.AssignSays` | src/policy.rs:639-663 | afterwards the topic owns exactly the new reference, under the intent, and all other references keep group and order |
| `TopicLists.AssignTwice` | src/policy.rs:639-663 | assigning twice is assigning once if and only if the topic owns the reference |
| `TopicLists.AssignAndRemove` | src/policy.rs:542-663 | removing after assigning gives the list back if and only if the group joined was not left empty |
| `Guardrails.HoldsInList` | src/policy.rs:559-568 | with one guardrail at most, a block holds the topic if and only if its list does |
| `Guardrails.AppliedSays` | src/policy.rs:614-665 | an apply leaves one owned reference under the intent; the list differs place by place as an assignment says, the block in its guardrail's list and action alone, or by one guardrail more, the last, with no options |
| `Guardrails.ApplySetsAction` | src/policy.rs:613-665 | after an apply the guardrail allows if and only if the intent blocks, and blocks otherwise |
| `Guardrails.ApplyBlockTwice` | src/policy.rs:614-665 | applying twice to a block is applying once if and only if the topic owns the reference |
| `Guardrails.Reverted` | src/policy.rs:725-757 | a block that holds the topic never reaches the panics; its one guardrail gets the list without the topic's references, or goes when no reference is left in it |
| `Guardrails.RevertedSays` | src/policy.rs:736-757 | only the guardrail changes, or it goes when no reference remains; other topics' references stay |
| `Guardrails.RevertSetsAction` | src/policy.rs:736-757 | after a revert that leaves references the guardrail allows if and only if a group that still holds one blocks |
| `Guardrails.ThereAndBack` | src/policy.rs:601-757 | a revert after an apply takes an added guardrail away and otherwise restores the list exactly under the stated condition |
| `Policies.ApplyChangesOneReference` | src/policy.rs:601-669 | a successful apply changes the selected block alone; there the topic owns exactly the new reference under the intent, the list differs place by place as an assignment says, and every other item and key stays |
| `TopicReferences.ApplyLeavesOneReference` | src/policy.rs:601-669 | on the documents: the reference is in the selected block in a group of the intent, and no other reference of that block has the name or one of the ids |
| `TopicReferences.ApplyKeepsStrangers` | src/policy.rs:601-669 | every item of every block keeps all references with neither name nor id, in order and under their actions |
| `TopicReferences.ApplySucceedsExactly` | src/policy.rs:570-669 | on the document: an apply succeeds if and only if an entry is selected, its layout allows the edit and its block has one guardrail at most |
| `Policies.ApplyTwice` | src/policy.rs:601-669 | a successful apply repeated changes nothing if and only if the topic owns the reference |
| `Policies.SelectedIsActive` | src/policy.rs:570-595 | the block an edit selects is always one that is enforced, before and after |
| `Policies.HeldWhereSelected` | src/policy.rs:706-734 | past the refusals of a revert, the selected block holds the topic and no other block does |
| `Policies.RevertNeverPanics` | src/policy.rs:725-735 | no policy, selector or topic reaches the `unreachable!` and `expect` calls |
| `Policies.RevertSucceedsExactly` | src/policy.rs:683-758 | a revert succeeds if and only if the selected block can be edited and is the one block that holds the topic |
| `Policies.RevertLeavesNoReference` | src/policy.rs:683-758 | after a successful revert no block anywhere, active or retained, holds a reference of the topic; only the selected block changed and other topics' references are kept |
| `TopicReferences.RevertTakesJustTheTopic` | src/policy.rs:683-758 | on the documents: after a successful revert no reference in any entry, direction, guardrail item or group has the name or one of the ids; every item of every block keeps all references with neither, in order and under their actions |
| `TopicReferences.RevertSucceedsJustThere` | src/policy.rs:683-758 | on the document: a revert succeeds if and only if an entry is selected, its layout allows the edit, its block has one guardrail at most, and just that block has references with the name or an id |
| `TopicReferences.RevertRefusedBecause` | src/policy.rs:690-724 | on the document: not assigned exactly where a given, selectable block does not speak of the topic, or, with none given, no enforced block does; referenced elsewhere exactly where a given block does and another one too |
| `Policies.RevertUndoesApply` | src/policy.rs:601-758 | where the topic was referenced nowhere, a revert after an apply succeeds; it removes an added guardrail, and otherwise restores the topic list if and only if it held a reference and the group joined was not empty |
| `TopicEdits.FindRefs` | src/policy.rs:523-538 | the nested loops find just the positions of the topic's references |
| `TopicEdits.RetainGroups` | src/policy.rs:542-551 | the two retains compute the specified removal |
| `TopicEdits.AssignReference` | src/policy.rs:638-663 | replace in place or remove and join, as the specified assignment |
| `TopicEdits.HoldsReference` | src/policy.rs:559-568 | the search over all guardrail items answers whether the block holds the topic |
| `TopicEdits.ApplyToPolicy` | src/policy.rs:601-669 | the whole apply, refusals included, is the specified one |
| `TopicEdits.RevertInPolicy` | src/policy.rs:683-758 | the whole revert, its two searches over the listed locations and its refusals in order, is the specified one |
| `PolicyMerges.TakeShared` | src/profile_policy.rs:321-329 | the loop moves exactly the shared keys out of a configuration |
| `PolicyMerges.UpdatePolicy` | src/policy.rs:453-491 | the steps of an update, refusals included, are the specified ones |
| `PolicyMerges.NoPatchIsACheck` | src/policy.rs:462-473 | a command without a patch is refused exactly when a given selector refuses an update that changes nothing, for the same reason, and otherwise leaves the policy untouched |
| `PolicyMerges.MergeChangesTwoBlocks` | src/policy.rs:474-490 | the block becomes itself merged with the protection patch and the `model-configuration` itself merged with the shared settings; every other place, entry and key equals the input, and a shared-only edit touches no direction |
| `PolicyMerges.FixedUnderOther` | src/policy.rs:474-490 | a configuration one patch leaves as it is stays so under a patch of other keys |
| `PolicyMerges.UpdateTwice` | src/policy.rs:453-491 | an update that succeeds succeeds again and then changes nothing |
| `FlagPatches.FlagsMakePatches` | src/policy.rs:424-443 | the flags' patch is flat at every depth and takes exactly the shared settings apart |
| `FlagPatches.FlagsAtPaths` | src/policy.rs:227-443 | each flag puts its value at its own path of the patch, a bare toxicity action for both severities, and nothing else is there |
| `FlagPatches.AnyProtectionExactly` | src/policy.rs:200-219 | a command has a patch if and only if its flags fill a section |
| `FlagPatches.UpdateIsIdempotent` | src/policy.rs:424-491 | for all flags and policies, a successful update repeated changes nothing |
| `FlagPatches.UpdateSucceedsExactly` | src/policy.rs:424-491 | an update succeeds if and only if an entry is selected, the layout allows the edit and no detector the flags name is ambiguous; the shared settings are never refused |
| `FlagPatches.MaliciousCodeKeepsItsName` | src/policy.rs:434-439 | the malicious-code item keeps the name it had or gets the default one, and only its action changes |

## Left out

- JSON trees are edited in place through nested mutable borrows in the source; here every edit gives a new value. The borrows are exclusive, so no aliasing is lost.
- Which ambiguous name a refusal names, and the order in which a patch's keys are merged: the merge is proved the same for every order.
- The order of the directions that are not among the four known ones is the serializer's; `Locations` allows any.
- Messages of refusals: a refusal is one constructor of `Refusal` or `Error`.
- `location_label`, `model-type` in locations, `request_body`, `create_request`, and the parsing of flags and selectors (`Flags::read`, `Selector::parse`): straight-line cases.
- `model_configuration` always names the malicious-code item and the patch removes the name again; the model builds the item without it.
- `SecretSet::add`, `add_basic_credentials`, `register_config`, `scrub`, `snapshot`: which forms of a secret are registered; the sets here hold any forms.
- The step counter exists in the source only in test builds; the model always counts, and the fragment rule's reads are not counted, as in the source.
- A poisoned lock is entered like any other; locks are held for one operation of the secret set at a time, and the operations are taken one after the other.
- Rust strings are modelled as their bytes in `Matchers`, `SecretSets`, `Redaction` and `Withholding`; that cuts fall on character boundaries is not part of this model.
- Insertion into an ordered set is a rank and an insertion; the tree behind it is not part of this model.
- `Signals`: the runtime, terminal modes, the marker file, grace times and messages. The second signal's load of the child and the kill that follows are `ReadChild` and `KillGroup`, the kill's own load merged with the kill. A further child is attached only after the one before was detached. A write ends in one action for any mix of short writes before it.
- `DebugLogs`: a method is one event, as all uses come from the runtime's one thread; `DebugThreads` has the locked steps instead. Records are byte strings without JSON escaping. Which headers may be shown, the cleaning of URLs and locations, the clock and the outcome's status text are given. A failing write leaves no partial line.
- `DebugThreads`: the text built for a record may be any text, as header values are judged one by one before the check.
- `prune`, `file_name`, `log_timestamp` and the directory of the logs.
- `CivilFromDays` is over all integers; the source's 64-bit addition overflows within 719468 days of the largest value, which no timestamp reaches.
- `IsoTimestamp` takes milliseconds since 1970; earlier times read as 1970, as in the source.
- `LineReader`: `piped_value`, `ask` and `confirm`, terminal echo, and the text encoding of a line.
- `Publishing`: permissions, the umask, symlinks and directories as such. A hard link is a second name with the same contents; nothing is written once linked, so sharing does not show. The temporary's random name is taken to differ from the destination and to be unused; where `Reservation` is held on, its path is still there because others leave it alone.
- Synchronisation to disk is an outcome that is reported; what survives a power failure is not part of this model.
- Command-line definitions, commands, HTTP, OAuth, TLS, rendering, pagination and the documentation site.
