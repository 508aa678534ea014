/**
 * The debug log. Token records finished while a hold is live wait until the last hold ends
 * (the lease they issued is then registered); every line is checked against the secrets known
 * when it is written.
 */
module DebugLogs {
  import opened Wrappers
  import opened ByteStrings
  import opened SecretSets

  const MASK: Bytes := Ascii("***")

  /** A mark for `"redactionFallback":true`. */
  const FALLBACK: Bytes := Ascii("fb")

  const FAILED: Bytes := Ascii("Request failed")
  const CANCELLED: Bytes := Ascii("Request cancelled before a response")

  /** A header: its name, whether its value may be shown, the value when it is UTF-8, and what of
      it would be shown (of a location its cleaned form, of any other header the value). */
  datatype Header = Header(name: Bytes, shown: bool, text: Option<Bytes>, clean: Bytes)

  /** What is recorded when a request is sent: whether it is a token request, the time, operation
      and method, the cleaned URL, and the request's headers as they may be shown then. */
  datatype Entry = Entry(token: bool, head: Bytes, url: Bytes, headers: Bytes)

  datatype Outcome = Response(status: Bytes, headers: seq<Header>) | Failed | Cancelled

  /** An attempt that ended; the response's headers are still raw. */
  datatype Finished = Finished(entry: Entry, took: Bytes, outcome: Outcome)

  /** A record given to the writer, and whether its headers are withheld. */
  datatype Handed = Handed(record: Finished, withhold: bool)

  // ---------------------------------------------------------------- lines

  predicate IsTainted(forms: seq<Bytes>, text: Bytes) {
    ContainsAny(forms, text) || IsFragment(forms, text)
  }

  /** Whether a header's value is written as `***`. */
  predicate IsMasked(header: Header, forms: seq<Bytes>) {
    !header.shown || header.text.None? || IsTainted(forms, header.text.value) || IsTainted(forms, header.clean)
  }

  const ASTERISKS: Bytes := ['*' as int, '*' as int, '*' as int]

  /** Some form lies in the text, or the text has four bytes or more and lies in a form. */
  predicate Touches(forms: seq<Bytes>, text: Bytes) {
    exists k | 0 <= k < |forms| :: Contains(text, forms[k]) || (4 <= |text| && Contains(forms[k], text))
  }

  /** A value may be shown when its header may, when it is text, and when no form touches it as it
      came or as it would be shown. */
  predicate MayShow(header: Header, forms: seq<Bytes>) {
    header.shown && header.text.Some? && !Touches(forms, header.text.value) && !Touches(forms, header.clean)
  }

  lemma MaskedExactly(header: Header, forms: seq<Bytes>)
    ensures IsMasked(header, forms) <==> !MayShow(header, forms)
  {
    if header.text.Some? {
      TaintedTouches(forms, header.text.value);
    }
    TaintedTouches(forms, header.clean);
  }

  lemma TaintedTouches(forms: seq<Bytes>, text: Bytes)
    ensures IsTainted(forms, text) <==> Touches(forms, text)
  {
  }

  /** The headers, each value masked or shown by the forms known now. */
  function Masked(headers: seq<Header>, forms: seq<Bytes>): Bytes {
    if headers == [] then []
    else
      headers[0].name + (if IsMasked(headers[0], forms) then MASK else headers[0].clean) + Masked(headers[1..], forms)
  }

  function OutcomeText(outcome: Outcome): Bytes {
    match outcome
    case Response(status, _) => status
    case Failed => FAILED
    case Cancelled => CANCELLED
  }

  function ResponseHeaders(outcome: Outcome, forms: seq<Bytes>): Bytes {
    if outcome.Response? then Masked(outcome.headers, forms) else []
  }

  function FullLine(f: Finished, forms: seq<Bytes>): Bytes {
    FallbackHead(f) + f.entry.url + f.entry.headers + ResponseHeaders(f.outcome, forms)
  }

  function FallbackHead(f: Finished): Bytes {
    f.entry.head + f.took + OutcomeText(f.outcome)
  }

  /** The line without URL and headers. */
  function FallbackLine(f: Finished): Bytes {
    FallbackHead(f) + FALLBACK
  }

  /** What is written for a record with the forms known now: the whole line when neither it nor
      its URL carries a form, else the fallback, else nothing. */
  function LineOf(h: Handed, forms: seq<Bytes>): Option<Bytes> {
    var full, fallback := FullLine(h.record, forms), FallbackLine(h.record);
    var shown := !AppearsIgnoringCase(forms, full) && !AppearsIgnoringCase(forms, h.record.entry.url);
    if !h.withhold && shown then Some(full)
    else if !AppearsIgnoringCase(forms, fallback) then Some(fallback)
    else None
  }

  // ---------------------------------------------------------------- holds

  datatype Holds = Holds(active: nat, cancelled: bool, pending: seq<Finished>)

  datatype Event = FinishEvent(record: Finished) | HoldEvent | ReleaseEvent | DropEvent

  /** The hold state after one event, and the records it hands to the writer. */
  function Next(h: Holds, e: Event): (Holds, seq<Handed>) {
    match e
    case HoldEvent => (h.(active := h.active + 1), [])
    case FinishEvent(f) =>
      if f.entry.token && h.active > 0 then (h.(pending := h.pending + [f]), []) else (h, [Handed(f, false)])
    case _ => EndOne(h, e.DropEvent?)
  }

  /** One hold ends; the last one out hands over what waited. */
  function EndOne(h: Holds, dropped: bool): (Holds, seq<Handed>) {
    var active := if h.active > 0 then h.active - 1 else 0;
    var cancelled := h.cancelled || dropped;
    if active > 0 then (Holds(active, cancelled, h.pending), [])
    else (Holds(0, false, []), HandedAll(h.pending, cancelled))
  }

  function HandedAll(records: seq<Finished>, withhold: bool): (handed: seq<Handed>)
    ensures |handed| == |records|
    ensures forall i | 0 <= i < |records| :: handed[i] == Handed(records[i], withhold)
  {
    seq(|records|, i requires 0 <= i < |records| => Handed(records[i], withhold))
  }

  /** How many of `n` lines the file keeps when the writes go as `works` says (those after them
      work): all before the first that fails. */
  function Kept(works: seq<bool>, n: nat): (kept: nat)
    ensures kept <= n
  {
    if n == 0 then 0
    else if Kept(works, n - 1) == n - 1 && (n > |works| || works[n - 1]) then n
    else Kept(works, n - 1)
  }

  /** The lines kept are those before the first write that fails. */
  lemma {:induction false} KeptExactly(works: seq<bool>, n: nat)
    ensures forall i | 0 <= i < Kept(works, n) && i < |works| :: works[i]
    ensures Kept(works, n) < n ==> Kept(works, n) < |works| && !works[Kept(works, n)]
  {
    if n > 0 {
      KeptExactly(works, n - 1);
    }
  }

  /** The log, shared by attempts and holds. */
  class DebugLog {
    const secrets: Forms
    var lines: seq<Bytes>
    var open: bool
    /** Whether the writes work, one by one (those after them do). */
    const works: seq<bool>
    /** How many were made. */
    var writes: nat
    var warnings: nat
    var holds: Holds
    /** The records handed over, and the lines due for them. */
    ghost var handed: seq<Handed>
    ghost var due: seq<Bytes>

    /** The file holds the lines due before the first write that failed; one warning then. */
    ghost predicate Valid()
      reads this, secrets
    {
      && secrets.Valid()
      && warnings == (if open then 0 else 1)
      && lines == due[..Kept(works, |due|)]
      && (open <==> |lines| == |due|)
      && (open ==> writes == |due|)
    }

    constructor (secrets: Forms, works: seq<bool>)
      requires secrets.Valid()
      ensures Valid() && this.secrets == secrets && lines == [] && due == [] && handed == []
      ensures holds == Holds(0, false, [])
    {
      this.secrets, this.works, writes := secrets, works, 0;
      lines, open, warnings, holds, handed, due := [], true, 0, Holds(0, false, []), [], [];
    }

    /** A line that is due goes into the file, as long as no write has failed. */
    method WriteLine(line: Bytes)
      requires Valid()
      modifies `lines, `open, `writes, `warnings, `due
      ensures Valid() && due == old(due) + [line]
    {
      due := due + [line];
      assert due[..|due| - 1] == old(due);
      if !open {
        return;
      }
      var ok := writes >= |works| || works[writes];
      writes := writes + 1;
      if ok {
        lines := lines + [line];
        return;
      }
      open := false;
      warnings := warnings + 1;
    }

    /** What may be written of a record goes out as one line, if anything may. */
    method WriteRecord(f: Finished, withhold: bool)
      requires Valid()
      modifies `lines, `open, `writes, `warnings, `due, `handed, secrets`exact, secrets`folded, secrets`steps
      ensures Valid() && handed == old(handed) + [Handed(f, withhold)]
      ensures due == old(due) + LineFor(Handed(f, withhold), secrets.entries)
    {
      handed := handed + [Handed(f, withhold)];
      var line := CheckedLine(f, withhold);
      if line.Some? {
        WriteLine(line.value);
      }
    }

    /** What may be written of a record now. */
    method CheckedLine(f: Finished, withhold: bool) returns (line: Option<Bytes>)
      requires secrets.Valid()
      modifies secrets`exact, secrets`folded, secrets`steps
      ensures secrets.Valid() && line == LineOf(Handed(f, withhold), secrets.entries)
    {
      if !withhold {
        var full := BuildFull(f);
        var inLine := secrets.AppearsInIgnoringCase(full);
        var inUrl := secrets.AppearsInIgnoringCase(f.entry.url);
        if !inLine && !inUrl {
          return Some(full);
        }
      }
      var inFallback := secrets.AppearsInIgnoringCase(FallbackLine(f));
      line := if inFallback then None else Some(FallbackLine(f));
    }

    /** The whole line, the response's headers judged by the secrets known now. */
    method BuildFull(f: Finished) returns (line: Bytes)
      requires secrets.Valid()
      modifies secrets`exact, secrets`folded, secrets`steps
      ensures secrets.Valid() && line == FullLine(f, secrets.entries)
    {
      var headers: Bytes := [];
      if f.outcome.Response? {
        headers := MaskHeaders(f.outcome.headers);
      }
      line := FallbackHead(f) + f.entry.url + f.entry.headers + headers;
    }

    method MaskHeaders(headers: seq<Header>) returns (text: Bytes)
      requires secrets.Valid()
      modifies secrets`exact, secrets`folded, secrets`steps
      ensures secrets.Valid() && text == Masked(headers, secrets.entries)
    {
      text := [];
      ghost var forms := secrets.entries;
      for i := 0 to |headers|
        invariant secrets.Valid() && secrets.entries == forms
        invariant text + Masked(headers[i..], forms) == Masked(headers, forms)
      {
        var value := HeaderValue(headers[i]);
        MaskedExactly(headers[i], forms);
        MaskedFrom(headers, i, forms);
        Associative(text, headers[i].name + value, Masked(headers[i + 1..], forms));
        text := text + (headers[i].name + value);
      }
    }

    /** One value: shown when it may be, is text, and is tainted neither as it came nor as it
        would be shown. */
    method HeaderValue(header: Header) returns (value: Bytes)
      requires secrets.Valid()
      modifies secrets`exact, secrets`folded, secrets`steps
      ensures secrets.Valid() && value == if MayShow(header, secrets.entries) then header.clean else ASTERISKS
    {
      MaskedExactly(header, secrets.entries);
      if !header.shown || header.text.None? {
        return MASK;
      }
      var raw := secrets.Taints(header.text.value);
      if raw {
        return MASK;
      }
      var clean := secrets.Taints(header.clean);
      value := if clean then MASK else header.clean;
    }

    /** A request is sent: what is known of it now is recorded. */
    method Begin(token: bool, head: Bytes, url: Bytes, headers: seq<Header>) returns (attempt: Attempt)
      requires Valid()
      modifies secrets`exact, secrets`folded, secrets`steps
      ensures Valid() && fresh(attempt) && attempt.log == this && !attempt.finished
      ensures attempt.entry == Entry(token, head, url, Masked(headers, secrets.entries))
    {
      var shown := MaskHeaders(headers);
      attempt := new Attempt(this, Entry(token, head, url, shown));
    }

    /** An attempt ended: a token's record waits while a hold is live, any other goes out. */
    method Finish(f: Finished)
      requires Valid()
      modifies this, secrets`exact, secrets`folded, secrets`steps
      ensures Valid() && Moved(old(holds), FinishEvent(f), old(handed), old(due))
    {
      if f.entry.token && holds.active > 0 {
        holds := holds.(pending := holds.pending + [f]);
        return;
      }
      WriteRecord(f, false);
    }

    /** A hold begins. */
    method HoldTokens() returns (hold: TokenHold)
      requires Valid()
      modifies this
      ensures Valid() && fresh(hold) && hold.log == this && !hold.ended
      ensures Moved(old(holds), HoldEvent, old(handed), old(due))
    {
      holds := holds.(active := holds.active + 1);
      hold := new TokenHold(this);
    }

    /** A hold is over; where no other is live, all that waited goes out, oldest first. */
    method EndHold(dropped: bool)
      requires Valid()
      modifies this, secrets`exact, secrets`folded, secrets`steps
      ensures Valid() && Moved(old(holds), if dropped then DropEvent else ReleaseEvent, old(handed), old(due))
    {
      var active := if holds.active > 0 then holds.active - 1 else 0;
      var cancelled := holds.cancelled || dropped;
      if active > 0 {
        holds := Holds(active, cancelled, holds.pending);
        return;
      }
      var records := holds.pending;
      holds := Holds(0, false, []);
      WriteAll(records, cancelled);
    }

    /** Hand the records over, in order. */
    method WriteAll(records: seq<Finished>, withhold: bool)
      requires Valid()
      modifies `lines, `open, `writes, `warnings, `due, `handed, secrets`exact, secrets`folded, secrets`steps
      ensures Valid() && handed == old(handed) + HandedAll(records, withhold)
      ensures due == old(due) + LinesOf(HandedAll(records, withhold), secrets.entries)
    {
      ghost var all, forms := HandedAll(records, withhold), secrets.entries;
      ghost var handedBefore, dueBefore := handed, due;
      for i := 0 to |records|
        invariant Valid() && secrets.entries == forms
        invariant handed == handedBefore + all[..i]
        invariant due == dueBefore + LinesOf(all[..i], forms)
      {
        WriteRecord(records[i], withhold);
        OneMoreHanded(handedBefore, dueBefore, all, i, forms);
      }
      assert all[..|records|] == all;
    }

    /** An event's effect: the hold state, what was handed over and the lines due for it, with
        the forms known now. */
    ghost predicate Moved(before: Holds, e: Event, handedBefore: seq<Handed>, dueBefore: seq<Bytes>)
      reads this, secrets
    {
      && holds == Next(before, e).0
      && handed == handedBefore + Next(before, e).1
      && due == dueBefore + LinesOf(Next(before, e).1, secrets.entries)
    }
  }

  /** Keeps token records unwritten until it ends, once. */
  class TokenHold {
    const log: DebugLog
    var ended: bool

    constructor (log: DebugLog)
      ensures this.log == log && !ended
    {
      this.log := log;
      ended := false;
    }

    /** The lease is registered; dropping the hold afterwards does nothing more. */
    method Release()
      requires log.Valid() && !ended
      modifies this, log, log.secrets`exact, log.secrets`folded, log.secrets`steps
      ensures log.Valid() && ended
      ensures log.Moved(old(log.holds), ReleaseEvent, old(log.handed), old(log.due))
    {
      ended := true;
      log.EndHold(false);
    }

    method Drop()
      requires log.Valid()
      modifies this, log, log.secrets`exact, log.secrets`folded, log.secrets`steps
      ensures log.Valid() && ended
      ensures !old(ended) ==> log.Moved(old(log.holds), DropEvent, old(log.handed), old(log.due))
      ensures old(ended) ==> log.holds == old(log.holds) && log.handed == old(log.handed) && log.due == old(log.due)
    {
      if !ended {
        ended := true;
        log.EndHold(true);
      }
    }
  }

  /** A request on its way: it ends once, by a response, a failure or its drop. */
  class Attempt {
    const log: DebugLog
    const entry: Entry
    var finished: bool

    constructor (log: DebugLog, entry: Entry)
      ensures this.log == log && this.entry == entry && !finished
    {
      this.log, this.entry := log, entry;
      finished := false;
    }

    /** The one record of this attempt; a second ending (the drop after it) adds none. */
    method End(took: Bytes, outcome: Outcome)
      requires log.Valid()
      modifies this, log, log.secrets`exact, log.secrets`folded, log.secrets`steps
      ensures log.Valid() && finished
      ensures !old(finished) ==>
                log.Moved(old(log.holds), FinishEvent(Finished(entry, took, outcome)), old(log.handed), old(log.due))
      ensures old(finished) ==> log.holds == old(log.holds) && log.handed == old(log.handed) && log.due == old(log.due)
    {
      if !finished {
        finished := true;
        log.Finish(Finished(entry, took, outcome));
      }
    }
  }

  lemma MaskedFrom(headers: seq<Header>, i: nat, forms: seq<Bytes>)
    requires i < |headers|
    ensures Masked(headers[i..], forms) ==
            headers[i].name + (if IsMasked(headers[i], forms) then MASK else headers[i].clean)
            + Masked(headers[i + 1..], forms)
  {
    assert headers[i..][1..] == headers[i + 1..];
  }

  function LineFor(h: Handed, forms: seq<Bytes>): seq<Bytes> {
    var line := LineOf(h, forms);
    if line.Some? then [line.value] else []
  }

  function LinesOf(handed: seq<Handed>, forms: seq<Bytes>): seq<Bytes> {
    if handed == [] then [] else LinesOf(handed[..|handed| - 1], forms) + LineFor(handed[|handed| - 1], forms)
  }

  lemma LinesOfSnoc(handed: seq<Handed>, i: nat, forms: seq<Bytes>)
    requires i < |handed|
    ensures handed[..i + 1] == handed[..i] + [handed[i]]
    ensures LinesOf(handed[..i + 1], forms) == LinesOf(handed[..i], forms) + LineFor(handed[i], forms)
  {
    assert handed[..i + 1][..i] == handed[..i];
  }

  lemma OneMoreHanded(handed: seq<Handed>, due: seq<Bytes>, all: seq<Handed>, i: nat, forms: seq<Bytes>)
    requires i < |all|
    ensures handed + all[..i] + [all[i]] == handed + all[..i + 1]
    ensures due + LinesOf(all[..i], forms) + LineFor(all[i], forms) == due + LinesOf(all[..i + 1], forms)
  {
    LinesOfSnoc(all, i, forms);
  }

  /** No line due carries a form known when it was built, ignoring ASCII case. */
  lemma {:induction false} LinesAreClean(handed: seq<Handed>, forms: seq<Bytes>)
    ensures forall line | line in LinesOf(handed, forms) :: !AppearsIgnoringCase(forms, line)
    ensures |LinesOf(handed, forms)| <= |handed|
  {
    if handed != [] {
      LinesAreClean(handed[..|handed| - 1], forms);
    }
  }

  lemma {:induction false} LinesGrow(handed: seq<Handed>, forms: seq<Bytes>, n: nat)
    requires n <= |handed|
    ensures LinesOf(handed[..n], forms) <= LinesOf(handed, forms)
    decreases |handed|
  {
    if n == |handed| {
      assert handed[..n] == handed;
    } else {
      var init := handed[..|handed| - 1];
      assert init[..n] == handed[..n];
      LinesGrow(init, forms, n);
      assert LinesOf(handed, forms)[..|LinesOf(init, forms)|] == LinesOf(init, forms);
    }
  }

  /** Every record that may be written gives its line, after those of the records before it. */
  lemma LineIsDue(handed: seq<Handed>, forms: seq<Bytes>, i: nat)
    requires i < |handed| && LineOf(handed[i], forms).Some?
    ensures LinesOf(handed[..i], forms) + [LineOf(handed[i], forms).value] <= LinesOf(handed, forms)
  {
    OneLine(handed[i], forms);
    LinesOfSnoc(handed, i, forms);
    LinesGrow(handed, forms, i + 1);
  }

  lemma OneLine(h: Handed, forms: seq<Bytes>)
    ensures LineOf(h, forms).Some? ==> LineFor(h, forms) == [LineOf(h, forms).value]
    ensures LineOf(h, forms).None? ==> LineFor(h, forms) == []
  {
  }

  /** And every line is a record's. */
  lemma {:induction false} DueIsALine(handed: seq<Handed>, forms: seq<Bytes>, line: Bytes) returns (i: nat)
    requires line in LinesOf(handed, forms)
    ensures i < |handed| && LineOf(handed[i], forms) == Some(line)
    decreases |handed|
  {
    var last: nat := |handed| - 1;
    if line in LinesOf(handed[..last], forms) {
      i := DueIsALine(handed[..last], forms, line);
    } else {
      i := last;
    }
  }

  /** Headers that differ only in values that are masked in both. */
  ghost predicate SameButMasked(a: seq<Header>, b: seq<Header>, forms: seq<Bytes>) {
    |a| == |b| && forall i | 0 <= i < |a| ::
      a[i] == b[i] || (a[i].name == b[i].name && IsMasked(a[i], forms) && IsMasked(b[i], forms))
  }

  lemma {:induction false} MaskedHides(a: seq<Header>, b: seq<Header>, forms: seq<Bytes>)
    requires SameButMasked(a, b, forms)
    ensures Masked(a, forms) == Masked(b, forms)
  {
    if a != [] {
      assert SameButMasked(a[1..], b[1..], forms);
      MaskedHides(a[1..], b[1..], forms);
    }
  }

  /** Two outcomes that differ only in what masked headers hold. */
  ghost predicate SameOutcome(a: Outcome, b: Outcome, forms: seq<Bytes>) {
    || a == b
    || (a.Response? && b.Response? && a.status == b.status && SameButMasked(a.headers, b.headers, forms))
  }

  /** What is written of a record says nothing about its masked header values, and a withheld
      one nothing about its URL or any header. */
  lemma LineHidesMasked(f: Finished, g: Finished, withhold: bool, forms: seq<Bytes>)
    requires FallbackHead(f) == FallbackHead(g)
    requires withhold || (f.entry == g.entry && SameOutcome(f.outcome, g.outcome, forms))
    ensures LineOf(Handed(f, withhold), forms) == LineOf(Handed(g, withhold), forms)
  {
    if !withhold && f.outcome != g.outcome {
      MaskedHides(f.outcome.headers, g.outcome.headers, forms);
    }
  }

  // ---------------------------------------------------------------- what a line shows

  /** A record with the first of its response's headers only. */
  function Upto(f: Finished, n: nat): Finished
    requires f.outcome.Response? && n <= |f.outcome.headers|
  {
    f.(outcome := f.outcome.(headers := f.outcome.headers[..n]))
  }

  lemma {:induction false} MaskedMore(headers: seq<Header>, n: nat, forms: seq<Bytes>)
    requires n < |headers|
    ensures Masked(headers[..n + 1], forms) ==
            Masked(headers[..n], forms)
            + (headers[n].name + if MayShow(headers[n], forms) then headers[n].clean else ASTERISKS)
  {
    MaskedExactly(headers[n], forms);
    var value := if MayShow(headers[n], forms) then headers[n].clean else ASTERISKS;
    if n == 0 {
      assert headers[..1] == [headers[0]] && [headers[0]][1..] == [];
      assert Masked([], forms) == [] && [] + (headers[0].name + value) == headers[0].name + value;
      assert headers[0].name + value + [] == headers[0].name + value;
    } else {
      MaskedMore(headers[1..], n - 1, forms);
      MaskedFrom(headers[..n], 0, forms);
      MaskedFrom(headers[..n + 1], 0, forms);
      assert headers[..n][1..] == headers[1..][..n - 1] && headers[..n + 1][1..] == headers[1..][..n];
      assert headers[..n][0..] == headers[..n] && headers[..n + 1][0..] == headers[..n + 1];
      var first := headers[0].name + if IsMasked(headers[0], forms) then MASK else headers[0].clean;
      Associative(first, Masked(headers[1..][..n - 1], forms), headers[n].name + value);
    }
  }

  /** Each header adds its name, and its value if that may be shown, else three asterisks. */
  lemma EachValueShows(f: Finished, n: nat, forms: seq<Bytes>)
    requires f.outcome.Response? && n < |f.outcome.headers|
    ensures var header := f.outcome.headers[n];
            FullLine(Upto(f, n + 1), forms) ==
            FullLine(Upto(f, n), forms) + header.name + if MayShow(header, forms) then header.clean else ASTERISKS
    ensures FullLine(Upto(f, 0), forms) == f.entry.head + f.took + f.outcome.status + f.entry.url + f.entry.headers
    ensures FullLine(Upto(f, |f.outcome.headers|), forms) == FullLine(f, forms)
  {
    var headers := f.outcome.headers;
    MaskedMore(headers, n, forms);
    var value := if MayShow(headers[n], forms) then headers[n].clean else ASTERISKS;
    var before := FallbackHead(f) + f.entry.url + f.entry.headers;
    Associative(before, Masked(headers[..n], forms), headers[n].name + value);
    Associative(before + Masked(headers[..n], forms), headers[n].name, value);
    assert headers[..|headers|] == headers && headers[..0] == [];
    assert before + [] == before;
  }

  /** A request that failed or was cancelled: its line has no header of a response. */
  lemma FailureShows(entry: Entry, took: Bytes, forms: seq<Bytes>)
    ensures FullLine(Finished(entry, took, Failed), forms)
            == entry.head + took + Ascii("Request failed") + entry.url + entry.headers
    ensures FullLine(Finished(entry, took, Cancelled), forms)
            == entry.head + took + Ascii("Request cancelled before a response") + entry.url + entry.headers
  {
  }

  /** What is written: the whole line, unless it is withheld or carries a form in itself or in its
      URL; then the line without URL and headers, unless that carries one too. */
  lemma LineIsWhole(h: Handed, forms: seq<Bytes>)
    ensures var full := FullLine(h.record, forms);
            var short := h.record.entry.head + h.record.took + OutcomeText(h.record.outcome) + Ascii("fb");
            var carried := AppearsIgnoringCase(forms, full) || AppearsIgnoringCase(forms, h.record.entry.url);
            LineOf(h, forms) ==
            if !h.withhold && !carried then Some(full)
            else if AppearsIgnoringCase(forms, short) then None
            else Some(short)
  {
  }

  /** Two lists of headers that differ only in values that may not be shown. */
  ghost predicate DifferHidden(a: seq<Header>, b: seq<Header>, forms: seq<Bytes>) {
    |a| == |b| && forall i | 0 <= i < |a| ::
      a[i] == b[i] || (a[i].name == b[i].name && !MayShow(a[i], forms) && !MayShow(b[i], forms))
  }

  /** Records that differ only in such values have the same line. */
  lemma HiddenValuesDoNotShow(f: Finished, headers: seq<Header>, withhold: bool, forms: seq<Bytes>)
    requires f.outcome.Response? && DifferHidden(f.outcome.headers, headers, forms)
    ensures LineOf(Handed(f, withhold), forms)
            == LineOf(Handed(f.(outcome := f.outcome.(headers := headers)), withhold), forms)
  {
    var own := f.outcome.headers;
    forall i | 0 <= i < |own|
      ensures own[i] == headers[i]
              || (own[i].name == headers[i].name && IsMasked(own[i], forms) && IsMasked(headers[i], forms))
    {
      MaskedExactly(own[i], forms);
      MaskedExactly(headers[i], forms);
    }
    LineHidesMasked(f, f.(outcome := f.outcome.(headers := headers)), withhold, forms);
  }

  // ---------------------------------------------------------------- whole runs

  /** The hold state after a run of events, and all it handed to the writer. */
  function After(events: seq<Event>): (Holds, seq<Handed>)
    decreases |events|
  {
    if events == [] then (Holds(0, false, []), [])
    else
      var (before, handed) := After(events[..|events| - 1]);
      var (now, more) := Next(before, events[|events| - 1]);
      (now, handed + more)
  }

  /** Holds begun less holds ended. */
  function Live(events: seq<Event>): int
    decreases |events|
  {
    if events == [] then 0
    else
      var last := events[|events| - 1];
      Live(events[..|events| - 1]) + (if last.HoldEvent? then 1 else if last.FinishEvent? then 0 else -1)
  }

  /** Every hold ends at most once, after it began. */
  ghost predicate Sensible(events: seq<Event>) {
    forall n | 0 <= n <= |events| :: Live(events[..n]) >= 0
  }

  /** The events since no hold was live. */
  function Window(events: seq<Event>): seq<Event>
    decreases |events|
  {
    if events == [] || Live(events) == 0 then []
    else Window(events[..|events| - 1]) + [events[|events| - 1]]
  }

  /** The token records, or the others, finished in a run, in order. */
  function FinishedIn(events: seq<Event>, token: bool): seq<Finished>
    decreases |events|
  {
    if events == [] then []
    else
      var last := events[|events| - 1];
      FinishedIn(events[..|events| - 1], token) +
      (if last.FinishEvent? && last.record.entry.token == token then [last.record] else [])
  }

  /** The token records, or the others, among those handed over, in order. */
  function Given(handed: seq<Handed>, token: bool): seq<Finished>
    decreases |handed|
  {
    if handed == [] then []
    else
      var last := handed[|handed| - 1].record;
      Given(handed[..|handed| - 1], token) + (if last.entry.token == token then [last] else [])
  }

  lemma {:induction false} GivenAppends(a: seq<Handed>, b: seq<Handed>, token: bool)
    ensures Given(a + b, token) == Given(a, token) + Given(b, token)
    decreases |b|
  {
    if b == [] {
      assert a + b == a;
    } else {
      assert (a + b)[..|a + b| - 1] == a + b[..|b| - 1];
      GivenAppends(a, b[..|b| - 1], token);
    }
  }

  lemma {:induction false} GivenAll(records: seq<Finished>, withhold: bool)
    requires forall f | f in records :: f.entry.token
    ensures Given(HandedAll(records, withhold), true) == records && Given(HandedAll(records, withhold), false) == []
    decreases |records|
  {
    if records != [] {
      var init := records[..|records| - 1];
      GivenAll(init, withhold);
      assert HandedAll(records, withhold)[..|records| - 1] == HandedAll(init, withhold);
    }
  }

  lemma {:induction false} TokensAreTokens(events: seq<Event>)
    ensures forall f | f in FinishedIn(events, true) :: f.entry.token
    decreases |events|
  {
    if events != [] {
      TokensAreTokens(events[..|events| - 1]);
    }
  }

  lemma SensiblePrefix(events: seq<Event>)
    requires Sensible(events) && events != []
    ensures Sensible(events[..|events| - 1]) && Live(events) >= 0
  {
    var p := events[..|events| - 1];
    assert forall n | 0 <= n <= |p| :: p[..n] == events[..n];
    assert events[..|events|] == events;
  }

  /** The state is a summary of the events since no hold was live. */
  lemma {:induction false} StateIsWindow(events: seq<Event>)
    requires Sensible(events)
    ensures Live(events) >= 0
    ensures After(events).0 == Holds(Live(events), DropEvent in Window(events), FinishedIn(Window(events), true))
    decreases |events|
  {
    if events != [] {
      SensiblePrefix(events);
      var p, last := events[..|events| - 1], events[|events| - 1];
      StateIsWindow(p);
      if Live(events) > 0 {
        assert Window(events)[..|Window(p)|] == Window(p);
      }
    }
  }

  /**
   * When the last hold ends, the token records finished since no hold was live are handed over
   * in finish order, withheld if and only if one of the holds of that time was dropped.
   */
  lemma LastHoldHandsOver(events: seq<Event>, end: Event)
    requires Sensible(events) && Live(events) == 1 && (end.ReleaseEvent? || end.DropEvent?)
    ensures After(events + [end]).0 == Holds(0, false, [])
    ensures After(events + [end]).1 ==
            After(events).1 + HandedAll(FinishedIn(Window(events), true), DropEvent in Window(events) + [end])
  {
    StateIsWindow(events);
    assert (events + [end])[..|events|] == events;
  }

  /** Nothing is handed over while a hold stays live, but for records that are no token's. */
  lemma LiveHoldKeepsTokens(events: seq<Event>, e: Event)
    requires Sensible(events + [e]) && Live(events) > 0 && Live(events + [e]) > 0
    ensures Given(After(events + [e]).1, true) == Given(After(events).1, true)
  {
    assert (events + [e])[..|events|] == events;
    SensiblePrefix(events + [e]);
    StateIsWindow(events);
    GivenAppends(After(events).1, Next(After(events).0, e).1, true);
  }

  /** What an event adds to the finished records. */
  function FinishedBy(e: Event, token: bool): seq<Finished> {
    if e.FinishEvent? && e.record.entry.token == token then [e.record] else []
  }

  lemma FinishConserves(h: Holds, f: Finished)
    requires h.active == 0 ==> h.pending == []
    ensures var (now, handed) := Next(h, FinishEvent(f));
            && Given(handed, true) + now.pending == h.pending + FinishedBy(FinishEvent(f), true)
            && Given(handed, false) == FinishedBy(FinishEvent(f), false)
  {
    assert [Handed(f, false)][..0] == [];
  }

  lemma EndConserves(h: Holds, dropped: bool)
    requires forall f | f in h.pending :: f.entry.token
    ensures var (now, handed) := EndOne(h, dropped);
            Given(handed, true) + now.pending == h.pending && Given(handed, false) == []
  {
    GivenAll(h.pending, h.cancelled || dropped);
  }

  /** One event conserves the records. */
  lemma EventConserves(h: Holds, e: Event)
    requires (forall f | f in h.pending :: f.entry.token) && (h.active == 0 ==> h.pending == [])
    ensures Given(Next(h, e).1, true) + Next(h, e).0.pending == h.pending + FinishedBy(e, true)
    ensures Given(Next(h, e).1, false) == FinishedBy(e, false)
  {
    if e.FinishEvent? {
      FinishConserves(h, e.record);
    } else if !e.HoldEvent? {
      EndConserves(h, e.DropEvent?);
    }
  }

  /**
   * Over any run every finished record is handed over exactly once, in finish order, or still
   * waits under a live hold.
   */
  lemma {:induction false} EveryRecordOnce(events: seq<Event>)
    requires Sensible(events)
    ensures Given(After(events).1, true) + After(events).0.pending == FinishedIn(events, true)
    ensures Given(After(events).1, false) == FinishedIn(events, false)
    ensures Live(events) == 0 ==> After(events).0.pending == []
    decreases |events|
  {
    StateIsWindow(events);
    if events != [] {
      SensiblePrefix(events);
      var p, last := events[..|events| - 1], events[|events| - 1];
      EveryRecordOnce(p);
      StateIsWindow(p);
      TokensAreTokens(Window(p));
      EventConserves(After(p).0, last);
      var (now, more) := Next(After(p).0, last);
      RunConserves(After(p).1, more, now.pending, After(p).0.pending, last);
    }
  }

  lemma RunConserves(handed: seq<Handed>, more: seq<Handed>, now: seq<Finished>, before: seq<Finished>, e: Event)
    requires Given(more, true) + now == before + FinishedBy(e, true)
    requires Given(more, false) == FinishedBy(e, false)
    ensures Given(handed + more, true) + now == Given(handed, true) + before + FinishedBy(e, true)
    ensures Given(handed + more, false) == Given(handed, false) + FinishedBy(e, false)
  {
    GivenAppends(handed, more, true);
    GivenAppends(handed, more, false);
    Regroup(Given(handed, true), Given(more, true), now, before, FinishedBy(e, true));
  }

  lemma Regroup(a: seq<Finished>, b: seq<Finished>, c: seq<Finished>, d: seq<Finished>, e: seq<Finished>)
    requires b + c == d + e
    ensures (a + b) + c == (a + d) + e
  {
    assert (a + b) + c == a + (b + c);
    assert (a + d) + e == a + (d + e);
  }
}
