/**
 * The registered secret forms, and whether a text carries one of them. Each kind of search, exact
 * or without ASCII case, has an automaton of its own, made when it is first needed and good until
 * the next new form.
 */
module SecretSets {
  import opened Wrappers
  import opened ByteStrings
  import opened Matchers

  // ---------------------------------------------------------------- order and case

  ghost predicate Ascending(forms: seq<Bytes>) {
    forall i, j | 0 <= i < j < |forms| :: Less(forms[i], forms[j])
  }

  function LowerByte(b: Byte): Byte {
    if 65 <= b <= 90 then b + 32 else b
  }

  /** `to_ascii_lowercase`. */
  function Lower(text: Bytes): (lower: Bytes)
    ensures |lower| == |text|
    ensures forall i | 0 <= i < |text| :: lower[i] == LowerByte(text[i])
  {
    seq(|text|, i requires 0 <= i < |text| => LowerByte(text[i]))
  }

  function LowerAll(forms: seq<Bytes>): (lower: seq<Bytes>)
    ensures |lower| == |forms|
    ensures forall i | 0 <= i < |forms| :: lower[i] == Lower(forms[i])
  {
    seq(|forms|, i requires 0 <= i < |forms| => Lower(forms[i]))
  }

  /** Two bytes are the same letter, or the same byte. */
  predicate SameIgnoringCase(a: Byte, b: Byte) {
    || a == b
    || (65 <= a <= 90 && b == a + 32)
    || (65 <= b <= 90 && a == b + 32)
  }

  predicate OccursIgnoringCaseAt(text: Bytes, form: Bytes, at: nat) {
    at + |form| <= |text| && forall i | 0 <= i < |form| :: SameIgnoringCase(text[at + i], form[i])
  }

  /** Some form occurs in `text`, letters compared without ASCII case. */
  predicate AppearsIgnoringCase(forms: seq<Bytes>, text: Bytes) {
    exists k, at: nat | 0 <= k < |forms| && at <= |text| :: OccursIgnoringCaseAt(text, forms[k], at)
  }

  lemma LowerOccurs(text: Bytes, form: Bytes, at: nat)
    ensures OccursAt(Lower(text), Lower(form), at) <==> OccursIgnoringCaseAt(text, form, at)
  {
    if at + |form| <= |text| {
      var slice := Lower(text)[at..at + |form|];
      assert forall i | 0 <= i < |form| :: slice[i] == LowerByte(text[at + i]);
      if OccursAt(Lower(text), Lower(form), at) {
        assert forall i | 0 <= i < |form| :: slice[i] == Lower(form)[i];
      }
      if OccursIgnoringCaseAt(text, form, at) {
        assert slice == Lower(form);
      }
    }
  }

  /** Folding both sides is searching without case. */
  lemma FoldedSearch(forms: seq<Bytes>, text: Bytes)
    ensures ContainsAny(LowerAll(forms), Lower(text)) <==> AppearsIgnoringCase(forms, text)
  {
    forall k, at: nat | 0 <= k < |forms| {
      LowerOccurs(text, forms[k], at);
    }
    if ContainsAny(LowerAll(forms), Lower(text)) {
      var k :| 0 <= k < |forms| && Contains(Lower(text), LowerAll(forms)[k]);
      var at: nat :| at <= |text| && OccursAt(Lower(text), Lower(forms[k]), at);
      assert OccursIgnoringCaseAt(text, forms[k], at);
    }
    if AppearsIgnoringCase(forms, text) {
      var k, at: nat :| 0 <= k < |forms| && at <= |text| && OccursIgnoringCaseAt(text, forms[k], at);
      assert OccursAt(Lower(text), LowerAll(forms)[k], at);
      assert Contains(Lower(text), LowerAll(forms)[k]);
    }
  }

  // ---------------------------------------------------------------- the set

  /** The text, if not too short, is a piece of a form. */
  predicate IsFragment(forms: seq<Bytes>, text: Bytes) {
    |text| >= 4 && exists k | 0 <= k < |forms| :: Contains(forms[k], text)
  }

  /** Where a candidate belongs in the ordered set. */
  function Rank(forms: seq<Bytes>, candidate: Bytes): (at: nat)
    ensures at <= |forms|
    ensures at < |forms| ==> !Less(forms[at], candidate)
    ensures forall i | 0 <= i < at :: Less(forms[i], candidate)
  {
    if forms == [] || !Less(forms[0], candidate) then 0 else 1 + Rank(forms[1..], candidate)
  }

  /** The ordered set with one form more, or the same set when it was there. */
  function Inserted(forms: seq<Bytes>, form: Bytes): seq<Bytes> {
    var at := Rank(forms, form);
    if at < |forms| && forms[at] == form then forms else forms[..at] + [form] + forms[at..]
  }

  /** The registered forms with their cached matchers: the value every clone of a secret set
      shares. */
  class Forms {
    var entries: seq<Bytes>
    var exact: Option<Matcher>
    var folded: Option<Matcher>
    var steps: nat

    ghost predicate Valid()
      reads this
    {
      && Ascending(entries)
      && (exact.Some? ==> IsMatcherOf(exact.value, entries))
      && (folded.Some? ==> IsMatcherOf(folded.value, LowerAll(entries)))
    }

    constructor ()
      ensures Valid() && entries == [] && steps == 0
    {
      entries, exact, folded, steps := [], None, None, 0;
    }

    /** Register a form: it joins once, and the matchers are dropped only when it is new. */
    method Push(candidate: Bytes)
      requires Valid()
      modifies this
      ensures Valid() && steps == old(steps) && entries == Inserted(old(entries), candidate)
      ensures candidate in entries
      ensures forall form :: form in entries <==> form in old(entries) || form == candidate
      ensures candidate in old(entries) ==>
                entries == old(entries) && exact == old(exact) && folded == old(folded)
      ensures candidate !in old(entries) ==> |entries| == |old(entries)| + 1 && exact == None && folded == None
    {
      var at := Rank(entries, candidate);
      RankFinds(entries, candidate);
      if at < |entries| && entries[at] == candidate {
        return;
      }
      InsertedAscends(entries, candidate);
      entries := entries[..at] + [candidate] + entries[at..];
      exact, folded := None, None;
    }

    /** Naive search over the forms, answered by an automaton that is made when there is none. */
    method FoundIn(text: Bytes, fold: bool) returns (found: bool)
      requires Valid()
      modifies `exact, `folded, `steps
      ensures Valid()
      ensures found <==> ContainsAny(if fold then LowerAll(entries) else entries, text)
      ensures old(steps) <= steps <= old(steps) + 2 * |text|
    {
      var taken;
      if fold {
        if folded.None? {
          var m := Matchers.New(LowerAll(entries));
          folded := Some(m);
        }
        found, taken := Find(folded.value, LowerAll(entries), text);
      } else {
        if exact.None? {
          var m := Matchers.New(entries);
          exact := Some(m);
        }
        found, taken := Find(exact.value, entries, text);
      }
      steps := steps + taken;
    }

    method CarriedBy(text: Bytes) returns (carried: bool)
      requires Valid()
      modifies `exact, `folded, `steps
      ensures Valid()
      ensures carried <==> ContainsAny(entries, text)
      ensures old(steps) <= steps <= old(steps) + 2 * |text|
    {
      carried := FoundIn(text, false);
    }

    method AppearsInIgnoringCase(text: Bytes) returns (appears: bool)
      requires Valid()
      modifies `exact, `folded, `steps
      ensures Valid()
      ensures appears <==> AppearsIgnoringCase(entries, text)
      ensures old(steps) <= steps <= old(steps) + 2 * |text|
    {
      FoldedSearch(entries, text);
      appears := FoundIn(Lower(text), true);
    }

    /** A form in the text, or the text a piece of a form. */
    method Taints(text: Bytes) returns (tainted: bool)
      requires Valid()
      modifies `exact, `folded, `steps
      ensures Valid()
      ensures tainted <==> ContainsAny(entries, text) || IsFragment(entries, text)
      ensures old(steps) <= steps <= old(steps) + 2 * |text|
    {
      tainted := FoundIn(text, false);
      tainted := tainted || IsFragment(entries, text);
    }
  }

  lemma {:induction false} RankFinds(forms: seq<Bytes>, candidate: Bytes)
    requires Ascending(forms)
    ensures var at := Rank(forms, candidate);
            candidate in forms <==> at < |forms| && forms[at] == candidate
  {
    var at := Rank(forms, candidate);
    if k :| 0 <= k < |forms| && forms[k] == candidate {
      LessIrreflexive(candidate);
      assert at <= k;
    }
  }

  lemma InsertedAscends(forms: seq<Bytes>, candidate: Bytes)
    requires Ascending(forms) && candidate !in forms
    ensures var at := Rank(forms, candidate); Ascending(forms[..at] + [candidate] + forms[at..])
  {
    var at := Rank(forms, candidate);
    var grown := forms[..at] + [candidate] + forms[at..];
    if at < |forms| {
      LessTotal(forms[at], candidate);
      assert Less(candidate, forms[at]);
    }
    forall j | at <= j < |forms|
      ensures Less(candidate, forms[j])
    {
      if at < j {
        LessTransitive(candidate, forms[at], forms[j]);
      }
    }
    forall i, j | 0 <= i < j < |grown|
      ensures Less(grown[i], grown[j])
    {
      assert grown[i] == if i < at then forms[i] else if i == at then candidate else forms[i - 1];
      assert grown[j] == if j < at then forms[j] else if j == at then candidate else forms[j - 1];
    }
  }

  // ---------------------------------------------------------------- whole runs

  /** What the rest of the program does with a secret set. */
  datatype Use = Register(form: Bytes) | Carried(text: Bytes) | AppearsFolded(text: Bytes) | Tainted(text: Bytes)

  ghost function Elements(forms: seq<Bytes>): set<Bytes> {
    set f | f in forms
  }

  ghost function Registered(forms: set<Bytes>, use: Use): set<Bytes> {
    if use.Register? then forms + {use.form} else forms
  }

  /** What naive search over `forms` answers (a registration answers nothing). */
  ghost function NaiveAnswer(forms: set<Bytes>, use: Use): seq<bool> {
    match use
    case Register(_) => []
    case Carried(text) => [exists f | f in forms :: Contains(text, f)]
    case AppearsFolded(text) =>
      [exists f, at: nat | f in forms && at <= |text| :: OccursIgnoringCaseAt(text, f, at)]
    case Tainted(text) =>
      [(exists f | f in forms :: Contains(text, f)) || (|text| >= 4 && exists f | f in forms :: Contains(f, text))]
  }

  /** The answers of naive search over the forms of each moment. */
  ghost function NaiveAnswers(forms: set<Bytes>, uses: seq<Use>): seq<bool>
    decreases |uses|
  {
    if uses == [] then []
    else NaiveAnswer(forms, uses[0]) + NaiveAnswers(Registered(forms, uses[0]), uses[1..])
  }

  function BytesRead(uses: seq<Use>): nat {
    if uses == [] then 0
    else (if uses[0].Register? then 0 else |uses[0].text|) + BytesRead(uses[1..])
  }

  /** Searching a list is searching its elements. */
  lemma SearchElements(forms: seq<Bytes>, text: Bytes)
    ensures ContainsAny(forms, text) <==> exists f | f in Elements(forms) :: Contains(text, f)
    ensures AppearsIgnoringCase(forms, text) <==>
            exists f, at: nat | f in Elements(forms) && at <= |text| :: OccursIgnoringCaseAt(text, f, at)
    ensures IsFragment(forms, text) <==> |text| >= 4 && exists f | f in Elements(forms) :: Contains(f, text)
  {
    if f, at: nat :| f in Elements(forms) && at <= |text| && OccursIgnoringCaseAt(text, f, at) {
      var k :| 0 <= k < |forms| && forms[k] == f;
      assert OccursIgnoringCaseAt(text, forms[k], at);
    }
  }

  method Do(forms: Forms, use: Use) returns (answer: seq<bool>)
    requires forms.Valid()
    modifies forms
    ensures forms.Valid()
    ensures Elements(forms.entries) == Registered(old(Elements(forms.entries)), use)
    ensures answer == NaiveAnswer(old(Elements(forms.entries)), use)
    ensures forms.steps <= old(forms.steps) + 2 * BytesRead([use])
  {
    if !use.Register? {
      SearchElements(forms.entries, use.text);
    }
    match use
    case Register(form) =>
      forms.Push(form);
      answer := [];
    case Carried(text) =>
      var found := forms.CarriedBy(text);
      answer := [found];
    case AppearsFolded(text) =>
      var found := forms.AppearsInIgnoringCase(text);
      answer := [found];
    case Tainted(text) =>
      var found := forms.Taints(text);
      answer := [found];
  }

  /**
   * Over any sequence of registrations and reads, through matchers built and dropped on the
   * way, every answer is naive search's over the forms of that moment, in at most two steps
   * per byte read.
   */
  method Run(forms: Forms, uses: seq<Use>) returns (answers: seq<bool>)
    requires forms.Valid()
    modifies forms
    ensures forms.Valid()
    ensures answers == NaiveAnswers(old(Elements(forms.entries)), uses)
    ensures forms.steps <= old(forms.steps) + 2 * BytesRead(uses)
  {
    answers := [];
    ghost var all := NaiveAnswers(Elements(forms.entries), uses);
    for i := 0 to |uses|
      invariant forms.Valid()
      invariant answers + NaiveAnswers(Elements(forms.entries), uses[i..]) == all
      invariant forms.steps + 2 * BytesRead(uses[i..]) <= old(forms.steps) + 2 * BytesRead(uses)
    {
      assert uses[i..][1..] == uses[i + 1..];
      var answer := Do(forms, uses[i]);
      answers := answers + answer;
    }
  }
}
