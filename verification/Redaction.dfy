/**
 * `SecretSet::redact`: every occurrence of a registered form is replaced by the marker,
 * longest forms first. The output is clean for every text exactly when the marker's own text
 * holds no form, for forms without brackets.
 */
module Redaction {
  import opened ByteStrings
  import opened SecretSets

  const OPEN: Byte := 91
  const CLOSE: Byte := 93

  /** `withheld`, and the marker `[withheld]`. */
  const WORD: Bytes := [119, 105, 116, 104, 104, 101, 108, 100]
  const WITHHELD: Bytes := [OPEN] + WORD + [CLOSE]

  /** Rust's `str::replace` by the marker: leftmost matches, not overlapping. */
  function Replace(text: Bytes, form: Bytes): Bytes
    requires form != []
    decreases |text|
  {
    if |text| < |form| then text
    else if text[..|form|] == form then WITHHELD + Replace(text[|form|..], form)
    else [text[0]] + Replace(text[1..], form)
  }

  /** One round of `redact`: a form that does not occur changes nothing. */
  function RedactForm(text: Bytes, form: Bytes): Bytes {
    if form != [] && Contains(text, form) then Replace(text, form) else text
  }

  function RedactAll(text: Bytes, forms: seq<Bytes>): Bytes
    decreases |forms|
  {
    if forms == [] then text else RedactAll(RedactForm(text, forms[0]), forms[1..])
  }

  /** Stable insertion by descending length. */
  function InsertLongest(form: Bytes, forms: seq<Bytes>): (r: seq<Bytes>)
    ensures multiset(r) == multiset(forms) + multiset{form}
    ensures LongestFirst(forms) ==> LongestFirst(r)
  {
    if forms == [] || |form| >= |forms[0]| then [form] + forms
    else
      assert forms == [forms[0]] + forms[1..];
      var rest := InsertLongest(form, forms[1..]);
      StaysLongestFirst(forms, form, rest);
      [forms[0]] + rest
  }

  lemma StaysLongestFirst(forms: seq<Bytes>, form: Bytes, rest: seq<Bytes>)
    requires forms != [] && |form| <= |forms[0]|
    requires multiset(rest) == multiset(forms[1..]) + multiset{form}
    ensures LongestFirst(forms) && LongestFirst(rest) ==> LongestFirst([forms[0]] + rest)
    ensures LongestFirst(forms) ==> LongestFirst(forms[1..])
  {
    if LongestFirst(forms) {
      forall j | 0 <= j < |rest|
        ensures |rest[j]| <= |forms[0]|
      {
        assert rest[j] in multiset(rest);
        assert rest[j] == form || rest[j] in forms[1..];
      }
    }
  }

  /** `sort_by_key(|form| Reverse(form.len()))`, a stable sort. */
  function ByLength(forms: seq<Bytes>): (r: seq<Bytes>)
    ensures multiset(r) == multiset(forms) && LongestFirst(r)
  {
    if forms == [] then []
    else
      assert forms == [forms[0]] + forms[1..];
      InsertLongest(forms[0], ByLength(forms[1..]))
  }

  ghost predicate LongestFirst(forms: seq<Bytes>) {
    forall i, j | 0 <= i < j < |forms| :: |forms[i]| >= |forms[j]|
  }

  method Redact(forms: Forms, text: Bytes) returns (out: Bytes)
    requires forms.Valid()
    ensures out == RedactAll(text, ByLength(forms.entries))
  {
    var order := ByLength(forms.entries);
    out := text;
    for i := 0 to |order|
      invariant RedactAll(out, order[i..]) == RedactAll(text, order)
    {
      if order[i] != [] && Contains(out, order[i]) {
        out := Replace(out, order[i]);
      }
      assert order[i..][1..] == order[i + 1..];
    }
  }

  // ---------------------------------------------------------------- what is left

  ghost predicate Clean(text: Bytes, forms: seq<Bytes>) {
    forall k | 0 <= k < |forms| && forms[k] != [] :: !Contains(text, forms[k])
  }

  /** Laid over the marker `shift` bytes from its start, the form agrees where the two meet. */
  ghost predicate Overlaps(form: Bytes, shift: int) {
    forall i {:trigger form[i]} | 0 <= i < |form| && 0 <= shift + i < |WITHHELD| :: form[i] == WITHHELD[shift + i]
  }

  /** A form that can neither lie in the marker, nor around it, nor across one of its ends. */
  ghost predicate Apart(form: Bytes) {
    forall shift | -|form| < shift < |WITHHELD| :: !Overlaps(form, shift)
  }

  /** An occurrence that meets the marker overlaps it. */
  lemma MeetsMarker(a: Bytes, b: Bytes, form: Bytes, at: nat)
    requires OccursAt(a + WITHHELD + b, form, at)
    ensures Overlaps(form, at - |a|)
  {
    var text := a + WITHHELD + b;
    OccursPointwise(text, form, at);
    forall i | 0 <= i < |form| && 0 <= at - |a| + i < |WITHHELD|
      ensures form[i] == WITHHELD[at - |a| + i]
    {
      assert text[at + i] == form[i];
    }
  }

  /** An occurrence of such a form lies before or after a marker, never across it. */
  lemma AcrossMarker(a: Bytes, b: Bytes, form: Bytes)
    requires form != [] && Apart(form)
    ensures Contains(a + WITHHELD + b, form) ==> Contains(a, form) || Contains(b, form)
  {
    var text := a + WITHHELD + b;
    if !Contains(text, form) {
      return;
    }
    var at: nat :| at <= |text| && OccursAt(text, form, at);
    if at + |form| <= |a| {
      Associative(a, WITHHELD, b);
      OccursInFirst(a, WITHHELD + b, form, at);
    } else if at >= |a + WITHHELD| {
      OccursInSecond(a + WITHHELD, b, form, at);
      assert OccursAt(b, form, at - |a + WITHHELD|);
    } else {
      MeetsMarker(a, b, form, at);
    }
  }

  predicate BracketFree(form: Bytes) {
    OPEN !in form && CLOSE !in form
  }

  lemma NotAcrossStart(form: Bytes, shift: int)
    requires BracketFree(form) && -|form| < shift <= 0
    ensures !Overlaps(form, shift)
  {
    assert form[-shift] in form && form[-shift] != WITHHELD[0];
  }

  lemma NotAcrossEnd(form: Bytes, shift: int)
    requires BracketFree(form) && 0 < shift < |WITHHELD| <= shift + |form|
    ensures !Overlaps(form, shift)
  {
    assert form[|WITHHELD| - 1 - shift] in form && form[|WITHHELD| - 1 - shift] != WITHHELD[|WITHHELD| - 1];
  }

  lemma InsideIsInWord(form: Bytes, shift: int)
    requires 0 < shift && shift + |form| < |WITHHELD| && Overlaps(form, shift)
    ensures Contains(WORD, form)
  {
    forall i | 0 <= i < |form|
      ensures WORD[shift - 1 + i] == form[i]
    {
      assert form[i] == WITHHELD[shift + i];
    }
    OccursPointwise(WORD, form, shift - 1);
    assert OccursAt(WORD, form, shift - 1);
  }

  /** A form without brackets meets the marker only inside the word. */
  lemma BracketFreeIsApart(form: Bytes)
    requires form != [] && BracketFree(form) && !Contains(WORD, form)
    ensures Apart(form)
  {
    forall shift | -|form| < shift < |WITHHELD|
      ensures !Overlaps(form, shift)
    {
      if shift <= 0 {
        NotAcrossStart(form, shift);
      } else if |WITHHELD| <= shift + |form| {
        NotAcrossEnd(form, shift);
      } else if Overlaps(form, shift) {
        InsideIsInWord(form, shift);
      }
    }
  }

  lemma ContainsInPart(a: Bytes, b: Bytes, form: Bytes)
    ensures Contains(a, form) || Contains(b, form) ==> Contains(a + b, form)
  {
    if at: nat :| at <= |a| && OccursAt(a, form, at) {
      OccursInFirst(a, b, form, at);
    }
    if at: nat :| at <= |b| && OccursAt(b, form, at) {
      OccursInSecond(a, b, form, |a| + at);
      assert OccursAt(a + b, form, |a| + at);
    }
  }

  lemma Copied(kept: Bytes, text: Bytes, form: Bytes)
    requires form != [] && text != []
    ensures kept + [text[0]] + text[1..] == kept + text
    ensures |text| >= |form| && text[..|form|] != form ==>
              kept + Replace(text, form) == kept + [text[0]] + Replace(text[1..], form)
    ensures |text| >= |form| && text[..|form|] == form ==>
              && kept + Replace(text, form) == kept + WITHHELD + Replace(text[|form|..], form)
              && kept + text == kept + form + text[|form|..]
  {
    assert text == [text[0]] + text[1..];
    Associative(kept, [text[0]], text[1..]);
    if |text| >= |form| {
      if text[..|form|] == form {
        assert text == form + text[|form|..];
        Associative(kept, form, text[|form|..]);
        Associative(kept, WITHHELD, Replace(text[|form|..], form));
      } else {
        Associative(kept, [text[0]], Replace(text[1..], form));
      }
    }
  }

  /** Replacing one form makes no occurrence of another (`kept` is the text already copied). */
  lemma {:induction false} MakesNone(kept: Bytes, text: Bytes, form: Bytes, other: Bytes)
    requires form != [] && other != [] && Apart(other)
    requires !Contains(kept + text, other)
    ensures !Contains(kept + Replace(text, form), other)
    decreases |text|, 0
  {
    if |text| >= |form| {
      Copied(kept, text, form);
      if text[..|form|] == form {
        var rest := text[|form|..];
        ContainsInPart(kept + form, rest, other);
        ContainsInPart(kept, text, other);
        RestMakesNone(rest, form, other);
        AcrossMarker(kept, Replace(rest, form), other);
      } else {
        MakesNone(kept + [text[0]], text[1..], form, other);
      }
    }
  }

  lemma {:induction false} RestMakesNone(text: Bytes, form: Bytes, other: Bytes)
    requires form != [] && other != [] && Apart(other)
    requires !Contains(text, other)
    ensures !Contains(Replace(text, form), other)
    decreases |text|, 1
  {
    assert [] + text == text && [] + Replace(text, form) == Replace(text, form);
    MakesNone([], text, form, other);
  }

  /** None of the occurrences of a form begins in the text already copied. */
  ghost predicate NoneBegins(kept: Bytes, text: Bytes, form: Bytes) {
    forall at: nat | at < |kept| :: !OccursAt(kept + text, form, at)
  }

  lemma NotInKept(kept: Bytes, text: Bytes, form: Bytes)
    requires form != [] && NoneBegins(kept, text, form)
    ensures !Contains(kept, form)
  {
    forall at: nat | at + |form| <= |kept|
      ensures !OccursAt(kept, form, at)
    {
      OccursInFirst(kept, text, form, at);
    }
  }

  lemma NotYet(kept: Bytes, text: Bytes, form: Bytes)
    requires |text| >= |form| > 0 && text[..|form|] != form && NoneBegins(kept, text, form)
    ensures NoneBegins(kept + [text[0]], text[1..], form)
  {
    assert kept + [text[0]] + text[1..] == kept + text;
    OccursInSecond(kept, text, form, |kept|);
  }

  /** Replacing a form leaves none of it (none began in the text already copied). */
  lemma {:induction false} LeavesNone(kept: Bytes, text: Bytes, form: Bytes)
    requires form != [] && Apart(form)
    requires NoneBegins(kept, text, form)
    ensures !Contains(kept + Replace(text, form), form)
    decreases |text|, 0
  {
    if |text| >= |form| {
      Copied(kept, text, form);
      if text[..|form|] == form {
        var rest := text[|form|..];
        NotInKept(kept, text, form);
        RestLeavesNone(rest, form);
        AcrossMarker(kept, Replace(rest, form), form);
      } else {
        NotYet(kept, text, form);
        LeavesNone(kept + [text[0]], text[1..], form);
      }
    }
  }

  lemma {:induction false} RestLeavesNone(text: Bytes, form: Bytes)
    requires form != [] && Apart(form)
    ensures !Contains(Replace(text, form), form)
    decreases |text|, 1
  {
    assert [] + text == text && [] + Replace(text, form) == Replace(text, form);
    LeavesNone([], text, form);
  }

  lemma RoundLeavesNone(text: Bytes, form: Bytes)
    requires form != [] && Apart(form)
    ensures !Contains(RedactForm(text, form), form)
  {
    RestLeavesNone(text, form);
  }

  lemma {:induction false} StaysGone(text: Bytes, forms: seq<Bytes>, other: Bytes)
    requires other != [] && Apart(other) && !Contains(text, other)
    ensures !Contains(RedactAll(text, forms), other)
    decreases |forms|
  {
    if forms != [] {
      if forms[0] != [] {
        RestMakesNone(text, forms[0], other);
      }
      StaysGone(RedactForm(text, forms[0]), forms[1..], other);
    }
  }

  /** When no nonempty form can meet the marker, nothing registered is left, in any order. */
  lemma {:induction false} RedactAllIsClean(text: Bytes, forms: seq<Bytes>)
    requires forall k | 0 <= k < |forms| && forms[k] != [] :: Apart(forms[k])
    ensures Clean(RedactAll(text, forms), forms)
    decreases |forms|
  {
    if forms != [] {
      var next := RedactForm(text, forms[0]);
      RedactAllIsClean(next, forms[1..]);
      assert forall k | 1 <= k < |forms| :: forms[k] == forms[1..][k - 1];
      if forms[0] != [] {
        RoundLeavesNone(text, forms[0]);
        StaysGone(next, forms[1..], forms[0]);
      }
    }
  }

  // ---------------------------------------------------------------- and when it is not clean

  /** A text in which a form was replaced holds the marker. */
  lemma {:induction false} ReplacedHoldsMarker(text: Bytes, form: Bytes)
    requires form != [] && Contains(text, form)
    ensures Contains(Replace(text, form), WITHHELD)
    decreases |text|
  {
    var at: nat :| at <= |text| && OccursAt(text, form, at);
    if text[..|form|] == form {
      assert OccursAt(WITHHELD, WITHHELD, 0);
      ContainsInPart(WITHHELD, Replace(text[|form|..], form), WITHHELD);
    } else {
      assert at > 0;
      OccursPointwise(text, form, at);
      OccursPointwise(text[1..], form, at - 1);
      assert OccursAt(text[1..], form, at - 1);
      ReplacedHoldsMarker(text[1..], form);
      ContainsInPart([text[0]], Replace(text[1..], form), WITHHELD);
    }
  }

  lemma {:induction false} MarkerStays(text: Bytes, forms: seq<Bytes>)
    requires Contains(text, WITHHELD)
    ensures Contains(RedactAll(text, forms), WITHHELD)
    decreases |forms|
  {
    if forms != [] {
      if forms[0] != [] && Contains(text, forms[0]) {
        ReplacedHoldsMarker(text, forms[0]);
      }
      MarkerStays(RedactForm(text, forms[0]), forms[1..]);
    }
  }

  lemma ContainsTransitive(text: Bytes, mid: Bytes, form: Bytes)
    requires Contains(text, mid) && Contains(mid, form)
    ensures Contains(text, form)
  {
    var i: nat :| i <= |text| && OccursAt(text, mid, i);
    var j: nat :| j <= |mid| && OccursAt(mid, form, j);
    OccursPointwise(text, mid, i);
    OccursPointwise(mid, form, j);
    forall n | 0 <= n < |form|
      ensures text[i + j + n] == form[n]
    {
      assert text[i + (j + n)] == mid[j + n];
    }
    OccursPointwise(text, form, i + j);
    assert OccursAt(text, form, i + j);
  }

  /** Redacting a text that is itself a form ends in the marker: no longer form occurs in it. */
  lemma {:induction false} FormBecomesMarker(form: Bytes, forms: seq<Bytes>)
    requires form != [] && form in forms && LongestFirst(forms)
    ensures Contains(RedactAll(form, forms), WITHHELD)
  {
    assert OccursAt(form, form, 0);
    if Contains(form, forms[0]) {
      assert |forms[0]| >= |form|;
      ReplacedHoldsMarker(form, forms[0]);
      MarkerStays(RedactForm(form, forms[0]), forms[1..]);
    } else {
      assert form in forms[1..];
      FormBecomesMarker(form, forms[1..]);
    }
  }

  lemma OrderHasForms(forms: seq<Bytes>, form: Bytes)
    ensures form in ByLength(forms) <==> form in forms
  {
    assert form in ByLength(forms) <==> form in multiset(ByLength(forms));
    assert form in forms <==> form in multiset(forms);
  }

  /** Forms that cannot meet the marker are all gone from `redact`'s output, for every text. */
  lemma RedactIsClean(text: Bytes, forms: seq<Bytes>)
    requires forall k | 0 <= k < |forms| && forms[k] != [] :: Apart(forms[k])
    ensures Clean(RedactAll(text, ByLength(forms)), forms)
  {
    var order := ByLength(forms);
    forall k | 0 <= k < |order| && order[k] != []
      ensures Apart(order[k])
    {
      OrderHasForms(forms, order[k]);
      var j :| 0 <= j < |forms| && forms[j] == order[k];
    }
    RedactAllIsClean(text, order);
    forall k | 0 <= k < |forms| && forms[k] != []
      ensures !Contains(RedactAll(text, order), forms[k])
    {
      OrderHasForms(forms, forms[k]);
      var j :| 0 <= j < |order| && order[j] == forms[k];
    }
  }

  /** A form inside the marker is what redacting that form leaves. */
  lemma RedactIsNotClean(forms: seq<Bytes>, k: nat)
    requires k < |forms| && forms[k] != [] && Contains(WITHHELD, forms[k])
    ensures !Clean(RedactAll(forms[k], ByLength(forms)), forms)
  {
    OrderHasForms(forms, forms[k]);
    FormBecomesMarker(forms[k], ByLength(forms));
    ContainsTransitive(RedactAll(forms[k], ByLength(forms)), WITHHELD, forms[k]);
  }

  lemma CleanOutsideWord(forms: seq<Bytes>, text: Bytes)
    requires forall k | 0 <= k < |forms| && forms[k] != [] :: BracketFree(forms[k]) && !Contains(WORD, forms[k])
    ensures Clean(RedactAll(text, ByLength(forms)), forms)
  {
    forall k | 0 <= k < |forms| && forms[k] != []
      ensures Apart(forms[k])
    {
      BracketFreeIsApart(forms[k]);
    }
    RedactIsClean(text, forms);
  }

  lemma UncleanInsideWord(forms: seq<Bytes>, k: nat)
    requires k < |forms| && forms[k] != [] && Contains(WORD, forms[k])
    ensures !Clean(RedactAll(forms[k], ByLength(forms)), forms)
  {
    assert OccursAt(WITHHELD, WORD, 1);
    ContainsTransitive(WITHHELD, WORD, forms[k]);
    RedactIsNotClean(forms, k);
  }

  /**
   * For forms without brackets, `redact` is clean on every text if and only if no nonempty
   * form lies inside `withheld`.
   */
  lemma RedactIsCleanExactly(forms: seq<Bytes>)
    requires forall k | 0 <= k < |forms| :: BracketFree(forms[k])
    ensures (forall text :: Clean(RedactAll(text, ByLength(forms)), forms))
            <==> forall k | 0 <= k < |forms| && forms[k] != [] :: !Contains(WORD, forms[k])
  {
    if k :| 0 <= k < |forms| && forms[k] != [] && Contains(WORD, forms[k]) {
      UncleanInsideWord(forms, k);
    } else {
      forall text
        ensures Clean(RedactAll(text, ByLength(forms)), forms)
      {
        CleanOutsideWord(forms, text);
      }
    }
  }

  // ---------------------------------------------------------------- one form, brackets or not

  /** Whether the form begins earlier when it follows its own first `d` bytes. */
  predicate BeginsEarly(form: Bytes, d: nat)
    requires d <= |form|
  {
    exists j: nat | j < d :: OccursAt(form[..d] + form, form, j)
  }

  /** A marker can complete the form: it lies in the marker, goes on where the marker ends, or
      ends where the marker begins without being found earlier. */
  ghost predicate Completed(form: Bytes, shift: int) {
    -|form| < shift < |WITHHELD| && Overlaps(form, shift) && (shift < 0 ==> !BeginsEarly(form, -shift))
  }

  /** The text in which the marker completes the form. */
  function Completing(form: Bytes, shift: int): Bytes
    requires -|form| < shift < |WITHHELD|
  {
    if shift < 0 then form[..-shift] + form
    else if shift + |form| <= |WITHHELD| then form
    else form + form[|WITHHELD| - shift..]
  }

  lemma ReplaceShort(text: Bytes, form: Bytes)
    requires |text| < |form|
    ensures Replace(text, form) == text
  {
  }

  lemma ReplaceAtOnce(form: Bytes, rest: Bytes)
    requires form != []
    ensures Replace(form + rest, form) == WITHHELD + Replace(rest, form)
  {
    assert (form + rest)[..|form|] == form && (form + rest)[|form|..] == rest;
  }

  lemma BeginsLater(head: Bytes, form: Bytes)
    requires form != [] && head != [] && forall j: nat | j < |head| :: !OccursAt(head + form, form, j)
    ensures forall j: nat | j < |head[1..]| :: !OccursAt(head[1..] + form, form, j)
    ensures (head + form)[..|form|] != form && (head + form)[1..] == head[1..] + form
  {
    var tail := head[1..] + form;
    assert [head[0]] + tail == head + form;
    assert !OccursAt(head + form, form, 0);
    forall j: nat | j < |head[1..]|
      ensures !OccursAt(tail, form, j)
    {
      OccursInSecond([head[0]], tail, form, j + 1);
    }
  }

  /** Bytes in which the form does not begin are copied. */
  lemma {:induction false} ReplaceLater(head: Bytes, form: Bytes)
    requires form != [] && forall j: nat | j < |head| :: !OccursAt(head + form, form, j)
    ensures Replace(head + form, form) == head + WITHHELD
  {
    if head == [] {
      assert head + form == form + [];
      ReplaceAtOnce(form, []);
    } else {
      BeginsLater(head, form);
      ReplaceLater(head[1..], form);
      assert Replace(head + form, form) == [head[0]] + (head[1..] + WITHHELD);
      Associative([head[0]], head[1..], WITHHELD);
      assert head == [head[0]] + head[1..];
    }
  }

  /** Where the overlap lies when the marker stands between two texts. */
  lemma OverlapOccurs(a: Bytes, b: Bytes, form: Bytes, shift: int)
    requires Overlaps(form, shift) && 0 <= |a| + shift && |a| + shift + |form| <= |a| + |WITHHELD| + |b|
    requires forall i | 0 <= i < |form| && shift + i < 0 :: form[i] == a[|a| + shift + i]
    requires forall i | 0 <= i < |form| && |WITHHELD| <= shift + i :: form[i] == b[shift + i - |WITHHELD|]
    ensures Contains(a + WITHHELD + b, form)
  {
    var text := a + WITHHELD + b;
    var at := |a| + shift;
    forall i | 0 <= i < |form|
      ensures text[at + i] == form[i]
    {
    }
    OccursPointwise(text, form, at);
    assert OccursAt(text, form, at);
  }

  /** A form that begins before the marker and does not end inside holds it. */
  lemma HoldsMarker(form: Bytes, shift: int)
    requires shift < 0 && Overlaps(form, shift) && |WITHHELD| <= shift + |form|
    ensures Contains(form, WITHHELD)
  {
    forall i | 0 <= i < |WITHHELD|
      ensures form[-shift + i] == WITHHELD[i]
    {
      assert form[-shift + i] == WITHHELD[shift + (-shift + i)];
    }
    OccursPointwise(form, WITHHELD, -shift);
    assert OccursAt(form, WITHHELD, -shift);
  }

  lemma SurvivesBefore(form: Bytes, shift: int)
    requires -|form| < shift < 0 && Completed(form, shift) && shift + |form| < |WITHHELD|
    ensures Contains(Replace(Completing(form, shift), form), form)
  {
    var head := form[..-shift];
    ReplaceLater(head, form);
    forall i | 0 <= i < |form| && shift + i < 0
      ensures form[i] == head[|head| + shift + i]
    {
      assert |head| + shift + i == i;
    }
    OverlapOccurs(head, [], form, shift);
    assert head + WITHHELD + [] == head + WITHHELD;
  }

  lemma SurvivesInside(form: Bytes, shift: int)
    requires form != [] && Completed(form, shift) && 0 <= shift && shift + |form| <= |WITHHELD|
    ensures Contains(Replace(Completing(form, shift), form), form)
  {
    assert form + [] == form;
    ReplaceAtOnce(form, []);
    OverlapOccurs([], [], form, shift);
    assert [] + WITHHELD + [] == WITHHELD + [];
  }

  lemma SurvivesAfter(form: Bytes, shift: int)
    requires Completed(form, shift) && 0 <= shift && |WITHHELD| < shift + |form|
    ensures Contains(Replace(Completing(form, shift), form), form)
  {
    var rest := form[|WITHHELD| - shift..];
    ReplaceAtOnce(form, rest);
    ReplaceShort(rest, form);
    forall i | 0 <= i < |form| && |WITHHELD| <= shift + i
      ensures form[i] == rest[shift + i - |WITHHELD|]
    {
    }
    OverlapOccurs([], rest, form, shift);
    assert [] + WITHHELD + rest == WITHHELD + rest;
  }

  /** Such a form is left, in the text that leads to it. */
  lemma CompletedSurvives(form: Bytes, shift: int)
    requires form != [] && !Contains(form, WITHHELD) && Completed(form, shift)
    ensures Contains(Replace(Completing(form, shift), form), form)
  {
    if shift < 0 {
      if |WITHHELD| <= shift + |form| {
        HoldsMarker(form, shift);
      } else {
        SurvivesBefore(form, shift);
      }
    } else if shift + |form| <= |WITHHELD| {
      SurvivesInside(form, shift);
    } else {
      SurvivesAfter(form, shift);
    }
  }

  /** Where no marker completes the form, an occurrence that meets one would have begun earlier. */
  lemma NotCompleted(kept: Bytes, text: Bytes, tail: Bytes, form: Bytes, at: nat)
    requires form != [] && !Contains(form, WITHHELD) && forall shift :: !Completed(form, shift)
    requires |text| >= |form| && text[..|form|] == form && NoneBegins(kept, text, form)
    requires OccursAt(kept + WITHHELD + tail, form, at)
    ensures at + |form| <= |kept| || |kept + WITHHELD| <= at
  {
    var shift := at - |kept|;
    if -|form| < shift < |WITHHELD| {
      MeetsMarker(kept, tail, form, at);
      assert !Completed(form, shift);
      assert shift < 0 && BeginsEarly(form, -shift);
      var d: nat := -shift;
      var j: nat :| j < d && OccursAt(form[..d] + form, form, j);
      EarlierInKept(kept, text, tail, form, d, j);
    }
  }

  lemma EarlierInKept(kept: Bytes, text: Bytes, tail: Bytes, form: Bytes, d: nat, j: nat)
    requires j < d < |form| && d <= |kept| && OccursAt(form[..d] + form, form, j)
    requires |text| >= |form| && text[..|form|] == form
    requires OccursAt(kept + WITHHELD + tail, form, |kept| - d)
    ensures OccursAt(kept + text, form, |kept| - d + j)
  {
    var whole, own := kept + text, form[..d] + form;
    OccursPointwise(kept + WITHHELD + tail, form, |kept| - d);
    OccursPointwise(own, form, j);
    forall i | 0 <= i < |own|
      ensures whole[|kept| - d + i] == own[i]
    {
      if i < d {
        assert (kept + WITHHELD + tail)[|kept| - d + i] == form[i];
      } else {
        assert text[..|form|][i - d] == form[i - d];
      }
    }
    forall i | 0 <= i < |form|
      ensures whole[|kept| - d + j + i] == form[i]
    {
      assert own[j + i] == form[i];
    }
    OccursPointwise(whole, form, |kept| - d + j);
  }

  lemma {:induction false} OneFormLeavesNone(kept: Bytes, text: Bytes, form: Bytes)
    requires form != [] && !Contains(form, WITHHELD) && forall shift :: !Completed(form, shift)
    requires NoneBegins(kept, text, form)
    ensures !Contains(kept + Replace(text, form), form)
    decreases |text|, 0
  {
    if |text| >= |form| {
      Copied(kept, text, form);
      if text[..|form|] == form {
        var tail := Replace(text[|form|..], form);
        NotInKept(kept, text, form);
        OneFormRestLeavesNone(text[|form|..], form);
        forall at: nat | at <= |kept + WITHHELD + tail|
          ensures !OccursAt(kept + WITHHELD + tail, form, at)
        {
          if OccursAt(kept + WITHHELD + tail, form, at) {
            NotCompleted(kept, text, tail, form, at);
            BesideMarker(kept, tail, form, at);
          }
        }
      } else {
        NotYet(kept, text, form);
        OneFormLeavesNone(kept + [text[0]], text[1..], form);
      }
    }
  }

  lemma BesideMarker(a: Bytes, b: Bytes, form: Bytes, at: nat)
    requires OccursAt(a + WITHHELD + b, form, at) && (at + |form| <= |a| || |a + WITHHELD| <= at)
    ensures Contains(a, form) || Contains(b, form)
  {
    if at + |form| <= |a| {
      Associative(a, WITHHELD, b);
      OccursInFirst(a, WITHHELD + b, form, at);
    } else {
      OccursInSecond(a + WITHHELD, b, form, at);
      assert OccursAt(b, form, at - |a + WITHHELD|);
    }
  }

  lemma {:induction false} OneFormRestLeavesNone(text: Bytes, form: Bytes)
    requires form != [] && !Contains(form, WITHHELD) && forall shift :: !Completed(form, shift)
    ensures !Contains(Replace(text, form), form)
    decreases |text|, 1
  {
    assert [] + text == text && [] + Replace(text, form) == Replace(text, form);
    OneFormLeavesNone([], text, form);
  }

  lemma RedactOne(text: Bytes, form: Bytes)
    requires form != []
    ensures RedactAll(text, [form]) == RedactForm(text, form)
    ensures Clean(RedactAll(text, [form]), [form]) <==> !Contains(RedactForm(text, form), form)
  {
    assert [form][1..] == [] && [form][0] == form;
  }

  lemma OneFormUnclean(form: Bytes, shift: int)
    requires form != [] && !Contains(form, WITHHELD) && Completed(form, shift)
    ensures !Clean(RedactAll(Completing(form, shift), [form]), [form])
  {
    CompletedSurvives(form, shift);
    CompletingContains(form, shift);
    RedactOne(Completing(form, shift), form);
  }

  lemma OneFormClean(form: Bytes, text: Bytes)
    requires form != [] && !Contains(form, WITHHELD) && forall shift :: !Completed(form, shift)
    ensures Clean(RedactAll(text, [form]), [form])
  {
    OneFormRestLeavesNone(text, form);
    RedactOne(text, form);
  }

  /**
   * One registered form, brackets or not, that does not hold the whole marker: `redact` is clean
   * on every text if and only if no marker can complete the form.
   */
  lemma OneFormIsCleanExactly(form: Bytes)
    requires form != [] && !Contains(form, WITHHELD)
    ensures (forall text :: Clean(RedactAll(text, [form]), [form])) <==> forall shift :: !Completed(form, shift)
  {
    if shift :| Completed(form, shift) {
      OneFormUnclean(form, shift);
    } else {
      forall text
        ensures Clean(RedactAll(text, [form]), [form])
      {
        OneFormClean(form, text);
      }
    }
  }

  /** `a[` is such a form: of `aa[` it leaves `a[withheld]`. */
  lemma StraddlingSurvives()
    ensures var form: Bytes := [97, OPEN];
            !Apart(form) && !Clean(RedactAll([97] + form, [form]), [form])
  {
    var form: Bytes := [97, OPEN];
    assert Overlaps(form, -1);
    assert !BeginsEarly(form, 1) by {
      assert (form[..1] + form)[1] == 97;
      OccursPointwise(form[..1] + form, form, 0);
      assert form[1] != 97;
    }
    assert form[..1] == [97];
    OneFormUnclean(form, -1);
  }

  /** `[x[` overlaps the marker and is never left: before a marker it would have begun earlier. */
  lemma OverlapCanBeHarmless()
    ensures var form: Bytes := [OPEN, 120, OPEN];
            !Apart(form) && forall text :: Clean(RedactAll(text, [form]), [form])
  {
    var form: Bytes := [OPEN, 120, OPEN];
    assert Overlaps(form, -2);
    forall shift
      ensures !Completed(form, shift)
    {
      if shift == -2 {
        assert (form[..2] + form)[0..3] == form;
        assert OccursAt(form[..2] + form, form, 0);
      } else if shift == -1 {
        assert form[1] != WITHHELD[0];
      } else if shift == 0 {
        assert form[1] != WITHHELD[1];
      } else if 0 < shift < |WITHHELD| {
        assert form[0] != WITHHELD[shift];
      }
    }
    OneFormIsCleanExactly(form);
  }

  lemma CompletingContains(form: Bytes, shift: int)
    requires form != [] && -|form| < shift < |WITHHELD|
    ensures Contains(Completing(form, shift), form)
  {
    assert OccursAt(form, form, 0);
    if shift < 0 {
      ContainsInPart(form[..-shift], form, form);
    } else if shift + |form| > |WITHHELD| {
      ContainsInPart(form, form[|WITHHELD| - shift..], form);
    }
  }

  // ---------------------------------------------------------------- longest first

  lemma OnlyItselfFits(form: Bytes, other: Bytes)
    requires |other| >= |form| && Contains(form, other)
    ensures other == form
  {
    var at: nat :| at <= |form| && OccursAt(form, other, at);
    assert form[0..|form|] == form;
  }

  lemma {:induction false} MarkerIsKept(forms: seq<Bytes>)
    requires forall k | 0 <= k < |forms| && forms[k] != [] :: Apart(forms[k])
    ensures RedactAll(WITHHELD, forms) == WITHHELD
  {
    if forms != [] {
      if forms[0] != [] {
        AcrossMarker([], [], forms[0]);
        assert [] + WITHHELD + [] == WITHHELD;
      }
      MarkerIsKept(forms[1..]);
    }
  }

  /** A registered secret is withheld whole, however many of its parts are registered too. */
  lemma {:induction false} FormIsWithheldWhole(form: Bytes, forms: seq<Bytes>)
    requires forall k | 0 <= k < |forms| && forms[k] != [] :: Apart(forms[k])
    requires form != [] && form in forms && LongestFirst(forms)
    ensures RedactAll(form, forms) == WITHHELD
  {
    if forms[0] == form {
      assert OccursAt(form, form, 0);
      assert Replace(form, form) == WITHHELD;
      MarkerIsKept(forms[1..]);
    } else {
      if Contains(form, forms[0]) {
        OnlyItselfFits(form, forms[0]);
      }
      assert form in forms[1..];
      FormIsWithheldWhole(form, forms[1..]);
    }
  }
}
