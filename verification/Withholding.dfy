/**
 * `withhold`: a printed document without its secrets. A string with a form in it turns into the
 * marker; a member named after one is left out, value and all.
 */
module Withholding {
  import opened ByteStrings
  import opened SecretSets
  import opened Redaction

  datatype OValue =
    | Null
    | Bool(b: bool)
    | Number(lexeme: string)
    | String(text: Bytes)
    | Array(items: seq<OValue>)
    | Object(entries: seq<Member>)

  datatype Member = Member(name: Bytes, value: OValue)

  function Withhold(value: OValue, forms: seq<Bytes>): OValue {
    match value
    case String(text) => if ContainsAny(forms, text) then String(WITHHELD) else value
    case Object(entries) => Object(WithholdMembers(entries, forms))
    case Array(items) => Array(WithholdItems(items, forms))
    case _ => value
  }

  function WithholdItems(items: seq<OValue>, forms: seq<Bytes>): (r: seq<OValue>) {
    if items == [] then [] else [Withhold(items[0], forms)] + WithholdItems(items[1..], forms)
  }

  function WithholdMembers(entries: seq<Member>, forms: seq<Bytes>): seq<Member> {
    if entries == [] then []
    else
      var rest := WithholdMembers(entries[1..], forms);
      if ContainsAny(forms, entries[0].name) then rest
      else [entries[0].(value := Withhold(entries[0].value, forms))] + rest
  }

  // ---------------------------------------------------------------- the traversal

  /** The members whose names carry no form. */
  function Retained(entries: seq<Member>, forms: seq<Bytes>): seq<Member> {
    if entries == [] then []
    else (if ContainsAny(forms, entries[0].name) then [] else [entries[0]]) + Retained(entries[1..], forms)
  }

  /** The members that are left, each with its value withheld. */
  function WithholdEach(entries: seq<Member>, forms: seq<Bytes>): (r: seq<Member>)
    ensures |r| == |entries|
    ensures forall i | 0 <= i < |entries| :: r[i] == entries[i].(value := Withhold(entries[i].value, forms))
  {
    if entries == [] then []
    else [entries[0].(value := Withhold(entries[0].value, forms))] + WithholdEach(entries[1..], forms)
  }

  /** Dropping members first and withholding what is left is one pass over the members. */
  lemma {:induction false} DropThenWithhold(entries: seq<Member>, forms: seq<Bytes>)
    ensures WithholdEach(Retained(entries, forms), forms) == WithholdMembers(entries, forms)
  {
    if entries != [] {
      DropThenWithhold(entries[1..], forms);
      if !ContainsAny(forms, entries[0].name) {
        assert Retained(entries, forms)[1..] == Retained(entries[1..], forms);
      }
    }
  }

  lemma {:induction false} RetainedAreMembers(entries: seq<Member>, forms: seq<Bytes>, i: nat)
    requires i < |Retained(entries, forms)|
    ensures Retained(entries, forms)[i] in entries
  {
    if ContainsAny(forms, entries[0].name) {
      RetainedAreMembers(entries[1..], forms, i);
    } else if i > 0 {
      RetainedAreMembers(entries[1..], forms, i - 1);
    }
  }

  lemma RetainedFrom(entries: seq<Member>, forms: seq<Bytes>, i: nat)
    requires i < |entries|
    ensures Retained(entries[i..], forms) ==
            (if ContainsAny(forms, entries[i].name) then [] else [entries[i]]) + Retained(entries[i + 1..], forms)
  {
    assert entries[i..][1..] == entries[i + 1..];
  }

  lemma {:induction false} WithholdItemsAt(items: seq<OValue>, forms: seq<Bytes>)
    ensures |WithholdItems(items, forms)| == |items|
    ensures forall i | 0 <= i < |items| :: WithholdItems(items, forms)[i] == Withhold(items[i], forms)
  {
    if items != [] {
      WithholdItemsAt(items[1..], forms);
    }
  }

  method RetainMembers(secrets: Forms, entries: seq<Member>) returns (kept: seq<Member>)
    requires secrets.Valid()
    modifies secrets`exact, secrets`folded, secrets`steps
    ensures secrets.Valid() && kept == Retained(entries, secrets.entries)
  {
    kept := [];
    ghost var forms := secrets.entries;
    ghost var all := Retained(entries, forms);
    for i := 0 to |entries|
      invariant secrets.Valid() && secrets.entries == forms
      invariant kept + Retained(entries[i..], forms) == all
    {
      RetainedFrom(entries, forms, i);
      var carried := secrets.CarriedBy(entries[i].name);
      ghost var rest := Retained(entries[i + 1..], forms);
      if !carried {
        Regroup(kept, entries[i], rest);
        kept := kept + [entries[i]];
      }
    }
  }

  lemma Regroup(kept: seq<Member>, entry: Member, rest: seq<Member>)
    ensures kept + ([entry] + rest) == (kept + [entry]) + rest
  {
  }

  /** The recursion over a document, asking the secret set's matcher about every text. */
  method WithholdDocument(secrets: Forms, value: OValue) returns (r: OValue)
    requires secrets.Valid()
    modifies secrets`exact, secrets`folded, secrets`steps
    ensures secrets.Valid() && r == Withhold(value, secrets.entries)
    decreases value, 0
  {
    match value
    case String(text) =>
      var carried := secrets.CarriedBy(text);
      r := if carried then String(WITHHELD) else value;
    case Object(entries) =>
      var kept := RetainMembers(secrets, entries);
      forall i | 0 <= i < |kept|
        ensures kept[i] in entries
      {
        RetainedAreMembers(entries, secrets.entries, i);
      }
      var done := WithholdEachMember(secrets, entries, kept);
      DropThenWithhold(entries, secrets.entries);
      r := Object(done);
    case Array(items) =>
      var done := WithholdEachItem(secrets, items);
      r := Array(done);
    case _ =>
      r := value;
  }

  method WithholdEachMember(secrets: Forms, ghost entries: seq<Member>, kept: seq<Member>) returns (done: seq<Member>)
    requires secrets.Valid() && forall i | 0 <= i < |kept| :: kept[i] in entries
    modifies secrets`exact, secrets`folded, secrets`steps
    ensures secrets.Valid() && done == WithholdEach(kept, secrets.entries)
    decreases entries
  {
    done := [];
    ghost var all := WithholdEach(kept, secrets.entries);
    for i := 0 to |kept|
      invariant secrets.Valid() && done == all[..i]
    {
      assert kept[i] in entries;
      var member := WithholdDocument(secrets, kept[i].value);
      done := done + [kept[i].(value := member)];
    }
  }

  method WithholdEachItem(secrets: Forms, items: seq<OValue>) returns (done: seq<OValue>)
    requires secrets.Valid()
    modifies secrets`exact, secrets`folded, secrets`steps
    ensures secrets.Valid() && done == WithholdItems(items, secrets.entries)
    decreases items
  {
    done := [];
    ghost var all := WithholdItems(items, secrets.entries);
    WithholdItemsAt(items, secrets.entries);
    for i := 0 to |items|
      invariant secrets.Valid() && done == all[..i]
    {
      var item := WithholdDocument(secrets, items[i]);
      done := done + [item];
    }
  }

  // ---------------------------------------------------------------- what is printed

  /** A text printed somewhere in the document, as a string or as a member's name. */
  ghost predicate Shows(value: OValue, text: Bytes, asName: bool) {
    match value
    case String(t) => !asName && t == text
    case Array(items) => exists i | 0 <= i < |items| :: Shows(items[i], text, asName)
    case Object(entries) =>
      exists i | 0 <= i < |entries| ::
        (asName && entries[i].name == text) || Shows(entries[i].value, text, asName)
    case _ => false
  }

  /** Nothing printed carries a form, but for strings that are the marker. */
  ghost predicate Discreet(value: OValue, forms: seq<Bytes>) {
    && (forall text | Shows(value, text, true) :: !ContainsAny(forms, text))
    && (forall text | Shows(value, text, false) :: ContainsAny(forms, text) ==> text == WITHHELD)
  }

  lemma {:induction false} WithheldShows(value: OValue, forms: seq<Bytes>, text: Bytes, asName: bool)
    requires Shows(Withhold(value, forms), text, asName)
    ensures Shows(value, text, asName) || (!asName && text == WITHHELD)
    ensures ContainsAny(forms, text) ==> !asName && text == WITHHELD
  {
    match value
    case Array(items) =>
      var i :| 0 <= i < |WithholdItems(items, forms)| && Shows(WithholdItems(items, forms)[i], text, asName);
      WithheldItem(items, forms, i);
      WithheldShows(items[i], forms, text, asName);
    case Object(entries) =>
      var kept := WithholdMembers(entries, forms);
      var i :| 0 <= i < |kept| && ((asName && kept[i].name == text) || Shows(kept[i].value, text, asName));
      var j := WithheldMember(entries, forms, i);
      if Shows(kept[i].value, text, asName) {
        WithheldShows(entries[j].value, forms, text, asName);
      }
    case _ =>
  }

  lemma {:induction false} WithheldItem(items: seq<OValue>, forms: seq<Bytes>, i: nat)
    requires i < |WithholdItems(items, forms)|
    ensures |WithholdItems(items, forms)| == |items|
    ensures WithholdItems(items, forms)[i] == Withhold(items[i], forms)
  {
    if i > 0 {
      WithheldItem(items[1..], forms, i - 1);
    } else if |items| > 1 {
      WithheldItem(items[1..], forms, 0);
    }
  }

  /** A kept member is one of the document's, its name discreet and its value withheld. */
  lemma {:induction false} WithheldMember(entries: seq<Member>, forms: seq<Bytes>, i: nat) returns (j: nat)
    requires i < |WithholdMembers(entries, forms)|
    ensures i <= j < |entries|
    ensures !ContainsAny(forms, entries[j].name)
    ensures WithholdMembers(entries, forms)[i] == Member(entries[j].name, Withhold(entries[j].value, forms))
  {
    if ContainsAny(forms, entries[0].name) {
      var k := WithheldMember(entries[1..], forms, i);
      j := k + 1;
    } else if i == 0 {
      j := 0;
    } else {
      var k := WithheldMember(entries[1..], forms, i - 1);
      j := k + 1;
    }
  }

  /** Every member whose name is discreet is kept. */
  lemma {:induction false} DiscreetMemberIsKept(entries: seq<Member>, forms: seq<Bytes>, j: nat)
    requires j < |entries| && !ContainsAny(forms, entries[j].name)
    ensures Member(entries[j].name, Withhold(entries[j].value, forms)) in WithholdMembers(entries, forms)
  {
    if j > 0 {
      DiscreetMemberIsKept(entries[1..], forms, j - 1);
    }
  }

  /** What is printed after `withhold` is discreet, at every depth. */
  lemma WithheldIsDiscreet(value: OValue, forms: seq<Bytes>)
    ensures Discreet(Withhold(value, forms), forms)
  {
    forall text, asName | Shows(Withhold(value, forms), text, asName)
      ensures ContainsAny(forms, text) ==> !asName && text == WITHHELD
    {
      WithheldShows(value, forms, text, asName);
    }
  }

  /** A discreet document is left exactly as it is, so `withhold` is idempotent. */
  lemma {:induction false} DiscreetIsKept(value: OValue, forms: seq<Bytes>)
    requires Discreet(value, forms)
    ensures Withhold(value, forms) == value
    decreases value
  {
    match value
    case String(text) => assert Shows(value, text, false);
    case Array(items) =>
      forall i | 0 <= i < |items|
        ensures Withhold(items[i], forms) == items[i]
      {
        assert forall text, asName | Shows(items[i], text, asName) :: Shows(value, text, asName);
        DiscreetIsKept(items[i], forms);
      }
      ItemsKept(items, forms);
    case Object(entries) =>
      forall i | 0 <= i < |entries|
        ensures !ContainsAny(forms, entries[i].name) && Withhold(entries[i].value, forms) == entries[i].value
      {
        assert Shows(value, entries[i].name, true);
        assert forall text, asName | Shows(entries[i].value, text, asName) :: Shows(value, text, asName);
        DiscreetIsKept(entries[i].value, forms);
      }
      MembersKept(entries, forms);
    case _ =>
  }

  lemma {:induction false} ItemsKept(items: seq<OValue>, forms: seq<Bytes>)
    requires forall i | 0 <= i < |items| :: Withhold(items[i], forms) == items[i]
    ensures WithholdItems(items, forms) == items
  {
    if items != [] {
      ItemsKept(items[1..], forms);
    }
  }

  lemma {:induction false} MembersKept(entries: seq<Member>, forms: seq<Bytes>)
    requires forall i | 0 <= i < |entries| ::
               !ContainsAny(forms, entries[i].name) && Withhold(entries[i].value, forms) == entries[i].value
    ensures WithholdMembers(entries, forms) == entries
  {
    if entries != [] {
      MembersKept(entries[1..], forms);
    }
  }

  lemma WithholdTwice(value: OValue, forms: seq<Bytes>)
    ensures Withhold(Withhold(value, forms), forms) == Withhold(value, forms)
  {
    WithheldIsDiscreet(value, forms);
    DiscreetIsKept(Withhold(value, forms), forms);
  }
}
