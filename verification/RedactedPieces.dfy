/**
 * What `SecretSet::redact` keeps: the output is the text with some occurrences of forms, no two
 * of which meet, each replaced by the marker, and every other byte in its place.
 */
module RedactedPieces {
  import opened ByteStrings
  import opened SecretSets
  import opened Redaction

  /** A piece of a text: a byte that stays, or an occurrence of a form that is withheld. */
  datatype Piece = Kept(byte: Byte) | Withheld(form: Bytes)

  /** The text the pieces were cut from. */
  function Source(pieces: seq<Piece>): Bytes {
    if pieces == [] then []
    else (if pieces[0].Kept? then [pieces[0].byte] else pieces[0].form) + Source(pieces[1..])
  }

  /** The text that shows of them. */
  function Shown(pieces: seq<Piece>): Bytes {
    if pieces == [] then []
    else (if pieces[0].Kept? then [pieces[0].byte] else Ascii("[withheld]")) + Shown(pieces[1..])
  }

  /** Only forms are withheld. */
  predicate OfForms(pieces: seq<Piece>, forms: seq<Bytes>) {
    forall i | 0 <= i < |pieces| :: pieces[i].Withheld? ==> pieces[i].form in forms && pieces[i].form != []
  }

  lemma MarkerText()
    ensures Ascii("[withheld]") == WITHHELD
  {
  }

  function Whole(text: Bytes): seq<Piece> {
    if text == [] then [] else [Kept(text[0])] + Whole(text[1..])
  }

  lemma {:induction false} WholeIsText(text: Bytes)
    ensures Source(Whole(text)) == text && Shown(Whole(text)) == text
    ensures forall i | 0 <= i < |Whole(text)| :: Whole(text)[i].Kept?
  {
    if text != [] {
      WholeIsText(text[1..]);
      assert Whole(text)[1..] == Whole(text[1..]) && text == [text[0]] + text[1..];
    }
  }

  /** An occurrence that would begin in the marker or before it and reach into it. */
  lemma NotIntoMarker(before: Bytes, k: nat, after: Bytes, form: Bytes)
    requires Apart(form) && k < |WITHHELD| && (before == [] || k == 0) && |before| < |form|
    ensures !OccursAt(before + WITHHELD[k..] + after, form, 0)
  {
    var marker := WITHHELD[..k];
    if OccursAt(before + WITHHELD[k..] + after, form, 0) {
      assert WITHHELD[..k] + WITHHELD[k..] == WITHHELD;
      if k == 0 {
        assert WITHHELD[0..] == WITHHELD;
        MeetsMarker(before, after, form, 0);
      } else {
        assert marker + (before + WITHHELD[k..] + after) == [] + WITHHELD + after;
        OccursInSecond(marker, before + WITHHELD[k..] + after, form, k);
        MeetsMarker([], after, form, k);
      }
    }
  }

  /** Replacing passes over a marker. */
  lemma {:induction false} PassesMarker(k: nat, after: Bytes, form: Bytes)
    requires form != [] && Apart(form) && k <= |WITHHELD|
    ensures Replace(WITHHELD[k..] + after, form) == WITHHELD[k..] + Replace(after, form)
    decreases |WITHHELD| - k
  {
    var text := WITHHELD[k..] + after;
    if k == |WITHHELD| {
      assert text == after;
    } else {
      NotIntoMarker([], k, after, form);
      assert [] + WITHHELD[k..] + after == text;
      assert text[0] == WITHHELD[k] && text[1..] == WITHHELD[k + 1..] + after;
      PassesMarker(k + 1, after, form);
      assert WITHHELD[k..] == [WITHHELD[k]] + WITHHELD[k + 1..];
      Associative([WITHHELD[k]], WITHHELD[k + 1..], Replace(after, form));
      if |text| >= |form| {
        assert text[0..|form|] == text[..|form|];
      }
    }
  }

  /** The piece that goes on with a form that shows at the beginning is kept. */
  lemma GoesOnInKept(before: Bytes, rest: seq<Piece>, form: Bytes)
    requires Apart(form) && |before| < |form| && rest != []
    requires |form| <= |before + Shown(rest)| && (before + Shown(rest))[..|form|] == form
    ensures rest[0] == Kept(form[|before|])
  {
    var all := before + Shown(rest);
    assert all[0..|form|] == form;
    if rest[0].Withheld? {
      MarkerText();
      assert WITHHELD[0..] == WITHHELD;
      Associative(before, WITHHELD, Shown(rest[1..]));
      NotIntoMarker(before, 0, Shown(rest[1..]), form);
    } else {
      assert all[|before|] == rest[0].byte && form[|before|] == all[..|form|][|before|];
    }
  }

  /** A form that shows at the beginning is made of kept bytes. */
  lemma {:induction false} BeginsInKept(pieces: seq<Piece>, form: Bytes, n: nat)
    requires Apart(form) && n <= |form| <= |Shown(pieces)| && Shown(pieces)[..|form|] == form
    ensures n <= |pieces| && forall i | 0 <= i < n :: pieces[i] == Kept(form[i])
    ensures Shown(pieces) == form[..n] + Shown(pieces[n..]) && Source(pieces) == form[..n] + Source(pieces[n..])
  {
    if n > 0 {
      var m: nat := n - 1;
      BeginsInKept(pieces, form, m);
      var rest := pieces[m..];
      assert |Shown(rest)| > 0;
      GoesOnInKept(form[..m], rest, form);
      assert rest[1..] == pieces[n..] && form[..n] == form[..m] + [form[m]];
      Associative(form[..m], [form[m]], Shown(pieces[n..]));
      Associative(form[..m], [form[m]], Source(pieces[n..]));
    }
  }

  lemma {:induction false} RoundInPieces(pieces: seq<Piece>, form: Bytes, forms: seq<Bytes>) returns (more: seq<Piece>)
    requires form != [] && Apart(form) && form in forms && OfForms(pieces, forms)
    ensures Source(more) == Source(pieces) && Shown(more) == Replace(Shown(pieces), form) && OfForms(more, forms)
    decreases |pieces|
  {
    var text := Shown(pieces);
    if |text| < |form| {
      more := pieces;
    } else if text[..|form|] == form {
      BeginsInKept(pieces, form, |form|);
      var rest := pieces[|form|..];
      assert OfForms(rest, forms);
      var after := RoundInPieces(rest, form, forms);
      more := [Withheld(form)] + after;
      assert more[1..] == after && form[..|form|] == form && text[|form|..] == Shown(rest);
      MarkerText();
    } else {
      var rest := pieces[1..];
      assert OfForms(rest, forms);
      var after := RoundInPieces(rest, form, forms);
      more := [pieces[0]] + after;
      assert more[1..] == after;
      if pieces[0].Kept? {
        assert text[1..] == Shown(rest);
      } else {
        MarkerText();
        assert WITHHELD[0..] == WITHHELD;
        PassesMarker(0, Shown(rest), form);
      }
    }
  }

  lemma {:induction false} RoundsInPieces(pieces: seq<Piece>, order: seq<Bytes>, forms: seq<Bytes>)
      returns (more: seq<Piece>)
    requires forall k | 0 <= k < |order| && order[k] != [] :: Apart(order[k]) && order[k] in forms
    requires OfForms(pieces, forms)
    ensures Source(more) == Source(pieces) && Shown(more) == RedactAll(Shown(pieces), order) && OfForms(more, forms)
    decreases |order|
  {
    if order == [] {
      more := pieces;
    } else {
      var next := pieces;
      if order[0] != [] && Contains(Shown(pieces), order[0]) {
        next := RoundInPieces(pieces, order[0], forms);
      }
      more := RoundsInPieces(next, order[1..], forms);
    }
  }

  /** Where no form can meet a marker, the output is the text in pieces: bytes that stay, in their
      order, and occurrences of registered forms, each shown as one marker. */
  lemma RedactKeepsTheRest(text: Bytes, forms: seq<Bytes>) returns (pieces: seq<Piece>)
    requires forall k | 0 <= k < |forms| && forms[k] != [] :: Apart(forms[k])
    ensures Source(pieces) == text && Shown(pieces) == RedactAll(text, ByLength(forms)) && OfForms(pieces, forms)
  {
    WholeIsText(text);
    var order := ByLength(forms);
    forall k | 0 <= k < |order| && order[k] != []
      ensures Apart(order[k]) && order[k] in forms
    {
      assert order[k] in multiset(order);
    }
    pieces := RoundsInPieces(Whole(text), order, forms);
  }

  lemma {:induction false} NothingReplaced(text: Bytes, form: Bytes)
    requires form != [] && forall at: nat | at < |text| :: text[at] != form[0]
    ensures Replace(text, form) == text
    decreases |text|
  {
    if |text| >= |form| {
      assert text[0] != form[0] && text[..|form|][0] == text[0];
      NothingReplaced(text[1..], form);
    }
  }

  /** A form that takes the beginning of the marker that stands for another one. */
  lemma TwoRounds(head: Bytes, form: Bytes, cut: Bytes, rest: Bytes)
    requires form != [] && cut != [] && (forall j: nat | j < |head| :: !OccursAt(head + form, form, j))
    requires head + WITHHELD == cut + rest && Replace(rest, cut) == rest
    ensures RedactAll(head + form, [form, cut]) == WITHHELD + rest
  {
    ReplaceLater(head, form);
    ReplaceAtOnce(cut, rest);
    OccursInSecond(head, form, form, |head|);
    assert OccursAt(form, form, 0) && OccursAt(head + form, form, |head|);
    assert OccursAt(cut, cut, 0);
    OccursInFirst(cut, rest, cut, 0);
    assert OccursAt(cut + rest, cut, 0);
    assert [form, cut][1..] == [cut] && [cut][1..] == [];
    assert RedactAll(cut + rest, [cut]) == RedactAll(RedactForm(cut + rest, cut), []);
  }

  /** Where a form can meet a marker, more than its occurrences in the text can go: of `xabc`, `x[`
      takes the bracket of the marker that stands for `abc`. */
  lemma MarkerCanBeCut()
    ensures var abc: Bytes, cut: Bytes := [97, 98, 99], [120, 91];
            !Apart(cut) && RedactAll([120] + abc, [abc, cut]) == Ascii("[withheld]") + Ascii("withheld]")
  {
    var abc: Bytes, cut: Bytes := [97, 98, 99], [120, 91];
    var rest: Bytes := Ascii("withheld]");
    MarkerText();
    assert [120] + WITHHELD == cut + rest;
    NothingReplaced(rest, cut);
    OtherBeginning([120], abc);
    TwoRounds([120], abc, cut, rest);
    assert Overlaps(cut, -1);
  }

  lemma OtherBeginning(head: Bytes, form: Bytes)
    requires |head| == 1 && form != [] && head[0] != form[0]
    ensures !OccursAt(head + form, form, 0)
  {
    OccursPointwise(head + form, form, 0);
    assert (head + form)[0 + 0] == head[0];
  }
}
