/** Byte strings, and what it means for one to occur in another. */
module ByteStrings {

  type Byte = b: int | 0 <= b < 256

  type Bytes = seq<Byte>

  /** The bytes of a text of ASCII characters. */
  function Ascii(text: string): (bytes: Bytes)
    requires forall i | 0 <= i < |text| :: text[i] as int < 128
    ensures |bytes| == |text| && forall i | 0 <= i < |text| :: bytes[i] == text[i] as int
  {
    seq(|text|, i requires 0 <= i < |text| => text[i] as int)
  }

  predicate IsSuffix(s: Bytes, w: Bytes) {
    |s| <= |w| && w[|w| - |s|..] == s
  }

  predicate OccursAt(text: Bytes, part: Bytes, at: nat) {
    at + |part| <= |text| && text[at..at + |part|] == part
  }

  /** Naive substring search: the meaning of Rust's `text.contains(part)`. */
  predicate Contains(text: Bytes, part: Bytes) {
    exists at: nat | at <= |text| :: OccursAt(text, part, at)
  }

  lemma Associative(a: Bytes, b: Bytes, c: Bytes)
    ensures (a + b) + c == a + (b + c)
  {
  }

  lemma OccursPointwise(text: Bytes, part: Bytes, at: nat)
    ensures OccursAt(text, part, at) <==>
            at + |part| <= |text| && forall i | 0 <= i < |part| :: text[at + i] == part[i]
  {
    if at + |part| <= |text| {
      var slice := text[at..at + |part|];
      assert forall i | 0 <= i < |part| :: slice[i] == text[at + i];
    }
  }

  /** An occurrence in the first part of a text, and one in the second. */
  lemma OccursInFirst(a: Bytes, b: Bytes, part: Bytes, at: nat)
    requires at + |part| <= |a|
    ensures OccursAt(a + b, part, at) <==> OccursAt(a, part, at)
  {
    assert (a + b)[at..at + |part|] == a[at..at + |part|];
  }

  lemma OccursInSecond(a: Bytes, b: Bytes, part: Bytes, at: nat)
    requires at >= |a|
    ensures OccursAt(a + b, part, at) <==> OccursAt(b, part, at - |a|)
  {
    if at + |part| <= |a| + |b| {
      assert (a + b)[at..at + |part|] == b[at - |a|..at - |a| + |part|];
    }
  }

  /** Whether some part is a suffix of `w`. */
  predicate EndsWithAny(parts: seq<Bytes>, w: Bytes) {
    exists k | 0 <= k < |parts| :: IsSuffix(parts[k], w)
  }

  /** Whether some part occurs in `text`. */
  predicate ContainsAny(parts: seq<Bytes>, text: Bytes) {
    exists k | 0 <= k < |parts| :: Contains(text, parts[k])
  }

  /** Of two suffixes of one word, the shorter is a suffix of the longer. */
  lemma SuffixesNest(a: Bytes, b: Bytes, w: Bytes)
    requires IsSuffix(a, w) && IsSuffix(b, w) && |a| <= |b|
    ensures IsSuffix(a, b)
  {
    assert b[|b| - |a|..] == w[|w| - |a|..];
  }

  lemma SuffixTransitive(a: Bytes, b: Bytes, w: Bytes)
    requires IsSuffix(a, b) && IsSuffix(b, w)
    ensures IsSuffix(a, w)
  {
    assert w[|w| - |a|..] == b[|b| - |a|..];
  }

  /** A nonempty suffix of `w + [c]` is a suffix of `w` followed by `c`, and conversely. */
  lemma SuffixOfSnoc(s: Bytes, w: Bytes, c: Byte)
    requires s != []
    ensures IsSuffix(s, w + [c]) <==> s[|s| - 1] == c && IsSuffix(s[..|s| - 1], w)
  {
    var init := s[..|s| - 1];
    assert s == init + [s[|s| - 1]];
    if IsSuffix(s, w + [c]) {
      assert (w + [c])[|w + [c]| - |s|..][|s| - 1] == c;
      assert w[|w| - |init|..] == (w + [c])[|w + [c]| - |s|..][..|s| - 1];
    }
    if s[|s| - 1] == c && IsSuffix(init, w) {
      assert (w + [c])[|w + [c]| - |s|..] == w[|w| - |init|..] + [c];
    }
  }

  /** A text contains a part exactly when the part ends one of the text's prefixes. */
  lemma ContainsIsSuffixOfPrefix(text: Bytes, part: Bytes)
    ensures Contains(text, part) <==> exists i | 0 <= i <= |text| :: IsSuffix(part, text[..i])
  {
    if Contains(text, part) {
      var at: nat :| at <= |text| && OccursAt(text, part, at);
      assert text[..at + |part|][at..] == text[at..at + |part|];
      assert IsSuffix(part, text[..at + |part|]);
    }
    if i :| 0 <= i <= |text| && IsSuffix(part, text[..i]) {
      assert text[i - |part|..i] == text[..i][i - |part|..];
      assert OccursAt(text, part, i - |part|);
    }
  }

  lemma ContainsAnyIsSuffixOfPrefix(parts: seq<Bytes>, text: Bytes)
    ensures ContainsAny(parts, text) <==> exists i | 0 <= i <= |text| :: EndsWithAny(parts, text[..i])
  {
    forall k | 0 <= k < |parts| {
      ContainsIsSuffixOfPrefix(text, parts[k]);
    }
    if ContainsAny(parts, text) {
      var k :| 0 <= k < |parts| && Contains(text, parts[k]);
      var i :| 0 <= i <= |text| && IsSuffix(parts[k], text[..i]);
      assert EndsWithAny(parts, text[..i]);
    }
    if i :| 0 <= i <= |text| && EndsWithAny(parts, text[..i]) {
      var k :| 0 <= k < |parts| && IsSuffix(parts[k], text[..i]);
      assert Contains(text, parts[k]);
    }
  }

  // ---------------------------------------------------------------- order

  /** Byte-wise lexicographic order (Rust's order on strings). */
  predicate Less(a: Bytes, b: Bytes) {
    b != [] && (a == [] || a[0] < b[0] || (a[0] == b[0] && Less(a[1..], b[1..])))
  }

  lemma {:induction false} LessTotal(a: Bytes, b: Bytes)
    ensures Less(a, b) || a == b || Less(b, a)
  {
    if a != [] && b != [] && a[0] == b[0] {
      LessTotal(a[1..], b[1..]);
      assert a == [a[0]] + a[1..] && b == [b[0]] + b[1..];
    }
  }

  lemma {:induction false} LessTransitive(a: Bytes, b: Bytes, c: Bytes)
    requires Less(a, b) && Less(b, c)
    ensures Less(a, c)
  {
    if a != [] && a[0] == b[0] == c[0] {
      LessTransitive(a[1..], b[1..], c[1..]);
    }
  }

  lemma {:induction false} LessIrreflexive(a: Bytes)
    ensures !Less(a, a)
  {
    if a != [] {
      LessIrreflexive(a[1..]);
    }
  }

  /** The order is decided by the first part that differs. */
  lemma {:induction false} LessByParts(a: Bytes, b: Bytes, x: Bytes, y: Bytes)
    requires |a| == |b|
    requires Less(a, b) || (a == b && Less(x, y))
    ensures Less(a + x, b + y)
  {
    if a == [] {
      assert a + x == x && b + y == y;
    } else {
      assert (a + x)[1..] == a[1..] + x && (b + y)[1..] == b[1..] + y;
      if a[0] == b[0] {
        LessByParts(a[1..], b[1..], x, y);
      }
    }
  }
}
