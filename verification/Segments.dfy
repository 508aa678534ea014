/**
 * The path-segment rule: a value put into a URL path must stay free of control characters,
 * backslashes and traversal parts however often it is percent-decoded.
 */
module Segments {
  import opened ByteStrings

  const SEGMENT_LIMIT := 4096
  const PERCENT: Byte := 37
  const DOT: Byte := 46
  const SLASH: Byte := 47
  const BACKSLASH: Byte := 92

  // ---------------------------------------------------------------- text

  /** The UTF-8 encoding of one character. */
  function Utf8Char(c: char): Bytes {
    var n := c as int;
    if n < 0x80 then [n]
    else if n < 0x800 then [0xC0 + n / 0x40, 0x80 + n % 0x40]
    else if n < 0x10000 then [0xE0 + n / 0x1000, 0x80 + n / 0x40 % 0x40, 0x80 + n % 0x40]
    else [0xF0 + n / 0x40000, 0x80 + n / 0x1000 % 0x40, 0x80 + n / 0x40 % 0x40, 0x80 + n % 0x40]
  }

  function Utf8(text: string): Bytes {
    if text == "" then [] else Utf8Char(text[0]) + Utf8(text[1..])
  }

  /** Whether a byte goes on with a character. */
  predicate GoesOn(b: Byte) {
    128 <= b < 192
  }

  /** The first byte says how many follow, and the character is read back from their payloads
      (section 3 of RFC 3629). */
  lemma Utf8CharReads(c: char)
    ensures var n, bytes := c as int, Utf8Char(c);
            && (n < 128 ==> bytes == [n])
            && (128 <= n < 2048 ==>
                  && |bytes| == 2 && 192 <= bytes[0] < 224 && GoesOn(bytes[1])
                  && n == (bytes[0] as int - 192) * 64 + (bytes[1] as int - 128))
            && (2048 <= n < 65536 ==>
                  && |bytes| == 3 && 224 <= bytes[0] < 240 && GoesOn(bytes[1]) && GoesOn(bytes[2])
                  && n == (bytes[0] as int - 224) * 4096 + (bytes[1] as int - 128) * 64 + (bytes[2] as int - 128))
            && (65536 <= n ==>
                  && |bytes| == 4 && 240 <= bytes[0] < 248 && GoesOn(bytes[1]) && GoesOn(bytes[2]) && GoesOn(bytes[3])
                  && n == (bytes[0] as int - 240) * 262144 + (bytes[1] as int - 128) * 4096
                          + (bytes[2] as int - 128) * 64 + (bytes[3] as int - 128))
  {
    var n := c as int;
    assert n / 0x1000 == n / 0x40 / 0x40 && n / 0x40000 == n / 0x1000 / 0x40;
  }

  /** A text is the bytes of its characters, one after the other. */
  lemma {:induction false} Utf8InParts(a: string, b: string)
    ensures Utf8(a + b) == Utf8(a) + Utf8(b)
    ensures |a| == 1 ==> Utf8(a) == Utf8Char(a[0])
  {
    if a == "" {
      assert a + b == b;
    } else {
      assert (a + b)[1..] == a[1..] + b;
      Utf8InParts(a[1..], b);
      assert Utf8(a) == Utf8Char(a[0]) + Utf8(a[1..]);
    }
  }

  /** `char::is_control`: the C0 controls, DEL and the C1 controls. */
  predicate IsControl(c: char) {
    c as int < 0x20 || 0x7F <= c as int < 0xA0
  }

  // ---------------------------------------------------------------- one decoding round

  function Hex(b: Byte): (digit: int)
    ensures -1 <= digit < 16
  {
    if 48 <= b <= 57 then b - 48
    else if 65 <= b <= 70 then b - 55
    else if 97 <= b <= 102 then b - 87
    else -1
  }

  /** A percent sign with two hexadecimal digits after it (section 2.1 of RFC 3986). */
  predicate IsTriplet(bytes: Bytes, index: nat) {
    && index + 2 < |bytes|
    && bytes[index] == PERCENT
    && Hex(bytes[index + 1]) >= 0
    && Hex(bytes[index + 2]) >= 0
  }

  /** The decoding of the bytes from `index` on. */
  function DecodedFrom(bytes: Bytes, index: nat): Bytes
    requires index <= |bytes|
    decreases |bytes| - index
  {
    if index == |bytes| then []
    else if IsTriplet(bytes, index) then
      [Hex(bytes[index + 1]) * 16 + Hex(bytes[index + 2])] + DecodedFrom(bytes, index + 3)
    else [bytes[index]] + DecodedFrom(bytes, index + 1)
  }

  function Decoded(bytes: Bytes): Bytes {
    DecodedFrom(bytes, 0)
  }

  /** The value percent-decoded `k` times. */
  function DecodedTimes(bytes: Bytes, k: nat): Bytes {
    if k == 0 then bytes else Decoded(DecodedTimes(bytes, k - 1))
  }

  method DecodeRound(decoded: Bytes) returns (next: Bytes)
    ensures next == Decoded(decoded)
  {
    next := [];
    var index: nat := 0;
    while index < |decoded|
      invariant index <= |decoded|
      invariant next + DecodedFrom(decoded, index) == Decoded(decoded)
    {
      if IsTriplet(decoded, index) {
        next := next + [Hex(decoded[index + 1]) * 16 + Hex(decoded[index + 2])];
        index := index + 3;
      } else {
        next := next + [decoded[index]];
        index := index + 1;
      }
    }
  }

  // ---------------------------------------------------------------- what is refused

  predicate IsAsciiControl(b: Byte) {
    b < 0x20 || b == 0x7F
  }

  /** The bytes between two slashes (or the ends). */
  ghost predicate IsPart(bytes: Bytes, i: nat, j: nat) {
    && i <= j <= |bytes|
    && (i == 0 || bytes[i - 1] == '/' as int)
    && (j == |bytes| || bytes[j] == '/' as int)
    && '/' as int !in bytes[i..j]
  }

  /** No control or backslash byte, and no `.` or `..` part (section 5.2.4 of RFC 3986). */
  ghost predicate Safe(bytes: Bytes) {
    && (forall i | 0 <= i < |bytes| :: 32 <= bytes[i] != 127 && bytes[i] != '\\' as int)
    && (forall i: nat, j: nat | IsPart(bytes, i, j) ::
          bytes[i..j] != ['.' as int] && bytes[i..j] != ['.' as int, '.' as int])
  }

  /** Rust's `split(|b| *b == b'/')`. */
  function Split(bytes: Bytes): (parts: seq<Bytes>)
    ensures |parts| >= 1
  {
    if bytes == [] then [[]]
    else
      var rest := Split(bytes[1..]);
      if bytes[0] == SLASH then [[]] + rest else [[bytes[0]] + rest[0]] + rest[1..]
  }

  predicate Traverses(bytes: Bytes) {
    exists k | 0 <= k < |Split(bytes)| :: Split(bytes)[k] == [DOT] || Split(bytes)[k] == [DOT, DOT]
  }

  predicate Refused(bytes: Bytes) {
    || (exists i | 0 <= i < |bytes| :: IsAsciiControl(bytes[i]) || bytes[i] == BACKSLASH)
    || Traverses(bytes)
  }

  // ---------------------------------------------------------------- splitting is parting

  lemma OneFurther(bytes: Bytes, i: nat, j: nat)
    requires i <= j < |bytes|
    ensures bytes[1..][i..j] == bytes[i + 1..j + 1]
    ensures [bytes[0]] + bytes[1..][..j] == bytes[..j + 1]
  {
  }

  lemma {:induction false} SplitIsPart(bytes: Bytes, k: nat) returns (i: nat, j: nat)
    requires k < |Split(bytes)|
    ensures IsPart(bytes, i, j) && bytes[i..j] == Split(bytes)[k]
    ensures k == 0 <==> i == 0
  {
    if bytes == [] || (bytes[0] == SLASH && k == 0) {
      i, j := 0, 0;
    } else {
      var rest := bytes[1..];
      i, j := SplitIsPart(rest, if bytes[0] == SLASH then k - 1 else k);
      OneFurther(bytes, i, j);
      if bytes[0] != SLASH && k == 0 {
        j := j + 1;
      } else {
        i, j := i + 1, j + 1;
      }
    }
  }

  lemma {:induction false} PartIsSplit(bytes: Bytes, i: nat, j: nat) returns (k: nat)
    requires IsPart(bytes, i, j)
    ensures k < |Split(bytes)| && Split(bytes)[k] == bytes[i..j]
    ensures k == 0 <==> i == 0
  {
    if bytes == [] {
      k := 0;
    } else {
      var rest := bytes[1..];
      if i > 0 {
        assert rest[i - 1..j - 1] == bytes[i..j];
        k := PartIsSplit(rest, i - 1, j - 1);
        if bytes[0] == SLASH {
          k := k + 1;
        }
      } else if bytes[0] == SLASH {
        assert bytes[0] !in bytes[0..j] ==> j == 0;
        k := 0;
      } else {
        assert j > 0 && bytes[0..j] == [bytes[0]] + rest[0..j - 1];
        assert forall b :: b in rest[0..j - 1] ==> b in bytes[0..j];
        k := PartIsSplit(rest, 0, j - 1);
      }
    }
  }

  /** The scan of a decoded value refuses exactly the unsafe ones. */
  lemma RefusedIsUnsafe(bytes: Bytes)
    ensures Refused(bytes) <==> !Safe(bytes)
  {
    if Traverses(bytes) {
      var k :| 0 <= k < |Split(bytes)| && (Split(bytes)[k] == [DOT] || Split(bytes)[k] == [DOT, DOT]);
      var i, j := SplitIsPart(bytes, k);
    }
    if i: nat, j: nat :| IsPart(bytes, i, j) && (bytes[i..j] == [DOT] || bytes[i..j] == [DOT, DOT]) {
      var k := PartIsSplit(bytes, i, j);
      assert Traverses(bytes);
    }
  }

  // ---------------------------------------------------------------- the fixpoint

  /** A round changes nothing, or shortens the bytes. */
  lemma {:induction false} RoundShortens(bytes: Bytes, index: nat)
    requires index <= |bytes|
    ensures DecodedFrom(bytes, index) == bytes[index..] || |DecodedFrom(bytes, index)| < |bytes| - index
    decreases |bytes| - index
  {
    if index < |bytes| {
      if IsTriplet(bytes, index) {
        RoundShortens(bytes, index + 3);
      } else {
        RoundShortens(bytes, index + 1);
        assert bytes[index..] == [bytes[index]] + bytes[index + 1..];
      }
    }
  }

  lemma {:induction false} StaysFixed(bytes: Bytes, r: nat, k: nat)
    requires DecodedTimes(bytes, r + 1) == DecodedTimes(bytes, r) && r <= k
    ensures DecodedTimes(bytes, k) == DecodedTimes(bytes, r)
  {
    if r < k {
      StaysFixed(bytes, r, k - 1);
    }
  }

  lemma {:induction false} ShorterEachRound(bytes: Bytes, k: nat)
    ensures DecodedTimes(bytes, k + 1) == DecodedTimes(bytes, k) || |DecodedTimes(bytes, k)| + k <= |bytes|
  {
    if k > 0 {
      var before := DecodedTimes(bytes, k - 1);
      ShorterEachRound(bytes, k - 1);
      RoundShortens(before, 0);
    }
  }

  /** Decoding ends: after as many rounds as there are bytes nothing changes any more. */
  lemma FixpointExists(bytes: Bytes, k: nat)
    requires k >= |bytes|
    ensures DecodedTimes(bytes, k) == DecodedTimes(bytes, |bytes|)
  {
    ShorterEachRound(bytes, |bytes|);
    if |DecodedTimes(bytes, |bytes|)| == 0 {
      assert DecodedTimes(bytes, |bytes| + 1) == [];
    }
    StaysFixed(bytes, |bytes|, k);
  }

  // ---------------------------------------------------------------- what a round reads

  /** The digits' two spellings. */
  const LOWER := "0123456789abcdef"
  const UPPER := "0123456789ABCDEF"

  predicate Spells(b: Byte, digit: int) {
    0 <= digit < 16 && (b == LOWER[digit] as int || b == UPPER[digit] as int)
  }

  predicate IsDigit(b: Byte) {
    exists digit | 0 <= digit < 16 :: Spells(b, digit)
  }

  lemma HexReads(b: Byte)
    ensures forall digit | 0 <= digit < 16 :: Spells(b, digit) <==> Hex(b) == digit
    ensures IsDigit(b) <==> Hex(b) >= 0
  {
    if Hex(b) >= 0 {
      assert Spells(b, Hex(b));
    }
  }

  /** What one turn of the decoding reads, and how far it goes. */
  function Turn(bytes: Bytes, index: nat): (Byte, nat)
    requires index < |bytes|
  {
    if IsTriplet(bytes, index) then (Hex(bytes[index + 1]) * 16 + Hex(bytes[index + 2]), index + 3)
    else (bytes[index], index + 1)
  }

  lemma TurnReads(bytes: Bytes, index: nat)
    requires index < |bytes|
    ensures index < Turn(bytes, index).1 <= |bytes|
    ensures DecodedFrom(bytes, index) == [Turn(bytes, index).0] + DecodedFrom(bytes, Turn(bytes, index).1)
  {
  }

  lemma TurnShifts(all: Bytes, offset: nat, bytes: Bytes, index: nat)
    requires offset <= |all| && all[offset..] == bytes && index < |bytes|
    ensures Turn(all, offset + index).0 == Turn(bytes, index).0
    ensures Turn(all, offset + index).1 == offset + Turn(bytes, index).1
  {
    assert forall k: nat | k < |bytes| :: bytes[k] == all[offset + k];
    assert bytes[index] == all[offset + index];
    assert index + 2 < |bytes| ==> bytes[index + 1] == all[offset + (index + 1)];
    assert index + 2 < |bytes| ==> bytes[index + 2] == all[offset + (index + 2)];
  }

  /** Decoding from a place is decoding what is there. */
  lemma {:induction false} DecodedShifts(all: Bytes, offset: nat, bytes: Bytes, index: nat)
    requires offset <= |all| && all[offset..] == bytes && index <= |bytes|
    ensures DecodedFrom(all, offset + index) == DecodedFrom(bytes, index)
    decreases |bytes| - index
  {
    if index < |bytes| {
      TurnReads(bytes, index);
      TurnReads(all, offset + index);
      TurnShifts(all, offset, bytes, index);
      DecodedShifts(all, offset, bytes, Turn(bytes, index).1);
    }
  }

  lemma DecodedAfter(before: Bytes, bytes: Bytes)
    ensures DecodedFrom(before + bytes, |before|) == Decoded(bytes)
  {
    DecodedShifts(before + bytes, |before|, bytes, 0);
  }

  /** No turn reaches from one part into another that does not begin with a digit. */
  lemma TurnWithin(before: Bytes, bytes: Bytes, index: nat)
    requires index < |before| && (bytes == [] || Hex(bytes[0]) < 0)
    ensures Turn(before + bytes, index) == Turn(before, index)
  {
    var all := before + bytes;
    assert forall k: nat | k < |before| :: all[k] == before[k];
    assert bytes != [] ==> all[|before|] == bytes[0];
    assert all[index] == before[index];
    assert index + 2 < |before| ==> all[index + 1] == before[index + 1] && all[index + 2] == before[index + 2];
  }

  lemma {:induction false} SplitFrom(before: Bytes, bytes: Bytes, index: nat)
    requires index <= |before| && (bytes == [] || Hex(bytes[0]) < 0)
    ensures DecodedFrom(before + bytes, index) == DecodedFrom(before, index) + Decoded(bytes)
    decreases |before| - index
  {
    if index == |before| {
      DecodedAfter(before, bytes);
    } else {
      var (read, next) := Turn(before, index);
      TurnReads(before, index);
      TurnReads(before + bytes, index);
      TurnWithin(before, bytes, index);
      SplitFrom(before, bytes, next);
      Associative([read], DecodedFrom(before, next), Decoded(bytes));
    }
  }

  /** A value is decoded in parts wherever the second does not begin with a digit. */
  lemma DecodedInParts(before: Bytes, bytes: Bytes)
    requires bytes == [] || !IsDigit(bytes[0])
    ensures Decoded(before + bytes) == Decoded(before) + Decoded(bytes)
  {
    if bytes != [] {
      HexReads(bytes[0]);
    }
    SplitFrom(before, bytes, 0);
  }

  lemma NoDigit(b: Byte)
    requires b == '%' as int || b == '/' as int || b == '.' as int
    ensures !IsDigit(b)
  {
    HexReads(b);
  }

  /** A byte written as a percent sign and its two digits, in either case each, is read back
      wherever it stands. */
  lemma WrittenByteIsRead(before: Bytes, b: Byte, high: Byte, low: Byte, after: Bytes)
    requires Spells(high, b / 16) && Spells(low, b % 16)
    ensures Decoded(before + ['%' as int, high, low] + after) == Decoded(before) + [b] + Decoded(after)
  {
    var written: Bytes := ['%' as int, high, low];
    HexReads(high);
    HexReads(low);
    NoDigit('%' as int);
    assert before + written + after == before + (written + after);
    DecodedInParts(before, written + after);
    assert (written + after)[0] == '%' as int && (written + after)[1] == high && (written + after)[2] == low;
    DecodedAfter(written, after);
    assert Decoded(written + after) == [b] + Decoded(after);
  }

  /** A percent sign without two digits after it stays. */
  lemma BarePercentStays(before: Bytes, after: Bytes)
    requires !(|after| >= 2 && IsDigit(after[0]) && IsDigit(after[1]))
    ensures Decoded(before + ['%' as int] + after) == Decoded(before) + ['%' as int] + Decoded(after)
  {
    var percent: Bytes := ['%' as int];
    NoDigit('%' as int);
    assert before + percent + after == before + (percent + after);
    DecodedInParts(before, percent + after);
    if |after| >= 2 {
      HexReads(after[0]);
      HexReads(after[1]);
    }
    assert !IsTriplet(percent + after, 0);
    DecodedAfter(percent, after);
    assert Decoded(percent + after) == percent + Decoded(after);
  }

  /** Any other byte stays. */
  lemma OtherByteStays(b: Byte, after: Bytes)
    requires b != '%' as int
    ensures Decoded([b] + after) == [b] + Decoded(after)
  {
    DecodedAfter([b], after);
  }

  /** One character, as it is or as a percent sign and two digits. */
  predicate Writes(bytes: Bytes, c: char) {
    && c as int < 256
    && (bytes == [c as int]
        || (|bytes| == 3 && bytes[0] == '%' as int
            && Spells(bytes[1], c as int / 16) && Spells(bytes[2], c as int % 16)))
  }

  /** A written dot or slash is read as one. */
  lemma WrittenIsRead(before: Bytes, written: Bytes, c: char, after: Bytes)
    requires Writes(written, c) && (c == '.' || c == '/')
    ensures Decoded(before + written + after) == Decoded(before) + [c as int] + Decoded(after)
  {
    if |written| == 3 {
      assert written == ['%' as int, written[1], written[2]];
      WrittenByteIsRead(before, c as int, written[1], written[2], after);
    } else {
      NoDigit(c as int);
      assert before + written + after == before + (written + after);
      DecodedInParts(before, written + after);
      OtherByteStays(c as int, after);
    }
  }

  /** The end of a text after a slash, however that is written, or its whole. */
  ghost predicate AtPart(before: Bytes) {
    before == [] || exists p, slash :: before == p + slash && Writes(slash, '/')
  }

  /** The beginning of a text before a slash, or its whole. */
  ghost predicate BeforePart(after: Bytes) {
    after == [] || exists slash, q :: after == slash + q && Writes(slash, '/')
  }

  /** A `.` or `..`, each dot written in either way. */
  ghost predicate Dots(bytes: Bytes) {
    Writes(bytes, '.') || exists first, second :: bytes == first + second && Writes(first, '.') && Writes(second, '.')
  }

  lemma AfterSlash(before: Bytes)
    requires AtPart(before)
    ensures Decoded(before) == [] || Decoded(before)[|Decoded(before)| - 1] == '/' as int
  {
    if before != [] {
      var p, slash :| before == p + slash && Writes(slash, '/');
      assert p + slash + [] == p + slash;
      WrittenIsRead(p, slash, '/', []);
    }
  }

  lemma ThenSlash(after: Bytes)
    requires BeforePart(after)
    ensures Decoded(after) == [] || Decoded(after)[0] == '/' as int
  {
    if after != [] {
      var slash, q :| after == slash + q && Writes(slash, '/');
      assert [] + slash + q == slash + q;
      WrittenIsRead([], slash, '/', q);
    }
  }

  lemma TwoDotsAreRead(before: Bytes, first: Bytes, second: Bytes, after: Bytes)
    requires Writes(first, '.') && Writes(second, '.')
    ensures Decoded(before + (first + second) + after)
            == Decoded(before) + ['.' as int, '.' as int] + Decoded(after)
  {
    assert before + (first + second) + after == (before + first) + second + after;
    WrittenIsRead(before + first, second, '.', after);
    assert before + first == before + first + [];
    WrittenIsRead(before, first, '.', []);
    var dot: Bytes := ['.' as int];
    assert Decoded(before + first) == Decoded(before) + dot;
    assert Decoded(before) + dot + dot == Decoded(before) + ['.' as int, '.' as int];
  }

  lemma DotsAreRead(before: Bytes, dots: Bytes, after: Bytes) returns (part: Bytes)
    requires Dots(dots)
    ensures part == ['.' as int] || part == ['.' as int, '.' as int]
    ensures Decoded(before + dots + after) == Decoded(before) + part + Decoded(after)
  {
    if Writes(dots, '.') {
      part := ['.' as int];
      WrittenIsRead(before, dots, '.', after);
    } else {
      part := ['.' as int, '.' as int];
      var first, second :| dots == first + second && Writes(first, '.') && Writes(second, '.');
      TwoDotsAreRead(before, first, second, after);
    }
  }

  /** A `.` or `..` between slashes, all of them written in any mixture of ways, is a traversal
      part after one round. */
  lemma WrittenDotsTraverse(before: Bytes, dots: Bytes, after: Bytes)
    requires AtPart(before) && Dots(dots) && BeforePart(after)
    ensures !Safe(Decoded(before + dots + after))
  {
    AfterSlash(before);
    ThenSlash(after);
    var part := DotsAreRead(before, dots, after);
    var i, n, bytes := |Decoded(before)|, |part|, Decoded(before + dots + after);
    assert bytes[i..i + n] == part && '/' as int !in part;
    assert i > 0 ==> bytes[i - 1] == Decoded(before)[i - 1];
    assert i + n < |bytes| ==> bytes[i + n] == Decoded(after)[0];
    assert IsPart(bytes, i, i + n);
  }

  // ---------------------------------------------------------------- the rule

  /**
   * A value is accepted if and only if it is nonempty, small, free of control characters,
   * safe after any number of decodings, and fully decoded after eight.
   */
  ghost predicate Accepted(value: string) {
    && 0 < |value| && |Utf8(value)| <= 4096
    && (forall i | 0 <= i < |value| :: 32 <= value[i] as int < 127 || 160 <= value[i] as int)
    && (forall k: nat :: Safe(DecodedTimes(Utf8(value), k)))
    && DecodedTimes(Utf8(value), 9) == DecodedTimes(Utf8(value), 8)
  }

  /** A value that holds a written traversal part, at whatever depth, is refused. */
  lemma WrittenDotsAreRefused(value: string, k: nat, before: Bytes, dots: Bytes, after: Bytes)
    requires DecodedTimes(Utf8(value), k) == before + dots + after
    requires AtPart(before) && Dots(dots) && BeforePart(after)
    ensures !Accepted(value)
  {
    WrittenDotsTraverse(before, dots, after);
    assert DecodedTimes(Utf8(value), k + 1) == Decoded(before + dots + after);
  }

  method SegmentOk(value: string) returns (ok: bool)
    ensures ok <==> Accepted(value)
  {
    var bytes := Utf8(value);
    if value == "" || |bytes| > SEGMENT_LIMIT || exists i | 0 <= i < |value| :: IsControl(value[i]) {
      return false;
    }
    var decoded := bytes;
    for round := 0 to 9
      invariant decoded == DecodedTimes(bytes, round)
      invariant forall k: nat | k < round :: Safe(DecodedTimes(bytes, k))
      invariant round > 0 ==> DecodedTimes(bytes, round) != DecodedTimes(bytes, round - 1)
    {
      RefusedIsUnsafe(decoded);
      if Refused(decoded) {
        return false;
      }
      var next := DecodeRound(decoded);
      if next == decoded {
        forall k: nat
          ensures Safe(DecodedTimes(bytes, k))
        {
          if k > round {
            StaysFixed(bytes, round, k);
          }
        }
        StaysFixed(bytes, round, 8);
        StaysFixed(bytes, round, 9);
        return true;
      }
      decoded := next;
    }
    return false;
  }
}
