/** Unpadded base64 in the standard and the URL-safe alphabet, one of a secret's forms. */
module Base64 {
  import opened ByteStrings

  type Sextet = n: int | 0 <= n < 64

  /** The symbol at an alphabet's position: `A-Z a-z 0-9 + /`, or `- _` for the last two. */
  function Symbol(urlSafe: bool, n: Sextet): Byte {
    if n < 26 then 65 + n
    else if n < 52 then 71 + n
    else if n < 62 then n - 4
    else if n == 62 then (if urlSafe then 45 else 43)
    else if urlSafe then 95 else 47
  }

  function Symbols(urlSafe: bool, sextets: seq<Sextet>): (text: Bytes)
    ensures |text| == |sextets|
  {
    seq(|sextets|, i requires 0 <= i < |sextets| => Symbol(urlSafe, sextets[i]))
  }

  function Position(symbol: Byte): Sextet {
    if 65 <= symbol <= 90 then symbol - 65
    else if 97 <= symbol <= 122 then symbol - 71
    else if 48 <= symbol <= 57 then symbol + 4
    else if symbol == 43 || symbol == 45 then 62
    else 63
  }

  /** Six bits of a 24-bit group, from the top. */
  function Bits(group: nat, index: nat): Sextet {
    if index == 0 then group / 262144 % 64
    else if index == 1 then group / 4096 % 64
    else if index == 2 then group / 64 % 64
    else group % 64
  }

  /** The number at `i`, absent ones read as 0. */
  function At(s: seq<int>, i: nat): int {
    if i < |s| then s[i] else 0
  }

  function Group(chunk: Bytes): nat {
    At(chunk, 0) * 65536 + At(chunk, 1) * 256 + At(chunk, 2)
  }

  /** A chunk of one, two or three bytes has one symbol more than it has bytes. */
  function ChunkSextets(chunk: Bytes): (sextets: seq<Sextet>)
    requires 1 <= |chunk| <= 3
    ensures |sextets| == |chunk| + 1
  {
    seq(|chunk| + 1, i requires 0 <= i => Bits(Group(chunk), i))
  }

  function Sextets(bytes: Bytes): seq<Sextet>
    decreases |bytes|
  {
    if bytes == [] then []
    else if |bytes| < 3 then ChunkSextets(bytes)
    else ChunkSextets(bytes[..3]) + Sextets(bytes[3..])
  }

  /** The encoder's two loops: the chunks of three bytes, and the symbols of each. */
  method Encode(bytes: Bytes, urlSafe: bool) returns (out: Bytes)
    ensures out == Symbols(urlSafe, Sextets(bytes))
  {
    out := [];
    var rest := bytes;
    while rest != []
      invariant out + Symbols(urlSafe, Sextets(rest)) == Symbols(urlSafe, Sextets(bytes))
      decreases |rest|
    {
      var chunk := if |rest| < 3 then rest else rest[..3];
      var group := Group(chunk);
      var text: Bytes := [];
      for index := 0 to |chunk| + 1
        invariant text == Symbols(urlSafe, ChunkSextets(chunk)[..index])
      {
        text := text + [Symbol(urlSafe, Bits(group, index))];
      }
      ChunkSymbols(urlSafe, rest);
      Associative(out, text, Symbols(urlSafe, Sextets(rest[|chunk|..])));
      out := out + text;
      rest := rest[|chunk|..];
    }
  }

  lemma ChunkSymbols(urlSafe: bool, rest: Bytes)
    requires rest != []
    ensures var chunk := if |rest| < 3 then rest else rest[..3];
            Symbols(urlSafe, Sextets(rest))
            == Symbols(urlSafe, ChunkSextets(chunk)[..|chunk| + 1]) + Symbols(urlSafe, Sextets(rest[|chunk|..]))
  {
  }

  /** The alphabets (tables 1 and 2 of RFC 4648). */
  lemma SymbolsAreAlphabets(n: Sextet)
    ensures n < 26 ==> Symbol(false, n) == Symbol(true, n) == 'A' as int + n
    ensures 26 <= n < 52 ==> Symbol(false, n) == Symbol(true, n) == 'a' as int + (n - 26)
    ensures 52 <= n < 62 ==> Symbol(false, n) == Symbol(true, n) == '0' as int + (n - 52)
    ensures Symbol(false, 62) == '+' as int && Symbol(false, 63) == '/' as int
    ensures Symbol(true, 62) == '-' as int && Symbol(true, 63) == '_' as int
  {
  }

  // ---------------------------------------------------------------- decoding

  /** The bytes of a group of two, three or four symbols. */
  function ChunkBytes(sextets: seq<Sextet>): (bytes: Bytes)
    requires 2 <= |sextets| <= 4
    ensures |bytes| == |sextets| - 1
  {
    var group := At(sextets, 0) * 262144 + At(sextets, 1) * 4096 + At(sextets, 2) * 64 + At(sextets, 3);
    [group / 65536 % 256, group / 256 % 256, group % 256][..|sextets| - 1]
  }

  function Decode(sextets: seq<Sextet>): Bytes
    decreases |sextets|
  {
    if |sextets| < 2 then []
    else if |sextets| < 4 then ChunkBytes(sextets)
    else ChunkBytes(sextets[..4]) + Decode(sextets[4..])
  }

  /** Four sextets are the group. */
  lemma BitsMakeGroup(n: nat)
    requires n < 16777216
    ensures Bits(n, 0) * 262144 + Bits(n, 1) * 4096 + Bits(n, 2) * 64 + Bits(n, 3) == n
  {
    var a, b, c := n / 64, n / 4096, n / 262144;
    assert a / 64 == b && b / 64 == c && c < 64;
  }

  lemma GroupMakesBytes(b0: Byte, b1: Byte, b2: Byte)
    ensures var n := b0 * 65536 + b1 * 256 + b2;
            n / 65536 % 256 == b0 && n / 256 % 256 == b1 && n % 256 == b2
  {
    var n := b0 * 65536 + b1 * 256 + b2;
    assert n / 256 == b0 * 256 + b1 && n / 65536 == b0;
  }

  /** A short chunk's low sextets are zero, as the decoder reads them. */
  lemma ShortChunkBits(chunk: Bytes)
    requires 1 <= |chunk| <= 3
    ensures |chunk| < 3 ==> Bits(Group(chunk), 3) == 0
    ensures |chunk| < 2 ==> Bits(Group(chunk), 2) == 0
  {
    if |chunk| == 1 {
      assert Group(chunk) / 64 == At(chunk, 0) * 1024;
    } else if |chunk| == 2 {
      assert Group(chunk) == (At(chunk, 0) * 1024 + At(chunk, 1) * 4) * 64;
    }
  }

  lemma ChunkRoundTrip(chunk: Bytes)
    requires 1 <= |chunk| <= 3
    ensures ChunkBytes(ChunkSextets(chunk)) == chunk
  {
    var n, s := Group(chunk), ChunkSextets(chunk);
    ShortChunkBits(chunk);
    BitsMakeGroup(n);
    assert At(s, 0) == Bits(n, 0) && At(s, 1) == Bits(n, 1) && At(s, 2) == Bits(n, 2) && At(s, 3) == Bits(n, 3);
    GroupMakesBytes(At(chunk, 0), At(chunk, 1), At(chunk, 2));
  }

  lemma {:induction false} SextetsRoundTrip(bytes: Bytes)
    ensures Decode(Sextets(bytes)) == bytes
    decreases |bytes|
  {
    if |bytes| >= 3 {
      var head, tail := bytes[..3], bytes[3..];
      ChunkRoundTrip(head);
      SextetsRoundTrip(tail);
      assert Sextets(bytes)[..4] == ChunkSextets(head) && Sextets(bytes)[4..] == Sextets(tail);
      assert bytes == head + tail;
    } else if bytes != [] {
      ChunkRoundTrip(bytes);
    }
  }

  /** Either alphabet's text decodes to the secret's bytes, so no two secrets share a form. */
  lemma Base64RoundTrip(bytes: Bytes, urlSafe: bool)
    ensures var text := Symbols(urlSafe, Sextets(bytes));
            Decode(seq(|text|, i requires 0 <= i < |text| => Position(text[i]))) == bytes
  {
    var sextets := Sextets(bytes);
    var text := Symbols(urlSafe, sextets);
    var back := seq(|text|, i requires 0 <= i < |text| => Position(text[i]));
    assert forall n: Sextet :: Position(Symbol(urlSafe, n)) == n;
    assert back == sextets;
    SextetsRoundTrip(bytes);
  }
}
