/**
 * One bounded line from a buffered input. The answer depends only on the bytes still to be
 * read, never on how the reads cut them into buffers or were interrupted.
 */
module LineReader {
  import opened Wrappers
  import opened ByteStrings

  const INPUT_LIMIT := 65536
  const LF: Byte := 10
  const CR: Byte := 13

  datatype Line = Text(bytes: Bytes) | TooLong | Eof

  /** How one `fill_buf` goes: at most so many bytes (at least one), or an interruption, or
      another failure. */
  datatype Fill = Upto(limit: nat) | Interrupted | Broken

  datatype Filled = Buffer(bytes: Bytes) | Interrupt | Failure

  /** An input: the bytes not yet consumed, and how the coming reads go (the reads after those
      return everything). */
  class Input {
    var rest: Bytes
    var fills: seq<Fill>

    constructor (stream: Bytes, fills: seq<Fill>)
      ensures rest == stream && this.fills == fills
    {
      this.rest, this.fills := stream, fills;
    }

    method FillBuf() returns (filled: Filled)
      modifies `fills
      ensures fills == if old(fills) == [] then [] else old(fills)[1..]
      ensures filled.Buffer? ==> filled.bytes <= rest && (filled.bytes == [] <==> rest == [])
      ensures filled.Interrupt? <==> old(fills) != [] && old(fills)[0].Interrupted?
      ensures filled.Failure? <==> old(fills) != [] && old(fills)[0].Broken?
    {
      if fills == [] {
        return Buffer(rest);
      }
      var fill := fills[0];
      fills := fills[1..];
      match fill
      case Interrupted => filled := Interrupt;
      case Broken => filled := Failure;
      case Upto(limit) =>
        var n := if limit == 0 then 1 else limit;
        filled := Buffer(if n <= |rest| then rest[..n] else rest);
    }

    method Consume(used: nat)
      requires used <= |rest|
      modifies `rest
      ensures rest == old(rest)[used..]
    {
      rest := rest[used..];
    }
  }

  // ---------------------------------------------------------------- what a line is

  /** How many bytes the first line has, its newline included. */
  function LineLength(stream: Bytes): (n: nat)
    ensures n <= |stream|
    ensures LF in stream <==> n > 0 && stream[n - 1] == LF
    ensures forall i | 0 <= i < n - 1 :: stream[i] != LF
    ensures LF !in stream ==> n == |stream|
  {
    if stream == [] then 0
    else if stream[0] == LF then 1
    else
      assert stream == [stream[0]] + stream[1..];
      1 + LineLength(stream[1..])
  }

  /** The line without its `\n` or `\r\n` break. */
  function WithoutBreak(line: Bytes): Bytes
    requires line != []
  {
    if |line| >= 2 && line[|line| - 2] == CR then line[..|line| - 2] else line[..|line| - 1]
  }

  /** The first line of a stream: bounded with its newline, given without it; the bytes as they
      are when the input ends first. */
  function FirstLine(stream: Bytes): Line {
    var n := LineLength(stream);
    if n > INPUT_LIMIT then TooLong
    else if stream == [] then Eof
    else if LF in stream then Text(WithoutBreak(stream[..n]))
    else Text(stream)
  }

  /** The position of the first newline of a buffer. */
  function NewlineIn(buffer: Bytes): (at: Option<nat>)
    ensures at.None? <==> LF !in buffer
    ensures at.Some? ==> at.value < |buffer| && buffer[at.value] == LF && LF !in buffer[..at.value]
  {
    if buffer == [] then None
    else if buffer[0] == LF then Some(0)
    else
      assert buffer == [buffer[0]] + buffer[1..];
      match NewlineIn(buffer[1..])
      case None => None
      case Some(at) =>
        assert buffer[..at + 1] == [buffer[0]] + buffer[1..][..at];
        Some(at + 1)
  }

  /** Bytes without a newline only lengthen the line that follows them. */
  lemma LineAfter(head: Bytes, tail: Bytes)
    requires LF !in head
    ensures LineLength(head + tail) == |head| + LineLength(tail)
  {
    var n, whole := LineLength(head + tail), head + tail;
    assert forall i | 0 <= i < |tail| :: tail[i] == whole[|head| + i];
    assert forall i | 0 <= i < |head| :: head[i] == whole[i];
    if LF in tail {
      assert LF in whole;
      assert whole[|head| + LineLength(tail) - 1] == LF;
    } else {
      assert LF !in whole;
    }
  }

  /** The reads still to come are the last of those there were. */
  predicate IsTail(fills: seq<Fill>, tail: seq<Fill>) {
    |tail| <= |fills| && tail == fills[|fills| - |tail|..]
  }

  /** How the last of the reads made went. */
  function LastUsed(fills: seq<Fill>, tail: seq<Fill>): Option<Fill> {
    if |tail| < |fills| then Some(fills[|fills| - |tail| - 1]) else None
  }

  lemma TailOfTail(fills: seq<Fill>, tail: seq<Fill>)
    requires IsTail(fills, tail)
    ensures tail != [] ==> IsTail(fills, tail[1..]) && LastUsed(fills, tail[1..]) == Some(tail[0])
  {
  }

  /** The bytes read so far hold no newline, and the loop has kept what it needs of them. */
  ghost predicate Reading(stream: Bytes, head: Bytes, rest: Bytes, line: Bytes, tooLong: bool) {
    stream == head + rest && LF !in head && Kept(head, line, tooLong)
  }

  /** How one turn of the loop ends. */
  datatype Turn = Again | ReadFailed | Answer(line: Line)

  /**
   * Read one line. Whatever the cuts and interruptions, the line is the stream's first line and
   * exactly its bytes are consumed; only a read that failed gives none.
   */
  method ReadLine(input: Input) returns (result: Result<Line, ()>)
    modifies input
    ensures result.Ok? ==> result.value == FirstLine(old(input.rest))
    ensures result.Ok? ==> input.rest == old(input.rest)[LineLength(old(input.rest))..]
    ensures IsTail(old(input.fills), input.fills)
    ensures result.Err? <==> LastUsed(old(input.fills), input.fills) == Some(Broken)
    ensures result.Err? ==> |input.rest| <= |old(input.rest)| &&
                            LF !in old(input.rest)[..|old(input.rest)| - |input.rest|]
  {
    var line: Bytes := [];
    var tooLong := false;
    ghost var stream, fills := input.rest, input.fills;
    ghost var head: Bytes := [];
    while true
      invariant Reading(stream, head, input.rest, line, tooLong)
      invariant IsTail(fills, input.fills) && LastUsed(fills, input.fills) != Some(Broken)
      decreases |input.rest|, |input.fills|
    {
      TailOfTail(fills, input.fills);
      var turn;
      turn, line, tooLong, head := ReadChunk(input, line, tooLong, stream, head);
      match turn
      case ReadFailed =>
        SplitAt(stream, head, input.rest);
        return Err(());
      case Answer(answer) =>
        return Ok(answer);
      case Again =>
    }
  }

  /** One turn: fill the buffer, take it up to its first newline, consume what was taken. */
  method ReadChunk(input: Input, line: Bytes, tooLong: bool, ghost stream: Bytes, ghost head: Bytes)
    returns (turn: Turn, line': Bytes, tooLong': bool, ghost head': Bytes)
    requires Reading(stream, head, input.rest, line, tooLong)
    modifies input
    ensures input.fills == if old(input.fills) == [] then [] else old(input.fills)[1..]
    ensures turn.ReadFailed? <==> old(input.fills) != [] && old(input.fills)[0].Broken?
    ensures !turn.Answer? ==> Reading(stream, head', input.rest, line', tooLong')
    ensures turn.Answer? ==> turn.line == FirstLine(stream) && input.rest == stream[LineLength(stream)..]
    ensures turn.Again? ==>
              |input.rest| < |old(input.rest)| || (input.rest == old(input.rest) && |input.fills| < |old(input.fills)|)
  {
    line', tooLong', head' := line, tooLong, head;
    var filled := input.FillBuf();
    if filled.Failure? {
      return ReadFailed, line', tooLong', head';
    }
    if filled.Interrupt? {
      return Again, line', tooLong', head';
    }
    if filled.bytes == [] {
      assert head + input.rest == head;
      AnswerAtEnd(stream, line, tooLong);
      return Answer(if tooLong then TooLong else if line == [] then Eof else Text(line)), line', tooLong', head';
    }
    var chunk, done;
    line', tooLong', chunk, done := TakeChunk(line, tooLong, filled.bytes, head);
    Shifted(stream, head, chunk, input.rest);
    input.Consume(|chunk|);
    if done {
      AnswerAtBreak(head, chunk, input.rest, line', tooLong');
      return Answer(if tooLong' then TooLong else Text(WithoutBreak(line'))), line', tooLong', head';
    }
    head' := head + chunk;
    turn := Again;
  }

  lemma AnswerAtEnd(stream: Bytes, line: Bytes, tooLong: bool)
    requires LF !in stream && Kept(stream, line, tooLong)
    ensures LineLength(stream) == |stream|
    ensures FirstLine(stream) == if tooLong then TooLong else if line == [] then Eof else Text(line)
  {
  }

  lemma AnswerAtBreak(head: Bytes, chunk: Bytes, rest: Bytes, line: Bytes, tooLong: bool)
    requires LF !in head && chunk != [] && chunk[|chunk| - 1] == LF && LF !in chunk[..|chunk| - 1]
    requires Kept(head + chunk, line, tooLong)
    ensures !tooLong ==> line != []
    ensures FirstLine(head + chunk + rest) == if tooLong then TooLong else Text(WithoutBreak(line))
    ensures (head + chunk + rest)[LineLength(head + chunk + rest)..] == rest
  {
    LineEnds(head, chunk, rest);
  }

  lemma SplitAt(stream: Bytes, head: Bytes, rest: Bytes)
    requires stream == head + rest
    ensures stream[..|head|] == head && stream[|head|..] == rest
  {
  }

  lemma Shifted(stream: Bytes, head: Bytes, chunk: Bytes, rest: Bytes)
    requires stream == head + rest && chunk <= rest
    ensures stream == head + chunk + rest[|chunk|..]
  {
    assert rest == chunk + rest[|chunk|..];
    Associative(head, chunk, rest[|chunk|..]);
  }

  /** Take a buffer up to its first newline, while the line still fits. */
  method TakeChunk(line: Bytes, tooLong: bool, buffer: Bytes, ghost head: Bytes)
    returns (line': Bytes, tooLong': bool, chunk: Bytes, done: bool)
    requires Kept(head, line, tooLong) && buffer != []
    ensures Kept(head + chunk, line', tooLong')
    ensures chunk != [] && chunk <= buffer
    ensures if done then chunk[|chunk| - 1] == LF && LF !in chunk[..|chunk| - 1] else LF !in chunk
  {
    var newline := NewlineIn(buffer);
    done := newline.Some?;
    chunk := if done then buffer[..newline.value + 1] else buffer;
    assert done ==> chunk[..|chunk| - 1] == buffer[..newline.value];
    line', tooLong' := line, tooLong;
    if !tooLong {
      if |line| + |chunk| > INPUT_LIMIT {
        tooLong', line' := true, [];
      } else {
        line' := line + chunk;
      }
    }
  }

  /** What the loop has of the bytes read so far: them, or only that they are too many. */
  ghost predicate Kept(head: Bytes, line: Bytes, tooLong: bool) {
    if tooLong then |head| > INPUT_LIMIT else line == head && |head| <= INPUT_LIMIT
  }

  /** A chunk that ends with the first newline ends the line. */
  lemma LineEnds(before: Bytes, chunk: Bytes, rest: Bytes)
    requires LF !in before && chunk != [] && chunk[|chunk| - 1] == LF && LF !in chunk[..|chunk| - 1]
    ensures var stream := before + chunk + rest;
            && LF in stream && LineLength(stream) == |before + chunk|
            && stream[..|before + chunk|] == before + chunk
            && stream[|before + chunk|..] == rest
  {
    var head := before + chunk[..|chunk| - 1];
    var stream := before + chunk + rest;
    assert stream == head + ([LF] + rest);
    LineAfter(head, [LF] + rest);
    assert stream[|head|] == LF;
  }

  // ---------------------------------------------------------------- written lines

  /** A line as it is typed: with `\n`, or with `\r\n`. */
  function Typed(text: Bytes, crlf: bool): Bytes {
    text + Ascii(if crlf then "\r\n" else "\n")
  }

  lemma TypedBreak(text: Bytes, crlf: bool)
    requires !crlf && text != [] ==> text[|text| - 1] != '\r' as int
    ensures WithoutBreak(Typed(text, crlf)) == text
  {
  }

  lemma TypedEnds(text: Bytes, crlf: bool)
    requires LF !in text
    ensures var typed := Typed(text, crlf); typed != [] && typed[|typed| - 1] == LF && LF !in typed[..|typed| - 1]
  {
    var typed := Typed(text, crlf);
    forall i | 0 <= i < |typed| - 1
      ensures typed[i] != LF
    {
      if i < |text| {
        assert typed[i] == text[i] && text[i] in text;
      }
    }
  }

  /** Every line that is typed within 64 KiB is read back, with either break, a longer one is
      refused, and the rest of the input is left. */
  lemma TypedLineIsRead(text: Bytes, crlf: bool, more: Bytes)
    requires '\n' as int !in text
    requires !crlf && text != [] ==> text[|text| - 1] != '\r' as int
    ensures FirstLine(Typed(text, crlf) + more) == if |Typed(text, crlf)| <= 65536 then Text(text) else TooLong
    ensures (Typed(text, crlf) + more)[LineLength(Typed(text, crlf) + more)..] == more
  {
    var typed := Typed(text, crlf);
    TypedEnds(text, crlf);
    LineEnds([], typed, more);
    assert [] + typed == typed;
    TypedBreak(text, crlf);
  }

  /** An input that ends without a newline is read as it is, and an empty one as the end. */
  lemma LastLineIsRead(text: Bytes)
    requires '\n' as int !in text
    ensures FirstLine(text) == if text == [] then Eof else if |text| <= 65536 then Text(text) else TooLong
  {
  }
}
