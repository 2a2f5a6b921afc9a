/** The transparency procedure of `SMTPTransport::send` (section 4.5.2 of
    RFC 5321): while the message is copied to the socket, a '.' that
    begins a line is sent twice, so that no line of the message reads as
    the end-of-data line ".". The source applies the rule to each chunk
    read from the input stream separately. */
module DotStuffing {
  import opened ParserHelpers

  /** Whether the character after `s` starts a line, given whether the
      first character of `s` does. */
  function LineStartAfter(atLineStart: bool, s: string): bool {
    if s == [] then atLineStart else s[|s| - 1] == '\n'
  }

  /** Stuffing: one extra '.' before each '.' that starts a line. A line
      starts at the beginning when `atLineStart` holds, and after '\n'. */
  function StuffFrom(atLineStart: bool, s: string): string
    decreases |s|
  {
    if s == [] then [] else Emit(atLineStart, s[0]) + StuffFrom(s[0] == '\n', s[1..])
  }

  /** What one character becomes: a line-initial '.' is doubled. */
  function Emit(atLineStart: bool, c: char): string {
    if atLineStart && c == '.' then ".." else [c]
  }

  /** A message without dots goes out unchanged. */
  lemma {:induction false} NoDotUnchanged(atLineStart: bool, s: string)
    requires '.' !in s
    ensures StuffFrom(atLineStart, s) == s
    decreases |s|
  {
    if s != [] {
      assert s[0] != '.' && '.' !in s[1..];
      NoDotUnchanged(s[0] == '\n', s[1..]);
      assert [s[0]] + s[1..] == s;
    }
  }

  /** The receiver's side: a '.' that starts a line is dropped. */
  function UnstuffFrom(atLineStart: bool, s: string): string
    decreases |s|
  {
    if s == [] then []
    else if atLineStart && s[0] == '.' then UnstuffFrom(false, s[1..])
    else [s[0]] + UnstuffFrom(s[0] == '\n', s[1..])
  }

  /** Stuffing then unstuffing gives the message back. */
  lemma {:induction false} UnstuffStuff(atLineStart: bool, s: string)
    ensures UnstuffFrom(atLineStart, StuffFrom(atLineStart, s)) == s
    decreases |s|
  {
    if s != [] {
      var rest := StuffFrom(s[0] == '\n', s[1..]);
      UnstuffStuff(s[0] == '\n', s[1..]);
      if atLineStart && s[0] == '.' {
        assert StuffFrom(atLineStart, s) == ['.'] + (['.'] + rest);
        assert (['.'] + rest)[1..] == rest;
      } else {
        assert StuffFrom(atLineStart, s) == [s[0]] + rest;
      }
    }
  }

  /** Every '.' that starts a line of `s` is followed by a second '.'. */
  predicate LineDotsDoubled(atLineStart: bool, s: string)
    decreases |s|
  {
    s == [] ||
      ((atLineStart && s[0] == '.' ==> |s| >= 2 && s[1] == '.')
       && LineDotsDoubled(s[0] == '\n', s[1..]))
  }

  /** After stuffing no line starts with a lone '.', so the line "." that
      ends the data cannot occur inside the message. */
  lemma {:induction false} StuffedLineDotsDoubled(atLineStart: bool, s: string)
    ensures LineDotsDoubled(atLineStart, StuffFrom(atLineStart, s))
    decreases |s|
  {
    if s != [] {
      var rest := StuffFrom(s[0] == '\n', s[1..]);
      StuffedLineDotsDoubled(s[0] == '\n', s[1..]);
      if atLineStart && s[0] == '.' {
        var r := ['.'] + (['.'] + rest);
        assert StuffFrom(atLineStart, s) == r;
        assert r[1..] == ['.'] + rest;
        assert (['.'] + rest)[1..] == rest;
      } else {
        assert StuffFrom(atLineStart, s) == [s[0]] + rest;
        assert ([s[0]] + rest)[1..] == rest;
      }
    }
  }

  /** Stuffing a concatenation is stuffing each part, the second from the
      line state the first leaves. */
  lemma {:induction false} StuffAppend(atLineStart: bool, a: string, b: string)
    ensures StuffFrom(atLineStart, a + b)
      == StuffFrom(atLineStart, a) + StuffFrom(LineStartAfter(atLineStart, a), b)
    decreases |a|
  {
    if a == [] {
      assert a + b == b;
    } else {
      var c, t := a[0], a[1..];
      var after := LineStartAfter(atLineStart, a);
      StuffAppend(c == '\n', t, b);
      StuffAppendStep(atLineStart, c, t, b, after);
      assert [c] + t == a;
    }
  }

  /** Stuffing one character and then the rest. */
  lemma StuffCons(atLineStart: bool, c: char, t: string)
    ensures StuffFrom(atLineStart, [c] + t) == Emit(atLineStart, c) + StuffFrom(c == '\n', t)
  {
    assert ([c] + t)[1..] == t;
  }

  /** The induction step of `StuffAppend`, for a first part `[c] + t`. */
  lemma StuffAppendStep(atLineStart: bool, c: char, t: string, b: string, after: bool)
    requires after == LineStartAfter(atLineStart, [c] + t)
    requires StuffFrom(c == '\n', t + b)
      == StuffFrom(c == '\n', t) + StuffFrom(LineStartAfter(c == '\n', t), b)
    ensures StuffFrom(atLineStart, [c] + t + b) == StuffFrom(atLineStart, [c] + t) + StuffFrom(after, b)
  {
    LineStartAfterCons(atLineStart, c, t);
    ConsAppend(c, t, b);
    StuffCons(atLineStart, c, t + b);
    StuffCons(atLineStart, c, t);
    AppendAssoc(Emit(atLineStart, c), StuffFrom(c == '\n', t), StuffFrom(after, b));
  }

  lemma LineStartAfterCons(atLineStart: bool, c: char, t: string)
    ensures LineStartAfter(c == '\n', t) == LineStartAfter(atLineStart, [c] + t)
  {
    if t != [] {
      assert ([c] + t)[|t|] == t[|t| - 1];
    }
  }

  lemma ConsAppend(c: char, t: string, b: string)
    ensures [c] + t + b == [c] + (t + b)
  {
  }

  // ---------------------------------------------------------------------
  // The chunk loop as written

  /** One chunk as the source treats it: a '.' is doubled only when the
      byte before it in the same chunk is '\n'. The chunk's first byte
      never counts as the start of a line. */
  function StuffChunk(chunk: string): (r: string)
    ensures '.' !in chunk ==> r == chunk
  {
    assert '.' !in chunk ==> StuffFrom(false, chunk) == chunk by {
      if '.' !in chunk {
        NoDotUnchanged(false, chunk);
      }
    }
    StuffFrom(false, chunk)
  }

  /** The `std::find` loop over one chunk: bytes are sent from `start` up
      to each line-initial '.', then a single ".", and `start` moves to
      that '.'; the rest of the chunk is sent at the end. */
  method SendChunk(buffer: string) returns (sent: string)
    ensures sent == StuffChunk(buffer)
  {
    sent := [];
    var start := 0;
    var pos := 0;
    while true
      invariant SentUpTo(buffer, sent, start, pos)
      decreases |buffer| - pos
    {
      var k := IndexOf(buffer[pos..], '.');
      if k < 0 {
        break;
      }
      var q := pos + k;
      AdvancePastDot(buffer, sent, start, pos, k);
      if q > 0 && buffer[q - 1] == '\n' {
        sent := sent + buffer[start..q] + ".";
        start := q;
      }
      pos := q + 1;
    }
    SendRest(buffer, sent, start, pos);
    sent := sent + buffer[start..];
  }

  /** The loop invariant of `SendChunk`: what has been sent, followed by
      the pending bytes `buffer[start..pos]`, is the stuffed form of the
      bytes read so far. */
  predicate SentUpTo(buffer: string, sent: string, start: int, pos: int) {
    0 <= start <= pos <= |buffer| && sent + buffer[start..pos] == StuffFrom(false, buffer[..pos])
  }

  /** The loop invariant survives the step past the next '.', at offset
      `k` from `pos`, whether it is sent once (mid-line) or preceded by an
      extra '.' (line start). */
  lemma AdvancePastDot(buffer: string, sent: string, start: nat, pos: nat, k: int)
    requires SentUpTo(buffer, sent, start, pos) && 0 <= k == IndexOf(buffer[pos..], '.')
    ensures pos + k < |buffer|
    ensures var q := pos + k;
      q > 0 && buffer[q - 1] == '\n' ==> SentUpTo(buffer, sent + buffer[start..q] + ".", q, q + 1)
    ensures var q := pos + k;
      !(q > 0 && buffer[q - 1] == '\n') ==> SentUpTo(buffer, sent, start, q + 1)
  {
    DotAt(buffer, pos, k);
    AdvanceTo(buffer, sent, start, pos, pos + k);
  }

  /** `IndexOf` on the unread part names the next '.' of the buffer. */
  lemma DotAt(buffer: string, pos: nat, k: int)
    requires pos <= |buffer| && 0 <= k == IndexOf(buffer[pos..], '.')
    ensures pos + k < |buffer| && buffer[pos + k] == '.' && '.' !in buffer[pos..pos + k]
  {
    assert buffer[pos..][..k] == buffer[pos..pos + k];
  }

  lemma AdvanceTo(buffer: string, sent: string, start: nat, pos: nat, q: nat)
    requires start <= pos <= q < |buffer| && buffer[q] == '.' && '.' !in buffer[pos..q]
    requires sent + buffer[start..pos] == StuffFrom(false, buffer[..pos])
    ensures q > 0 && buffer[q - 1] == '\n' ==>
      (sent + buffer[start..q] + ".") + buffer[q..q + 1] == StuffFrom(false, buffer[..q + 1])
    ensures !(q > 0 && buffer[q - 1] == '\n') ==>
      sent + buffer[start..q + 1] == StuffFrom(false, buffer[..q + 1])
  {
    StepToDot(buffer, pos, q);
    var a, b := buffer[start..pos], buffer[pos..q];
    assert buffer[start..q] == a + b;
    assert buffer[start..q + 1] == a + b + ".";
    assert buffer[q..q + 1] == ".";
    Regroup(sent, a, b);
  }

  lemma Regroup(sent: string, a: string, b: string)
    ensures sent + (a + b) + "." + "." == (sent + a) + b + ".."
    ensures sent + (a + b + ".") == (sent + a) + b + "."
  {
  }

  /** After the last '.', the rest of the chunk completes the output. */
  lemma SendRest(buffer: string, sent: string, start: int, pos: int)
    requires SentUpTo(buffer, sent, start, pos) && IndexOf(buffer[pos..], '.') < 0
    ensures sent + buffer[start..] == StuffChunk(buffer)
  {
    RestHasNoDot(buffer, pos);
    assert buffer[start..] == buffer[start..pos] + buffer[pos..];
    AppendAssoc(sent, buffer[start..pos], buffer[pos..]);
  }

  /** Once no '.' is left, the rest of the chunk goes out unchanged. */
  lemma RestHasNoDot(buffer: string, pos: nat)
    requires pos <= |buffer| && '.' !in buffer[pos..]
    ensures StuffFrom(false, buffer) == StuffFrom(false, buffer[..pos]) + buffer[pos..]
  {
    var a, b := buffer[..pos], buffer[pos..];
    assert a + b == buffer;
    StuffAppend(false, a, b);
    NoDotUnchanged(LineStartAfter(false, a), b);
  }

  /** The effect of the bytes up to and including the next '.'. */
  lemma StepToDot(buffer: string, pos: nat, q: nat)
    requires pos <= q < |buffer| && buffer[q] == '.' && '.' !in buffer[pos..q]
    ensures StuffFrom(false, buffer[..q + 1])
      == StuffFrom(false, buffer[..pos]) + buffer[pos..q]
         + (if q > 0 && buffer[q - 1] == '\n' then ".." else ".")
  {
    var pre, mid := buffer[..pos], buffer[pos..q];
    assert pre + mid == buffer[..q];
    assert buffer[..q + 1] == buffer[..q] + ".";
    StuffAppend(false, buffer[..q], ".");
    StuffAppend(false, pre, mid);
    NoDotUnchanged(LineStartAfter(false, pre), mid);
    StuffDot(LineStartAfter(false, buffer[..q]));
    LineStartAfterPrefix(buffer, q);
  }

  lemma StuffDot(atLineStart: bool)
    ensures StuffFrom(atLineStart, ".") == if atLineStart then ".." else "."
  {
    assert "."[1..] == [];
  }

  lemma LineStartAfterPrefix(buffer: string, q: nat)
    requires q <= |buffer|
    ensures LineStartAfter(false, buffer[..q]) == (q > 0 && buffer[q - 1] == '\n')
  {
  }

  /** Concatenation of the chunks. */
  function Concat(chunks: seq<string>): string {
    if chunks == [] then [] else chunks[0] + Concat(chunks[1..])
  }

  /** The DATA payload as written: every chunk stuffed on its own. */
  function StuffChunksAsWritten(chunks: seq<string>): string {
    if chunks == [] then [] else StuffChunk(chunks[0]) + StuffChunksAsWritten(chunks[1..])
  }

  /** A '.' at index 0 of a chunk is never doubled, even when the chunk
      before it ended with '\n'. */
  lemma ChunkStartNeverDoubled(chunk: string)
    requires chunk != [] && chunk[0] == '.'
    ensures StuffChunk(chunk) == "." + StuffFrom(false, chunk[1..])
  {
  }

  /** The line break falls between two chunks, so the '.' that starts the
      second line is sent alone. */
  lemma AsWrittenMissesChunkBoundary()
    ensures StuffChunksAsWritten(["a\n", ".\r"]) == "a\n.\r"
    ensures !LineDotsDoubled(true, StuffChunksAsWritten(["a\n", ".\r"]))
  {
    var chunks := ["a\n", ".\r"];
    NoDotUnchanged(false, "a\n");
    ChunkStartNeverDoubled(".\r");
    NoDotUnchanged(false, ".\r"[1..]);
    assert chunks[1..] == [".\r"] && chunks[1..][1..] == [];
    assert StuffChunksAsWritten(chunks) == "a\n" + (".\r" + []);
    var out := "a\n.\r";
    assert out[1..] == "\n.\r" && out[1..][1..] == ".\r";
    assert !LineDotsDoubled(true, ".\r");
    assert LineDotsDoubled(false, out[1..]) == LineDotsDoubled(true, out[1..][1..]);
    assert LineDotsDoubled(true, out) == LineDotsDoubled(false, out[1..]);
  }

  /** The first line of the message is never stuffed: a message such as
      ".\r\nrest", whose first line is ".", ends the data at once. */
  lemma AsWrittenMissesFirstLine(rest: string)
    requires '.' !in rest
    ensures StuffChunksAsWritten(["." + rest]) == "." + rest
    ensures !LineDotsDoubled(true, StuffChunksAsWritten(["." + rest]))
  {
    var chunk := "." + rest;
    assert chunk[0] == '.' && chunk[1..] == rest;
    ChunkStartNeverDoubled(chunk);
    NoDotUnchanged(false, rest);
    var one: seq<string> := [chunk];
    assert |one[1..]| == 0;
    assert StuffChunksAsWritten(one) == StuffChunk(chunk) + StuffChunksAsWritten([]);
    assert |chunk| >= 2 ==> chunk[1] == rest[0];
  }

  // ---------------------------------------------------------------------
  // The corrected transfer

  /** Stuffing that carries the line state from one chunk to the next,
      starting at the beginning of a line (the DATA reply has just been
      read). */
  function StuffChunks(atLineStart: bool, chunks: seq<string>): string
    decreases |chunks|
  {
    if chunks == [] then []
    else StuffFrom(atLineStart, chunks[0])
         + StuffChunks(LineStartAfter(atLineStart, chunks[0]), chunks[1..])
  }

  /** How the message is cut into chunks does not change what is sent. */
  lemma {:induction false} ChunkingIsInvisible(atLineStart: bool, chunks: seq<string>)
    ensures StuffChunks(atLineStart, chunks) == StuffFrom(atLineStart, Concat(chunks))
    decreases |chunks|
  {
    if chunks != [] {
      ChunkingIsInvisible(LineStartAfter(atLineStart, chunks[0]), chunks[1..]);
      StuffAppend(atLineStart, chunks[0], Concat(chunks[1..]));
    }
  }

  /** The DATA payload of the corrected transfer, with the end-of-data
      line that `send` writes after it. */
  function DataPayload(chunks: seq<string>): (r: string)
    ensures |r| >= 5 && r[|r| - 5..] == "\r\n.\r\n"
    ensures UnstuffFrom(true, r[..|r| - 5]) == Concat(chunks)
    ensures LineDotsDoubled(true, r[..|r| - 5])
  {
    ChunkingIsInvisible(true, chunks);
    UnstuffStuff(true, Concat(chunks));
    StuffedLineDotsDoubled(true, Concat(chunks));
    var body := StuffChunks(true, chunks);
    assert (body + "\r\n.\r\n")[..|body|] == body;
    body + "\r\n.\r\n"
  }

  /** The corrected transfer doubles the dot after a chunk boundary ... */
  lemma CorrectedStuffsChunkBoundary()
    ensures StuffChunks(true, ["a\n", ".\r"]) == "a\n..\r"
  {
    var chunks := ["a\n", ".\r"];
    NoDotUnchanged(true, "a\n");
    NoDotUnchanged(false, ".\r"[1..]);
    assert StuffFrom(true, ".\r") == ".." + StuffFrom(false, ".\r"[1..]);
    assert chunks[1..] == [".\r"] && chunks[1..][1..] == [];
    assert StuffChunks(true, chunks) == "a\n" + ("..\r" + []);
  }

  /** ... and the dot that starts the message. */
  lemma CorrectedStuffsFirstLine(rest: string)
    requires '.' !in rest
    ensures StuffChunks(true, ["." + rest]) == ".." + rest
  {
    var chunk := "." + rest;
    assert chunk[1..] == rest;
    NoDotUnchanged(false, rest);
    var one: seq<string> := [chunk];
    assert |one[1..]| == 0;
    assert StuffChunks(true, one) == StuffFrom(true, chunk) + StuffChunks(false, []);
  }
}
