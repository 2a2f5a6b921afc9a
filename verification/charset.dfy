/** A charset name and the two transcoding drivers built around an
    abstract conversion primitive (the iconv library is not part of this
    model). */
module Charset {
  import opened Exceptions
  import opened ParserHelpers
  import opened FieldTypes

  datatype Charset = Charset(name: string)

  /** Value of `charsets::US_ASCII`; the constants file is not part of this
      model, the lower-case spelling is assumed. */
  const UsAsciiName: string := "us-ascii"

  /** `charset()`: the default charset. */
  function Default(): (c: Charset)
    ensures EqualNoCase(c.name, "US-ASCII")
  {
    Charset(UsAsciiName)
  }

  /** `charset::parse`: the whole range is the name, taken verbatim. */
  function Parse(buffer: string, position: nat, end: nat): (r: Parsed<Charset>)
    requires position <= end <= |buffer|
    ensures |r.value.name| == end - position
    ensures forall i | 0 <= i < end - position :: r.value.name[i] == buffer[position + i]
    ensures r.newPosition == end
  {
    Parsed(Charset(buffer[position..end]), end)
  }

  /** `charset::generate`: the name verbatim, column advanced by its length. */
  function Generate(c: Charset, curLinePos: nat): (g: Generated)
    ensures g.column - curLinePos == |g.text|
    ensures Parse(g.text, 0, |g.text|).value == c
  {
    Generated(c.name, curLinePos + |c.name|)
  }

  /** Generation reproduces the parsed range byte for byte. */
  lemma GenerateAfterParse(buffer: string, position: nat, end: nat, column: nat)
    requires position <= end <= |buffer|
    ensures Generate(Parse(buffer, position, end).value, column).text == buffer[position..end]
    ensures Generate(Parse(buffer, position, end).value, column).column == column + (end - position)
  {
  }

  /** `charset::operator=(const string&)`: re-parses the whole string. */
  function AssignName(c: Charset, name: string): (r: Charset)
    ensures Generate(r, 0).text == name
  {
    Parse(name, 0, |name|).value
  }

  /** `charset::operator==`. */
  predicate Equal(a: Charset, b: Charset) {
    EqualNoCase(a.name, b.name)
  }

  /** `charset::operator!=`. */
  predicate NotEqual(a: Charset, b: Charset) {
    !Equal(a, b)
  }

  /** Charset equality is exactly equality of the lower-cased names, so it
      folds case and does nothing else (no alias table). */
  lemma EqualIffSameLowerName(a: Charset, b: Charset)
    ensures Equal(a, b) <==> LowerString(a.name) == LowerString(b.name)
    ensures NotEqual(a, b) <==> LowerString(a.name) != LowerString(b.name)
  {
    EqualNoCaseIffLowerEqual(a.name, b.name);
  }

  lemma EqualIsEquivalence(a: Charset, b: Charset, c: Charset)
    ensures Equal(a, a)
    ensures Equal(a, b) ==> Equal(b, a)
    ensures Equal(a, b) && Equal(b, c) ==> Equal(a, c)
  {
    EqualNoCaseIsEquivalence(a.name, b.name, c.name);
  }

  // ---------------------------------------------------------------------
  // Conversion

  /** One call of the conversion primitive: the bytes it produced and how
      many input bytes it consumed. */
  datatype Step = Step(output: string, consumed: nat)

  /** The conversion primitive. It reports failure (iconv's -1) exactly
      when it stops before the end of its input, at an invalid or an
      incomplete sequence; having consumed everything is success. */
  type Converter = string -> Step

  /** `iconv_open(to, from)`: a converter, or none for an unknown pair. */
  type Opener = (string, string) -> Option<Converter>

  predicate Blocked(conv: Converter, s: string) {
    conv(s).consumed < |s|
  }

  /** The buffer form (`iconvert`) as a recursive definition: every
      blocking byte is replaced by one `?` and skipped. */
  function Transcode(conv: Converter, s: string): string
    decreases |s|
  {
    if s == [] then []
    else
      var step := conv(s);
      if step.consumed >= |s| then step.output
      else step.output + "?" + Transcode(conv, s[step.consumed + 1..])
  }

  /** `charset::convert(const string&, string&, ...)`. */
  function Convert(open: Opener, input: string, source: Charset, dest: Charset): (r: Result<string>)
    ensures r.Failure? <==> open(dest.name, source.name).None?
    ensures r.Failure? ==> r.error == ConversionUnavailable
  {
    match open(dest.name, source.name)
    case None => Failure(ConversionUnavailable)
    case Some(conv) => Success(Transcode(conv, input))
  }

  /** `charset::iconvert`: the output is cleared, then the loop calls the
      primitive on what is left until every input byte is consumed. */
  method IConvert(open: Opener, input: string, source: Charset, dest: Charset)
    returns (r: Result<string>)
    ensures r == Convert(open, input, source, dest)
  {
    var cd := open(dest.name, source.name);
    if cd.None? {
      return Failure(ConversionUnavailable);
    }
    var conv := cd.value;
    var out: string := [];
    var inBuffer := 0;  // index of the first byte not yet consumed
    while inBuffer < |input|
      invariant inBuffer <= |input|
      invariant out + Transcode(conv, input[inBuffer..]) == Transcode(conv, input)
      decreases |input| - inBuffer
    {
      var step := conv(input[inBuffer..]);
      TranscodeFrom(conv, input, inBuffer);
      if step.consumed < |input| - inBuffer {
        // ignore this "blocking" byte and continue
        out := out + step.output + "?";
        inBuffer := inBuffer + step.consumed + 1;
      } else {
        out := out + step.output;
        inBuffer := |input|;
      }
    }
    assert input[inBuffer..] == [];
    assert out + Transcode(conv, []) == out;
    return Success(out);
  }

  /** One call of the primitive on the unconsumed input, in the terms of
      the loop of `IConvert`. */
  lemma TranscodeFrom(conv: Converter, input: string, i: nat)
    requires i < |input|
    ensures var step := conv(input[i..]);
      if step.consumed < |input| - i then
        Transcode(conv, input[i..]) == step.output + "?" + Transcode(conv, input[i + step.consumed + 1..])
      else
        Transcode(conv, input[i..]) == step.output + Transcode(conv, input[|input|..])
  {
    var left := input[i..];
    var step := conv(left);
    if step.consumed < |input| - i {
      TranscodeBlockedStep(conv, left);
      assert left[step.consumed + 1..] == input[i + step.consumed + 1..];
    } else {
      assert input[|input|..] == [];
    }
  }

  // ---------------------------------------------------------------------
  // Streaming conversion: an explicit Fresh / PendingRetry machine

  /** `sizeof(inBuffer)` in the streaming `convert`. */
  const InBufferSize: nat := 5

  /** `prevIsInvalid` as a state: PendingRetry after a failed call, until a
      call succeeds. */
  datatype Retry = Fresh | PendingRetry

  /** The loop state: bytes kept in the input buffer, bytes the stream has
      not delivered yet, the retry flag and everything written so far. */
  datatype StreamState = StreamState(pending: string, source: string, retry: Retry, output: string)

  function Min(a: int, b: int): int {
    if a <= b then a else b
  }

  /** How many bytes `in.read` delivers to top up the input buffer. */
  function Take(st: StreamState): nat
    requires |st.pending| <= InBufferSize
  {
    Min(InBufferSize - |st.pending|, |st.source|)
  }

  /** The input buffer handed to the primitive in this iteration. */
  function Refill(st: StreamState): string
    requires |st.pending| <= InBufferSize
  {
    st.pending + st.source[..Take(st)]
  }

  /** One iteration of the streaming loop. */
  function Advance(conv: Converter, st: StreamState): (r: StreamState)
    requires |st.pending| <= InBufferSize
    ensures |r.pending| <= InBufferSize
    ensures |r.output| >= |st.output| && r.output[..|st.output|] == st.output
    ensures r.retry == Fresh <==> !Blocked(conv, Refill(st))
    ensures st.retry == Fresh ==> r.output == st.output + conv(Refill(st)).output
  {
    var buffer := Refill(st);
    var step := conv(buffer);
    var source := st.source[Take(st)..];
    if step.consumed < |buffer| then
      var rest := buffer[step.consumed..];
      if st.retry == PendingRetry then
        // second failure in a row: placeholder, skip one byte, stay flagged
        StreamState(rest[1..], source, PendingRetry, st.output + step.output + "?")
      else
        // first failure: keep the unconverted tail for the next call
        StreamState(rest, source, PendingRetry, st.output + step.output)
    else
      StreamState([], source, Fresh, st.output + step.output)
  }

  /** `in.eof() && inPos == 0`, read after an iteration. */
  predicate Finished(st: StreamState) {
    st.source == [] && st.pending == []
  }

  function Measure(st: StreamState): nat {
    2 * (|st.pending| + |st.source|) + (if st.retry == Fresh then 1 else 0)
  }

  lemma AdvanceProgress(conv: Converter, st: StreamState)
    requires |st.pending| <= InBufferSize
    ensures !Finished(Advance(conv, st)) ==> Measure(Advance(conv, st)) < Measure(st)
  {
    var buffer := Refill(st);
    assert |buffer| + |st.source[Take(st)..]| == |st.pending| + |st.source|;
  }

  /** The output of the loop from state `st` until it stops. */
  function Run(conv: Converter, st: StreamState): string
    requires |st.pending| <= InBufferSize
    decreases Measure(st)
  {
    var next := Advance(conv, st);
    if Finished(next) then next.output
    else
      AdvanceProgress(conv, st);
      Run(conv, next)
  }

  function StreamTranscode(conv: Converter, input: string): string {
    Run(conv, StreamState([], input, Fresh, []))
  }

  /** `charset::convert(inputStream&, outputStream&, ...)` over a string
      source whose `eof()` holds once every byte has been read. */
  method ConvertStream(open: Opener, input: string, source: Charset, dest: Charset)
    returns (r: Result<string>)
    ensures r.Failure? <==> open(dest.name, source.name).None?
    ensures r.Failure? ==> r.error == ConversionUnavailable
    ensures r.Success? ==> r.value == StreamTranscode(open(dest.name, source.name).value, input)
  {
    var cd := open(dest.name, source.name);
    if cd.None? {
      return Failure(ConversionUnavailable);
    }
    var conv := cd.value;
    var inBuffer: string := [];
    var stream := input;
    var out: string := [];
    var prevIsInvalid := false;
    while true
      invariant |inBuffer| <= InBufferSize
      invariant Run(conv, StreamState(inBuffer, stream, if prevIsInvalid then PendingRetry else Fresh, out))
                == StreamTranscode(conv, input)
      decreases Measure(StreamState(inBuffer, stream, if prevIsInvalid then PendingRetry else Fresh, out))
    {
      ghost var before := StreamState(inBuffer, stream, if prevIsInvalid then PendingRetry else Fresh, out);
      // fill the buffer
      var n := Min(InBufferSize - |inBuffer|, |stream|);
      var buffer := inBuffer + stream[..n];
      stream := stream[n..];
      assert n == Take(before) && buffer == Refill(before);
      var step := conv(buffer);
      if step.consumed < |buffer| {
        out := out + step.output;
        if prevIsInvalid {
          out := out + "?";
          inBuffer := buffer[step.consumed + 1..];
        } else {
          inBuffer := buffer[step.consumed..];
          prevIsInvalid := true;
        }
      } else {
        out := out + step.output;
        inBuffer := [];
        prevIsInvalid := false;
      }
      assert StreamState(inBuffer, stream, if prevIsInvalid then PendingRetry else Fresh, out)
             == Advance(conv, before);
      AdvanceProgress(conv, before);
      if stream == [] && |inBuffer| == 0 {
        break;
      }
    }
    return Success(out);
  }

  // ---------------------------------------------------------------------
  // Properties of both drivers

  /** A primitive that converts every byte to itself and blocks on `b`. */
  function StopAt(b: char): Converter {
    (s: string) => CopyUntil(b, s)
  }

  /** One call of `StopAt(b)`: everything before the first `b`. */
  function CopyUntil(b: char, s: string): Step {
    var k := IndexOf(s, b);
    if k < 0 then Step(s, |s|) else Step(s[..k], k)
  }

  /** `s` with every `b` replaced by the placeholder `?`. */
  function Replace(s: string, b: char): string {
    if s == [] then [] else Placeholder(s[0], b) + Replace(s[1..], b)
  }

  function Placeholder(c: char, b: char): string {
    if c == b then "?" else [c]
  }

  lemma {:induction false} ReplaceAppend(x: string, y: string, b: char)
    ensures Replace(x + y, b) == Replace(x, b) + Replace(y, b)
    decreases |x|
  {
    if x == [] {
      assert x + y == y;
    } else {
      assert (x + y)[1..] == x[1..] + y;
      ReplaceAppend(x[1..], y, b);
      AppendAssoc(Placeholder(x[0], b), Replace(x[1..], b), Replace(y, b));
    }
  }

  lemma {:induction false} ReplaceAbsent(x: string, b: char)
    requires b !in x
    ensures Replace(x, b) == x
    decreases |x|
  {
    if x != [] {
      assert b !in x[1..];
      ReplaceAbsent(x[1..], b);
      assert [x[0]] + x[1..] == x;
    }
  }

  /** Replacing in a string that starts with `c`. */
  lemma ReplaceCons(c: char, t: string, b: char)
    ensures Replace([c] + t, b) == Placeholder(c, b) + Replace(t, b)
  {
    assert ([c] + t)[1..] == t;
  }

  /** Where the primitive blocks on a single byte value, the buffer form
      turns each occurrence of that byte into exactly one `?` and leaves
      every other byte in place. */
  lemma {:induction false} TranscodeReplacesBlockingBytes(b: char, s: string)
    ensures Transcode(StopAt(b), s) == Replace(s, b)
    decreases |s|
  {
    if s != [] {
      var k := IndexOf(s, b);
      if k < 0 {
        TranscodeWithoutBlock(b, s);
      } else {
        StopAtBlocks(b, s, k);
        TranscodeAtBlock(b, s, k);
        TranscodeReplacesBlockingBytes(b, s[k + 1..]);
        ReplaceSplit(b, s, k);
      }
    }
  }

  lemma TranscodeWithoutBlock(b: char, s: string)
    requires s != [] && b !in s
    ensures Transcode(StopAt(b), s) == Replace(s, b)
  {
    assert StopAt(b)(s) == Step(s, |s|);
    ReplaceAbsent(s, b);
  }

  lemma TranscodeAtBlock(b: char, s: string, k: nat)
    requires k < |s| && StopAt(b)(s) == Step(s[..k], k)
    ensures Transcode(StopAt(b), s) == s[..k] + "?" + Transcode(StopAt(b), s[k + 1..])
  {
    TranscodeBlockedStep(StopAt(b), s);
  }

  /** `StopAt(b)` stops at the first `b`, having copied what precedes it. */
  lemma StopAtBlocks(b: char, s: string, k: int)
    requires 0 <= k == IndexOf(s, b)
    ensures StopAt(b)(s) == Step(s[..k], k)
  {
  }

  /** One blocked call of the buffer form: its output, one `?`, and the
      conversion of what follows the blocking byte. */
  lemma TranscodeBlockedStep(conv: Converter, s: string)
    requires Blocked(conv, s)
    ensures Transcode(conv, s) == conv(s).output + "?" + Transcode(conv, s[conv(s).consumed + 1..])
  {
  }

  lemma ReplaceSplit(b: char, s: string, k: nat)
    requires k < |s| && s[k] == b && b !in s[..k]
    ensures Replace(s, b) == s[..k] + "?" + Replace(s[k + 1..], b)
  {
    assert s == s[..k] + ([b] + s[k + 1..]);
    ReplaceAppend(s[..k], [b] + s[k + 1..], b);
    ReplaceAbsent(s[..k], b);
    ReplaceCons(b, s[k + 1..], b);
  }

  /** One iteration keeps `output + Replace(unread input)` unchanged. */
  lemma AdvanceKeepsReplacement(b: char, st: StreamState)
    requires |st.pending| <= InBufferSize
    ensures var next := Advance(StopAt(b), st);
      next.output + Replace(next.pending + next.source, b) == st.output + Replace(st.pending + st.source, b)
  {
    var buffer := Refill(st);
    var later := st.source[Take(st)..];
    assert st.pending + st.source == buffer + later by {
      assert st.source == st.source[..Take(st)] + later;
    }
    var k := IndexOf(buffer, b);
    if k < 0 {
      UnblockedKeepsReplacement(b, st, buffer, later);
    } else {
      StopAtBlocks(b, buffer, k);
      BlockedIterationKeepsReplacement(b, st, buffer, later, k);
    }
  }

  /** `StopAt(b)` copies a buffer without `b` whole. */
  lemma StopAtCopiesAll(b: char, s: string)
    requires b !in s
    ensures StopAt(b)(s) == Step(s, |s|)
  {
  }

  lemma UnblockedKeepsReplacement(b: char, st: StreamState, buffer: string, later: string)
    requires |st.pending| <= InBufferSize
    requires buffer == Refill(st) && later == st.source[Take(st)..] && b !in buffer
    ensures var next := Advance(StopAt(b), st);
      next.output + Replace(next.pending + next.source, b) == st.output + Replace(buffer + later, b)
  {
    var next := Advance(StopAt(b), st);
    StopAtCopiesAll(b, buffer);
    assert next == StreamState([], later, Fresh, st.output + buffer);
    assert next.pending + next.source == later;
    ReplaceAppend(buffer, later, b);
    ReplaceAbsent(buffer, b);
    AppendAssoc(st.output, buffer, Replace(later, b));
  }

  lemma ReplaceAtBlock(b: char, buffer: string, later: string, k: nat)
    requires k < |buffer| && buffer[k] == b && b !in buffer[..k]
    ensures Replace(buffer + later, b) == buffer[..k] + Replace(buffer[k..] + later, b)
    ensures Replace(buffer[k..] + later, b) == "?" + Replace(buffer[k + 1..] + later, b)
  {
    SplitAt(buffer, k);
    AppendAssoc(buffer[..k], buffer[k..], later);
    ReplaceAppend(buffer[..k], buffer[k..] + later, b);
    ReplaceAbsent(buffer[..k], b);
    AppendAssoc([b], buffer[k + 1..], later);
    ReplaceCons(b, buffer[k + 1..] + later, b);
  }

  lemma AdvanceWhenBlocked(conv: Converter, st: StreamState)
    requires |st.pending| <= InBufferSize
    requires Blocked(conv, Refill(st))
    ensures var next := Advance(conv, st);
      var step := conv(Refill(st));
      && next.source == st.source[Take(st)..]
      && next.pending == Refill(st)[step.consumed + (if st.retry == PendingRetry then 1 else 0)..]
      && next.output == st.output + step.output + (if st.retry == PendingRetry then "?" else "")
  {
  }

  lemma BlockedIterationKeepsReplacement(b: char, st: StreamState, buffer: string, later: string, k: nat)
    requires |st.pending| <= InBufferSize
    requires buffer == Refill(st) && later == st.source[Take(st)..]
    requires k < |buffer| && buffer[k] == b && b !in buffer[..k]
    requires StopAt(b)(buffer) == Step(buffer[..k], k)
    ensures var next := Advance(StopAt(b), st);
      next.output + Replace(next.pending + next.source, b) == st.output + Replace(buffer + later, b)
  {
    AdvanceWhenBlocked(StopAt(b), st);
    ReplaceAtBlock(b, buffer, later, k);
    if st.retry == PendingRetry {
      RetryKeepsReplacement(b, st, buffer, later, k);
    } else {
      FirstBlockKeepsReplacement(b, st, buffer, later, k);
    }
  }

  /** After a second failure in a row: the `?` moves from the unread
      input to the output. */
  lemma RetryKeepsReplacement(b: char, st: StreamState, buffer: string, later: string, k: nat)
    requires |st.pending| <= InBufferSize && st.retry == PendingRetry
    requires buffer == Refill(st) && later == st.source[Take(st)..] && k < |buffer|
    requires var next := Advance(StopAt(b), st);
      && next.source == later
      && next.pending == buffer[k + 1..]
      && next.output == st.output + buffer[..k] + "?"
    requires Replace(buffer + later, b) == buffer[..k] + Replace(buffer[k..] + later, b)
    requires Replace(buffer[k..] + later, b) == "?" + Replace(buffer[k + 1..] + later, b)
    ensures var next := Advance(StopAt(b), st);
      next.output + Replace(next.pending + next.source, b) == st.output + Replace(buffer + later, b)
  {
    var rest := Replace(buffer[k + 1..] + later, b);
    AppendAssoc(st.output + buffer[..k], "?", rest);
    AppendAssoc(st.output, buffer[..k], "?" + rest);
  }

  /** After a first failure: the blocking byte stays unread. */
  lemma FirstBlockKeepsReplacement(b: char, st: StreamState, buffer: string, later: string, k: nat)
    requires |st.pending| <= InBufferSize && st.retry == Fresh
    requires buffer == Refill(st) && later == st.source[Take(st)..] && k < |buffer|
    requires var next := Advance(StopAt(b), st);
      && next.source == later
      && next.pending == buffer[k..]
      && next.output == st.output + buffer[..k]
    requires Replace(buffer + later, b) == buffer[..k] + Replace(buffer[k..] + later, b)
    ensures var next := Advance(StopAt(b), st);
      next.output + Replace(next.pending + next.source, b) == st.output + Replace(buffer + later, b)
  {
    AppendAssoc(st.output, buffer[..k], Replace(buffer[k..] + later, b));
  }

  lemma {:induction false} RunReplacesBlockingBytes(b: char, st: StreamState)
    requires |st.pending| <= InBufferSize
    ensures Run(StopAt(b), st) == st.output + Replace(st.pending + st.source, b)
    decreases Measure(st)
  {
    var next := Advance(StopAt(b), st);
    AdvanceKeepsReplacement(b, st);
    if Finished(next) {
      assert next.pending + next.source == [];
    } else {
      AdvanceProgress(StopAt(b), st);
      RunReplacesBlockingBytes(b, next);
    }
  }

  /** The streaming form agrees with the buffer form on such a primitive:
      each blocking byte still costs exactly one `?`. */
  lemma StreamReplacesBlockingBytes(b: char, s: string)
    ensures StreamTranscode(StopAt(b), s) == Replace(s, b)
    ensures StreamTranscode(StopAt(b), s) == Transcode(StopAt(b), s)
  {
    RunReplacesBlockingBytes(b, StreamState([], s, Fresh, []));
    assert [] + s == s;
    TranscodeReplacesBlockingBytes(b, s);
  }

  /** Where the conversion stops for a toy two-byte encoding: `M` opens a
      two-byte sequence, `Z` is invalid, every other byte stands alone. */
  function PairStop(s: string, i: nat): (n: nat)
    requires i <= |s|
    ensures i <= n <= |s|
    decreases |s| - i
  {
    if i == |s| || s[i] == 'Z' then i
    else if s[i] == 'M' then (if i + 1 < |s| then PairStop(s, i + 2) else i)
    else PairStop(s, i + 1)
  }

  /** The toy primitive: copies every complete sequence through. */
  function PairConverter(): Converter {
    (s: string) => var n := PairStop(s, 0); Step(s[..n], n)
  }

  /** The streaming form does not check that a second failure happens at
      the position of the first: after the invalid `Z`, the flag is still
      set when the buffer ends in half of the `My` sequence, so that
      starved byte is dropped behind a second `?`. The buffer form, which
      sees the whole input, keeps `My`. */
  lemma StreamRetryIgnoresPosition()
    ensures Transcode(PairConverter(), "ZbcdeMy") == "?bcdeMy"
    ensures StreamTranscode(PairConverter(), "ZbcdeMy") == "?bcde?y"
  {
    BufferFormKeepsPair();
    var conv := PairConverter();
    var st0 := StreamState([], "ZbcdeMy", Fresh, []);
    var st1 := StreamState("Zbcde", "My", PendingRetry, []);
    var st2 := StreamState("bcde", "My", PendingRetry, "?");
    var st3 := StreamState([], "y", PendingRetry, "?bcde?");
    StreamFirstFailure();
    StreamSecondFailure();
    StreamStarvedPair();
    StreamLastByte();
    RunStep(conv, st3);
    RunStep(conv, st2);
    RunStep(conv, st1);
    RunStep(conv, st0);
  }

  /** The loop's output from `st` is that of the state after one more
      iteration, unless that iteration ends the loop. */
  lemma RunStep(conv: Converter, st: StreamState)
    requires |st.pending| <= InBufferSize
    ensures Run(conv, st) == if Finished(Advance(conv, st)) then Advance(conv, st).output
                             else Run(conv, Advance(conv, st))
  {
  }

  lemma BufferFormKeepsPair()
    ensures Transcode(PairConverter(), "ZbcdeMy") == "?bcdeMy"
  {
    var conv := PairConverter();
    assert PairStop("ZbcdeMy", 0) == 0;
    assert "ZbcdeMy"[1..] == "bcdeMy";
    assert PairStop("bcdeMy", 4) == 6;
    assert PairStop("bcdeMy", 0) == 6;
    assert conv("bcdeMy") == Step("bcdeMy", 6);
    TranscodeBlockedStep(conv, "ZbcdeMy");
  }

  /** First iteration: `Z` blocks at once; the buffer is kept. */
  lemma StreamFirstFailure()
    ensures Advance(PairConverter(), StreamState([], "ZbcdeMy", Fresh, []))
         == StreamState("Zbcde", "My", PendingRetry, [])
  {
    var st := StreamState([], "ZbcdeMy", Fresh, []);
    assert Refill(st) == "Zbcde";
    assert PairStop("Zbcde", 0) == 0;
  }

  /** Second iteration: `Z` blocks again and is replaced. */
  lemma StreamSecondFailure()
    ensures Advance(PairConverter(), StreamState("Zbcde", "My", PendingRetry, []))
         == StreamState("bcde", "My", PendingRetry, "?")
  {
    var st := StreamState("Zbcde", "My", PendingRetry, []);
    assert Refill(st) == "Zbcde";
    assert PairStop("Zbcde", 0) == 0;
  }

  /** Third iteration: the buffer ends in the first half of `My`, and the
      flag is still set, so `M` is dropped behind a second `?`. */
  lemma StreamStarvedPair()
    ensures Advance(PairConverter(), StreamState("bcde", "My", PendingRetry, "?"))
         == StreamState([], "y", PendingRetry, "?bcde?")
  {
    var st := StreamState("bcde", "My", PendingRetry, "?");
    assert Refill(st) == "bcdeM";
    assert PairStop("bcdeM", 4) == 4;
    assert PairStop("bcdeM", 0) == 4;
  }

  lemma StreamLastByte()
    ensures Advance(PairConverter(), StreamState([], "y", PendingRetry, "?bcde?"))
         == StreamState([], [], Fresh, "?bcde?y")
  {
    var st := StreamState([], "y", PendingRetry, "?bcde?");
    assert Refill(st) == "y";
    assert PairStop("y", 0) == 1;
  }
}
