/** The pure helpers of `SMTPTransport`: reply-code and reply-text
    extraction (section 4.2 of RFC 5321), the end-of-reply test and the
    line-ending strip of `readResponse`, and the argument checks at the
    top of `send`. Characters are compared by code point; the signedness
    of the C++ `char` is not modelled. */
module SmtpReplies {
  import opened Exceptions
  import opened FieldTypes
  import opened ParserHelpers

  predicate IsDigit(c: char) {
    '0' <= c <= '9'
  }

  /** `c - '0'`, with no check that `c` is a digit. */
  function DigitValue(c: char): int {
    c as int - '0' as int
  }

  function DigitChar(d: nat): (c: char)
    requires d < 10
    ensures IsDigit(c) && DigitValue(c) == d
  {
    ('0' as int + d) as char
  }

  predicate HasCode(response: string) {
    |response| >= 3 && IsDigit(response[0]) && IsDigit(response[1]) && IsDigit(response[2])
  }

  /** `responseCode`: the first three characters read as decimal digits,
      0 when the response is shorter than three characters. */
  function ResponseCode(response: string): (code: int)
    ensures |response| < 3 ==> code == 0
    ensures HasCode(response) ==>
      && 0 <= code <= 999
      && code / 100 == DigitValue(response[0])
      && code / 10 % 10 == DigitValue(response[1])
      && code % 10 == DigitValue(response[2])
  {
    if |response| >= 3 then
      var code := DigitValue(response[0]) * 100 + DigitValue(response[1]) * 10 + DigitValue(response[2]);
      if HasCode(response) then
        DecimalDigits(DigitValue(response[0]), DigitValue(response[1]), DigitValue(response[2]));
        code
      else
        code
    else
      0
  }

  lemma TenDivMod(q: int, r: int)
    requires 0 <= r < 10
    ensures (10 * q + r) / 10 == q && (10 * q + r) % 10 == r
  {
  }

  /** Three decimal digits read back from the number they make. */
  lemma DecimalDigits(a: int, b: int, c: int)
    requires 0 <= a <= 9 && 0 <= b <= 9 && 0 <= c <= 9
    ensures var n := 100 * a + 10 * b + c;
      0 <= n <= 999 && n / 100 == a && n / 10 % 10 == b && n % 10 == c
  {
    TenDivMod(10 * a + b, c);
    TenDivMod(a, b);
    assert (100 * a + 10 * b + c) / 100 == (100 * a + 10 * b + c) / 10 / 10;
  }

  /** A three-digit reply code as a server writes it. */
  function FormatCode(n: nat): (s: string)
    requires n <= 999
    ensures |s| == 3
  {
    [DigitChar(n / 100), DigitChar(n / 10 % 10), DigitChar(n % 10)]
  }

  /** Reading the code of a reply that starts with a formatted code gives
      that code back, whatever follows it. */
  lemma CodeRoundTrip(n: nat, rest: string)
    requires n <= 999
    ensures HasCode(FormatCode(n) + rest)
    ensures ResponseCode(FormatCode(n) + rest) == n
  {
  }

  /** Conversely a reply starting with three digits starts with its code. */
  lemma CodeDigitsRoundTrip(response: string)
    requires HasCode(response)
    ensures FormatCode(ResponseCode(response)) == response[..3]
  {
  }

  lemma ResponseCodeExample()
    ensures ResponseCode("250 OK") == 250
    ensures ResponseCode("25") == 0
  {
  }

  // ---------------------------------------------------------------------
  // Reply text

  /** The lines `std::getline` extracts: split at each '\n'; a final
      '\n' does not start another line, and "" has no lines. */
  function Lines(s: string): (ls: seq<string>)
    ensures forall i | 0 <= i < |ls| :: '\n' !in ls[i]
    decreases |s|
  {
    if s == [] then []
    else
      var k := IndexOf(s, '\n');
      if k < 0 then [s] else [s[..k]] + Lines(s[k + 1..])
  }

  /** Lines joined by '\n', with no '\n' after the last. */
  function JoinLines(ls: seq<string>): string {
    if |ls| == 0 then ""
    else if |ls| == 1 then ls[0]
    else ls[0] + "\n" + JoinLines(ls[1..])
  }

  /** Every non-empty line free of '\n' comes back from its join. */
  lemma {:induction false} LinesOfJoin(ls: seq<string>)
    requires forall i | 0 <= i < |ls| :: ls[i] != [] && '\n' !in ls[i]
    ensures Lines(JoinLines(ls)) == ls
    decreases |ls|
  {
    if |ls| == 1 {
      assert '\n' !in ls[0] && ls[0] != [];
      assert IndexOf(ls[0], '\n') == -1;
      assert Lines(ls[0]) == [ls[0]];
    } else if |ls| > 1 {
      var rest := JoinLines(ls[1..]);
      var s := ls[0] + ("\n" + rest);
      var n := |ls[0]|;
      assert JoinLines(ls) == s;
      assert s[..n] == ls[0] && s[n] == '\n' && s[n + 1..] == rest;
      IndexOfIsFirst(s, '\n', n);
      assert Lines(s) == [ls[0]] + Lines(rest);
      forall i | 0 <= i < |ls| - 1
        ensures ls[1..][i] != [] && '\n' !in ls[1..][i]
      {
        assert ls[1..][i] == ls[i + 1];
      }
      LinesOfJoin(ls[1..]);
      assert [ls[0]] + ls[1..] == ls;
    }
  }

  /** One line of `responseText`: the 4-character prefix "ddd-" or "ddd "
      is dropped from lines long enough to carry it. */
  function LineText(line: string): string {
    if |line| >= 4 then line[4..] else line
  }

  function Texts(ls: seq<string>): string {
    if ls == [] then "" else LineText(ls[0]) + "\n" + Texts(ls[1..])
  }

  /** `responseText`: each line's text, each followed by '\n'. */
  function ResponseText(response: string): (text: string)
    ensures response == [] ==> text == []
    ensures '\n' !in response && |response| >= 4 ==> text == response[4..] + "\n"
    ensures '\n' !in response && 0 < |response| < 4 ==> text == response + "\n"
  {
    var ls := Lines(response);
    assert response != [] && '\n' !in response ==>
      ls == [response] && Texts(ls) == LineText(response) + "\n" + Texts([]);
    Texts(ls)
  }

  /** Each text followed by '\n', concatenated. */
  function Terminated(ts: seq<string>): string {
    if ts == [] then "" else ts[0] + "\n" + Terminated(ts[1..])
  }

  /** The lines of a reply: a 4-character prefix, then the text. */
  function ReplyLines(prefixes: seq<string>, texts: seq<string>): (ls: seq<string>)
    requires |prefixes| == |texts|
    ensures |ls| == |texts|
  {
    seq(|texts|, i requires 0 <= i < |texts| => prefixes[i] + texts[i])
  }

  lemma {:induction false} TextsOfReplyLines(prefixes: seq<string>, texts: seq<string>)
    requires |prefixes| == |texts|
    requires forall i | 0 <= i < |prefixes| :: |prefixes[i]| == 4
    ensures Texts(ReplyLines(prefixes, texts)) == Terminated(texts)
    decreases |texts|
  {
    if texts != [] {
      var ls := ReplyLines(prefixes, texts);
      assert ls[0][4..] == texts[0];
      assert ls[1..] == ReplyLines(prefixes[1..], texts[1..]);
      TextsOfReplyLines(prefixes[1..], texts[1..]);
    }
  }

  /** Reply text round trip: for a reply whose lines are a 4-character
      prefix (code and separator) followed by a text, `responseText`
      returns exactly the texts, each ended by '\n'. */
  lemma ReplyTextRoundTrip(prefixes: seq<string>, texts: seq<string>)
    requires |prefixes| == |texts|
    requires forall i | 0 <= i < |prefixes| :: |prefixes[i]| == 4 && '\n' !in prefixes[i]
    requires forall i | 0 <= i < |texts| :: '\n' !in texts[i]
    ensures ResponseText(JoinLines(ReplyLines(prefixes, texts))) == Terminated(texts)
  {
    var ls := ReplyLines(prefixes, texts);
    forall i | 0 <= i < |ls| ensures ls[i] != [] && '\n' !in ls[i] {
      assert ls[i] == prefixes[i] + texts[i];
      assert |ls[i]| >= 4;
    }
    LinesOfJoin(ls);
    TextsOfReplyLines(prefixes, texts);
  }

  /** The text of each line, in order. */
  function LineTexts(ls: seq<string>): seq<string> {
    seq(|ls|, i requires 0 <= i < |ls| => LineText(ls[i]))
  }

  lemma {:induction false} TextsAreTerminated(ls: seq<string>)
    ensures Texts(ls) == Terminated(LineTexts(ls))
    decreases |ls|
  {
    if ls != [] {
      assert LineTexts(ls)[0] == LineText(ls[0]);
      assert LineTexts(ls)[1..] == LineTexts(ls[1..]);
      TextsAreTerminated(ls[1..]);
    }
  }

  /** `responseText` on any reply of non-empty lines: every line loses its
      first four characters when it has four or more and is kept whole
      otherwise (a last line "250" that is just the code, say), and each
      text is ended by '\n'. */
  lemma ResponseTextOfLines(ls: seq<string>)
    requires forall i | 0 <= i < |ls| :: ls[i] != [] && '\n' !in ls[i]
    ensures ResponseText(JoinLines(ls)) == Terminated(LineTexts(ls))
  {
    LinesOfJoin(ls);
    TextsAreTerminated(ls);
  }

  /** A long line followed by a short one (a continuation line and then a
      bare code such as "250"): the first loses its four-character prefix,
      the second is kept whole. */
  lemma ShortLastLineKeptWhole(a: string, b: string)
    requires 4 <= |a| && 0 < |b| < 4 && '\n' !in a && '\n' !in b
    ensures ResponseText(a + "\n" + b) == a[4..] + "\n" + (b + "\n")
  {
    JoinTwoLines(a, b);
    ResponseTextOfLines([a, b]);
    assert LineTexts([a, b]) == [a[4..], b];
    TerminatedTwo(a[4..], b);
  }

  lemma JoinTwoLines(a: string, b: string)
    ensures JoinLines([a, b]) == a + "\n" + b
  {
    assert [a, b][1..] == [b];
  }

  lemma TerminatedTwo(a: string, b: string)
    ensures Terminated([a, b]) == a + "\n" + (b + "\n")
  {
    assert [a, b][1..] == [b];
    assert [b][1..] == [];
    assert Terminated([b]) == b + "\n" + "";
    assert b + "\n" + "" == b + "\n";
  }

  // ---------------------------------------------------------------------
  // End of a reply

  /** Where `readResponse`'s backward scan stops: the last '\n' before the
      final character, or 0 when there is none after index 0. */
  function ScanStop(buffer: string): (p: nat)
    requires |buffer| >= 2
    ensures p <= |buffer| - 2
    ensures p == 0 || buffer[p] == '\n'
    ensures '\n' !in buffer[p + 1..|buffer| - 1]
  {
    var k := LastIndexOf(buffer[..|buffer| - 1], '\n');
    assert buffer[k + 1..|buffer| - 1] == buffer[..|buffer| - 1][k + 1..];
    if k <= 0 then 0 else k
  }

  /** The terminator test of `readResponse`: the buffer ends with '\n'
      and its last line reaches past `p + 4`. */
  predicate TerminatorFound(buffer: string) {
    |buffer| >= 2 && buffer[|buffer| - 1] == '\n' && ScanStop(buffer) + 4 < |buffer|
  }

  /** The test as the source runs it: a backward scan from the character
      before the final '\n' to the previous '\n', or to index 0. */
  method HasTerminator(buffer: string) returns (found: bool)
    ensures found <==> TerminatorFound(buffer)
  {
    found := false;
    if |buffer| >= 2 && buffer[|buffer| - 1] == '\n' {
      var p := |buffer| - 2;
      var end := false;
      while !end
        invariant 0 <= p <= |buffer| - 2
        invariant '\n' !in buffer[p + 1..|buffer| - 1]
        invariant end ==> (p == 0 || buffer[p] == '\n') && (found <==> p + 4 < |buffer|)
        invariant !end ==> !found
        decreases p, !end
      {
        if p == 0 || buffer[p] == '\n' {
          end := true;
          if p + 4 < |buffer| {
            found := true;
          }
        } else {
          assert buffer[p + 1..|buffer| - 1] == buffer[p..|buffer| - 1][1..];
          p := p - 1;
        }
      }
      ScanStopIsUnique(buffer, p);
    }
  }

  /** The stop position is the only one that is 0 or a '\n' with no '\n'
      between it and the final character. */
  lemma ScanStopIsUnique(buffer: string, p: nat)
    requires |buffer| >= 2 && p <= |buffer| - 2
    requires p == 0 || buffer[p] == '\n'
    requires '\n' !in buffer[p + 1..|buffer| - 1]
    ensures ScanStop(buffer) == p
  {
  }

  /** The test only looks at the last line. When that line follows a
      '\n' it needs three characters before its own '\n'; as the first
      line of the buffer it needs four. A continuation line such as
      "250-first\r\n" therefore passes. */
  lemma TerminatorLooksAtLastLine(before: string, line: string)
    requires before == [] || before[|before| - 1] == '\n'
    requires '\n' !in line
    requires |before + line| >= 1
    ensures TerminatorFound(before + line + "\n")
      <==> if before == [] then |line| >= 4 else |line| >= 3
  {
    var b := before + line + "\n";
    assert b[..|b| - 1] == before + line;
    if before == [] {
      assert b[1..|b| - 1] == line[1..];
      ScanStopIsUnique(b, 0);
    } else {
      var p := |before| - 1;
      assert b[p + 1..|b| - 1] == line;
      ScanStopIsUnique(b, p);
    }
  }

  // ---------------------------------------------------------------------
  // End of a reply, as RFC 5321 delimits it

  /** Start of the last line of a buffer ending in '\n'. */
  function LastLineStart(buffer: string): (s: nat)
    requires |buffer| >= 1
    ensures s <= |buffer| - 1
    ensures s == 0 || buffer[s - 1] == '\n'
    ensures '\n' !in buffer[s..|buffer| - 1]
  {
    var k := LastIndexOf(buffer[..|buffer| - 1], '\n');
    assert buffer[k + 1..|buffer| - 1] == buffer[..|buffer| - 1][k + 1..];
    k + 1
  }

  /** A reply is complete once its last line is a final reply line: a
      code not followed by '-' (section 4.2.1 of RFC 5321). */
  predicate ReplyComplete(buffer: string) {
    && |buffer| >= 2 && buffer[|buffer| - 1] == '\n'
    && var line := buffer[LastLineStart(buffer)..|buffer| - 1];
    && |line| >= 3 && (|line| == 3 || line[3] != '-')
  }

  lemma LastLineStartIsUnique(buffer: string, s: nat)
    requires 1 <= |buffer| && s <= |buffer| - 1
    requires s == 0 || buffer[s - 1] == '\n'
    requires '\n' !in buffer[s..|buffer| - 1]
    ensures LastLineStart(buffer) == s
  {
  }

  /** The corrected test also looks only at the last line, but requires a
      final line: continuation lines ("ddd-") never end the reply. */
  lemma ReplyCompleteLooksAtLastLine(before: string, line: string)
    requires before == [] || before[|before| - 1] == '\n'
    requires '\n' !in line
    requires |before + line| >= 1
    ensures ReplyComplete(before + line + "\n")
      <==> |line| >= 3 && (|line| == 3 || line[3] != '-')
  {
    var b := before + line + "\n";
    assert b[|before|..|b| - 1] == line;
    LastLineStartIsUnique(b, |before|);
  }

  /** A lone continuation line passes the source's test but not the
      corrected one; the final line that follows passes both. */
  lemma ContinuationLineEndsRead()
    ensures TerminatorFound("250-first\r\n")
    ensures !ReplyComplete("250-first\r\n")
    ensures ReplyComplete("250-first\r\n250 last\r\n")
  {
    ContinuationPassesTerminator();
    ContinuationIsNotFinal();
    FinalLineEndsReply();
  }

  lemma ContinuationPassesTerminator()
    ensures TerminatorFound("250-first\r\n")
  {
    var first := "250-first\r";
    assert "250-first\r\n" == "" + first + "\n";
    TerminatorLooksAtLastLine("", first);
  }

  lemma ContinuationIsNotFinal()
    ensures !ReplyComplete("250-first\r\n")
  {
    var first := "250-first\r";
    assert "250-first\r\n" == "" + first + "\n";
    assert first[3] == '-';
    ReplyCompleteLooksAtLastLine("", first);
  }

  lemma FinalLineEndsReply()
    ensures ReplyComplete("250-first\r\n250 last\r\n")
  {
    var last := "250 last\r";
    assert "250-first\r\n250 last\r\n" == "250-first\r\n" + last + "\n";
    assert last[3] == ' ';
    ReplyCompleteLooksAtLastLine("250-first\r\n", last);
  }

  // ---------------------------------------------------------------------
  // Line-ending strip

  /** The strip at the end of `readResponse`: a final "\r\n", or a final
      '\n' alone, is removed from buffers of two or more characters. */
  function StripLineEnding(buffer: string): (r: string)
    ensures r <= buffer && |buffer| - 2 <= |r|
    ensures |r| < |buffer| <==> |buffer| >= 2 && buffer[|buffer| - 1] == '\n'
    ensures |r| == |buffer| - 2 <==> |buffer| >= 2 && buffer[|buffer| - 2..] == "\r\n"
  {
    if |buffer| >= 2 && buffer[|buffer| - 1] == '\n' then
      if buffer[|buffer| - 2] == '\r' then buffer[..|buffer| - 2] else buffer[..|buffer| - 1]
    else
      buffer
  }

  /** A line written with CRLF comes back without it. */
  lemma StripCrlf(text: string)
    ensures StripLineEnding(text + "\r\n") == text
  {
    assert (text + "\r\n")[..|text|] == text;
  }

  /** A line ended by a bare '\n' loses only that '\n', unless the text
      itself ends in '\r', which then goes too. */
  lemma StripLf(text: string)
    requires text != [] && text[|text| - 1] != '\r'
    ensures StripLineEnding(text + "\n") == text
  {
    assert (text + "\n")[..|text|] == text;
  }

  // ---------------------------------------------------------------------
  // Argument checks of `send`

  /** `mailbox::empty()`: a mailbox with no address. */
  predicate MailboxIsEmpty(m: Mailbox) {
    m.email == []
  }

  /** The checks at the top of `send`: no recipient is reported first,
      then a missing expeditor. */
  function SendPrecheck(expeditor: Mailbox, recipients: MailboxList): (o: Outcome)
    ensures o == Fail(NoRecipient) <==> recipients.mailboxes == []
    ensures o == Fail(NoExpeditor) <==> recipients.mailboxes != [] && MailboxIsEmpty(expeditor)
    ensures o == Pass <==> recipients.mailboxes != [] && !MailboxIsEmpty(expeditor)
  {
    if recipients.mailboxes == [] then Fail(NoRecipient)
    else if MailboxIsEmpty(expeditor) then Fail(NoExpeditor)
    else Pass
  }
}
