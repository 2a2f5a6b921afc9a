/** The "Received" (relay) trace field: the word-routing parser and the
    fixed-order generator. The clause grammar is the one of section 4.1
    of RFC 822 (from / by / via / with* / id / for, then `;` and a date). */
module RelayField {
  import opened Exceptions
  import opened ParserHelpers
  import opened FieldTypes

  /** The clause a keyword opens. */
  datatype Part = From | By | Via | With | Id | For

  datatype Relay = Relay(
    fromPart: string,
    byPart: string,
    viaPart: string,
    withParts: seq<string>,
    idPart: string,
    forPart: string,
    date: DateTime)

  /** A freshly constructed field: every clause empty. */
  function Empty(date: DateTime): Relay {
    Relay("", "", "", [], "", "", date)
  }

  /** Keyword recognition, in the source's order and with its prefix
      lengths: "from" needs 4 matching characters, every other keyword 2,
      so any word starting "fo" is `for` and any starting "vi" is `via`. */
  function Keyword(w: string): Option<Part> {
    if PrefixEqualNoCase(w, "from", 4) then Some(From)
    else if PrefixEqualNoCase(w, "by", 2) then Some(By)
    else if PrefixEqualNoCase(w, "via", 2) then Some(Via)
    else if PrefixEqualNoCase(w, "with", 2) then Some(With)
    else if PrefixEqualNoCase(w, "id", 2) then Some(Id)
    else if PrefixEqualNoCase(w, "for", 2) then Some(For)
    else None
  }

  /** Stores a flushed clause value: `with` appends, the others overwrite. */
  function Assign(r: Relay, p: Part, v: string): Relay {
    match p
    case From => r.(fromPart := v)
    case By => r.(byPart := v)
    case Via => r.(viaPart := v)
    case With => r.(withParts := r.withParts + [v])
    case Id => r.(idPart := v)
    case For => r.(forPart := v)
  }

  /** The parser's loop state: the field so far, the clause being read
      (`Part_None` is `None`), the words buffered for it, comment mode. */
  datatype ScanState = ScanState(relay: Relay, part: Option<Part>, previous: seq<string>, inComment: bool)

  /** The words buffered so far go to the current clause, if any; the
      buffer is cleared and `next` becomes the current clause. */
  function Flush(st: ScanState, next: Option<Part>): ScanState {
    var r := if st.part.Some? then Assign(st.relay, st.part.value, JoinSpace(st.previous)) else st.relay;
    ScanState(r, next, [], st.inComment)
  }

  /** One word of the loop body. In comment mode a word containing `)`
      ends the comment: its prefix through `)` is buffered and the rest is
      treated as a word of its own (keyword-checked, possibly empty). A
      non-keyword word containing `(` switches comment mode on. */
  function ScanWord(st: ScanState, w: string): ScanState {
    var par := IndexOf(w, ')');
    var closes := st.inComment && par >= 0;
    var previous := if closes then st.previous + [w[..par + 1]] else st.previous;
    var word := if closes then w[par + 1..] else w;
    var inComment := st.inComment && !closes;
    var keyword := if inComment then None else Keyword(word);
    if keyword.None? then
      ScanState(st.relay, st.part, previous + [word], inComment || '(' in word)
    else
      Flush(ScanState(st.relay, st.part, previous, inComment), keyword)
  }

  function Scan(st: ScanState, ws: seq<string>): ScanState
    decreases |ws|
  {
    if ws == [] then st else Scan(ScanWord(st, ws[0]), ws[1..])
  }

  /** The clause part of the value (before the last `;`) applied to `r`:
      tokenise, scan, and flush the last clause at end of input. */
  function ScanText(r: Relay, text: string): Relay {
    Flush(Scan(ScanState(r, None, [], false), Tokens(text)), None).relay
  }

  /** The date parser, `datetime::parse` called on the date the field
      holds; it is given the bytes after the last `;`. */
  type DateParser = (DateTime, string) -> DateTime

  /** `relayField::parse`. Without a `;` nothing is assigned at all; with
      one, the date is parsed from the bytes after the last `;` and the
      clauses from the bytes before it. Earlier values are never cleared. */
  function Parse(r: Relay, buffer: string, position: nat, end: nat,
                 parseDate: DateParser): (p: Parsed<Relay>)
    requires position <= end <= |buffer|
    ensures p.newPosition == end
    ensures ';' !in buffer[position..end] ==> p.value == r
    ensures ';' in buffer[position..end] ==>
      exists k | position <= k < end ::
        && buffer[k] == ';'
        && ';' !in buffer[k + 1..end]
        && p.value.date == parseDate(r.date, buffer[k + 1..end])
        && p.value == ScanText(r.(date := parseDate(r.date, buffer[k + 1..end])), buffer[position..k])
    ensures r.withParts <= p.value.withParts
  {
    var value := buffer[position..end];
    var k := LastIndexOf(value, ';');
    if k < 0 then Parsed(r, end)
    else
      var dated := r.(date := parseDate(r.date, value[k + 1..]));
      assert value[k + 1..] == buffer[position + k + 1..end];
      assert value[..k] == buffer[position..position + k];
      ScanTextKeepsWith(dated, value[..k]);
      Parsed(ScanText(dated, value[..k]), end)
  }

  lemma FlushKeepsWith(st: ScanState, next: Option<Part>)
    ensures st.relay.withParts <= Flush(st, next).relay.withParts
    ensures Flush(st, next).relay.date == st.relay.date
  {
  }

  lemma {:induction false} ScanKeepsWith(st: ScanState, ws: seq<string>)
    ensures st.relay.withParts <= Scan(st, ws).relay.withParts
    ensures Scan(st, ws).relay.date == st.relay.date
    decreases |ws|
  {
    if ws != [] {
      var next := ScanWord(st, ws[0]);
      assert st.relay.withParts <= next.relay.withParts by {
        var par := IndexOf(ws[0], ')');
        var closes := st.inComment && par >= 0;
        var previous := if closes then st.previous + [ws[0][..par + 1]] else st.previous;
        FlushKeepsWith(ScanState(st.relay, st.part, previous, st.inComment && !closes), Keyword(ws[0]));
      }
      ScanKeepsWith(next, ws[1..]);
    }
  }

  /** Scanning only ever appends to the `with` list and keeps the date. */
  lemma ScanTextKeepsWith(r: Relay, text: string)
    ensures r.withParts <= ScanText(r, text).withParts
    ensures ScanText(r, text).date == r.date
  {
    var st := Scan(ScanState(r, None, [], false), Tokens(text));
    ScanKeepsWith(ScanState(r, None, [], false), Tokens(text));
    FlushKeepsWith(st, None);
  }

  // ---------------------------------------------------------------------
  // Generation

  /** The "kw value" pieces in the fixed order; empty clauses (other than
      `with` entries) are skipped. */
  function Pieces(r: Relay): seq<string> {
    (if r.fromPart != "" then ["from " + r.fromPart] else [])
    + (if r.byPart != "" then ["by " + r.byPart] else [])
    + (if r.viaPart != "" then ["via " + r.viaPart] else [])
    + seq(|r.withParts|, i requires 0 <= i < |r.withParts| => "with " + r.withParts[i])
    + (if r.idPart != "" then ["id " + r.idPart] else [])
    + (if r.forPart != "" then ["for " + r.forPart] else [])
  }

  /** The value text `relayField::generate` hands to the folder: the
      pieces separated by single spaces, then "; " and the date. */
  function GenerateValue(r: Relay, generateDate: DateTime -> string): (s: string)
    ensures |s| >= 2 + |generateDate(r.date)|
    ensures s[|s| - |generateDate(r.date)| - 2..] == "; " + generateDate(r.date)
  {
    JoinSpace(Pieces(r)) + "; " + generateDate(r.date)
  }

  /** `relayField::generate`: the field-name prefix (`headerField::generate`,
      passed in), then the value handed to the folder (`encodeAndFoldText`,
      passed in) with `forceNoEncoding` set, starting at the prefix's
      column. */
  function Generate(base: FieldBase, r: Relay, maxLineLength: nat, curLinePos: nat,
                    generateDate: DateTime -> string,
                    generatePrefix: (FieldBase, nat, nat) -> Generated,
                    fold: Folder): (g: Generated)
    ensures var prefix := generatePrefix(base, maxLineLength, curLinePos);
      var folded := fold(GenerateValue(r, generateDate), maxLineLength, prefix.column,
                         FoldFlags(forceNoEncoding := true));
      g.text == prefix.text + folded.text && g.column == folded.column
  {
    var prefix := generatePrefix(base, maxLineLength, curLinePos);
    var folded := fold(GenerateValue(r, generateDate), maxLineLength, prefix.column,
                       FoldFlags(forceNoEncoding := true));
    Generated(prefix.text + folded.text, folded.column)
  }
}
