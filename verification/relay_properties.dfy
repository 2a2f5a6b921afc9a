/** What the relay parser does with well-formed input, stated against an
    independent reference (clauses assigned in order), and the
    generate-then-parse round trip. */
module RelayFieldProperties {
  import opened Exceptions
  import opened ParserHelpers
  import opened FieldTypes
  import opened RelayField

  /** One "keyword value" clause of a Received value. */
  datatype Clause = Clause(part: Part, value: string)

  function KeywordText(p: Part): string {
    match p
    case From => "from"
    case By => "by"
    case Via => "via"
    case With => "with"
    case Id => "id"
    case For => "for"
  }

  function ClauseText(c: Clause): string {
    KeywordText(c.part) + " " + c.value
  }

  function ClauseTexts(cs: seq<Clause>): seq<string> {
    seq(|cs|, i requires 0 <= i < |cs| => ClauseText(cs[i]))
  }

  /** Reference semantics: the clauses stored one after the other. */
  function AssignAll(r: Relay, cs: seq<Clause>): Relay
    decreases |cs|
  {
    if cs == [] then r else AssignAll(Assign(r, cs[0].part, cs[0].value), cs[1..])
  }

  /** A word the parser buffers as it is: not a keyword, opens no comment. */
  predicate PlainWord(w: string) {
    Keyword(w).None? && '(' !in w
  }

  /** A clause value that survives tokenising and re-joining unchanged. */
  predicate PlainValue(v: string) {
    && v == JoinSpace(Tokens(v))
    && (forall k | 0 <= k < |Tokens(v)| :: PlainWord(Tokens(v)[k]))
  }

  predicate PlainClauses(cs: seq<Clause>) {
    forall i | 0 <= i < |cs| :: PlainValue(cs[i].value)
  }

  lemma FirstLetterDiffers(w: string, kw: string, n: nat)
    requires 0 < n && n <= |kw|
    requires n <= |w| ==> ToLower(w[0]) != ToLower(kw[0])
    ensures !PrefixEqualNoCase(w, kw, n)
  {
    if n <= |w| {
      assert w[..n][0] == w[0] && kw[..n][0] == kw[0];
    }
  }

  lemma KeywordOfKeywordText(p: Part)
    ensures Keyword(KeywordText(p)) == Some(p)
  {
    var w := KeywordText(p);
    match p
    case From =>
    case By => FirstLetterDiffers(w, "from", 4);
    case Via => FirstLetterDiffers(w, "from", 4); FirstLetterDiffers(w, "by", 2);
    case With =>
      FirstLetterDiffers(w, "from", 4); FirstLetterDiffers(w, "by", 2); FirstLetterDiffers(w, "via", 2);
    case Id =>
      FirstLetterDiffers(w, "from", 4); FirstLetterDiffers(w, "by", 2); FirstLetterDiffers(w, "via", 2);
      FirstLetterDiffers(w, "with", 2);
    case For =>
      FirstLetterDiffers(w, "from", 4); FirstLetterDiffers(w, "by", 2); FirstLetterDiffers(w, "via", 2);
      FirstLetterDiffers(w, "with", 2); FirstLetterDiffers(w, "id", 2);
  }

  lemma KeywordTextIsWord(p: Part)
    ensures IsWord(KeywordText(p))
  {
  }

  /** A mismatch at position `k` inside the compared prefix rules the
      keyword out. */
  lemma LetterDiffers(w: string, kw: string, n: nat, k: nat)
    requires k < n <= |kw|
    requires k < |w| ==> ToLower(w[k]) != ToLower(kw[k])
    ensures !PrefixEqualNoCase(w, kw, n)
  {
    if n <= |w| {
      assert w[..n][k] == w[k] && kw[..n][k] == kw[k];
    }
  }

  /** The keyword test compares prefixes only: every word that starts
      "fo", in any case, is `for` (it cannot be "from", whose second
      letter is 'r'). */
  lemma AnyFoWordIsFor(w: string)
    requires |w| >= 2 && ToLower(w[0]) == 'f' && ToLower(w[1]) == 'o'
    ensures Keyword(w) == Some(For)
  {
    LetterDiffers(w, "from", 4, 1);
    LetterDiffers(w, "by", 2, 0);
    LetterDiffers(w, "via", 2, 0);
    LetterDiffers(w, "with", 2, 0);
    LetterDiffers(w, "id", 2, 0);
    assert EqualNoCase(w[..2], "for"[..2]);
  }

  /** Likewise every word that starts "vi", in any case, is `via`. */
  lemma AnyViWordIsVia(w: string)
    requires |w| >= 2 && ToLower(w[0]) == 'v' && ToLower(w[1]) == 'i'
    ensures Keyword(w) == Some(Via)
  {
    LetterDiffers(w, "from", 4, 0);
    LetterDiffers(w, "by", 2, 0);
    assert EqualNoCase(w[..2], "via"[..2]);
  }

  /** "from" is the one keyword that needs all four letters. */
  lemma FromNeedsFourLetters()
    ensures Keyword("FROM") == Some(From)
    ensures Keyword("frog") == None
  {
    assert "FROM"[..4] == "FROM";
    assert "frog"[..4] == "frog";
    assert ToLower("frog"[3]) != ToLower("from"[3]);
    FirstLetterDiffers("frog", "by", 2);
    FirstLetterDiffers("frog", "via", 2);
    FirstLetterDiffers("frog", "with", 2);
    FirstLetterDiffers("frog", "id", 2);
    assert "frog"[..2] == "fr";
    assert ToLower("frog"[1]) != ToLower("for"[1]);
  }

  lemma {:induction false} ScanAppend(st: ScanState, a: seq<string>, b: seq<string>)
    ensures Scan(st, a + b) == Scan(Scan(st, a), b)
    decreases |a|
  {
    if a == [] {
      assert a + b == b;
    } else {
      assert (a + b)[1..] == a[1..] + b;
      ScanAppend(ScanWord(st, a[0]), a[1..], b);
    }
  }

  /** Outside comment mode plain words are only buffered. */
  lemma {:induction false} ScanPlain(st: ScanState, ws: seq<string>)
    requires !st.inComment
    requires forall k | 0 <= k < |ws| :: PlainWord(ws[k])
    ensures Scan(st, ws) == st.(previous := st.previous + ws)
    decreases |ws|
  {
    if ws != [] {
      var next := ScanWord(st, ws[0]);
      assert next == st.(previous := st.previous + [ws[0]]);
      ScanPlain(next, ws[1..]);
      assert st.previous + [ws[0]] + ws[1..] == st.previous + ws;
    }
  }

  function ClauseTokens(cs: seq<Clause>): seq<string>
    decreases |cs|
  {
    if cs == [] then [] else [KeywordText(cs[0].part)] + Tokens(cs[0].value) + ClauseTokens(cs[1..])
  }

  lemma ScanKeyword(st: ScanState, p: Part)
    requires !st.inComment
    ensures ScanWord(st, KeywordText(p)) == Flush(st, Some(p))
  {
    KeywordOfKeywordText(p);
  }

  lemma {:induction false} ScanClauses(st: ScanState, cs: seq<Clause>)
    requires !st.inComment
    requires PlainClauses(cs)
    ensures Flush(Scan(st, ClauseTokens(cs)), None).relay == AssignAll(Flush(st, None).relay, cs)
    decreases |cs|
  {
    if cs != [] {
      var c := cs[0];
      var head := [KeywordText(c.part)] + Tokens(c.value);
      var rest := ClauseTokens(cs[1..]);
      assert ClauseTokens(cs) == head + rest;
      ScanAppend(st, head, rest);
      ScanOneClause(st, c);
      PlainClausesTail(cs);
      ScanClauses(Scan(st, head), cs[1..]);
    }
  }

  /** One clause: its keyword flushes the clause before it and its value
      words are buffered, so that the next flush stores exactly it. */
  lemma ScanOneClause(st: ScanState, c: Clause)
    requires !st.inComment && PlainValue(c.value)
    ensures var s2 := Scan(st, [KeywordText(c.part)] + Tokens(c.value));
      && !s2.inComment
      && Flush(s2, None).relay == Assign(Flush(st, None).relay, c.part, c.value)
  {
    var kw := KeywordText(c.part);
    var ts := Tokens(c.value);
    ScanAppend(st, [kw], ts);
    ScanKeyword(st, c.part);
    var s1 := Flush(st, Some(c.part));
    assert Scan(st, [kw]) == s1;
    ScanPlain(s1, ts);
    assert Scan(s1, ts) == s1.(previous := ts);
  }

  lemma PlainClausesTail(cs: seq<Clause>)
    requires cs != [] && PlainClauses(cs)
    ensures PlainClauses(cs[1..])
  {
    forall i | 0 <= i < |cs[1..]| ensures PlainValue(cs[1..][i].value) {
      assert cs[1..][i] == cs[i + 1];
    }
  }

  lemma ClauseTextTokens(c: Clause)
    ensures Tokens(ClauseText(c)) == [KeywordText(c.part)] + Tokens(c.value)
  {
    var kw := KeywordText(c.part);
    TokensSplit(kw, ' ', c.value);
    assert ClauseText(c) == kw + [' '] + c.value;
    KeywordTextIsWord(c.part);
    TokensOfWord(kw);
  }

  lemma {:induction false} FlattenClauseTokens(cs: seq<Clause>)
    ensures Flatten(seq(|cs|, k requires 0 <= k < |cs| => Tokens(ClauseTexts(cs)[k]))) == ClauseTokens(cs)
    decreases |cs|
  {
    var each := seq(|cs|, k requires 0 <= k < |cs| => Tokens(ClauseTexts(cs)[k]));
    if cs != [] {
      ClauseTextTokens(cs[0]);
      FlattenClauseTokens(cs[1..]);
      assert each[1..] == seq(|cs[1..]|, k requires 0 <= k < |cs[1..]| => Tokens(ClauseTexts(cs[1..])[k]));
    }
  }

  /** For comment-free input whose values hold no keyword, the parser is
      the reference: each clause is stored in order, so `with` values
      accumulate and for every other clause the last occurrence wins. */
  lemma ScanTextIsAssignAll(r: Relay, cs: seq<Clause>)
    requires PlainClauses(cs)
    ensures ScanText(r, JoinSpace(ClauseTexts(cs))) == AssignAll(r, cs)
  {
    TokensOfJoin(ClauseTexts(cs));
    FlattenClauseTokens(cs);
    ScanClauses(ScanState(r, None, [], false), cs);
  }

  // ---------------------------------------------------------------------
  // The reference, clause by clause

  function WithValues(cs: seq<Clause>): seq<string>
    decreases |cs|
  {
    if cs == [] then []
    else (if cs[0].part == With then [cs[0].value] else []) + WithValues(cs[1..])
  }

  /** The value of a non-`with` clause in a relay. */
  function Slot(r: Relay, p: Part): string
    requires p != With
  {
    match p
    case From => r.fromPart
    case By => r.byPart
    case Via => r.viaPart
    case Id => r.idPart
    case For => r.forPart
  }

  /** The value of the last `p` clause, or `default` if there is none. */
  function LastValue(cs: seq<Clause>, p: Part, default: string): string
    decreases |cs|
  {
    if cs == [] then default
    else if cs[|cs| - 1].part == p then cs[|cs| - 1].value
    else LastValue(cs[..|cs| - 1], p, default)
  }

  lemma {:induction false} AssignAllAppend(r: Relay, cs: seq<Clause>, c: Clause)
    ensures AssignAll(r, cs + [c]) == Assign(AssignAll(r, cs), c.part, c.value)
    decreases |cs|
  {
    if cs == [] {
      assert [] + [c] == [c];
    } else {
      assert (cs + [c])[1..] == cs[1..] + [c];
      AssignAllAppend(Assign(r, cs[0].part, cs[0].value), cs[1..], c);
    }
  }

  lemma {:induction false} WithValuesAppend(cs: seq<Clause>, c: Clause)
    ensures WithValues(cs + [c]) == WithValues(cs) + (if c.part == With then [c.value] else [])
    decreases |cs|
  {
    if cs == [] {
      assert [] + [c] == [c];
    } else {
      assert (cs + [c])[1..] == cs[1..] + [c];
      WithValuesAppend(cs[1..], c);
    }
  }

  /** Every `with` clause is appended, in order, after the old entries. */
  lemma {:induction false} WithAccumulates(r: Relay, cs: seq<Clause>)
    ensures AssignAll(r, cs).withParts == r.withParts + WithValues(cs)
    decreases |cs|
  {
    if cs != [] {
      WithAccumulates(Assign(r, cs[0].part, cs[0].value), cs[1..]);
    }
  }

  /** Every other clause is overwritten: its last occurrence wins, and an
      absent clause keeps the value it had before parsing. */
  lemma {:induction false} LastOccurrenceWins(r: Relay, cs: seq<Clause>, p: Part)
    requires p != With
    ensures Slot(AssignAll(r, cs), p) == LastValue(cs, p, Slot(r, p))
    decreases |cs|
  {
    if cs != [] {
      var init := cs[..|cs| - 1];
      var c := cs[|cs| - 1];
      assert cs == init + [c];
      AssignAllAppend(r, init, c);
      LastOccurrenceWins(r, init, p);
    }
  }

  // ---------------------------------------------------------------------
  // Words before the first keyword

  lemma {:induction false} NoClauseIgnoresBuffer(r: Relay, a: seq<string>, b: seq<string>, c: bool, ws: seq<string>)
    ensures Flush(Scan(ScanState(r, None, a, c), ws), None).relay == Flush(Scan(ScanState(r, None, b, c), ws), None).relay
    decreases |ws|
  {
    if ws != [] {
      var sa := ScanWord(ScanState(r, None, a, c), ws[0]);
      var sb := ScanWord(ScanState(r, None, b, c), ws[0]);
      if sa.part.None? {
        assert sb.part.None? && sa.relay == r == sb.relay && sa.inComment == sb.inComment;
        NoClauseIgnoresBuffer(r, sa.previous, sb.previous, sa.inComment, ws[1..]);
      } else {
        assert sa == sb;
      }
    }
  }

  /** Words met before the first keyword are discarded: they reach no
      clause. */
  lemma LeadingWordsDiscarded(r: Relay, junk: string, text: string)
    requires forall k | 0 <= k < |Tokens(junk)| :: PlainWord(Tokens(junk)[k])
    ensures ScanText(r, junk + " " + text) == ScanText(r, text)
  {
    TokensSplit(junk, ' ', text);
    assert junk + " " + text == junk + [' '] + text;
    var st := ScanState(r, None, [], false);
    ScanAppend(st, Tokens(junk), Tokens(text));
    ScanPlain(st, Tokens(junk));
    NoClauseIgnoresBuffer(r, [] + Tokens(junk), [], false, Tokens(text));
  }

  // ---------------------------------------------------------------------
  // Generate, then parse

  function WithClauses(ws: seq<string>): seq<Clause> {
    seq(|ws|, i requires 0 <= i < |ws| => Clause(With, ws[i]))
  }

  /** A clause for a non-empty part, nothing for an empty one. */
  function OptClause(p: Part, v: string): seq<Clause> {
    if v != "" then [Clause(p, v)] else []
  }

  /** The clauses `relayField::generate` emits, in its fixed order. */
  function Clauses(r: Relay): seq<Clause> {
    OptClause(From, r.fromPart) + OptClause(By, r.byPart) + OptClause(Via, r.viaPart)
    + WithClauses(r.withParts)
    + OptClause(Id, r.idPart) + OptClause(For, r.forPart)
  }

  lemma ClauseTextsConcat(a: seq<Clause>, b: seq<Clause>)
    ensures ClauseTexts(a + b) == ClauseTexts(a) + ClauseTexts(b)
  {
  }

  lemma PiecesAreClauseTexts(r: Relay)
    ensures Pieces(r) == ClauseTexts(Clauses(r))
  {
    var f, b, v := OptClause(From, r.fromPart), OptClause(By, r.byPart), OptClause(Via, r.viaPart);
    var w := WithClauses(r.withParts);
    var i, o := OptClause(Id, r.idPart), OptClause(For, r.forPart);
    assert Clauses(r) == f + b + v + w + i + o;
    ClauseTextsConcat(f + b + v + w + i, o);
    ClauseTextsConcat(f + b + v + w, i);
    ClauseTextsConcat(f + b + v, w);
    ClauseTextsConcat(f + b, v);
    ClauseTextsConcat(f, b);
    assert ClauseTexts(Clauses(r))
      == ClauseTexts(f) + ClauseTexts(b) + ClauseTexts(v) + ClauseTexts(w) + ClauseTexts(i) + ClauseTexts(o);
    OptClauseText(From, r.fromPart);
    OptClauseText(By, r.byPart);
    OptClauseText(Via, r.viaPart);
    OptClauseText(Id, r.idPart);
    OptClauseText(For, r.forPart);
    assert KeywordText(From) + " " == "from ";
    assert KeywordText(By) + " " == "by ";
    assert KeywordText(Via) + " " == "via ";
    assert KeywordText(Id) + " " == "id ";
    assert KeywordText(For) + " " == "for ";
    assert KeywordText(With) + " " == "with ";
    var ws := seq(|r.withParts|, k requires 0 <= k < |r.withParts| => "with " + r.withParts[k]);
    assert ClauseTexts(w) == ws by {
      forall k | 0 <= k < |ws| ensures ClauseTexts(w)[k] == ws[k] {
        assert w[k] == Clause(With, r.withParts[k]);
      }
    }
    assert Pieces(r)
      == (if r.fromPart != "" then ["from " + r.fromPart] else [])
      + (if r.byPart != "" then ["by " + r.byPart] else [])
      + (if r.viaPart != "" then ["via " + r.viaPart] else [])
      + ws
      + (if r.idPart != "" then ["id " + r.idPart] else [])
      + (if r.forPart != "" then ["for " + r.forPart] else []);
  }

  lemma OptClauseText(p: Part, v: string)
    ensures ClauseTexts(OptClause(p, v)) == if v != "" then [KeywordText(p) + " " + v] else []
  {
  }

  lemma {:induction false} AssignAllConcat(r: Relay, a: seq<Clause>, b: seq<Clause>)
    ensures AssignAll(r, a + b) == AssignAll(AssignAll(r, a), b)
    decreases |a|
  {
    if a == [] {
      assert a + b == b;
    } else {
      assert (a + b)[1..] == a[1..] + b;
      AssignAllConcat(Assign(r, a[0].part, a[0].value), a[1..], b);
    }
  }

  lemma {:induction false} AssignWithClauses(r: Relay, ws: seq<string>)
    ensures AssignAll(r, WithClauses(ws)) == r.(withParts := r.withParts + ws)
    decreases |ws|
  {
    if ws != [] {
      assert WithClauses(ws)[1..] == WithClauses(ws[1..]);
      AssignWithClauses(Assign(r, With, ws[0]), ws[1..]);
      assert r.withParts + [ws[0]] + ws[1..] == r.withParts + ws;
    }
  }

  /** Storing the generated clauses into an empty field rebuilds it. */
  lemma AssignAllClauses(r: Relay)
    ensures AssignAll(Empty(r.date), Clauses(r)) == r
  {
    var e := Empty(r.date);
    var a := OptClause(From, r.fromPart) + OptClause(By, r.byPart) + OptClause(Via, r.viaPart);
    var w := WithClauses(r.withParts);
    var b := OptClause(Id, r.idPart) + OptClause(For, r.forPart);
    assert Clauses(r) == a + w + b;
    AssignAllConcat(e, a + w, b);
    AssignAllConcat(e, a, w);
    var ea := AssignAll(e, a);
    assert ea == Relay(r.fromPart, r.byPart, r.viaPart, [], "", "", r.date) by {
      var a1, a2, a3 := OptClause(From, r.fromPart), OptClause(By, r.byPart), OptClause(Via, r.viaPart);
      AssignAllConcat(e, a1 + a2, a3);
      AssignAllConcat(e, a1, a2);
    }
    AssignWithClauses(ea, r.withParts);
    var b1, b2 := OptClause(Id, r.idPart), OptClause(For, r.forPart);
    AssignAllConcat(AssignAll(ea, w), b1, b2);
  }

  /** The values the generator can emit and the parser reads back. */
  predicate Literal(v: string) {
    PlainValue(v) && ';' !in v
  }

  predicate WellFormed(r: Relay) {
    && Literal(r.fromPart) && Literal(r.byPart) && Literal(r.viaPart)
    && (forall i | 0 <= i < |r.withParts| :: Literal(r.withParts[i]))
    && Literal(r.idPart) && Literal(r.forPart)
  }

  lemma {:induction false} NoSemicolonInJoin(ps: seq<string>)
    requires forall i | 0 <= i < |ps| :: ';' !in ps[i]
    ensures ';' !in JoinSpace(ps)
    decreases |ps|
  {
    if |ps| > 1 {
      NoSemicolonInJoin(ps[1..]);
    }
  }

  predicate AllLiteral(cs: seq<Clause>) {
    forall i | 0 <= i < |cs| :: Literal(cs[i].value)
  }

  lemma AllLiteralConcat(a: seq<Clause>, b: seq<Clause>)
    requires AllLiteral(a) && AllLiteral(b)
    ensures AllLiteral(a + b)
  {
    forall i | 0 <= i < |a + b| ensures Literal((a + b)[i].value) {
      if i >= |a| { assert (a + b)[i] == b[i - |a|]; }
    }
  }

  lemma ClausesAreLiteral(r: Relay)
    requires WellFormed(r)
    ensures AllLiteral(Clauses(r))
  {
    var f, b, v := OptClause(From, r.fromPart), OptClause(By, r.byPart), OptClause(Via, r.viaPart);
    var w := WithClauses(r.withParts);
    var i, o := OptClause(Id, r.idPart), OptClause(For, r.forPart);
    assert AllLiteral(w) by {
      forall k | 0 <= k < |w| ensures Literal(w[k].value) {
        assert w[k].value == r.withParts[k];
      }
    }
    AllLiteralConcat(f, b);
    AllLiteralConcat(f + b, v);
    AllLiteralConcat(f + b + v, w);
    AllLiteralConcat(f + b + v + w, i);
    AllLiteralConcat(f + b + v + w + i, o);
  }

  lemma NoSemicolonInPieces(r: Relay)
    requires WellFormed(r)
    ensures ';' !in JoinSpace(Pieces(r))
  {
    ClausesAreLiteral(r);
    PiecesAreClauseTexts(r);
    var cs := Clauses(r);
    var ps := ClauseTexts(cs);
    forall i | 0 <= i < |ps| ensures ';' !in ps[i] {
      NoSemicolonInKeyword(cs[i].part);
      assert ps[i] == KeywordText(cs[i].part) + " " + cs[i].value;
    }
    NoSemicolonInJoin(ps);
  }

  lemma NoSemicolonInKeyword(p: Part)
    ensures ';' !in KeywordText(p)
  {
  }

  /** With no `;` before the separator nor in the date text, the parser
      splits the generated value exactly at the separator. */
  lemma ParseGenerated(init: DateTime, j: string, gd: string, parseDate: DateParser)
    requires ';' !in j && ';' !in gd
    ensures var v := j + "; " + gd;
      Parse(Empty(init), v, 0, |v|, parseDate).value == ScanText(Empty(parseDate(init, " " + gd)), j)
  {
    var v := j + "; " + gd;
    assert v[0..|v|] == v;
    assert v[|j| + 1..] == " " + gd;
    assert v[..|j|] == j;
    LastIndexOfIsUnique(v, ';', |j|);
    assert Empty(init).(date := parseDate(init, " " + gd)) == Empty(parseDate(init, " " + gd));
  }

  /** Parsing the generated value into an empty field gives the field
      back, when every clause value is a plain, `;`-free word sequence
      and the date parser reads back what the date generator wrote. */
  lemma GenerateThenParse(r: Relay, init: DateTime, parseDate: DateParser, generateDate: DateTime -> string)
    requires WellFormed(r)
    requires ';' !in generateDate(r.date)
    requires parseDate(init, " " + generateDate(r.date)) == r.date
    ensures var v := GenerateValue(r, generateDate);
      Parse(Empty(init), v, 0, |v|, parseDate).value == r
  {
    NoSemicolonInPieces(r);
    ParseGenerated(init, JoinSpace(Pieces(r)), generateDate(r.date), parseDate);
    ClausesAreLiteral(r);
    PiecesAreClauseTexts(r);
    ScanTextIsAssignAll(Empty(r.date), Clauses(r));
    AssignAllClauses(r);
  }

  /** A folder that, with encoding forced off, writes any value as it is
      (no line is long enough to need folding). */
  ghost predicate KeepsUnencodedText(fold: Folder) {
    forall v: string, m: nat, c: nat :: fold(v, m, c, FoldFlags(true)).text == v
  }

  /** The whole field: past the field-name prefix, the generated text
      parses back to the field, provided the folder leaves the value alone
      when encoding is forced off, which is the flag the generator uses. */
  lemma GenerateFieldThenParse(base: FieldBase, r: Relay, maxLineLength: nat, curLinePos: nat,
                               init: DateTime, parseDate: DateParser,
                               generateDate: DateTime -> string,
                               generatePrefix: (FieldBase, nat, nat) -> Generated,
                               fold: Folder)
    requires WellFormed(r)
    requires ';' !in generateDate(r.date)
    requires parseDate(init, " " + generateDate(r.date)) == r.date
    requires KeepsUnencodedText(fold)
    ensures var g := Generate(base, r, maxLineLength, curLinePos, generateDate, generatePrefix, fold);
      var n := |generatePrefix(base, maxLineLength, curLinePos).text|;
      n <= |g.text| && Parse(Empty(init), g.text, n, |g.text|, parseDate).value == r
  {
    var prefix := generatePrefix(base, maxLineLength, curLinePos);
    var v := GenerateValue(r, generateDate);
    assert fold(v, maxLineLength, prefix.column, FoldFlags(true)).text == v;
    ParseSeesOnlyRange(Empty(init), prefix.text, v, parseDate);
    GenerateThenParse(r, init, parseDate, generateDate);
  }

  /** The parser reads nothing outside [position, end). */
  lemma ParseSeesOnlyRange(r: Relay, before: string, v: string, parseDate: DateParser)
    ensures Parse(r, before + v, |before|, |before + v|, parseDate).value == Parse(r, v, 0, |v|, parseDate).value
  {
    assert (before + v)[|before|..|before + v|] == v[0..|v|];
  }

  /** A single word the parser reads back as a clause value. */
  predicate ClauseWord(w: string) {
    IsWord(w) && ';' !in w && PlainWord(w)
  }

  lemma ClauseWordIsLiteral(w: string)
    requires ClauseWord(w)
    ensures Literal(w)
  {
    TokensOfWord(w);
  }

  /** The usual trace line, `from <host> by <host> with <protocol> id <id>;
      <date>`, parses into exactly those four clauses and the date. */
  lemma TypicalTraceLine(init: DateTime, parseDate: DateParser,
                         origin: string, relay: string, protocol: string, ident: string, date: string)
    requires ClauseWord(origin) && ClauseWord(relay) && ClauseWord(protocol) && ClauseWord(ident)
    requires ';' !in date
    ensures var v := "from " + origin + " by " + relay + " with " + protocol + " id " + ident + "; " + date;
      Parse(Empty(init), v, 0, |v|, parseDate).value
        == Relay(origin, relay, "", [protocol], ident, "", parseDate(init, " " + date))
  {
    var r := Relay(origin, relay, "", [protocol], ident, "", parseDate(init, " " + date));
    TypicalIsWellFormed(r);
    TypicalPieces(r);
    GenerateThenParse(r, init, parseDate, d => date);
  }

  lemma TypicalIsWellFormed(r: Relay)
    requires ClauseWord(r.fromPart) && ClauseWord(r.byPart) && r.viaPart == ""
    requires |r.withParts| == 1 && ClauseWord(r.withParts[0])
    requires ClauseWord(r.idPart) && r.forPart == ""
    ensures WellFormed(r)
  {
    ClauseWordIsLiteral(r.fromPart);
    ClauseWordIsLiteral(r.byPart);
    ClauseWordIsLiteral(r.withParts[0]);
    ClauseWordIsLiteral(r.idPart);
    EmptyIsLiteral();
    assert forall i | 0 <= i < |r.withParts| :: Literal(r.withParts[i]);
  }

  lemma EmptyIsLiteral()
    ensures Literal("")
  {
    assert Tokens("") == [];
  }

  lemma TypicalPieces(r: Relay)
    requires r.fromPart != "" && r.byPart != "" && r.viaPart == ""
    requires |r.withParts| == 1 && r.idPart != "" && r.forPart == ""
    ensures JoinSpace(Pieces(r))
      == "from " + r.fromPart + " by " + r.byPart + " with " + r.withParts[0] + " id " + r.idPart
  {
    TypicalPieceList(r);
    JoinFour("from " + r.fromPart, "by " + r.byPart, "with " + r.withParts[0], "id " + r.idPart);
  }

  lemma TypicalPieceList(r: Relay)
    requires r.fromPart != "" && r.byPart != "" && r.viaPart == ""
    requires |r.withParts| == 1 && r.idPart != "" && r.forPart == ""
    ensures Pieces(r) == ["from " + r.fromPart, "by " + r.byPart, "with " + r.withParts[0], "id " + r.idPart]
  {
    var w := seq(|r.withParts|, i requires 0 <= i < |r.withParts| => "with " + r.withParts[i]);
    assert w == ["with " + r.withParts[0]];
  }

  lemma JoinFour(a: string, b: string, c: string, d: string)
    ensures JoinSpace([a, b, c, d]) == a + " " + b + " " + c + " " + d
  {
    var ps := [a, b, c, d];
    assert ps[3..] == [d] && ps[2..] == [c, d] && ps[1..] == [b, c, d];
    assert JoinSpace([c, d]) == c + " " + d by { assert [c, d][1..] == [d]; }
    assert JoinSpace([b, c, d]) == b + " " + (c + " " + d) by { assert [b, c, d][1..] == [c, d]; }
  }

  // ---------------------------------------------------------------------
  // Comment mode

  /** In comment mode a word without `)` is buffered as it is, even when
      it spells a keyword, and the mode stays on. */
  lemma CommentHidesKeywords(st: ScanState, w: string)
    requires st.inComment && ')' !in w
    ensures ScanWord(st, w) == st.(previous := st.previous + [w])
  {
  }

  /** In comment mode a word containing `)` is split after its first `)`:
      the prefix is buffered and the remainder is read as a word of its
      own outside comment mode, where it may be a keyword. */
  lemma ClosingWordIsSplit(st: ScanState, w: string, k: nat)
    requires st.inComment && k < |w| && w[k] == ')' && ')' !in w[..k]
    ensures ScanWord(st, w)
      == ScanWord(st.(previous := st.previous + [w[..k + 1]], inComment := false), w[k + 1..])
  {
  }

  /** Outside comment mode a non-keyword word containing `(` switches the
      mode on, even when the same word also closes the parenthesis. */
  lemma OpeningWordStartsComment(st: ScanState, w: string)
    requires !st.inComment && Keyword(w).None? && '(' in w
    ensures ScanWord(st, w) == ScanState(st.relay, st.part, st.previous + [w], true)
  {
  }

  /** So after the word "(x)" the keyword "by" is only buffered: the
      clause being read continues and no `by` clause starts. */
  lemma SelfClosedCommentSwallowsKeyword(st: ScanState)
    requires !st.inComment
    ensures Scan(st, ["(x)", "by"])
      == ScanState(st.relay, st.part, st.previous + ["(x)", "by"], true)
  {
    var x := "(x)";
    assert Keyword(x).None? by {
      FirstLetterDiffers(x, "by", 2);
      FirstLetterDiffers(x, "via", 2);
      FirstLetterDiffers(x, "with", 2);
      FirstLetterDiffers(x, "id", 2);
      FirstLetterDiffers(x, "for", 2);
      FirstLetterDiffers(x, "from", 4);
    }
    assert x[0] == '(';
    OpeningWordStartsComment(st, x);
    var st1 := ScanWord(st, x);
    assert ')' !in "by";
    CommentHidesKeywords(st1, "by");
    assert ["(x)", "by"][1..] == ["by"];
  }
}
