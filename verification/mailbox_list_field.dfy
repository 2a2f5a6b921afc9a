/** `mailboxListField`: a header field whose value is a mailbox list
    (From, To, Cc, ...). Parsing and generating the list itself belong to
    `mailboxList`, which is not part of this model and is passed in. */
module MailboxListField {
  import opened FieldTypes
  import opened HeaderFields

  /** The list parser, `list.parse(buffer, position, end, &newPosition)`
      called on the list the field holds: it gets that list, and what it
      keeps of it is its own business. */
  type ListParser = (MailboxList, string, nat, nat) -> Parsed<MailboxList>

  /** `mailboxListField::parse`: the range is handed unchanged to the
      parser of the list the field holds, whose result becomes the list
      and whose end position is reported. The common field state is not
      touched. */
  function Parse(f: Field, buffer: string, position: nat, end: nat, parseList: ListParser): (p: Parsed<Field>)
    requires f.value.MailboxListValue?
    ensures p.value.base == f.base
    ensures p.value.value == MailboxListValue(parseList(f.value.list, buffer, position, end).value)
    ensures p.newPosition == parseList(f.value.list, buffer, position, end).newPosition
  {
    var parsed := parseList(f.value.list, buffer, position, end);
    Parsed(f.(value := MailboxListValue(parsed.value)), parsed.newPosition)
  }

  /** The list parser does not look at the list it is called on, for this
      range. */
  ghost predicate IgnoresHeldList(parseList: ListParser, buffer: string, position: nat, end: nat) {
    forall a: MailboxList, b: MailboxList :: parseList(a, buffer, position, end) == parseList(b, buffer, position, end)
  }

  /** `mailboxListField::parse` only forwards to the parse of the list it
      holds (`m_list.parse`), so the field adds no memory of its own.
      Whether the list parser keeps anything of the list held before is up
      to `mailboxList::parse`, which is not part of this model; this is
      the conditional: when the list parser ignores the held list, two
      fields with the same common state parse to the same field. */
  lemma ParseReplacesList(f: Field, g: Field, buffer: string, position: nat, end: nat, parseList: ListParser)
    requires f.value.MailboxListValue? && g.value.MailboxListValue? && f.base == g.base
    requires IgnoresHeldList(parseList, buffer, position, end)
    ensures Parse(f, buffer, position, end, parseList) == Parse(g, buffer, position, end, parseList)
  {
    assert parseList(f.value.list, buffer, position, end) == parseList(g.value.list, buffer, position, end);
  }

  /** `mailboxListField::generate`: the field-name prefix
      (`headerField::generate`), then the list starting at the column the
      prefix ends at; the final column is the list's. */
  function Generate(f: Field, maxLineLength: nat, curLinePos: nat,
                    generatePrefix: (FieldBase, nat, nat) -> Generated,
                    generateList: (MailboxList, nat, nat) -> Generated): (g: Generated)
    requires f.value.MailboxListValue?
    ensures var prefix := generatePrefix(f.base, maxLineLength, curLinePos);
      var list := generateList(f.value.list, maxLineLength, prefix.column);
      && |g.text| == |prefix.text| + |list.text|
      && g.text[..|prefix.text|] == prefix.text
      && g.text[|prefix.text|..] == list.text
      && g.column == list.column
  {
    var prefix := generatePrefix(f.base, maxLineLength, curLinePos);
    var list := generateList(f.value.list, maxLineLength, prefix.column);
    Generated(prefix.text + list.text, list.column)
  }

  /** The list parser reads back whatever the list generator wrote,
      after any text, and stops at its end; the list it is called on makes
      no difference. */
  ghost predicate InvertsGenerator(parseList: ListParser, generateList: (MailboxList, nat, nat) -> Generated) {
    forall held: MailboxList, before: string, l: MailboxList, maxLineLength: nat, column: nat ::
      var t := generateList(l, maxLineLength, column).text;
      parseList(held, before + t, |before|, |before + t|) == Parsed(l, |before + t|)
  }

  /** Reading back the value part of a generated field gives the field
      back, when the list parser inverts the list generator. */
  lemma ParseGeneratedValue(f: Field, maxLineLength: nat, curLinePos: nat,
                            generatePrefix: (FieldBase, nat, nat) -> Generated,
                            generateList: (MailboxList, nat, nat) -> Generated,
                            parseList: ListParser)
    requires f.value.MailboxListValue?
    requires InvertsGenerator(parseList, generateList)
    ensures var g := Generate(f, maxLineLength, curLinePos, generatePrefix, generateList);
      var start := |generatePrefix(f.base, maxLineLength, curLinePos).text|;
      Parse(f, g.text, start, |g.text|, parseList) == Parsed(f, |g.text|)
  {
    var prefix := generatePrefix(f.base, maxLineLength, curLinePos);
    var list := generateList(f.value.list, maxLineLength, prefix.column);
    var t := list.text;
    assert parseList(f.value.list, prefix.text + t, |prefix.text|, |prefix.text + t|)
        == Parsed(f.value.list, |prefix.text + t|);
  }
}
