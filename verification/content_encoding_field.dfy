/** `contentEncodingField`: the Content-Transfer-Encoding field, a
    parameterised field whose value is an `encoding`. Parsing and
    generating the encoding itself belong to `encoding`, which is not
    part of this model and is passed in. */
module ContentEncodingField {
  import opened FieldTypes
  import opened HeaderFields

  /** The encoding parser, `value.parse(buffer, position, end)` called on
      the encoding the field holds. */
  type EncodingParser = (Encoding, string, nat, nat) -> Encoding

  /** `contentEncodingField::parseValue`: the range is handed unchanged to
      the parser of the encoding the field holds, whose result becomes the
      encoding; parameters and common state are kept. */
  function ParseValue(f: Field, buffer: string, position: nat, end: nat,
                      parseEncoding: EncodingParser): (r: Field)
    requires f.value.ContentEncodingValue?
    ensures r.value.ContentEncodingValue?
    ensures r.value.encoding == parseEncoding(f.value.encoding, buffer, position, end)
    ensures r.value.parameters == f.value.parameters && r.base == f.base
  {
    f.(value := f.value.(encoding := parseEncoding(f.value.encoding, buffer, position, end)))
  }

  /** `contentEncodingField::generateValue`: the encoding's own text. */
  function GenerateValue(f: Field, generateEncoding: Encoding -> string): string
    requires f.value.ContentEncodingValue?
  {
    generateEncoding(f.value.encoding)
  }

  /** `operator=(const encoding&)`: the encoding is replaced and nothing
      else changes. */
  function AssignEncoding(f: Field, e: Encoding): (r: Field)
    requires f.value.ContentEncodingValue?
    ensures r.value == ContentEncodingValue(e, f.value.parameters) && r.base == f.base
  {
    f.(value := f.value.(encoding := e))
  }

  /** The last assignment wins. */
  lemma AssignTwice(f: Field, a: Encoding, b: Encoding)
    requires f.value.ContentEncodingValue?
    ensures AssignEncoding(AssignEncoding(f, a), b) == AssignEncoding(f, b)
  {
  }

  /** The encoding parser reads back the text of any encoding, whatever
      encoding it is called on. */
  ghost predicate InvertsGenerator(parseEncoding: EncodingParser, generateEncoding: Encoding -> string) {
    forall held: Encoding, e: Encoding ::
      parseEncoding(held, generateEncoding(e), 0, |generateEncoding(e)|) == e
  }

  /** Parsing the generated value restores the field, when the encoding
      parser inverts the encoding generator. */
  lemma ParseGeneratedValue(f: Field, generateEncoding: Encoding -> string, parseEncoding: EncodingParser)
    requires f.value.ContentEncodingValue?
    requires InvertsGenerator(parseEncoding, generateEncoding)
    ensures var s := GenerateValue(f, generateEncoding);
      ParseValue(f, s, 0, |s|, parseEncoding) == f
  {
    var e := f.value.encoding;
    assert parseEncoding(e, generateEncoding(e), 0, |generateEncoding(e)|) == e;
  }

  /** Assigning an encoding, then generating, writes that encoding. */
  lemma GenerateAfterAssign(f: Field, e: Encoding, generateEncoding: Encoding -> string)
    requires f.value.ContentEncodingValue?
    ensures GenerateValue(AssignEncoding(f, e), generateEncoding) == generateEncoding(e)
  {
  }
}
