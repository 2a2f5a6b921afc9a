/** The header-field variants of the model as one tagged union, and their
    `copyFrom`: each variant casts its argument to its own type with
    `dynamic_cast`, which throws `std::bad_cast` before anything is
    assigned when the argument is of another variant. */
module HeaderFields {
  import opened Exceptions
  import opened FieldTypes
  import opened RelayField

  /** The value part of each field class. */
  datatype FieldValue =
    | RelayValue(relay: Relay)
    | MailboxListValue(list: MailboxList)
    | ContentEncodingValue(encoding: Encoding, parameters: seq<Parameter>)

  /** A header field: the state common to every field, and its value. */
  datatype Field = Field(base: FieldBase, value: FieldValue)

  predicate SameVariant(a: Field, b: Field) {
    match a.value
    case RelayValue(_) => b.value.RelayValue?
    case MailboxListValue(_) => b.value.MailboxListValue?
    case ContentEncodingValue(_, _) => b.value.ContentEncodingValue?
  }

  /** The target after a `copyFrom`, with the outcome. */
  datatype Copied = Copied(field: Field, outcome: Outcome)

  /** `headerField::copyFrom`: the common state. `headerField.cpp` is not
      part of this model; the common state is taken to be copied whole. */
  function CopyBase(target: Field, source: Field): Field {
    target.(base := source.base)
  }

  /** `relayField::copyFrom`: the five single slots, the `with` list
      (resized, then copied element by element) and the date, then the
      common state. */
  function RelayCopyFrom(target: Field, source: Field): (c: Copied)
    requires target.value.RelayValue?
    ensures c.outcome == Pass <==> source.value.RelayValue?
    ensures c.outcome == Pass ==> c.field == source
    ensures c.outcome != Pass ==> c.field == target && c.outcome == Fail(BadCast)
  {
    if !source.value.RelayValue? then Copied(target, Fail(BadCast))
    else
      var s := source.value.relay;
      var t := target.value.relay;
      var withs := seq(|s.withParts|, i requires 0 <= i < |s.withParts| => s.withParts[i]);
      var r := t.(fromPart := s.fromPart, viaPart := s.viaPart, byPart := s.byPart,
                  idPart := s.idPart, forPart := s.forPart, withParts := withs, date := s.date);
      Copied(CopyBase(target.(value := RelayValue(r)), source), Pass)
  }

  /** `mailboxListField::copyFrom`: the list, then the common state. */
  function MailboxListCopyFrom(target: Field, source: Field): (c: Copied)
    requires target.value.MailboxListValue?
    ensures c.outcome == Pass <==> source.value.MailboxListValue?
    ensures c.outcome == Pass ==> c.field == source
    ensures c.outcome != Pass ==> c.field == target && c.outcome == Fail(BadCast)
  {
    if !source.value.MailboxListValue? then Copied(target, Fail(BadCast))
    else
      var withList := target.(value := target.value.(list := source.value.list));
      Copied(CopyBase(withList, source), Pass)
  }

  /** `contentEncodingField::copyFrom`: the encoding, then the state of
      `parameterizedHeaderField` (its parameters and the common state).
      `parameterizedHeaderField.cpp` is not part of this model; its copy
      is taken to copy the parameter list whole. */
  function ContentEncodingCopyFrom(target: Field, source: Field): (c: Copied)
    requires target.value.ContentEncodingValue?
    ensures c.outcome == Pass <==> source.value.ContentEncodingValue?
    ensures c.outcome == Pass ==> c.field == source
    ensures c.outcome != Pass ==> c.field == target && c.outcome == Fail(BadCast)
  {
    if !source.value.ContentEncodingValue? then Copied(target, Fail(BadCast))
    else
      var withEncoding := target.(value := target.value.(encoding := source.value.encoding));
      var withParameters := withEncoding.(value := withEncoding.value.(parameters := source.value.parameters));
      Copied(CopyBase(withParameters, source), Pass)
  }

  /** The virtual call `field.copyFrom(source)`, dispatched on the
      target's class. */
  function CopyFrom(target: Field, source: Field): (c: Copied)
    ensures c.outcome == Pass <==> SameVariant(target, source)
    ensures c.outcome == Pass ==> c.field == source
    ensures c.outcome != Pass ==> c.field == target && c.outcome == Fail(BadCast)
  {
    match target.value
    case RelayValue(_) => RelayCopyFrom(target, source)
    case MailboxListValue(_) => MailboxListCopyFrom(target, source)
    case ContentEncodingValue(_, _) => ContentEncodingCopyFrom(target, source)
  }

  /** Copying twice from the same source is copying once. */
  lemma CopyFromIsIdempotent(target: Field, source: Field)
    ensures CopyFrom(CopyFrom(target, source).field, source) == CopyFrom(target, source)
  {
  }
}
