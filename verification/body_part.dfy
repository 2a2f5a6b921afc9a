/** `bodyPart`: a MIME entity made of a header and a body, with a link to
    the part that contains it. `header` and `body` are not part of this
    model: they are the type parameters `H` and `B`, and their parsers and
    generators are passed in. */
module BodyPart {
  import opened Exceptions
  import opened FieldTypes

  /** The identity of a containing part (`m_parent`, a raw pointer). */
  type PartRef = nat

  datatype Part<H, B> = Part(header: H, body: B, parent: Option<PartRef>)

  /** The header parser, `header.parse` called on the header the part
      holds: it reads `[position, end)` and reports where the header (with
      its blank line) ended. */
  type HeaderParser<!H> = (H, string, nat, nat) -> Parsed<H>

  /** The body parser, `body.parse` called on the body the part holds; it
      is also given the part's header, which the body consults for its
      content type. */
  type BodyParser<-H, !B> = (B, H, string, nat, nat) -> B

  /** The body generator, `body.generate` called on the body the part
      holds; like the parser it is given the part's header (a multipart
      body takes its boundary from the content type there). */
  type BodyGenerator<-H, -B> = (B, H, nat, nat) -> Generated

  /** The constructor: default header and body, no parent. */
  function NewPart<H, B>(emptyHeader: H, emptyBody: B): (p: Part<H, B>)
    ensures p.parent == None && p.header == emptyHeader && p.body == emptyBody
  {
    Part(emptyHeader, emptyBody, None)
  }

  /** `bodyPart::parse`: the header from `position`, the body from where
      the header stopped up to `end`; the end position is always `end`
      and the parent link is kept. */
  function Parse<H, B>(p: Part<H, B>, buffer: string, position: nat, end: nat,
                       parseHeader: HeaderParser<H>, parseBody: BodyParser<H, B>): (r: Parsed<Part<H, B>>)
    ensures r.newPosition == end
    ensures r.value.parent == p.parent
    ensures var h := parseHeader(p.header, buffer, position, end);
      r.value.header == h.value && r.value.body == parseBody(p.body, h.value, buffer, h.newPosition, end)
  {
    var h := parseHeader(p.header, buffer, position, end);
    var b := parseBody(p.body, h.value, buffer, h.newPosition, end);
    Parsed(Part(h.value, b, p.parent), end)
  }

  /** The header and body parsers do not look at the header and body they
      are called on, for this range. */
  ghost predicate IgnoreHeldContents<H(!new), B(!new)>(parseHeader: HeaderParser<H>, parseBody: BodyParser<H, B>,
                                           buffer: string, position: nat, end: nat) {
    && (forall x: H, y: H :: parseHeader(x, buffer, position, end) == parseHeader(y, buffer, position, end))
    && (forall x: B, y: B, h: H, from: nat :: parseBody(x, h, buffer, from, end) == parseBody(y, h, buffer, from, end))
  }

  /** `bodyPart::parse` only forwards to `m_header.parse` and then
      `m_body.parse`, so the part adds no memory of its own. Whether those
      keep anything of what they held is up to `header::parse` and
      `body::parse`, which are not part of this model; this is the
      conditional: when both ignore what they held, what a part parses to
      does not depend on its previous header and body. */
  lemma ParseForgetsContents<H(!new), B(!new)>(p: Part<H, B>, q: Part<H, B>, buffer: string, position: nat, end: nat,
                                   parseHeader: HeaderParser<H>, parseBody: BodyParser<H, B>)
    requires p.parent == q.parent
    requires IgnoreHeldContents(parseHeader, parseBody, buffer, position, end)
    ensures Parse(p, buffer, position, end, parseHeader, parseBody)
         == Parse(q, buffer, position, end, parseHeader, parseBody)
  {
    var h := parseHeader(p.header, buffer, position, end);
    assert h == parseHeader(q.header, buffer, position, end);
    assert parseBody(p.body, h.value, buffer, h.newPosition, end)
        == parseBody(q.body, h.value, buffer, h.newPosition, end);
  }

  /** `bodyPart::generate`: the header, CRLF, then the body, both written
      from column 0 with the same line length; the incoming column is
      ignored and the reported column is 0. */
  function Generate<H, B>(p: Part<H, B>, maxLineLength: nat, curLinePos: nat,
                          generateHeader: (H, nat, nat) -> Generated,
                          generateBody: BodyGenerator<H, B>): (g: Generated)
    ensures var h := generateHeader(p.header, maxLineLength, 0).text;
      var b := generateBody(p.body, p.header, maxLineLength, 0).text;
      && |g.text| == |h| + 2 + |b|
      && g.text[..|h|] == h
      && g.text[|h|..|h| + 2] == CRLF
      && g.text[|h| + 2..] == b
    ensures g.column == 0
  {
    var h := generateHeader(p.header, maxLineLength, 0).text;
    var b := generateBody(p.body, p.header, maxLineLength, 0).text;
    Generated(h + CRLF + b, 0)
  }

  /** The column the part starts at makes no difference. */
  lemma GenerateIgnoresColumn<H, B>(p: Part<H, B>, maxLineLength: nat, c1: nat, c2: nat,
                                    generateHeader: (H, nat, nat) -> Generated,
                                    generateBody: BodyGenerator<H, B>)
    ensures Generate(p, maxLineLength, c1, generateHeader, generateBody)
         == Generate(p, maxLineLength, c2, generateHeader, generateBody)
  {
  }

  /** The header parser reads back whatever the header generator wrote,
      with the CRLF after it, whatever follows, and stops after that CRLF. */
  ghost predicate HeaderParserInverts<H(!new)>(parseHeader: HeaderParser<H>, generateHeader: (H, nat, nat) -> Generated) {
    forall held: H, h: H, maxLineLength: nat, rest: string ::
      var t := generateHeader(h, maxLineLength, 0).text;
      parseHeader(held, t + CRLF + rest, 0, |t + CRLF + rest|) == Parsed(h, |t| + 2)
  }

  /** The body parser, given the header a body was generated under, reads
      back whatever the body generator wrote under that header, after any
      text. */
  ghost predicate BodyParserInverts<H(!new), B(!new)>(parseBody: BodyParser<H, B>, generateBody: BodyGenerator<H, B>) {
    forall held: B, h: H, b: B, maxLineLength: nat, before: string ::
      var t := generateBody(b, h, maxLineLength, 0).text;
      parseBody(held, h, before + t, |before|, |before + t|) == b
  }

  /** Parsing a generated part gives its header and body back, when the
      header and body parsers invert their generators. */
  lemma ParseGenerated<H(!new), B(!new)>(p: Part<H, B>, q: Part<H, B>, maxLineLength: nat, curLinePos: nat,
                             generateHeader: (H, nat, nat) -> Generated,
                             generateBody: BodyGenerator<H, B>,
                             parseHeader: HeaderParser<H>, parseBody: BodyParser<H, B>)
    requires HeaderParserInverts(parseHeader, generateHeader)
    requires BodyParserInverts(parseBody, generateBody)
    ensures var t := Generate(p, maxLineLength, curLinePos, generateHeader, generateBody).text;
      Parse(q, t, 0, |t|, parseHeader, parseBody) == Parsed(p.(parent := q.parent), |t|)
  {
    var h := generateHeader(p.header, maxLineLength, 0).text;
    var b := generateBody(p.body, p.header, maxLineLength, 0).text;
    var t := h + CRLF + b;
    assert parseHeader(q.header, h + CRLF + b, 0, |h + CRLF + b|) == Parsed(p.header, |h| + 2);
    assert |h + CRLF| == |h| + 2;
    assert parseBody(q.body, p.header, (h + CRLF) + b, |h + CRLF|, |(h + CRLF) + b|) == p.body;
  }

  /** `bodyPart::clone`: a new part with the same header and body and no
      parent. */
  function Clone<H, B>(p: Part<H, B>): (c: Part<H, B>)
    ensures c.parent == None && c.header == p.header && c.body == p.body
  {
    Part(p.header, p.body, None)
  }

  /** A clone generates the same text as its original. */
  lemma CloneGeneratesAlike<H, B>(p: Part<H, B>, maxLineLength: nat, curLinePos: nat,
                                  generateHeader: (H, nat, nat) -> Generated,
                                  generateBody: BodyGenerator<H, B>)
    ensures Generate(Clone(p), maxLineLength, curLinePos, generateHeader, generateBody)
         == Generate(p, maxLineLength, curLinePos, generateHeader, generateBody)
  {
  }

  /** Cloning a clone changes nothing, and a detached part clones to
      itself. */
  lemma CloneIsIdempotent<H, B>(p: Part<H, B>)
    ensures Clone(Clone(p)) == Clone(p)
    ensures p.parent == None ==> Clone(p) == p
  {
  }
}
