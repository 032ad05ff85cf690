/** N-Quads text: literal escaping (`nq_escape`, src/nquad.rs), the statements the emitter writes, and
    a reader of such statements that follows the RDF 1.1 N-Quads grammar. */
module NQuads {
  import opened Wrappers
  import opened Text
  import opened PercentCoding

  // ----- escaping -----

  /** `str::replace` of one character. */
  function Replace(s: string, c: char, w: string): string {
    if s == "" then "" else (if s[0] == c then w else [s[0]]) + Replace(s[1..], c, w)
  }

  /** `nq_escape`: four passes, the backslash first. */
  function NqEscape(s: string): string {
    Replace(Replace(Replace(Replace(s, '\\', "\\\\"), '"', "\\\""), '\n', "\\n"), '\r', "\\r")
  }

  /** `turtle_escape` (src/extraction.rs): two passes. */
  function TurtleEscape(s: string): string {
    Replace(Replace(s, '\\', "\\\\"), '"', "\\\"")
  }

  function EscapedChar(c: char): string {
    if c == '\\' then "\\\\" else if c == '"' then "\\\"" else if c == '\n' then "\\n" else if c == '\r' then "\\r"
    else [c]
  }

  function OnePass(s: string): string {
    if s == "" then "" else EscapedChar(s[0]) + OnePass(s[1..])
  }

  lemma {:induction false} ReplaceConcat(s: string, t: string, c: char, w: string)
    ensures Replace(s + t, c, w) == Replace(s, c, w) + Replace(t, c, w)
  {
    if s == "" {
      assert s + t == t;
    } else {
      assert (s + t)[1..] == s[1..] + t;
      ReplaceConcat(s[1..], t, c, w);
    }
  }

  lemma ReplaceAbsent(s: string, c: char, w: string)
    requires c !in s
    ensures Replace(s, c, w) == s
  {
  }

  lemma NqEscapeConcat(s: string, t: string)
    ensures NqEscape(s + t) == NqEscape(s) + NqEscape(t)
  {
    ReplaceConcat(s, t, '\\', "\\\\");
    var s1, t1 := Replace(s, '\\', "\\\\"), Replace(t, '\\', "\\\\");
    ReplaceConcat(s1, t1, '"', "\\\"");
    var s2, t2 := Replace(s1, '"', "\\\""), Replace(t1, '"', "\\\"");
    ReplaceConcat(s2, t2, '\n', "\\n");
    ReplaceConcat(Replace(s2, '\n', "\\n"), Replace(t2, '\n', "\\n"), '\r', "\\r");
  }

  lemma ReplaceOne(c: char, d: char, w: string)
    ensures Replace([c], d, w) == if c == d then w else [c]
  {
    assert [c][1..] == "";
    assert w + "" == w;
  }

  lemma NqEscapeOne(c: char)
    ensures NqEscape([c]) == EscapedChar(c)
  {
    hide Replace;
    ReplaceOne(c, '\\', "\\\\");
    ReplaceOne(c, '"', "\\\"");
    ReplaceOne(c, '\n', "\\n");
    ReplaceOne(c, '\r', "\\r");
    if c == '\\' {
      ReplaceAbsent("\\\\", '"', "\\\"");
      ReplaceAbsent("\\\\", '\n', "\\n");
      ReplaceAbsent("\\\\", '\r', "\\r");
    } else if c == '"' {
      ReplaceAbsent("\\\"", '\n', "\\n");
      ReplaceAbsent("\\\"", '\r', "\\r");
    } else if c == '\n' {
      ReplaceAbsent("\\n", '\r', "\\r");
    }
  }

  /** The four passes are one pass: no pass touches what an earlier one wrote. */
  lemma {:induction false} NqEscapeIsOnePass(s: string)
    ensures NqEscape(s) == OnePass(s)
  {
    if s != "" {
      NqEscapeIsOnePass(s[1..]);
      NqEscapeOne(s[0]);
      NqEscapeConcat([s[0]], s[1..]);
      assert s == [s[0]] + s[1..];
    }
  }

  // ----- reading literals: STRING_LITERAL_QUOTE -----

  function Echar(c: char): Option<char> {
    match c
    case 't' => Some('\t')
    case 'b' => Some('\U{8}')
    case 'n' => Some('\n')
    case 'r' => Some('\r')
    case 'f' => Some('\U{C}')
    case '"' => Some('"')
    case '\'' => Some('\'')
    case '\\' => Some('\\')
    case _ => None
  }

  /** The text of a literal whose opening quote has been read, and what follows its closing quote.
      (Escapes by code point, `\u`, are not read: the emitter writes none.) */
  function ReadQuoted(s: string): Option<(string, string)> {
    if s == "" then None
    else if s[0] == '"' then Some(("", s[1..]))
    else if s[0] == '\n' || s[0] == '\r' then None
    else if s[0] == '\\' then
      if |s| < 2 || Echar(s[1]).None? then None
      else match ReadQuoted(s[2..]) case Some((t, rest)) => Some(([Echar(s[1]).value] + t, rest)) case None => None
    else match ReadQuoted(s[1..]) case Some((t, rest)) => Some(([s[0]] + t, rest)) case None => None
  }

  /** An escaped literal reads back as the text it was made from, for every text. */
  lemma ReadEscaped(s: string, rest: string)
    ensures ReadQuoted(NqEscape(s) + "\"" + rest) == Some((s, rest))
  {
    NqEscapeIsOnePass(s);
    ReadOnePass(s, rest);
  }

  lemma {:induction false} ReadOnePass(s: string, rest: string)
    ensures ReadQuoted(OnePass(s) + "\"" + rest) == Some((s, rest))
  {
    if s == "" {
      assert OnePass(s) + "\"" + rest == "\"" + rest;
    } else {
      hide ReadQuoted, EscapedChar;
      var tail := OnePass(s[1..]) + "\"" + rest;
      ReadOnePass(s[1..], rest);
      assert OnePass(s) + "\"" + rest == EscapedChar(s[0]) + tail;
      ReadEscapedChar(s[0], tail);
      assert [s[0]] + s[1..] == s;
    }
  }

  lemma ReadEscapedChar(c: char, tail: string)
    requires ReadQuoted(tail).Some?
    ensures ReadQuoted(EscapedChar(c) + tail) == Some(([c] + ReadQuoted(tail).value.0, ReadQuoted(tail).value.1))
  {
    var s := EscapedChar(c) + tail;
    if |EscapedChar(c)| == 2 {
      assert s[2..] == tail;
    } else {
      assert s[1..] == tail;
    }
  }

  // ----- statements -----

  datatype Term = Iri(iri: string) | Plain(text: string) | Typed(text: string, datatypeIri: string)

  datatype Quad = Quad(s: string, p: string, o: Term, g: string)

  function RenderIri(iri: string): string {
    "<" + iri + ">"
  }

  function RenderTerm(o: Term): string {
    match o
    case Iri(iri) => RenderIri(iri)
    case Plain(text) => "\"" + NqEscape(text) + "\""
    case Typed(text, dt) => "\"" + NqEscape(text) + "\"^^" + RenderIri(dt)
  }

  /** The line the emitter pushes, without its newline. */
  function Render(q: Quad): string {
    RenderIri(q.s) + " " + RenderIri(q.p) + " " + RenderTerm(q.o) + " " + RenderIri(q.g) + " ."
  }

  /** IRIREF: everything up to `>`, all of it allowed there. */
  function ReadIri(s: string): Option<(string, string)> {
    if s == "" || s[0] != '<' then None else ReadIriRest(s[1..])
  }

  function ReadIriRest(s: string): Option<(string, string)> {
    if s == "" then None
    else if s[0] == '>' then Some(("", s[1..]))
    else if !IriSafe(s[0]) then None
    else match ReadIriRest(s[1..]) case Some((t, rest)) => Some(([s[0]] + t, rest)) case None => None
  }

  function ReadSpace(s: string): Option<string> {
    if s != "" && s[0] == ' ' then Some(s[1..]) else None
  }

  function ReadTerm(s: string): Option<(Term, string)> {
    if s == "" then None
    else if s[0] == '<' then
      match ReadIri(s) case Some((iri, rest)) => Some((Iri(iri), rest)) case None => None
    else if s[0] == '"' then
      match ReadQuoted(s[1..])
      case None => None
      case Some((text, rest)) =>
        if "^^" <= rest then
          match ReadIri(rest[2..]) case Some((dt, rest2)) => Some((Typed(text, dt), rest2)) case None => None
        else Some((Plain(text), rest))
    else None
  }

  /** One statement per line: subject, predicate, object, graph label, and the final dot. */
  function ReadQuad(line: string): Option<Quad> {
    match ReadIri(line)
    case None => None
    case Some((s, r1)) =>
    match ReadSpace(r1)
    case None => None
    case Some(r2) =>
    match ReadIri(r2)
    case None => None
    case Some((p, r3)) =>
    match ReadSpace(r3)
    case None => None
    case Some(r4) =>
    match ReadTerm(r4)
    case None => None
    case Some((o, r5)) =>
    match ReadSpace(r5)
    case None => None
    case Some(r6) =>
    match ReadIri(r6)
    case None => None
    case Some((g, r7)) => if r7 == " ." then Some(Quad(s, p, o, g)) else None
  }

  lemma ReadRenderedIri(iri: string, rest: string)
    requires AllIriSafe(iri)
    ensures ReadIri(RenderIri(iri) + rest) == Some((iri, rest))
  {
    assert (RenderIri(iri) + rest)[1..] == iri + ">" + rest;
    ReadIriBody(iri, rest);
  }

  lemma {:induction false} ReadIriBody(iri: string, rest: string)
    requires AllIriSafe(iri)
    ensures ReadIriRest(iri + ">" + rest) == Some((iri, rest))
  {
    if iri == "" {
      assert iri + ">" + rest == ">" + rest;
    } else {
      assert IriSafe(iri[0]);
      ReadIriBody(iri[1..], rest);
      assert (iri + ">" + rest)[1..] == iri[1..] + ">" + rest;
      assert [iri[0]] + iri[1..] == iri;
    }
  }

  predicate TermSafe(o: Term) {
    match o
    case Iri(iri) => AllIriSafe(iri)
    case Plain(_) => true
    case Typed(_, dt) => AllIriSafe(dt)
  }

  /** Every IRI of the quad is made of characters the grammar allows inside `<...>`. */
  predicate QuadSafe(q: Quad) {
    AllIriSafe(q.s) && AllIriSafe(q.p) && TermSafe(q.o) && AllIriSafe(q.g)
  }

  lemma ReadRenderedTerm(o: Term, rest: string)
    requires TermSafe(o) && (rest != "" ==> rest[0] == ' ')
    ensures ReadTerm(RenderTerm(o) + rest) == Some((o, rest))
  {
    match o {
      case Iri(iri) =>
        ReadRenderedIri(iri, rest);
        assert (RenderIri(iri) + rest)[0] == '<';
      case Plain(text) => ReadPlain(text, rest);
      case Typed(text, dt) => ReadTyped(text, dt, rest);
    }
  }

  lemma ReadPlain(text: string, rest: string)
    requires rest != "" ==> rest[0] == ' '
    ensures ReadTerm(RenderTerm(Plain(text)) + rest) == Some((Plain(text), rest))
  {
    hide NqEscape, ReadQuoted, ReadIri;
    var body := NqEscape(text) + "\"" + rest;
    assert RenderTerm(Plain(text)) + rest == "\"" + body;
    assert ("\"" + body)[1..] == body;
    ReadEscaped(text, rest);
    assert !("^^" <= rest);
  }

  lemma ReadTyped(text: string, dt: string, rest: string)
    requires AllIriSafe(dt)
    ensures ReadTerm(RenderTerm(Typed(text, dt)) + rest) == Some((Typed(text, dt), rest))
  {
    hide NqEscape, ReadQuoted, ReadIri, RenderIri;
    var tail := "^^" + (RenderIri(dt) + rest);
    var body := NqEscape(text) + "\"" + tail;
    assert RenderTerm(Typed(text, dt)) + rest == "\"" + body;
    assert ("\"" + body)[1..] == body;
    ReadEscaped(text, tail);
    assert "^^" <= tail && tail[2..] == RenderIri(dt) + rest;
    ReadRenderedIri(dt, rest);
  }

  /** What the emitter writes is one well-formed statement, and it says the quad it was made from:
      the text of a literal may be anything at all. */
  lemma ReadRendered(q: Quad)
    requires QuadSafe(q)
    ensures ReadQuad(Render(q)) == Some(q)
  {
    hide RenderTerm, ReadTerm, ReadIri, RenderIri;
    var r7 := " .";
    var r6 := RenderIri(q.g) + r7;
    var r5 := " " + r6;
    var r4 := RenderTerm(q.o) + r5;
    var r3 := " " + r4;
    var r2 := RenderIri(q.p) + r3;
    var r1 := " " + r2;
    assert Render(q) == RenderIri(q.s) + r1;
    ReadRenderedIri(q.s, r1);
    assert r1[1..] == r2;
    ReadRenderedIri(q.p, r3);
    assert r3[1..] == r4;
    ReadRenderedTerm(q.o, r5);
    assert r5[1..] == r6;
    ReadRenderedIri(q.g, r7);
  }

  /** Only safe quads have statements: a line that can be read at all says a safe quad. */
  lemma ReadsOnlySafeQuads(line: string)
    ensures ReadQuad(line).Some? ==> QuadSafe(ReadQuad(line).value)
  {
    hide AllIriSafe;
    if ReadQuad(line).Some? {
      ReadsOnlySafe(line[1..]);
      var r2 := ReadSpace(ReadIri(line).value.1).value;
      ReadsOnlySafe(r2[1..]);
      var r4 := ReadSpace(ReadIri(r2).value.1).value;
      ReadsOnlySafeTerms(r4);
      var r6 := ReadSpace(ReadTerm(r4).value.1).value;
      ReadsOnlySafe(r6[1..]);
    }
  }

  lemma ReadsOnlySafeTerms(s: string)
    ensures ReadTerm(s).Some? ==> TermSafe(ReadTerm(s).value.0)
  {
    hide AllIriSafe, ReadIriRest, ReadQuoted;
    if s != "" && s[0] == '<' {
      ReadsOnlySafe(s[1..]);
    } else if s != "" && ReadQuoted(s[1..]).Some? {
      var rest := ReadQuoted(s[1..]).value.1;
      if "^^" <= rest && rest[2..] != "" {
        ReadsOnlySafe(rest[2..][1..]);
      }
    }
  }

  /** A statement says its quad exactly when every IRI in it is safe. */
  lemma ReadsBackIffSafe(q: Quad)
    ensures ReadQuad(Render(q)) == Some(q) <==> QuadSafe(q)
  {
    hide Render, ReadQuad, QuadSafe;
    ReadsOnlySafeQuads(Render(q));
    if QuadSafe(q) {
      ReadRendered(q);
    }
  }

  lemma ReadsOnlySafe(s: string)
    ensures ReadIriRest(s).Some? ==> AllIriSafe(ReadIriRest(s).value.0)
  {
  }

  // ----- whole documents -----

  lemma OnePassNoBreak(s: string)
    ensures '\n' !in OnePass(s) && '\r' !in OnePass(s)
  {
  }

  /** A safe quad's statement is one physical line, whatever line breaks its literal holds. */
  lemma RenderIsOneLine(q: Quad)
    requires QuadSafe(q)
    ensures '\n' !in Render(q) && '\r' !in Render(q)
  {
    SafeHasNoBreak(q.s);
    SafeHasNoBreak(q.p);
    SafeHasNoBreak(q.g);
    TermIsOneLine(q.o);
    hide RenderTerm;
  }

  lemma SafeHasNoBreak(iri: string)
    requires AllIriSafe(iri)
    ensures '\n' !in RenderIri(iri) && '\r' !in RenderIri(iri)
  {
  }

  lemma TermIsOneLine(o: Term)
    requires TermSafe(o)
    ensures '\n' !in RenderTerm(o) && '\r' !in RenderTerm(o)
  {
    match o {
      case Iri(iri) => SafeHasNoBreak(iri);
      case Plain(text) =>
        NqEscapeIsOnePass(text);
        OnePassNoBreak(text);
      case Typed(text, dt) =>
        hide RenderIri;
        NqEscapeIsOnePass(text);
        OnePassNoBreak(text);
        SafeHasNoBreak(dt);
    }
  }

  /** The statements of a document, one a line. */
  function Statements(quads: seq<Quad>): seq<string> {
    if quads == [] then [] else [Render(quads[0])] + Statements(quads[1..])
  }

  function Document(quads: seq<Quad>): string {
    Unlines(Statements(quads))
  }

  function ReadLines(lines: seq<string>): Option<seq<Quad>> {
    if lines == [] then Some([])
    else match (ReadQuad(lines[0]), ReadLines(lines[1..]))
      case (Some(q), Some(rest)) => Some([q] + rest)
      case _ => None
  }

  function ReadDocument(text: string): Option<seq<Quad>> {
    ReadLines(Lines(text))
  }

  predicate AllSafe(quads: seq<Quad>) {
    forall q <- quads :: QuadSafe(q)
  }

  /** A document of safe quads reads back as exactly those quads, in order. */
  lemma {:induction false} ReadsBack(quads: seq<Quad>)
    requires AllSafe(quads)
    ensures ReadDocument(Document(quads)) == Some(quads)
  {
    hide Render, ReadQuad, QuadSafe, Lines;
    if quads == [] {
      assert Lines("") == [] by { NoLines(); }
    } else {
      var line, rest := Render(quads[0]), Document(quads[1..]);
      assert quads[0] in quads;
      ReadsBack(quads[1..]);
      RenderIsOneLine(quads[0]);
      ReadRendered(quads[0]);
      assert Document(quads) == line + "\n" + rest;
      LinesFirst(line, rest);
      assert StripCR(line) == line;
      assert ([line] + Lines(rest))[1..] == Lines(rest);
      assert [quads[0]] + quads[1..] == quads;
    }
  }

  lemma NoLines()
    ensures Lines("") == []
  {
  }

  lemma {:induction false} StatementsConcat(a: seq<Quad>, b: seq<Quad>)
    ensures Statements(a + b) == Statements(a) + Statements(b)
  {
    if a == [] {
      assert a + b == b;
    } else {
      assert (a + b)[1..] == a[1..] + b;
      StatementsConcat(a[1..], b);
    }
  }

  lemma DocumentConcat(a: seq<Quad>, b: seq<Quad>)
    ensures Document(a + b) == Document(a) + Document(b)
  {
    StatementsConcat(a, b);
    UnlinesConcat(Statements(a), Statements(b));
  }

  lemma DocumentOne(q: Quad)
    ensures Document([q]) == Render(q) + "\n"
  {
    hide Render;
    assert Statements([q]) == [Render(q)];
    assert Unlines([Render(q)]) == Render(q) + "\n" + Unlines([]);
  }
}
