/** That every authored value reaches the graph: what a reader of a document's N-Quads finds for each of its lines,
    with subject, predicate, object and datatype looked up in what the ontologies declare. */
module EmissionValues {
  import opened Wrappers
  import opened Text
  import opened PercentCoding
  import opened Paths
  import opened References
  import opened ReferenceWriters
  import opened Resolve
  import opened Emission
  import opened EmissionSafety
  import L = EmissionLaws
  import NQuads
  import S = Subjects
  import KitValues

  // ----- what the ontologies say of a key -----

  /** The class's own declaration comes first, the kit's declaration for every class second. */
  predicate DeclaredReference(t: Tables, kit: string, class_: string, name: string) {
    kit + "/" + class_ + "/" + name in t.objProps
    || (kit + "/" + name in t.open && t.open[kit + "/" + name].isObject)
  }

  function DeclaredPredicate(t: Tables, kit: string, class_: string, name: string): string {
    if kit + "/" + class_ + "/" + name in t.propIris then t.propIris[kit + "/" + class_ + "/" + name]
    else if kit + "/" + name in t.open then t.open[kit + "/" + name].iri
    else DeclaredNamespace(t, kit) + name
  }

  function DeclaredNamespace(t: Tables, kit: string): string {
    if kit in t.ont.namespaces then t.ont.namespaces[kit] else "https://repolex.ai/ontology/" + kit + "/"
  }

  function DeclaredDatatype(t: Tables, kit: string, class_: string, name: string): Option<string> {
    if kit + "/" + class_ + "/" + name in t.datatypes then Some(t.datatypes[kit + "/" + class_ + "/" + name])
    else if kit + "/" + name in t.open then t.open[kit + "/" + name].datatypeIri
    else None
  }

  /** The node a class's facts are about. */
  predicate IsSubject(site: Site, kit: string, class_: string, node: string) {
    match site.subjects.thing
    case Some(thing) =>
      (thing.kit == kit && thing.class_ == class_ ==> node == thing.iri)
      && (thing.kit != kit || thing.class_ != class_ ==> node == site.subjects.fileIri)
    case None => node == site.subjects.fileIri
  }

  /** The object is the text, all of it, with the datatype or without one. */
  predicate IsLiteralOf(o: NQuads.Term, text: string, datatypeIri: Option<string>) {
    (datatypeIri.Some? ==> o.Typed? && o.text == text && o.datatypeIri == datatypeIri.value)
    && (datatypeIri.None? ==> o.Plain? && o.text == text)
  }

  // ----- one line -----

  /** A line that sync reads: its key gives it back, it is not blank, and nothing in it refuses it. */
  predicate IsValueLine(line: string, key: string, text: string) {
    line == KitValues.Line(key, text) && KitValues.KeySafe(key) && Trim(text) != "" && !HasWikilink(text)
  }

  lemma ValueLineRead(t: Tables, site: Site, line: string, key: string, text: string)
    requires IsValueLine(line, key, text)
    ensures Line(t, site, line) ==
      match S.KeySegments(key)
      case Some((kit, seg, prop)) => KitLine(t, site, kit, seg, prop, text)
      case None => if IsMdKey(key) then MdLine(site, key, text) else FmLine(site, key, text)
  {
    hide KitValues.KeySafe, KitValues.ThreeParts, KitValues.Line, HasWikilink, KitLine, FmLine, LinkLine, Trim;
    KitValues.LineReadsBack(key, text);
    assert "hasValue" != "linksTo";
  }

  /** The statement of a literal property's line. */
  ghost predicate StatesLiteral(q: Quad, t: Tables, site: Site, kit: string, class_: string, name: string,
                                text: string) {
    IsSubject(site, kit, class_, q.s) && q.p == DeclaredPredicate(t, kit, class_, name) && q.g == site.graph
    && IsLiteralOf(q.o, text, DeclaredDatatype(t, kit, class_, name))
  }

  lemma LookupsAre(t: Tables, site: Site, kit: string, class_: string, name: string)
    ensures PredicateIri(t, kit, class_, name) == DeclaredPredicate(t, kit, class_, name)
    ensures DatatypeOf(t, kit, class_, name) == DeclaredDatatype(t, kit, class_, name)
    ensures IsReference(t, kit, class_, name) == DeclaredReference(t, kit, class_, name)
    ensures S.KitNamespace(t.ont, kit) == DeclaredNamespace(t, kit)
    ensures IsSubject(site, kit, class_, ClassSubject(site, kit, class_))
  {
  }

  /** A line of a kit's property that is no reference states its value once. */
  lemma LiteralLine(t: Tables, site: Site, line: string, key: string, text: string)
    requires IsValueLine(line, key, text) && S.KeySegments(key).Some?
    requires var (kit, seg, prop) := S.KeySegments(key).value;
      var class_ := t.ont.resolveClass(kit, seg);
      !DeclaredReference(t, kit, class_, EffectiveProp(t, kit, class_, prop))
    ensures var (kit, seg, prop) := S.KeySegments(key).value;
      var class_ := t.ont.resolveClass(kit, seg);
      var out := Line(t, site, line);
      out.errors == 0 && |out.facts| == 1
      && StatesLiteral(out.facts[0], t, site, kit, class_, EffectiveProp(t, kit, class_, prop), text)
  {
    hide EffectiveProp, PredicateIri, DatatypeOf, IsReference, DeclaredReference, DeclaredPredicate, DeclaredDatatype;
    hide ClassSubject, IsSubject, TypingOf, IsValueLine, Line;
    var (kit, seg, prop) := S.KeySegments(key).value;
    var class_ := t.ont.resolveClass(kit, seg);
    ValueLineRead(t, site, line, key, text);
    LookupsAre(t, site, kit, class_, EffectiveProp(t, kit, class_, prop));
  }

  /** Which property a key means: an old date key means the new one when that alone is declared. */
  lemma MeantProperty(t: Tables, kit: string, class_: string, prop: string)
    ensures var own := kit + "/" + class_ + "/" + prop;
      EffectiveProp(t, kit, class_, prop) ==
        if prop == "dateCreated" && own !in t.propIris && kit + "/" + class_ + "/" + "createdDate" in t.propIris
        then "createdDate"
        else if prop == "dateUpdated" && own !in t.propIris && kit + "/" + class_ + "/" + "updatedDate" in t.propIris
        then "updatedDate" else prop
  {
  }

  // ----- what a reader finds -----

  /** A safe document's text is read as its quads; a statement a line asks for is among them. */
  lemma LineReachesReader(t: Tables, site: Site, lines: seq<string>, i: nat) returns (read: seq<Quad>)
    requires SafeTables(t) && SafeSite(site) && forall l <- lines :: SafeLine(t, l)
    requires L.DotlessClasses(t.ont) && i < |lines|
    ensures NQuads.ReadDocument(NQuads.Document(Emitted(t, site, lines).quads)) == Some(read)
    ensures forall q <- Line(t, site, lines[i]).facts :: q in read
    ensures Line(t, site, lines[i]).typing.Some? ==> Line(t, site, lines[i]).typing.value.quad in read
  {
    hide SafeTables, SafeSite, SafeLine, L.DotlessClasses, Line, Emitted, NQuads.ReadDocument, NQuads.Document;
    DocumentReadsBack(t, site, lines);
    read := Emitted(t, site, lines).quads;
    L.FactsAreTyped(t, site, lines, i);
  }

  /** The value of every literal line is read from the document's text, whole and with its declared datatype, on the
      declared predicate of the declared subject; and that subject is read to be of the line's class. */
  lemma LiteralReachesReader(t: Tables, site: Site, lines: seq<string>, i: nat, key: string, text: string)
    returns (read: seq<Quad>, q: Quad)
    requires SafeTables(t) && SafeSite(site) && forall l <- lines :: SafeLine(t, l)
    requires L.DotlessClasses(t.ont) && i < |lines|
    requires IsValueLine(lines[i], key, text) && S.KeySegments(key).Some?
    requires var (kit, seg, prop) := S.KeySegments(key).value;
      var class_ := t.ont.resolveClass(kit, seg);
      !DeclaredReference(t, kit, class_, EffectiveProp(t, kit, class_, prop))
    ensures NQuads.ReadDocument(NQuads.Document(Emitted(t, site, lines).quads)) == Some(read)
    ensures q in read && Line(t, site, lines[i]).facts == [q]
    ensures var (kit, seg, prop) := S.KeySegments(key).value;
      var class_ := t.ont.resolveClass(kit, seg);
      StatesLiteral(q, t, site, kit, class_, EffectiveProp(t, kit, class_, prop), text)
      && NQuads.Quad(q.s, "http://www.w3.org/1999/02/" + "22-rdf-syntax-ns#type",
                     NQuads.Iri(DeclaredNamespace(t, kit) + class_), site.graph) in read
  {
    hide SafeTables, SafeSite, SafeLine, L.DotlessClasses, Line, Emitted, NQuads.ReadDocument, NQuads.Document;
    hide StatesLiteral, EffectiveProp, DeclaredReference, IsValueLine, DeclaredNamespace;
    read := LineReachesReader(t, site, lines, i);
    LiteralLine(t, site, lines[i], key, text);
    q := Line(t, site, lines[i]).facts[0];
    assert Line(t, site, lines[i]).facts == [q];
    TypedAs(t, site, lines[i], key, text);
  }

  /** A kit line states its subject to be of its class. */
  lemma TypedAs(t: Tables, site: Site, line: string, key: string, text: string)
    requires IsValueLine(line, key, text) && S.KeySegments(key).Some?
    ensures var (kit, seg, _) := S.KeySegments(key).value;
      var class_ := t.ont.resolveClass(kit, seg);
      Line(t, site, line).typing.Some?
      && Line(t, site, line).typing.value.quad
         == NQuads.Quad(ClassSubject(site, kit, class_), "http://www.w3.org/1999/02/" + "22-rdf-syntax-ns#type",
                        NQuads.Iri(DeclaredNamespace(t, kit) + class_), site.graph)
      && forall q <- Line(t, site, line).facts :: q.s == ClassSubject(site, kit, class_)
  {
    hide EffectiveProp, PredicateIri, DatatypeOf, IsReference, ClassSubject, IsValueLine, Line, RefFacts, NqErrors;
    hide ObjectValues;
    var (kit, seg, prop) := S.KeySegments(key).value;
    var class_ := t.ont.resolveClass(kit, seg);
    ValueLineRead(t, site, line, key, text);
    L.KitFactsSubject(t, site, kit, seg, prop, text);
    LookupsAre(t, site, kit, class_, prop);
  }

  /** Two lines of a literal property that differ in their value state different things. */
  lemma ValuesTellApart(t: Tables, site: Site, line: string, other: string, key: string, text: string, text2: string)
    requires IsValueLine(line, key, text) && IsValueLine(other, key, text2) && S.KeySegments(key).Some? && text != text2
    requires var (kit, seg, prop) := S.KeySegments(key).value;
      var class_ := t.ont.resolveClass(kit, seg);
      !DeclaredReference(t, kit, class_, EffectiveProp(t, kit, class_, prop))
    ensures Line(t, site, line).facts != Line(t, site, other).facts
  {
    hide EffectiveProp, DeclaredReference, DeclaredPredicate, DeclaredDatatype, IsSubject, IsValueLine, Line;
    LiteralLine(t, site, line, key, text);
    LiteralLine(t, site, other, key, text2);
  }

  // ----- references -----

  lemma {:induction false} FactsInOrder(vals: seq<string>, range: Option<string>, b: Base, at: Place)
    requires NqErrors(vals, range, b) == 0
    ensures |RefFacts(vals, range, b, at)| == |vals|
    ensures forall j :: 0 <= j < |vals| ==>
      NqObject(vals[j], range, b).Some? && RefFacts(vals, range, b, at)[j].o == NqObject(vals[j], range, b).value
  {
    hide NqObject;
    if vals != [] {
      FactsInOrder(vals[..|vals| - 1], range, b, at);
    }
  }

  lemma {:induction false} FactsAndErrors(vals: seq<string>, range: Option<string>, b: Base, at: Place)
    ensures |RefFacts(vals, range, b, at)| + NqErrors(vals, range, b) == |vals|
  {
    hide NqObject;
    if vals != [] {
      FactsAndErrors(vals[..|vals| - 1], range, b, at);
    }
  }

  /** The class a property's values belong to, by the property's own IRI. */
  function DeclaredRange(t: Tables, pred: string): Option<string> {
    if pred in t.ranges then Some(t.ranges[pred]) else None
  }

  /** The range of a property is looked up by its IRI, in angle brackets or without. */
  lemma RangeIs(t: Tables, pred: string)
    requires pred == "" || (pred[0] != '<' && pred[|pred| - 1] != '>')
    ensures RangeOf(t, pred) == DeclaredRange(t, pred) && RangeOf(t, "<" + pred + ">") == DeclaredRange(t, pred)
  {
    var tail := pred + ">";
    assert ("<" + pred + ">")[1..] == tail;
    assert tail[..|pred|] == pred && tail[|pred|] == '>';
    assert pred != "" ==> tail[0] == pred[0];
    assert StripAngles(pred) == pred;
    assert StripAngles(tail) == StripAngles(pred);
  }

  /** A line of a reference states each of its values once or counts it as an error; without an error the statements
      are one a value and in order. */
  lemma ReferenceLineStates(t: Tables, site: Site, line: string, key: string, text: string)
    requires IsValueLine(line, key, text) && S.KeySegments(key).Some?
    requires var (kit, seg, prop) := S.KeySegments(key).value;
      var class_ := t.ont.resolveClass(kit, seg);
      DeclaredReference(t, kit, class_, EffectiveProp(t, kit, class_, prop))
    ensures var (kit, seg, prop) := S.KeySegments(key).value;
      var class_ := t.ont.resolveClass(kit, seg);
      var pred := DeclaredPredicate(t, kit, class_, EffectiveProp(t, kit, class_, prop));
      var out, vals := Line(t, site, line), ObjectValues(text);
      |out.facts| + out.errors == |vals|
      && (forall q <- out.facts :: IsSubject(site, kit, class_, q.s) && q.p == pred && q.g == site.graph)
      && (out.errors == 0 ==> forall j :: 0 <= j < |vals| ==>
            NqObject(vals[j], RangeOf(t, pred), t.base) == Some(out.facts[j].o))
  {
    hide EffectiveProp, PredicateIri, DatatypeOf, IsReference, DeclaredReference, DeclaredPredicate, DeclaredDatatype;
    hide ClassSubject, IsSubject, TypingOf, IsValueLine, Line, RefFacts, NqErrors, NqObject, RangeOf, ObjectValues;
    var (kit, seg, prop) := S.KeySegments(key).value;
    var class_ := t.ont.resolveClass(kit, seg);
    var name := EffectiveProp(t, kit, class_, prop);
    ValueLineRead(t, site, line, key, text);
    LookupsAre(t, site, kit, class_, name);
    var at := Place(ClassSubject(site, kit, class_), PredicateIri(t, kit, class_, name), site.graph);
    var vals, range := ObjectValues(text), RangeOf(t, at.pred);
    FactsAndErrors(vals, range, t.base, at);
    L.RefFactsPlace(vals, range, t.base, at);
    if NqErrors(vals, range, t.base) == 0 {
      FactsInOrder(vals, range, t.base, at);
    }
  }

  /** A value with double square brackets anywhere in it, of either side, is stated under no key and counted as an
      error under every one. */
  lemma BracketedLine(t: Tables, site: Site, key: string, before: string, mark: string, after: string)
    requires KitValues.KeySafe(key) && (mark == "[[" || mark == "]]")
    ensures Line(t, site, KitValues.Line(key, before + mark + after)) == LineOut(1, None, [])
  {
    hide KitValues.KeySafe, KitValues.ThreeParts, KitValues.Line, KitLine, FmLine, LinkLine, Trim, S.KeySegments, Has;
    var text := before + mark + after;
    KitValues.LineReadsBack(key, text);
    assert "hasValue" != "linksTo";
    assert text[|before|] == mark[0] && text[|before|..|before| + 2] == mark;
    assert OccursAt(text, mark, |before|);
    assert Has(text, mark) && HasWikilink(text);
    AllWhite(text);
    assert text[|before|] in text && !IsWhite(text[|before|]);
    assert Line(t, site, KitValues.Line(key, text)) == LineOut(1, None, []);
  }

  // ----- the open lanes -----

  /** A key of no kit, neither a link key nor one of the two Markdown keys, states its value once, as text. */
  lemma OpenLine(t: Tables, site: Site, line: string, key: string, text: string)
    requires IsValueLine(line, key, text) && S.KeySegments(key).None?
    requires key != "md.externalLink" && key != "md.unresolvedLink"
    requires !EndsWith(key, "-link") && !EndsWith(key, "-links")
    ensures Line(t, site, line) == LineOut(0, None,
      [NQuads.Quad(site.subjects.fileIri, "https://repolex.ai/ontology/git-lex/" + "fm/" + EncodedPath(key),
                   NQuads.Plain(text), site.graph)])
  {
    hide IsValueLine, Line, EncodedPath;
    ValueLineRead(t, site, line, key, text);
  }

  /** A link key states each of its values once and in order: the trimmed text, or the pieces between commas. */
  lemma OpenLinks(t: Tables, site: Site, line: string, key: string, text: string)
    requires IsValueLine(line, key, text) && S.KeySegments(key).None?
    requires EndsWith(key, "-link") || EndsWith(key, "-links")
    ensures var vals := if EndsWith(key, "-links") then TrimAll(Split(text, ',')) else [Trim(text)];
      var out := Line(t, site, line);
      out.errors == 0 && out.typing.None? && |out.facts| == |vals|
      && forall j :: 0 <= j < |vals| ==> StatesOpenLink(out.facts[j], site, key, vals[j])
  {
    hide IsValueLine, Line, EncodedPath, Trim, TrimAll, Split, FmTerm;
    ValueLineRead(t, site, line, key, text);
    LinkKeyIsNoMdKey(key);
    assert IsValueLine(line, key, text) ==> Trim(text) != "" by { LinesAreNotBlank(line, key, text); }
    FmFactsAre(FmValues(key, text), key, site);
  }

  lemma LinesAreNotBlank(line: string, key: string, text: string)
    ensures IsValueLine(line, key, text) ==> Trim(text) != ""
  {
  }

  lemma LinkKeyIsNoMdKey(key: string)
    requires EndsWith(key, "-link") || EndsWith(key, "-links")
    ensures !IsMdKey(key)
  {
    var a, b := "md.externalLink", "md.unresolvedLink";
    assert a[|a| - 5..][0] == 'l' && b[|b| - 5..][0] == 'd' && a[|a| - 6..][5] == 'k' && b[|b| - 6..][5] == 'k';
  }

  /** A path stands for its File node, any other text for itself. */
  predicate StatesOpenLink(q: Quad, site: Site, key: string, val: string) {
    q.s == site.subjects.fileIri && q.g == site.graph
    && q.p == "https://repolex.ai/ontology/git-lex/" + "fm/" + EncodedPath(key)
    && ('/' in val || EndsWith(val, ".md") ==>
          q.o == NQuads.Iri("https://repolex.ai/git-lex/" + "File/" + EncodedPath(val)))
    && ('/' !in val && !EndsWith(val, ".md") ==> q.o == NQuads.Plain(val))
  }

  lemma {:induction false} FmFactsAre(vals: seq<string>, key: string, site: Site)
    ensures |FmFacts(vals, key, site)| == |vals|
    ensures forall j :: 0 <= j < |vals| ==> StatesOpenLink(FmFacts(vals, key, site)[j], site, key, vals[j])
  {
    hide EncodedPath;
    if vals != [] {
      FmFactsAre(vals[..|vals| - 1], key, site);
    }
  }

  /** Two values of a link key are stated alike only when they are the same. */
  lemma OpenLinksTellApart(q: Quad, site: Site, key: string, val: string, val2: string)
    requires StatesOpenLink(q, site, key, val) && StatesOpenLink(q, site, key, val2)
    ensures val == val2
  {
    hide EncodedPath, EndsWith;
    if q.o.Iri? {
      assert FILE_BASE == "https://repolex.ai/git-lex/" + "File/";
      FileIriInjective(val, val2);
    }
  }

  /** The two Markdown lanes: an outside link and a link that resolves to no document, as they were written. */
  lemma MarkdownLine(t: Tables, site: Site, line: string, name: string, dest: string)
    requires (name == "externalLink" || name == "unresolvedLink") && IsValueLine(line, "md." + name, dest)
    ensures Line(t, site, line) == LineOut(0, None,
      [NQuads.Quad(site.subjects.fileIri, "https://repolex.ai/ontology/git-lex/" + "md/" + name,
                   NQuads.Plain(dest), site.graph)])
  {
    hide Line, IsValueLine, S.KeySegments, KitLine, FmLine;
    var key := "md." + name;
    MdKey(name);
    ValueLineRead(t, site, line, key, dest);
    assert key[3..] == name;
  }

  lemma MdKey(name: string)
    requires name == "externalLink" || name == "unresolvedLink"
    ensures IsMdKey("md." + name) && S.KeySegments("md." + name).None?
  {
    hide S.KeySegments;
    OneDotNoKit("md", name);
    assert "md" + "." + name == "md." + name;
  }

  lemma OneDotNoKit(a: string, b: string)
    requires '.' !in a && '.' !in b
    ensures S.KeySegments(a + "." + b).None?
  {
    var key := a + "." + b;
    assert key[..|a|] == a && key[|a| + 1..] == b;
    IndexOfUnique(key, '.', |a|);
  }

  // ----- the anchors -----

  /** Of every document a reader finds that its File is a File; and of one that expresses a Thing, its class and which
      File it comes from. */
  lemma AnchorsReachReader(t: Tables, site: Site, lines: seq<string>) returns (read: seq<Quad>)
    requires SafeTables(t) && SafeSite(site) && forall l <- lines :: SafeLine(t, l)
    ensures NQuads.ReadDocument(NQuads.Document(Emitted(t, site, lines).quads)) == Some(read)
    ensures var type_ := "http://www.w3.org/1999/02/" + "22-rdf-syntax-ns#type";
      NQuads.Quad(site.subjects.fileIri, type_, NQuads.Iri("https://repolex.ai/ontology/git-lex/" + "File"), site.graph)
        in read
    ensures site.subjects.thing.Some? ==>
      var thing := site.subjects.thing.value;
      var type_ := "http://www.w3.org/1999/02/" + "22-rdf-syntax-ns#type";
      NQuads.Quad(thing.iri, type_, NQuads.Iri(DeclaredNamespace(t, thing.kit) + thing.class_), site.graph) in read
      && NQuads.Quad(thing.iri, "https://repolex.ai/ontology/git-lex/" + "fileId", NQuads.Iri(site.subjects.fileIri),
                     site.graph) in read
  {
    hide SafeTables, SafeSite, SafeLine, AfterLines, NQuads.ReadDocument, NQuads.Document, L.StateInv;
    DocumentReadsBack(t, site, lines);
    read := Emitted(t, site, lines).quads;
    var s0 := Anchored(State([], [], 0), t, site);
    L.AnchoredInv(t, site);
    L.AfterLinesExtend(s0, t, site, lines, 0);
    assert lines[..0] == [] && AfterLines(s0, t, site, []) == s0 by { NoLinesAfter(s0, t, site); }
    assert s0.quads <= read;
    AnchorsAre(t, site);
    assert forall q <- s0.quads :: q in read;
  }

  lemma NoLinesAfter(s: State, t: Tables, site: Site)
    ensures AfterLines(s, t, site, []) == s
  {
  }

  lemma AnchorsAre(t: Tables, site: Site)
    ensures var quads := Anchored(State([], [], 0), t, site).quads;
      var type_ := "http://www.w3.org/1999/02/" + "22-rdf-syntax-ns#type";
      quads[..1] == [NQuads.Quad(site.subjects.fileIri, type_,
                                 NQuads.Iri("https://repolex.ai/ontology/git-lex/" + "File"), site.graph)]
      && (site.subjects.thing.Some? ==>
            var thing := site.subjects.thing.value;
            quads[1..] == [NQuads.Quad(thing.iri, type_, NQuads.Iri(DeclaredNamespace(t, thing.kit) + thing.class_),
                                       site.graph),
                           NQuads.Quad(thing.iri, "https://repolex.ai/ontology/git-lex/" + "fileId",
                                       NQuads.Iri(site.subjects.fileIri), site.graph)])
  {
  }
}
