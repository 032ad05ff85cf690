/** From a document's sidecar lines to its N-Quads statements (`emit_file_anchor_nquads`,
    `emit_spo_line_nquads` and the lanes under it, src/nquad.rs). */
module Emission {
  import opened Wrappers
  import opened Text
  import opened PercentCoding
  import opened Paths
  import opened Resolve
  import opened References
  import opened ReferenceWriters
  import NQuads
  import S = Subjects
  import KitValues

  const RDF_TYPE := "http://www.w3.org/1999/02/" + "22-rdf-syntax-ns#type"
  const GIT_LEX := "https://repolex.ai/ontology/git-lex/"
  const MD := GIT_LEX + "md/"
  const FM := GIT_LEX + "fm/"

  type Quad = NQuads.Quad

  /** A property declared with no domain. */
  datatype OpenProp = OpenProp(iri: string, isObject: bool, datatypeIri: Option<string>)

  /** What the installed ontologies declare. Keys are "kit/Class/prop", for open properties "kit/prop". */
  datatype Tables = Tables(
    ont: S.Ontology,
    objProps: set<string>,
    datatypes: map<string, string>,
    propIris: map<string, string>,
    open: map<string, OpenProp>,
    ranges: map<string, string>,
    base: Base)

  /** Both kinds of table come from the same shapes: a declared reference has a declared IRI. */
  predicate SameShapes(t: Tables) {
    forall key <- t.objProps :: key in t.propIris
  }

  /** The document's anchors and the graph its statements go to. */
  datatype Site = Site(subjects: S.Subjects, graph: string)

  /** The rdf:type statement of a (kit, class). */
  datatype Typing = Typing(kit: string, class_: string, quad: Quad)

  /** What one line asks for. */
  datatype LineOut = LineOut(errors: nat, typing: Option<Typing>, facts: seq<Quad>)

  const NOTHING := LineOut(0, None, [])

  // ----- the lanes -----

  function TypeKey(kit: string, class_: string): string {
    kit + "." + class_
  }

  /** The Thing when the class anchors the document, else the File node. */
  function ClassSubject(site: Site, kit: string, class_: string): string {
    match site.subjects.thing
    case Some(t) => if t.kit == kit && t.class_ == class_ then t.iri else site.subjects.fileIri
    case None => site.subjects.fileIri
  }

  function TypingOf(t: Tables, site: Site, kit: string, class_: string): Typing {
    Typing(kit, class_, NQuads.Quad(ClassSubject(site, kit, class_), RDF_TYPE,
                                    NQuads.Iri(S.KitNamespace(t.ont, kit) + class_), site.graph))
  }

  function PropKey(kit: string, class_: string, prop: string): string {
    kit + "/" + class_ + "/" + prop
  }

  function NewDateName(prop: string): Option<string> {
    if prop == "dateCreated" then Some("createdDate")
    else if prop == "dateUpdated" then Some("updatedDate")
    else None
  }

  /** The property a line means: an old date key means the new one when only the new one is declared. */
  function EffectiveProp(t: Tables, kit: string, class_: string, prop: string): string {
    match NewDateName(prop)
    case Some(renamed) =>
      if PropKey(kit, class_, prop) !in t.propIris && PropKey(kit, class_, renamed) in t.propIris then renamed else prop
    case None => prop
  }

  function OpenDeclaration(t: Tables, kit: string, prop: string): Option<OpenProp> {
    var key := kit + "/" + prop;
    if key in t.open then Some(t.open[key]) else None
  }

  /** The declared IRI, or the key's property glued onto the kit's namespace. */
  function PredicateIri(t: Tables, kit: string, class_: string, prop: string): string {
    var key := PropKey(kit, class_, prop);
    if key in t.propIris then t.propIris[key]
    else match OpenDeclaration(t, kit, prop)
      case Some(d) => d.iri
      case None => S.KitNamespace(t.ont, kit) + prop
  }

  predicate IsReference(t: Tables, kit: string, class_: string, prop: string) {
    PropKey(kit, class_, prop) in t.objProps
    || (OpenDeclaration(t, kit, prop).Some? && OpenDeclaration(t, kit, prop).value.isObject)
  }

  function DatatypeOf(t: Tables, kit: string, class_: string, prop: string): Option<string> {
    var key := PropKey(kit, class_, prop);
    if key in t.datatypes then Some(t.datatypes[key])
    else match OpenDeclaration(t, kit, prop) case Some(d) => d.datatypeIri case None => None
  }

  /** `trim_start_matches('<')`, `trim_end_matches('>')` */
  function StripAngles(iri: string): string {
    if iri != "" && iri[0] == '<' then StripAngles(iri[1..])
    else if iri != "" && iri[|iri| - 1] == '>' then StripAngles(iri[..|iri| - 1])
    else iri
  }

  function RangeOf(t: Tables, pred: string): Option<string> {
    var key := StripAngles(pred);
    if key in t.ranges then Some(t.ranges[key]) else None
  }

  function RefFacts(vals: seq<string>, range: Option<string>, b: Base, at: Place): seq<Quad> {
    if vals == [] then []
    else RefFacts(vals[..|vals| - 1], range, b, at) + RefFact(vals[|vals| - 1], range, b, at)
  }

  function RefFact(val: string, range: Option<string>, b: Base, at: Place): seq<Quad> {
    match NqObject(val, range, b)
    case Some(o) => [NQuads.Quad(at.subject, at.pred, o, at.graph)]
    case None => []
  }

  function Literal(text: string, dt: Option<string>): NQuads.Term {
    match dt case Some(iri) => NQuads.Typed(text, iri) case None => NQuads.Plain(text)
  }

  function KitLine(t: Tables, site: Site, kit: string, seg: string, authored: string, text: string): LineOut {
    var class_ := t.ont.resolveClass(kit, seg);
    var prop := EffectiveProp(t, kit, class_, authored);
    var at := Place(ClassSubject(site, kit, class_), PredicateIri(t, kit, class_, prop), site.graph);
    var typing := Some(TypingOf(t, site, kit, class_));
    if IsReference(t, kit, class_, prop) then
      var vals, range := ObjectValues(text), RangeOf(t, at.pred);
      LineOut(NqErrors(vals, range, t.base), typing, RefFacts(vals, range, t.base, at))
    else
      LineOut(0, typing, [NQuads.Quad(at.subject, at.pred, Literal(text, DatatypeOf(t, kit, class_, prop)), at.graph)])
  }

  /** `trim_start_matches('/')` */
  function DropSlashes(s: string): string {
    if s != "" && s[0] == '/' then DropSlashes(s[1..]) else s
  }

  function LinkLine(site: Site, target: string): LineOut {
    match Normalized(DropSlashes(target), "")
    case Some(p) =>
      LineOut(0, None, [NQuads.Quad(site.subjects.fileIri, MD + "linksTo", NQuads.Iri(FileIri(p)), site.graph)])
    case None => LineOut(1, None, [])
  }

  function FmTerm(val: string): NQuads.Term {
    if '/' in val || EndsWith(val, ".md") then NQuads.Iri(FileIri(val)) else NQuads.Plain(val)
  }

  function FmFacts(vals: seq<string>, key: string, site: Site): seq<Quad> {
    if vals == [] then [] else FmFacts(vals[..|vals| - 1], key, site) + [FmFact(vals[|vals| - 1], key, site)]
  }

  function FmFact(val: string, key: string, site: Site): Quad {
    NQuads.Quad(site.subjects.fileIri, FM + EncodedPath(key), FmTerm(val), site.graph)
  }

  function FmValues(key: string, text: string): seq<string> {
    if EndsWith(key, "-links") then TrimAll(Split(text, ','))
    else if Trim(text) == "" then [] else [Trim(text)]
  }

  function FmLine(site: Site, key: string, text: string): LineOut {
    if EndsWith(key, "-link") || EndsWith(key, "-links") then LineOut(0, None, FmFacts(FmValues(key, text), key, site))
    else LineOut(0, None, [NQuads.Quad(site.subjects.fileIri, FM + EncodedPath(key), NQuads.Plain(text), site.graph)])
  }

  predicate IsMdKey(key: string) {
    key == "md.externalLink" || key == "md.unresolvedLink"
  }

  function MdLine(site: Site, key: string, text: string): LineOut
    requires IsMdKey(key)
  {
    LineOut(0, None, [NQuads.Quad(site.subjects.fileIri, MD + key[3..], NQuads.Plain(text), site.graph)])
  }

  predicate HasWikilink(text: string) {
    Has(text, "[[") || Has(text, "]]")
  }

  function Line(t: Tables, site: Site, line: string): LineOut {
    match KitValues.ThreeParts(line)
    case None => NOTHING
    case Some((key, verb, text)) =>
      if Trim(text) == "" then NOTHING
      else if verb == "linksTo" then LinkLine(site, text)
      else if HasWikilink(text) then LineOut(1, None, [])
      else match S.KeySegments(key)
        case Some((kit, seg, prop)) => KitLine(t, site, kit, seg, prop, text)
        case None => if IsMdKey(key) then MdLine(site, key, text) else FmLine(site, key, text)
  }

  // ----- the whole document -----

  datatype State = State(typings: seq<Typing>, quads: seq<Quad>, errors: nat)

  function Keys(typings: seq<Typing>): set<string> {
    set ty <- typings :: TypeKey(ty.kit, ty.class_)
  }

  /** A class is typed by the first line that needs it. */
  function AfterTyping(s: State, ty: Typing): State {
    if TypeKey(ty.kit, ty.class_) in Keys(s.typings) then s
    else s.(typings := s.typings + [ty], quads := s.quads + [ty.quad])
  }

  function AfterLine(s: State, l: LineOut): State {
    var s1 := match l.typing case Some(ty) => AfterTyping(s, ty) case None => s;
    s1.(quads := s1.quads + l.facts, errors := s1.errors + l.errors)
  }

  function AfterLines(s: State, t: Tables, site: Site, lines: seq<string>): State {
    if lines == [] then s
    else AfterLine(AfterLines(s, t, site, lines[..|lines| - 1]), Line(t, site, lines[|lines| - 1]))
  }

  /** `emit_file_anchor_nquads` */
  function Anchored(s: State, t: Tables, site: Site): State {
    var file := site.subjects.fileIri;
    var s1 := s.(quads := s.quads + [NQuads.Quad(file, RDF_TYPE, NQuads.Iri(GIT_LEX + "File"), site.graph)]);
    match site.subjects.thing
    case None => s1
    case Some(thing) =>
      var s2 := AfterTyping(s1, TypingOf(t, site, thing.kit, thing.class_));
      s2.(quads := s2.quads + [NQuads.Quad(thing.iri, GIT_LEX + "fileId", NQuads.Iri(file), site.graph)])
  }

  function Emitted(t: Tables, site: Site, lines: seq<string>): State {
    AfterLines(Anchored(State([], [], 0), t, site), t, site, lines)
  }

  /** One document's output: the set of classes already typed, and the text. */
  class Emitter {
    var emittedTypes: set<string>
    var out: string
    ghost var state: State

    ghost predicate Valid()
      reads this
    {
      emittedTypes == Keys(state.typings) && out == NQuads.Document(state.quads)
    }

    constructor ()
      ensures Valid() && state == State([], [], 0)
    {
      emittedTypes, out := {}, "";
      state := State([], [], 0);
    }

    method Push(q: Quad)
      requires Valid()
      modifies this
      ensures Valid() && state == old(state).(quads := old(state).quads + [q])
    {
      NQuads.DocumentConcat(state.quads, [q]);
      NQuads.DocumentOne(q);
      out := out + NQuads.Render(q) + "\n";
      state := state.(quads := state.quads + [q]);
    }

    method PushType(ghost ty: Typing, key: string, q: Quad)
      requires Valid() && q == ty.quad && key == TypeKey(ty.kit, ty.class_)
      modifies this
      ensures Valid() && state == AfterTyping(old(state), ty)
    {
      if key !in emittedTypes {
        emittedTypes := emittedTypes + {key};
        state := state.(typings := state.typings + [ty]);
        Push(q);
      }
    }

    method EmitFileAnchor(t: Tables, site: Site)
      requires Valid()
      modifies this
      ensures Valid() && state == Anchored(old(state), t, site)
    {
      var file := site.subjects.fileIri;
      Push(NQuads.Quad(file, RDF_TYPE, NQuads.Iri(GIT_LEX + "File"), site.graph));
      if site.subjects.thing.None? {
        return;
      }
      var thing := site.subjects.thing.value;
      var ns := S.KitNamespace(t.ont, thing.kit);
      PushType(TypingOf(t, site, thing.kit, thing.class_), TypeKey(thing.kit, thing.class_),
               NQuads.Quad(thing.iri, RDF_TYPE, NQuads.Iri(ns + thing.class_), site.graph));
      Push(NQuads.Quad(thing.iri, GIT_LEX + "fileId", NQuads.Iri(file), site.graph));
    }

    method EmitLinksTo(site: Site, target: string) returns (errors: nat)
      requires Valid()
      modifies this
      ensures Valid() && errors == LinkLine(site, target).errors
      ensures state == old(state).(quads := old(state).quads + LinkLine(site, target).facts)
    {
      var path := NormalizeWikilinkPath(DropSlashes(target), "");
      match path {
        case Some(p) =>
          Push(NQuads.Quad(site.subjects.fileIri, MD + "linksTo", NQuads.Iri(FileIri(p)), site.graph));
          return 0;
        case None =>
          assert old(state).quads + [] == old(state).quads;
          return 1;
      }
    }

    method EmitFm(site: Site, key: string, text: string)
      requires Valid()
      modifies this
      ensures Valid() && state == old(state).(quads := old(state).quads + FmLine(site, key, text).facts)
    {
      var pred := FM + EncodedPath(key);
      if EndsWith(key, "-link") || EndsWith(key, "-links") {
        EmitFmValues(site, key, pred, FmValues(key, text));
      } else {
        Push(NQuads.Quad(site.subjects.fileIri, pred, NQuads.Plain(text), site.graph));
      }
    }

    method EmitFmValues(site: Site, key: string, pred: string, values: seq<string>)
      requires Valid() && pred == FM + EncodedPath(key)
      modifies this
      ensures Valid() && state == old(state).(quads := old(state).quads + FmFacts(values, key, site))
    {
      ghost var s0 := state;
      NoFmFacts(key, site);
      for i := 0 to |values|
        invariant Valid()
        invariant state == s0.(quads := s0.quads + FmFacts(values[..i], key, site))
      {
        FmFactsNext(values, i, key, site);
        if '/' in values[i] || EndsWith(values[i], ".md") {
          Push(NQuads.Quad(site.subjects.fileIri, pred, NQuads.Iri(FileIri(values[i])), site.graph));
        } else {
          Push(NQuads.Quad(site.subjects.fileIri, pred, NQuads.Plain(values[i]), site.graph));
        }
        assert state.quads == s0.quads + FmFacts(values[..i + 1], key, site);
      }
      assert values[..|values|] == values;
    }

    /** The value part of a kit line. */
    method EmitKitValue(t: Tables, at: Place, kit: string, class_: string, prop: string,
                        text: string) returns (errors: nat)
      requires Valid()
      modifies this
      ensures Valid()
      ensures IsReference(t, kit, class_, prop) ==>
                var vals, range := ObjectValues(text), RangeOf(t, at.pred);
                errors == NqErrors(vals, range, t.base)
                && state == old(state).(quads := old(state).quads + RefFacts(vals, range, t.base, at))
      ensures !IsReference(t, kit, class_, prop) ==>
                errors == 0
                && state == old(state).(quads := old(state).quads
                  + [NQuads.Quad(at.subject, at.pred, Literal(text, DatatypeOf(t, kit, class_, prop)), at.graph)])
    {
      if IsReference(t, kit, class_, prop) {
        var range := RangeOf(t, at.pred);
        ghost var facts := RefFacts(ObjectValues(text), range, t.base, at);
        var pushed;
        errors, pushed := EmitReferenceValues(text, range, t.base, at);
        RefText(ObjectValues(text), range, t.base, at);
        NQuads.DocumentConcat(state.quads, facts);
        out := out + pushed;
        state := state.(quads := state.quads + facts);
      } else {
        match DatatypeOf(t, kit, class_, prop) {
          case Some(dt) => Push(NQuads.Quad(at.subject, at.pred, NQuads.Typed(text, dt), at.graph));
          case None => Push(NQuads.Quad(at.subject, at.pred, NQuads.Plain(text), at.graph));
        }
        errors := 0;
      }
    }

    method EmitKitLine(t: Tables, site: Site, kit: string, seg: string, authored: string, text: string)
      returns (errors: nat)
      requires Valid()
      modifies this
      ensures Valid() && errors == KitLine(t, site, kit, seg, authored, text).errors
      ensures state == AfterLine(old(state), KitLine(t, site, kit, seg, authored, text)).(errors := old(state).errors)
    {
      var class_ := t.ont.resolveClass(kit, seg);
      var subject := ClassSubject(site, kit, class_);
      var ns := S.KitNamespace(t.ont, kit);
      PushType(TypingOf(t, site, kit, class_), TypeKey(kit, class_),
               NQuads.Quad(subject, RDF_TYPE, NQuads.Iri(ns + class_), site.graph));
      var prop := EffectiveProp(t, kit, class_, authored);
      var at := Place(subject, PredicateIri(t, kit, class_, prop), site.graph);
      errors := EmitKitValue(t, at, kit, class_, prop, text);
    }

    /** `emit_spo_line_nquads` */
    method EmitLine(t: Tables, site: Site, line: string) returns (errors: nat)
      requires Valid()
      modifies this
      ensures Valid() && errors == Line(t, site, line).errors
      ensures state == AfterLine(old(state), Line(t, site, line)).(errors := old(state).errors)
    {
      NoTyping(site, line);
      assert old(state).quads + [] == old(state).quads;
      match KitValues.ThreeParts(line) {
        case None => return 0;
        case Some((key, verb, text)) =>
          if Trim(text) == "" {
            return 0;
          }
          if verb != "linksTo" && HasWikilink(text) {
            return 1;
          }
          if verb == "linksTo" {
            errors := EmitLinksTo(site, text);
            return;
          }
          match S.KeySegments(key) {
            case Some((kit, seg, prop)) => errors := EmitKitLine(t, site, kit, seg, prop, text);
            case None =>
              if IsMdKey(key) {
                Push(NQuads.Quad(site.subjects.fileIri, MD + key[3..], NQuads.Plain(text), site.graph));
              } else {
                EmitFm(site, key, text);
              }
              errors := 0;
          }
      }
    }

    /** The document's part of the walk: its anchors, then every line. */
    method EmitDocument(t: Tables, site: Site, lines: seq<string>) returns (errors: nat)
      requires Valid() && state == State([], [], 0)
      modifies this
      ensures Valid() && state == Emitted(t, site, lines) && errors == state.errors
    {
      errors := 0;
      EmitFileAnchor(t, site);
      ghost var s0 := state;
      assert lines[..0] == [];
      for i := 0 to |lines|
        invariant Valid() && errors == state.errors
        invariant state == AfterLines(s0, t, site, lines[..i])
      {
        AfterLinesNext(s0, t, site, lines, i);
        AfterLineErrors(state, Line(t, site, lines[i]));
        var more := EmitLine(t, site, lines[i]);
        errors := errors + more;
        state := state.(errors := errors);
      }
      assert lines[..|lines|] == lines;
    }
  }

  lemma FmFactsNext(vals: seq<string>, i: nat, key: string, site: Site)
    requires i < |vals|
    ensures FmFacts(vals[..i + 1], key, site) == FmFacts(vals[..i], key, site) + [FmFact(vals[i], key, site)]
  {
    assert vals[..i + 1][..i] == vals[..i];
  }

  lemma NoFmFacts(key: string, site: Site)
    ensures FmFacts([], key, site) == []
  {
  }

  lemma AfterLinesNext(s: State, t: Tables, site: Site, lines: seq<string>, i: nat)
    requires i < |lines|
    ensures AfterLines(s, t, site, lines[..i + 1])
      == AfterLine(AfterLines(s, t, site, lines[..i]), Line(t, site, lines[i]))
  {
    hide AfterLine, Line;
    assert lines[..i + 1][..i] == lines[..i];
  }

  lemma NoTyping(site: Site, line: string)
    ensures forall text :: LinkLine(site, text).typing.None?
    ensures forall key, text :: FmLine(site, key, text).typing.None? && FmLine(site, key, text).errors == 0
  {
  }

  lemma AfterLineErrors(s: State, l: LineOut)
    ensures AfterLine(s, l).(errors := s.errors).(errors := s.errors + l.errors) == AfterLine(s, l)
    ensures AfterLine(s, l).errors == s.errors + l.errors
  {
  }

  lemma {:induction false} RefText(vals: seq<string>, range: Option<string>, b: Base, at: Place)
    ensures NqText(vals, range, b, at) == NQuads.Document(RefFacts(vals, range, b, at))
  {
    hide NqObject, NQuads.Render;
    if vals != [] {
      var init := RefFacts(vals[..|vals| - 1], range, b, at);
      RefText(vals[..|vals| - 1], range, b, at);
      match NqObject(vals[|vals| - 1], range, b) {
        case Some(o) =>
          var q := NQuads.Quad(at.subject, at.pred, o, at.graph);
          NQuads.DocumentConcat(init, [q]);
          NQuads.DocumentOne(q);
        case None =>
          assert init + [] == init;
      }
    }
  }
}
