/** What a document's statements keep: nothing is dropped or doubled, every kit fact stands on a typed
    subject, and a line is governed by the declarations of its own class. */
module EmissionLaws {
  import opened Wrappers
  import opened Text
  import opened PercentCoding
  import opened Paths
  import opened Resolve
  import opened References
  import opened ReferenceWriters
  import opened Emission
  import NQuads
  import S = Subjects
  import KitValues

  // ----- one type a class -----

  predicate Distinct(typings: seq<Typing>) {
    forall i, j :: 0 <= i < j < |typings| ==>
      TypeKey(typings[i].kit, typings[i].class_) != TypeKey(typings[j].kit, typings[j].class_)
  }

  predicate StateInv(s: State, t: Tables, site: Site) {
    Distinct(s.typings) && forall ty <- s.typings :: ty == TypingOf(t, site, ty.kit, ty.class_) && ty.quad in s.quads
  }

  /** `later` has everything `s` has, first. */
  predicate Extends(s: State, later: State) {
    s.typings <= later.typings && s.quads <= later.quads
  }

  lemma AfterTypingInv(s: State, t: Tables, site: Site, kit: string, class_: string)
    requires StateInv(s, t, site)
    ensures var s1 := AfterTyping(s, TypingOf(t, site, kit, class_)); StateInv(s1, t, site) && Extends(s, s1)
  {
    hide TypingOf, TypeKey;
    var ty := TypingOf(t, site, kit, class_);
    assert ty.kit == kit && ty.class_ == class_ by { TypingFields(t, site, kit, class_); }
    if TypeKey(kit, class_) !in Keys(s.typings) {
      assert forall x <- s.typings :: TypeKey(x.kit, x.class_) in Keys(s.typings);
    }
  }

  lemma TypingFields(t: Tables, site: Site, kit: string, class_: string)
    ensures TypingOf(t, site, kit, class_).kit == kit && TypingOf(t, site, kit, class_).class_ == class_
  {
  }

  lemma LineTyping(t: Tables, site: Site, line: string)
    ensures match Line(t, site, line).typing
      case Some(ty) => ty == TypingOf(t, site, ty.kit, ty.class_)
      case None => true
  {
    hide TypingOf, ObjectValues, NqErrors, RefFacts, HasWikilink, Normalized;
    match KitValues.ThreeParts(line) {
      case Some((key, _, _)) =>
        match S.KeySegments(key) {
          case Some((kit, seg, _)) => TypingFields(t, site, kit, t.ont.resolveClass(kit, seg));
          case None =>
        }
      case None =>
    }
  }

  lemma AfterLineInv(s: State, t: Tables, site: Site, line: string)
    requires StateInv(s, t, site)
    ensures var s1 := AfterLine(s, Line(t, site, line)); StateInv(s1, t, site) && Extends(s, s1)
  {
    hide Line, TypingOf, AfterTyping, Distinct;
    LineTyping(t, site, line);
    match Line(t, site, line).typing {
      case Some(ty) => AfterTypingInv(s, t, site, ty.kit, ty.class_);
      case None =>
    }
  }

  lemma {:induction false} AfterLinesInv(s: State, t: Tables, site: Site, lines: seq<string>)
    requires StateInv(s, t, site)
    ensures StateInv(AfterLines(s, t, site, lines), t, site)
  {
    hide AfterLine, StateInv, Line;
    if lines != [] {
      AfterLinesInv(s, t, site, lines[..|lines| - 1]);
      AfterLineInv(AfterLines(s, t, site, lines[..|lines| - 1]), t, site, lines[|lines| - 1]);
    }
  }

  lemma {:induction false} AfterLinesExtend(s: State, t: Tables, site: Site, lines: seq<string>, i: nat)
    requires StateInv(s, t, site) && i <= |lines|
    ensures Extends(AfterLines(s, t, site, lines[..i]), AfterLines(s, t, site, lines))
    decreases |lines| - i
  {
    hide AfterLine, StateInv, Line, AfterLines;
    if i < |lines| {
      AfterLinesExtend(s, t, site, lines, i + 1);
      AfterLinesNext(s, t, site, lines, i);
      AfterLinesInv(s, t, site, lines[..i]);
      AfterLineInv(AfterLines(s, t, site, lines[..i]), t, site, lines[i]);
    } else {
      assert lines[..i] == lines;
    }
  }

  lemma AnchoredInv(t: Tables, site: Site)
    ensures StateInv(Anchored(State([], [], 0), t, site), t, site)
  {
    hide AfterTyping, TypingOf;
    if site.subjects.thing.Some? {
      var thing := site.subjects.thing.value;
      var s1 := State([], [NQuads.Quad(site.subjects.fileIri, RDF_TYPE, NQuads.Iri(GIT_LEX + "File"), site.graph)], 0);
      assert Anchored(State([], [], 0), t, site.(subjects := site.subjects.(thing := None))) == s1 by {
        assert [] + s1.quads == s1.quads;
      }
      AfterTypingInv(s1, t, site, thing.kit, thing.class_);
    }
  }

  /** Over all its lines and its anchor, a document states the type of each (kit, class) at most once. */
  lemma TypesOnce(t: Tables, site: Site, lines: seq<string>)
    ensures Distinct(Emitted(t, site, lines).typings)
  {
    hide AfterLines, Anchored;
    AnchoredInv(t, site);
    AfterLinesInv(Anchored(State([], [], 0), t, site), t, site, lines);
  }

  // ----- every kit fact stands on a typed subject -----

  predicate Dotless(s: string) {
    '.' !in s
  }

  /** The class segment of a key has no dot, and neither does the class it resolves to. */
  ghost predicate DotlessClasses(ont: S.Ontology) {
    forall kit, seg :: Dotless(seg) ==> Dotless(ont.resolveClass(kit, seg))
  }

  lemma KeyOfDotless(kit: string, class_: string, kit2: string, class2: string)
    requires Dotless(kit) && Dotless(class_) && TypeKey(kit, class_) == TypeKey(kit2, class2)
    ensures kit == kit2 && class_ == class2
  {
    var key := TypeKey(kit, class_);
    assert key[|kit2|] == '.';
    assert forall j :: 0 <= j < |key| && j != |kit| ==> key[j] == if j < |kit| then kit[j] else class_[j - |kit| - 1];
    assert |kit2| == |kit|;
    assert key[..|kit|] == kit && key[..|kit2|] == kit2;
    assert key[|kit| + 1..] == class_ && key[|kit2| + 1..] == class2;
  }

  lemma TypingCovered(s: State, t: Tables, site: Site, kit: string, class_: string)
    requires StateInv(s, t, site) && Dotless(kit) && Dotless(class_)
    ensures TypingOf(t, site, kit, class_).quad in AfterTyping(s, TypingOf(t, site, kit, class_)).quads
  {
    hide TypingOf, TypeKey, Distinct;
    var ty := TypingOf(t, site, kit, class_);
    TypingFields(t, site, kit, class_);
    if TypeKey(kit, class_) in Keys(s.typings) {
      var x :| x in s.typings && TypeKey(x.kit, x.class_) == TypeKey(kit, class_);
      KeyOfDotless(kit, class_, x.kit, x.class_);
    } else {
      assert AfterTyping(s, ty).quads[|s.quads|] == ty.quad;
    }
  }

  lemma LineTypingDotless(t: Tables, site: Site, line: string)
    requires DotlessClasses(t.ont) && Line(t, site, line).typing.Some?
    ensures var ty := Line(t, site, line).typing.value;
      Dotless(ty.kit) && Dotless(ty.class_) && forall q <- Line(t, site, line).facts :: q.s == ty.quad.s
  {
    hide ObjectValues, NqErrors, HasWikilink, Normalized, ClassSubject;
    match KitValues.ThreeParts(line) {
      case Some((key, verb, text)) =>
        match S.KeySegments(key) {
          case Some((kit, seg, prop)) =>
            KitFactsSubject(t, site, kit, seg, prop, text);
            assert Dotless(t.ont.resolveClass(kit, seg));
          case None =>
        }
      case None =>
    }
  }

  lemma KitFactsSubject(t: Tables, site: Site, kit: string, seg: string, prop: string, text: string)
    ensures forall q <- KitLine(t, site, kit, seg, prop, text).facts ::
      q.s == ClassSubject(site, kit, t.ont.resolveClass(kit, seg))
  {
    hide RefFacts, NqErrors;
    var class_ := t.ont.resolveClass(kit, seg);
    var p := EffectiveProp(t, kit, class_, prop);
    var at := Place(ClassSubject(site, kit, class_), PredicateIri(t, kit, class_, p), site.graph);
    RefFactsPlace(ObjectValues(text), RangeOf(t, at.pred), t.base, at);
  }

  lemma RefFactsPlace(vals: seq<string>, range: Option<string>, b: Base, at: Place)
    ensures forall q <- RefFacts(vals, range, b, at) :: q.s == at.subject && q.p == at.pred && q.g == at.graph
  {
    hide NqObject;
  }

  /** Whatever subject a kit line's facts land on -- the Thing it anchors, or the File when it anchors none --
      that very subject is stated to be of the line's class, and the facts are in the document. */
  lemma FactsAreTyped(t: Tables, site: Site, lines: seq<string>, i: nat)
    requires DotlessClasses(t.ont) && i < |lines|
    ensures forall q <- Line(t, site, lines[i]).facts :: q in Emitted(t, site, lines).quads
    ensures match Line(t, site, lines[i]).typing
      case Some(ty) =>
        ty.quad in Emitted(t, site, lines).quads && forall q <- Line(t, site, lines[i]).facts :: q.s == ty.quad.s
      case None => true
  {
    hide AfterLines, Anchored, Line, TypingOf, StateInv, DotlessClasses, AfterTyping;
    var s0 := Anchored(State([], [], 0), t, site);
    AnchoredInv(t, site);
    AfterLinesInv(s0, t, site, lines[..i]);
    AfterLinesNext(s0, t, site, lines, i);
    AfterLinesExtend(s0, t, site, lines, i + 1);
    var was, l := AfterLines(s0, t, site, lines[..i]), Line(t, site, lines[i]);
    if l.typing.Some? {
      LineTyping(t, site, lines[i]);
      LineTypingDotless(t, site, lines[i]);
      TypingCovered(was, t, site, l.typing.value.kit, l.typing.value.class_);
    }
    var here, end := AfterLine(was, l).quads, Emitted(t, site, lines).quads;
    assert AfterLines(s0, t, site, lines[..i + 1]).quads <= end;
    AfterLineHolds(was, l);
    assert forall q <- here :: q in end;
  }

  lemma AfterLineHolds(s: State, l: LineOut)
    ensures forall q <- l.facts :: q in AfterLine(s, l).quads
    ensures l.typing.Some? ==> forall q <- AfterTyping(s, l.typing.value).quads :: q in AfterLine(s, l).quads
  {
    hide AfterTyping;
  }

  // ----- whose declaration governs a line -----

  /** The tables say the same about one property of one class. */
  predicate AgreeOn(t: Tables, t2: Tables, kit: string, class_: string, prop: string) {
    var key := PropKey(kit, class_, prop);
    (key in t.objProps <==> key in t2.objProps)
    && (key in t.datatypes <==> key in t2.datatypes) && (key in t.datatypes ==> t.datatypes[key] == t2.datatypes[key])
    && (key in t.propIris <==> key in t2.propIris) && (key in t.propIris ==> t.propIris[key] == t2.propIris[key])
    && OpenDeclaration(t, kit, prop) == OpenDeclaration(t2, kit, prop)
    && (IsReference(t, kit, class_, prop) ==>
          RangeOf(t, PredicateIri(t, kit, class_, prop)) == RangeOf(t2, PredicateIri(t2, kit, class_, prop)))
  }

  /** A kit line is governed by the declarations of its own kit, class and property: what any other kit or
      class declares under the same property name changes nothing. */
  lemma OwnDeclarationGoverns(t: Tables, t2: Tables, site: Site, kit: string, seg: string, prop: string, text: string)
    requires t.ont.resolveClass(kit, seg) == t2.ont.resolveClass(kit, seg)
    requires S.KitNamespace(t.ont, kit) == S.KitNamespace(t2.ont, kit) && t.base == t2.base
    requires AgreeOn(t, t2, kit, t.ont.resolveClass(kit, seg), prop)
    requires NewDateName(prop).Some? ==> AgreeOn(t, t2, kit, t.ont.resolveClass(kit, seg), NewDateName(prop).value)
    ensures KitLine(t, site, kit, seg, prop, text) == KitLine(t2, site, kit, seg, prop, text)
  {
    hide PropKey, ObjectValues, NqErrors, RefFacts, S.KitNamespace, OpenDeclaration;
    var class_ := t.ont.resolveClass(kit, seg);
    assert EffectiveProp(t, kit, class_, prop) == EffectiveProp(t2, kit, class_, prop);
    var p := EffectiveProp(t, kit, class_, prop);
    assert AgreeOn(t, t2, kit, class_, p);
    assert PredicateIri(t, kit, class_, p) == PredicateIri(t2, kit, class_, p);
  }

  // ----- what keeps predicates apart -----

  predicate IsDeclared(t: Tables, kit: string, class_: string, prop: string) {
    PropKey(kit, class_, prop) in t.propIris || OpenDeclaration(t, kit, prop).Some?
  }

  /** Two undeclared properties of one kit stand on one predicate exactly when they have one name: their classes do
      not keep them apart. */
  lemma SharedPredicateIff(t: Tables, kit: string, class_: string, prop: string, class2: string, prop2: string)
    requires !IsDeclared(t, kit, class_, prop) && !IsDeclared(t, kit, class2, prop2)
    ensures PredicateIri(t, kit, class_, prop) == PredicateIri(t, kit, class2, prop2) <==> prop == prop2
  {
    hide PropKey, S.KitNamespace;
    var ns := S.KitNamespace(t.ont, kit);
    assert (ns + prop)[|ns|..] == prop && (ns + prop2)[|ns|..] == prop2;
  }

  /** The tables agree on all that the line's key names, or the line has no kit key. */
  predicate AgreeOnLine(t: Tables, t2: Tables, line: string) {
    match KitValues.ThreeParts(line)
    case None => true
    case Some((key, _, _)) =>
      match S.KeySegments(key)
      case None => true
      case Some((kit, seg, prop)) =>
        t.ont.resolveClass(kit, seg) == t2.ont.resolveClass(kit, seg)
        && S.KitNamespace(t.ont, kit) == S.KitNamespace(t2.ont, kit)
        && AgreeOn(t, t2, kit, t.ont.resolveClass(kit, seg), prop)
        && (NewDateName(prop).Some? ==> AgreeOn(t, t2, kit, t.ont.resolveClass(kit, seg), NewDateName(prop).value))
  }

  /** A document's statements are decided by the declarations of the kits, classes and properties its own lines
      name, and by the ranges of those predicates that are references: installing a kit that declares other
      properties, references among them, or the same names on other classes, changes none. */
  lemma {:induction false} OwnDeclarationsGovern(t: Tables, t2: Tables, site: Site, lines: seq<string>, s: State)
    requires t.base == t2.base && forall l <- lines :: AgreeOnLine(t, t2, l)
    ensures AfterLines(s, t, site, lines) == AfterLines(s, t2, site, lines)
  {
    hide AgreeOnLine, AfterLine, Line;
    if lines != [] {
      var init, last := lines[..|lines| - 1], lines[|lines| - 1];
      assert last in lines && forall l <- init :: l in lines;
      OwnDeclarationsGovern(t, t2, site, init, s);
      LineGoverned(t, t2, site, last);
    }
  }

  lemma LineGoverned(t: Tables, t2: Tables, site: Site, line: string)
    requires t.base == t2.base && AgreeOnLine(t, t2, line)
    ensures Line(t, site, line) == Line(t2, site, line)
  {
    hide KitLine, HasWikilink, FmLine, LinkLine, AgreeOn, S.KitNamespace;
    if KitValues.ThreeParts(line).Some? {
      var (key, _, text) := KitValues.ThreeParts(line).value;
      if S.KeySegments(key).Some? {
        var (kit, seg, prop) := S.KeySegments(key).value;
        OwnDeclarationGoverns(t, t2, site, kit, seg, prop, text);
      }
    }
  }

  // ----- nothing is dropped, nothing is doubled -----

  function TypeQuads(typings: seq<Typing>): seq<Quad> {
    if typings == [] then [] else TypeQuads(typings[..|typings| - 1]) + [typings[|typings| - 1].quad]
  }

  function LineFacts(t: Tables, site: Site, lines: seq<string>): seq<Quad> {
    if lines == [] then [] else LineFacts(t, site, lines[..|lines| - 1]) + Line(t, site, lines[|lines| - 1]).facts
  }

  function AnchorFacts(site: Site): seq<Quad> {
    [NQuads.Quad(site.subjects.fileIri, RDF_TYPE, NQuads.Iri(GIT_LEX + "File"), site.graph)]
    + match site.subjects.thing
      case Some(thing) => [NQuads.Quad(thing.iri, GIT_LEX + "fileId", NQuads.Iri(site.subjects.fileIri), site.graph)]
      case None => []
  }

  /** The quads are the type statements kept and the given facts, as many of each. */
  predicate Accounts(s: State, facts: seq<Quad>) {
    multiset(s.quads) == multiset(TypeQuads(s.typings)) + multiset(facts)
  }

  lemma AccountsFacts(s: State, facts: seq<Quad>, more: seq<Quad>)
    requires Accounts(s, facts)
    ensures Accounts(s.(quads := s.quads + more), facts + more)
  {
    assert multiset(s.quads + more) == multiset(s.quads) + multiset(more);
    assert multiset(facts + more) == multiset(facts) + multiset(more);
  }

  lemma AccountsTyping(s: State, facts: seq<Quad>, ty: Typing)
    requires Accounts(s, facts)
    ensures Accounts(AfterTyping(s, ty), facts)
  {
    var s1 := AfterTyping(s, ty);
    if s1 != s {
      assert s1.typings[..|s1.typings| - 1] == s.typings;
      assert multiset(s.quads + [ty.quad]) == multiset(s.quads) + multiset{ty.quad};
      assert multiset(TypeQuads(s.typings) + [ty.quad]) == multiset(TypeQuads(s.typings)) + multiset{ty.quad};
    }
  }

  lemma AccountsLine(s: State, facts: seq<Quad>, l: LineOut)
    requires Accounts(s, facts)
    ensures Accounts(AfterLine(s, l), facts + l.facts)
  {
    hide AfterTyping, Accounts;
    var s1 := match l.typing case Some(ty) => AfterTyping(s, ty) case None => s;
    if l.typing.Some? {
      AccountsTyping(s, facts, l.typing.value);
    }
    AccountsFacts(s1, facts, l.facts);
    AccountsErrors(s1.(quads := s1.quads + l.facts), facts + l.facts, s1.errors + l.errors);
  }

  lemma AccountsErrors(s: State, facts: seq<Quad>, errors: nat)
    requires Accounts(s, facts)
    ensures Accounts(s.(errors := errors), facts)
  {
  }

  lemma {:induction false} AccountsLines(s: State, t: Tables, site: Site, facts: seq<Quad>, lines: seq<string>)
    requires Accounts(s, facts)
    ensures Accounts(AfterLines(s, t, site, lines), facts + LineFacts(t, site, lines))
  {
    hide AfterLine, Line, Accounts;
    if lines == [] {
      assert facts + [] == facts;
    } else {
      var init := lines[..|lines| - 1];
      AccountsLines(s, t, site, facts, init);
      AccountsLine(AfterLines(s, t, site, init), facts + LineFacts(t, site, init), Line(t, site, lines[|lines| - 1]));
      assert facts + LineFacts(t, site, init) + Line(t, site, lines[|lines| - 1]).facts
        == facts + (LineFacts(t, site, init) + Line(t, site, lines[|lines| - 1]).facts);
    }
  }

  lemma AccountsAnchor(t: Tables, site: Site)
    ensures Accounts(Anchored(State([], [], 0), t, site), AnchorFacts(site))
  {
    hide Accounts, AfterTyping, TypingOf;
    var none := State([], [], 0);
    assert Accounts(none, []) by { NothingAccounts(); }
    var file := NQuads.Quad(site.subjects.fileIri, RDF_TYPE, NQuads.Iri(GIT_LEX + "File"), site.graph);
    AccountsFacts(none, [], [file]);
    var s1 := none.(quads := none.quads + [file]);
    if site.subjects.thing.Some? {
      var thing := site.subjects.thing.value;
      AccountsTyping(s1, [] + [file], TypingOf(t, site, thing.kit, thing.class_));
      AccountsFacts(AfterTyping(s1, TypingOf(t, site, thing.kit, thing.class_)), [] + [file],
                    [NQuads.Quad(thing.iri, GIT_LEX + "fileId", NQuads.Iri(site.subjects.fileIri), site.graph)]);
      assert [] + [file] == [file];
    } else {
      assert [] + [file] == AnchorFacts(site);
    }
  }

  lemma NothingAccounts()
    ensures Accounts(State([], [], 0), [])
  {
  }

  /** A document's statements are its anchors, each line's facts, and one type a class -- with
      multiplicity: a fact two lines state is stated twice, and none is lost. The errors are the lines' errors. */
  lemma StatementsAccounted(t: Tables, site: Site, lines: seq<string>)
    ensures var e := Emitted(t, site, lines);
      multiset(e.quads)
        == multiset(AnchorFacts(site)) + multiset(LineFacts(t, site, lines)) + multiset(TypeQuads(e.typings))
  {
    hide AfterLines, Anchored, LineFacts, TypeQuads;
    var e := Emitted(t, site, lines);
    AccountsAnchor(t, site);
    AccountsLines(Anchored(State([], [], 0), t, site), t, site, AnchorFacts(site), lines);
    assert multiset(AnchorFacts(site) + LineFacts(t, site, lines))
      == multiset(AnchorFacts(site)) + multiset(LineFacts(t, site, lines));
  }
}
