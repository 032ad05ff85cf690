/** A kit moves its namespace: `@prefix` is edited in its Turtle files, and every IRI the installed kits spell
    with it follows (`parse_shape_file`, `get_property_iris_all_kits` and `get_reference_ranges_all_kits`,
    src/ontology.rs). Which of a document's facts stay as they were. */
module Migration {
  import opened Wrappers
  import opened Text
  import opened PercentCoding
  import opened Paths
  import opened Resolve
  import opened References
  import opened ReferenceWriters
  import opened Emission
  import NQuads
  import S = Subjects
  import KitValues
  import J = Joins
  import L = EmissionLaws

  // ----- the tables after the move -----

  function Rebased(iri: string, from: string, to: string): string {
    if StartsWith(iri, from) then to + iri[|from|..] else iri
  }

  /** The new namespace is free: what the kit did not spell with the old one does not lie under it. Otherwise the
      properties found there would change their names, which are what follows the namespace. */
  predicate IsFree(t: Tables, from: string, to: string) {
    (forall iri <- t.ranges :: StartsWith(iri, to) ==> StartsWith(iri, from))
    && (forall key <- t.propIris :: StartsWith(t.propIris[key], to) ==> StartsWith(t.propIris[key], from))
    && forall key <- t.open :: StartsWith(t.open[key].iri, to) ==> StartsWith(t.open[key].iri, from)
  }

  lemma RebasedApart(iris: set<string>, from: string, to: string)
    requires forall iri <- iris :: StartsWith(iri, to) ==> StartsWith(iri, from)
    ensures forall a, b :: a in iris && b in iris && Rebased(a, from, to) == Rebased(b, from, to) ==> a == b
  {
    forall a, b | a in iris && b in iris && Rebased(a, from, to) == Rebased(b, from, to)
      ensures a == b
    {
      RebasedInjective(a, b, from, to);
    }
  }

  lemma RebasedInjective(a: string, b: string, from: string, to: string)
    requires Rebased(a, from, to) == Rebased(b, from, to)
    requires StartsWith(a, to) ==> StartsWith(a, from)
    requires StartsWith(b, to) ==> StartsWith(b, from)
    ensures a == b
  {
    if StartsWith(a, from) && StartsWith(b, from) {
      assert (to + a[|from|..])[|to|..] == a[|from|..] && (to + b[|from|..])[|to|..] == b[|from|..];
      assert a == from + a[|from|..] && b == from + b[|from|..];
    }
  }

  function MovedRanges(ranges: map<string, string>, from: string, to: string): map<string, string>
    requires forall iri <- ranges :: StartsWith(iri, to) ==> StartsWith(iri, from)
  {
    RebasedApart(ranges.Keys, from, to);
    map iri | iri in ranges.Keys :: Rebased(iri, from, to) := Rebased(ranges[iri], from, to)
  }

  /** The kit's namespace is `to`, and so is the front of every declared IRI and range that was under the old one.
      The keys stay: they hold names, not IRIs. */
  function Moved(t: Tables, kit: string, to: string): Tables
    requires IsFree(t, S.KitNamespace(t.ont, kit), to)
  {
    var from := S.KitNamespace(t.ont, kit);
    t.(ont := t.ont.(namespaces := t.ont.namespaces[kit := to]),
       propIris := map key <- t.propIris :: Rebased(t.propIris[key], from, to),
       open := map key <- t.open :: t.open[key].(iri := Rebased(t.open[key].iri, from, to)),
       ranges := MovedRanges(t.ranges, from, to))
  }

  /** Declared IRIs have no angle brackets: they come out of a Turtle parser. */
  predicate PlainIris(t: Tables) {
    (forall key <- t.propIris :: StripAngles(t.propIris[key]) == t.propIris[key])
    && forall key <- t.open :: StripAngles(t.open[key].iri) == t.open[key].iri
  }

  // ----- what stays -----

  /** A declared property's IRI does not lie under the old namespace; an undeclared one is another kit's. */
  predicate PredicateStays(t: Tables, kit: string, own: string, class_: string, prop: string) {
    if L.IsDeclared(t, own, class_, prop)
    then !StartsWith(PredicateIri(t, own, class_, prop), S.KitNamespace(t.ont, kit))
    else own != kit
  }

  /** The document's anchor is minted in the kit's application by convention. */
  predicate AnchoredByConvention(ont: S.Ontology, kit: string, lines: seq<string>) {
    match S.FirstClass(ont, lines)
    case None => false
    case Some((own, class_)) =>
      own == kit && S.UniversalThing(lines, own, class_).None? && S.ConventionalThing(ont, lines, own, class_).Some?
  }

  predicate AnchorStays(t: Tables, kit: string, to: string, lines: seq<string>) {
    AnchoredByConvention(t.ont, kit, lines) ==> AppBase(S.KitNamespace(t.ont, kit)) == AppBase(to)
  }

  /** The line's class does not anchor the document, or the anchor stays. */
  predicate SubjectStays(t: Tables, kit: string, to: string, lines: seq<string>, own: string, class_: string) {
    AnchorStays(t, kit, to, lines)
    || (var thing := S.DerivedThing(t.ont, lines);
        thing.Some? && !(thing.value.kit == own && thing.value.class_ == class_))
  }

  /** Where the Things of a range's class have their addresses. */
  function InstanceBase(range: string): string {
    if '/' !in range then range
    else AppBase(range[..LastIndexOf(range, '/') + 1]) + range[LastIndexOf(range, '/') + 1..]
  }

  /** The reference has no range, or one whose class or whose class's application is where it was. */
  predicate TargetsStay(t: Tables, kit: string, to: string, pred: string) {
    var from := S.KitNamespace(t.ont, kit);
    match RangeOf(t, pred)
    case None => true
    case Some(range) => SameTargetsUnder(range, Rebased(range, from, to))
  }

  predicate SameTargetsUnder(range: string, range2: string) {
    range == range2
    || (range != THING_CLASS_IRI && range2 != THING_CLASS_IRI && IsClassRange(range) && IsClassRange(range2)
        && InstanceBase(range) == InstanceBase(range2))
  }

  /** A kit line keeps its predicate, its subject and, as a reference, its targets. */
  predicate KitLineStays(t: Tables, kit: string, to: string, lines: seq<string>, own: string, seg: string,
                         authored: string) {
    var class_ := t.ont.resolveClass(own, seg);
    var prop := EffectiveProp(t, own, class_, authored);
    PredicateStays(t, kit, own, class_, prop) && SubjectStays(t, kit, to, lines, own, class_)
    && (IsReference(t, own, class_, prop) ==> TargetsStay(t, kit, to, PredicateIri(t, own, class_, prop)))
  }

  predicate LineStays(t: Tables, kit: string, to: string, lines: seq<string>, line: string) {
    match KitValues.ThreeParts(line)
    case None => true
    case Some((key, verb, _)) =>
      verb == "linksTo"
      || match S.KeySegments(key)
         case None => true
         case Some((own, seg, authored)) => KitLineStays(t, kit, to, lines, own, seg, authored)
  }

  /** What the move asks of the two namespaces and the tables. */
  predicate MayMove(t: Tables, kit: string, to: string) {
    S.KitNamespace(t.ont, kit) != to && IsFree(t, S.KitNamespace(t.ont, kit), to) && PlainIris(t) && SameShapes(t)
  }

  function SiteOf(t: Tables, lines: seq<string>, relpath: string, graph: string): Site {
    Site(S.Derive(t.ont, lines, relpath), graph)
  }

  // ----- predicates -----

  lemma SameEnding(a: string, b: string, tail: string)
    ensures a + tail == b + tail <==> a == b
  {
    if a + tail == b + tail {
      assert |a| == |b|;
      assert (a + tail)[..|a|] == a && (b + tail)[..|b|] == b;
    }
  }

  lemma RebasedStays(iri: string, from: string, to: string)
    requires from != to
    ensures Rebased(iri, from, to) == iri <==> !StartsWith(iri, from)
  {
    if StartsWith(iri, from) {
      assert iri == from + iri[|from|..];
      SameEnding(to, from, iri[|from|..]);
    }
  }

  lemma SameDeclarations(t: Tables, kit: string, to: string, own: string, class_: string, prop: string)
    requires MayMove(t, kit, to)
    ensures var moved := Moved(t, kit, to);
      EffectiveProp(moved, own, class_, prop) == EffectiveProp(t, own, class_, prop)
      && IsReference(moved, own, class_, prop) == IsReference(t, own, class_, prop)
      && DatatypeOf(moved, own, class_, prop) == DatatypeOf(t, own, class_, prop)
  {
    hide PropKey, Rebased, MovedRanges, S.KitNamespace;
  }

  lemma PredicateStaysIff(t: Tables, kit: string, to: string, own: string, class_: string, prop: string)
    requires MayMove(t, kit, to)
    ensures PredicateIri(Moved(t, kit, to), own, class_, prop) == PredicateIri(t, own, class_, prop)
      <==> PredicateStays(t, kit, own, class_, prop)
  {
    hide PropKey, MovedRanges, StartsWith, IsFree, Rebased;
    var from := S.KitNamespace(t.ont, kit);
    RebasedStays(PredicateIri(t, own, class_, prop), from, to);
    SameEnding(from, to, prop);
  }

  lemma RebasedUnder(iri: string, from: string, to: string)
    ensures StartsWith(iri, from) ==> StartsWith(Rebased(iri, from, to), to)
  {
  }

  /** A declared predicate that stays has the range it had, with its class moved where that moves. */
  lemma RangeMoves(t: Tables, kit: string, to: string, pred: string)
    requires MayMove(t, kit, to) && StripAngles(pred) == pred
    requires !StartsWith(pred, S.KitNamespace(t.ont, kit)) && !StartsWith(pred, to)
    ensures RangeOf(Moved(t, kit, to), pred) ==
      if RangeOf(t, pred).None? then None else Some(Rebased(RangeOf(t, pred).value, S.KitNamespace(t.ont, kit), to))
  {
    hide S.KitNamespace, PlainIris, SameShapes;
    var from := S.KitNamespace(t.ont, kit);
    RebasedApart(t.ranges.Keys, from, to);
    var ranges := MovedRanges(t.ranges, from, to);
    assert pred in t.ranges ==> Rebased(pred, from, to) == pred;
    if pred in ranges {
      var iri :| iri in t.ranges && Rebased(iri, from, to) == pred;
      RebasedUnder(iri, from, to);
    }
  }

  // ----- subjects -----

  /** The anchor of a document is where it was exactly when it is not minted in the kit's application by
      convention, or the application is where it was. */
  lemma AnchorStaysIff(t: Tables, kit: string, to: string, lines: seq<string>)
    requires MayMove(t, kit, to)
    ensures var was, now := S.DerivedThing(t.ont, lines), S.DerivedThing(Moved(t, kit, to).ont, lines);
      (was == now <==> AnchorStays(t, kit, to, lines))
      && (was.Some? <==> now.Some?)
      && (was.Some? ==> was.value.kit == now.value.kit && was.value.class_ == now.value.class_)
  {
    hide EncodedPath, AppBase, S.FirstValue, S.UniversalThing, IsFree, PlainIris, SameShapes, MovedRanges, Rebased;
    var moved := Moved(t, kit, to).ont;
    SameFirstClass(t.ont, moved, lines);
    if S.FirstClass(t.ont, lines).Some? {
      var (own, class_) := S.FirstClass(t.ont, lines).value;
      if S.UniversalThing(lines, own, class_).None? && S.ConventionalThing(t.ont, lines, own, class_).Some? {
        var id := S.FirstValue(lines, k => S.IdKeyMatches(k, own, class_, S.ConventionalIdProp(class_))).value;
        var a, b := AppBase(S.KitNamespace(t.ont, own)), AppBase(S.KitNamespace(moved, own));
        SameEnding(a + class_ + "/", b + class_ + "/", EncodedPath(id));
        SameEnding(a + class_, b + class_, "/");
        SameEnding(a, b, class_);
      }
    }
  }

  lemma {:induction false} SameFirstClass(ont: S.Ontology, moved: S.Ontology, lines: seq<string>)
    requires ont.resolveClass == moved.resolveClass
    ensures S.FirstClass(ont, lines) == S.FirstClass(moved, lines)
  {
    if lines != [] {
      SameFirstClass(ont, moved, lines[1..]);
    }
  }

  lemma SubjectStaysIff(t: Tables, kit: string, to: string, lines: seq<string>, relpath: string, graph: string,
                        own: string, class_: string)
    requires MayMove(t, kit, to)
    ensures ClassSubject(SiteOf(t, lines, relpath, graph), own, class_)
         == ClassSubject(SiteOf(Moved(t, kit, to), lines, relpath, graph), own, class_)
      <==> SubjectStays(t, kit, to, lines, own, class_)
  {
    hide Moved, AnchorStays, MayMove, S.DerivedThing;
    AnchorStaysIff(t, kit, to, lines);
  }

  // ----- targets -----

  lemma MiddlePart(val: string, inner: string, i: nat)
    requires |val| >= 2 && OccursAt(val[1..|val| - 1], inner, i)
    ensures 1 + i + |inner| <= |val| && val == val[..1 + i] + inner + val[1 + i + |inner|..]
  {
    SliceOfSlice(val, 1, |val| - 1, i, i + |inner|);
  }

  /** In brackets a text is longer, also encoded. */
  lemma BracketsLengthen(val: string)
    requires |val| >= 2 && val[0] == '<'
    ensures |EncodedPath(val)| > |EncodedPath(Trim(val[1..|val| - 1]))|
  {
    hide Trim, EncodedPath, OccursAt;
    var inner := Trim(val[1..|val| - 1]);
    TrimContained(val[1..|val| - 1]);
    var i: nat :| OccursAt(val[1..|val| - 1], inner, i);
    MiddlePart(val, inner, i);
    EncodedPathConcat(val[..1 + i] + inner, val[1 + i + |inner|..]);
    EncodedPathConcat(val[..1 + i], inner);
    OpensEscaped(val[..1 + i]);
  }

  lemma FrontsClash(head: string, tail: string, root: string, rest: string)
    requires |tail| > |rest| && tail[0] == '%' && '%' !in root
    ensures head + tail != root + rest
  {
    assert (head + tail)[|head|] == '%';
    assert |head| < |root| ==> (root + rest)[|head|] == root[|head|];
  }

  /** An identifier in brackets never has the address that a class range would give the same text. */
  lemma IdentifierIsNoId(val: string, range: string)
    requires Trim(val) == val && ThingReference(val).Some?
    ensures ThingIriFromRange(range, val) != ThingReference(val)
  {
    hide AppBase, Has, Trim, EncodedPath;
    BracketsLengthen(val);
    OpensEscaped(val);
    assert '%' !in RESOURCE_ROOT;
    if IsClassRange(range) {
      FrontsClash(InstanceBase(range) + "/", EncodedPath(val), RESOURCE_ROOT, EncodedPath(Trim(val[1..|val| - 1])));
    }
  }

  lemma OpensEscaped(s: string)
    requires s != "" && s[0] == '<'
    ensures EncodedPath(s) != "" && EncodedPath(s)[0] == '%'
  {
  }

  lemma SameObject(val: string, range: string, range2: string, b: Base)
    requires SameTargetsUnder(range, range2)
    ensures NqObject(val, Some(range), b) == NqObject(val, Some(range2), b)
  {
    hide AppBase, EncodedPath;
  }

  lemma {:induction false} SameFacts(vals: seq<string>, range: Option<string>, range2: Option<string>, b: Base,
                                     at: Place)
    requires forall v <- vals :: NqObject(v, range, b) == NqObject(v, range2, b)
    ensures RefFacts(vals, range, b, at) == RefFacts(vals, range2, b, at)
    ensures NqErrors(vals, range, b) == NqErrors(vals, range2, b)
  {
    hide NqObject;
    if vals != [] {
      var init, last := vals[..|vals| - 1], vals[|vals| - 1];
      assert last in vals && forall v <- init :: v in vals;
      SameFacts(init, range, range2, b, at);
    }
  }

  lemma {:induction false} NoFacts(vals: seq<string>, range: string, b: Base, at: Place)
    requires range != THING_CLASS_IRI && !IsClassRange(range)
    ensures RefFacts(vals, Some(range), b, at) == []
  {
    if vals != [] {
      NoFacts(vals[..|vals| - 1], range, b, at);
    }
  }

  lemma ObjectsDiffer(val: string, range: string, range2: string, b: Base)
    requires Trim(val) == val && IsClassRange(range2) && range2 != THING_CLASS_IRI
    requires range == THING_CLASS_IRI || IsClassRange(range)
    requires !SameTargetsUnder(range, range2)
    ensures NqObject(val, Some(range), b) != NqObject(val, Some(range2), b)
  {
    hide AppBase, EncodedPath, Trim, ThingReference;
    if range == THING_CLASS_IRI {
      if ThingReference(val).Some? {
        IdentifierIsNoId(val, range2);
      }
    } else {
      var a, c := InstanceBase(range), InstanceBase(range2);
      SameEnding(a + "/", c + "/", EncodedPath(val));
      SameEnding(a, c, "/");
    }
  }

  lemma LastFact(vals: seq<string>, range: string, range2: string, b: Base, at: Place)
    requires vals != [] && RefFacts(vals, Some(range), b, at) == RefFacts(vals, Some(range2), b, at)
    requires |RefFacts(vals, Some(range), b, at)| == |vals|
    ensures NqObject(vals[|vals| - 1], Some(range), b) == NqObject(vals[|vals| - 1], Some(range2), b)
  {
    hide NqObject;
    J.FactCount(vals[..|vals| - 1], Some(range), b, at);
    J.FactCount(vals[..|vals| - 1], Some(range2), b, at);
    var f := RefFacts(vals, Some(range), b, at);
    assert f[|f| - 1] == RefFact(vals[|vals| - 1], Some(range), b, at)[0];
    assert f[|f| - 1] == RefFact(vals[|vals| - 1], Some(range2), b, at)[0];
  }

  /** Under ranges that do not give the same targets, values have the same facts only when they have none. */
  lemma TargetsDiffer(vals: seq<string>, range: string, range2: string, b: Base, at: Place)
    requires !SameTargetsUnder(range, range2) && forall v <- vals :: Trim(v) == v
    requires RefFacts(vals, Some(range), b, at) == RefFacts(vals, Some(range2), b, at)
    ensures RefFacts(vals, Some(range), b, at) == []
  {
    hide RefFacts, NqObject, IsClassRange, InstanceBase, Trim;
    if range != THING_CLASS_IRI && !IsClassRange(range) {
      NoFacts(vals, range, b, at);
    } else if range2 != THING_CLASS_IRI && !IsClassRange(range2) {
      NoFacts(vals, range2, b, at);
    } else if vals != [] {
      var last := vals[|vals| - 1];
      assert last in vals;
      if range == THING_CLASS_IRI {
        J.ClassRangeTakesAll(vals, range2, b, at);
        LastFact(vals, range, range2, b, at);
        ObjectsDiffer(last, range, range2, b);
      } else {
        J.ClassRangeTakesAll(vals, range, b, at);
        LastFact(vals, range, range2, b, at);
        ObjectsDiffer(last, range2, range, b);
      }
    } else {
      J.FactCount(vals, Some(range), b, at);
    }
  }

  // ----- lines -----

  ghost predicate SameOrNone(a: LineOut, b: LineOut, stays: bool) {
    (a.facts == b.facts <==> stays || (a.facts == [] && b.facts == [])) && (stays ==> a.errors == b.errors)
  }

  lemma ReferenceStaysIff(t: Tables, moved: Tables, range: Option<string>, range2: Option<string>, at: Place,
                          at2: Place,
                          vals: seq<string>, stays: bool)
    requires moved.base == t.base && at.graph == at2.graph && forall v <- vals :: Trim(v) == v
    requires at == at2 ==> (range.Some? <==> range2.Some?)
    requires stays <==> at == at2 && (range.Some? ==> SameTargetsUnder(range.value, range2.value))
    requires at == at2 || at.subject != at2.subject || at.pred != at2.pred
    ensures var f, g := RefFacts(vals, range, t.base, at), RefFacts(vals, range2, t.base, at2);
      (f == g <==> stays || (f == [] && g == []))
      && (stays ==> NqErrors(vals, range, t.base) == NqErrors(vals, range2, t.base))
  {
    hide RefFacts, NqErrors, NqObject, SameTargetsUnder, Trim;
    var f, g := RefFacts(vals, range, t.base, at), RefFacts(vals, range2, t.base, at2);
    L.RefFactsPlace(vals, range, t.base, at);
    L.RefFactsPlace(vals, range2, t.base, at2);
    if stays {
      forall v | v in vals
        ensures NqObject(v, range, t.base) == NqObject(v, range2, t.base)
      {
        if range.Some? {
          SameObject(v, range.value, range2.value, t.base);
        }
      }
      SameFacts(vals, range, range2, t.base, at);
    } else if f == g && f != [] {
      assert f[0] in f && g[0] in g && at == at2;
      TargetsDiffer(vals, range.value, range2.value, t.base, at);
    }
  }

  lemma DeclaredIriPlain(t: Tables, kit: string, to: string, own: string, class_: string, prop: string)
    requires MayMove(t, kit, to) && L.IsDeclared(t, own, class_, prop)
    ensures var iri := PredicateIri(t, own, class_, prop);
      StripAngles(iri) == iri && (StartsWith(iri, to) ==> StartsWith(iri, S.KitNamespace(t.ont, kit)))
  {
    hide PropKey, S.KitNamespace, StripAngles, StartsWith, SameShapes;
  }

  lemma ReferenceIsDeclared(t: Tables, own: string, class_: string, prop: string)
    requires SameShapes(t) && IsReference(t, own, class_, prop)
    ensures L.IsDeclared(t, own, class_, prop)
  {
  }

  /** A kit line's facts are what they were exactly when its predicate, its subject and its targets stay. */
  lemma KitLineStaysIff(t: Tables, kit: string, to: string, lines: seq<string>, relpath: string, graph: string,
                        own: string, seg: string, authored: string, text: string)
    requires MayMove(t, kit, to)
    ensures var moved := Moved(t, kit, to);
      SameOrNone(KitLine(t, SiteOf(t, lines, relpath, graph), own, seg, authored, text),
                 KitLine(moved, SiteOf(moved, lines, relpath, graph), own, seg, authored, text),
                 KitLineStays(t, kit, to, lines, own, seg, authored))
  {
    hide IsFree, PlainIris, SameShapes, PredicateStays, SubjectStays, PredicateIri, EffectiveProp, IsReference;
    hide DatatypeOf;
    hide ClassSubject, Moved;
    hide RangeOf, ObjectValues, RefFacts, NqErrors, SameTargetsUnder, StartsWith, StripAngles, TypingOf, L.IsDeclared;
    hide Rebased;
    hide S.Derive, Trim, S.KitNamespace;
    var moved := Moved(t, kit, to);
    assert moved.base == t.base && moved.ont.resolveClass == t.ont.resolveClass by { MovedKeeps(t, kit, to); }
    var class_ := t.ont.resolveClass(own, seg);
    SameDeclarations(t, kit, to, own, class_, authored);
    var prop := EffectiveProp(t, own, class_, authored);
    SameDeclarations(t, kit, to, own, class_, prop);
    PredicateStaysIff(t, kit, to, own, class_, prop);
    SubjectStaysIff(t, kit, to, lines, relpath, graph, own, class_);
    var at := Place(ClassSubject(SiteOf(t, lines, relpath, graph), own, class_),
                    PredicateIri(t, own, class_, prop), graph);
    var at2 := Place(ClassSubject(SiteOf(moved, lines, relpath, graph), own, class_),
                     PredicateIri(moved, own, class_, prop), graph);
    if IsReference(t, own, class_, prop) {
      if at.pred == at2.pred {
        StayingRange(t, kit, to, own, class_, prop);
      }
      ObjectValuesTrimmed(text);
      ReferenceStaysIff(t, moved, RangeOf(t, at.pred), RangeOf(moved, at2.pred), at, at2, ObjectValues(text),
                        KitLineStays(t, kit, to, lines, own, seg, authored));
    }
  }

  lemma MovedKeeps(t: Tables, kit: string, to: string)
    requires MayMove(t, kit, to)
    ensures Moved(t, kit, to).base == t.base && Moved(t, kit, to).ont.resolveClass == t.ont.resolveClass
  {
  }

  lemma StayingRange(t: Tables, kit: string, to: string, own: string, class_: string, prop: string)
    requires MayMove(t, kit, to) && IsReference(t, own, class_, prop) && PredicateStays(t, kit, own, class_, prop)
    ensures var pred := PredicateIri(t, own, class_, prop);
      RangeOf(Moved(t, kit, to), pred) ==
      if RangeOf(t, pred).None? then None else Some(Rebased(RangeOf(t, pred).value, S.KitNamespace(t.ont, kit), to))
  {
    hide PredicateIri, IsReference, L.IsDeclared, RangeOf, StartsWith, StripAngles, Rebased, Moved, PlainIris, IsFree;
    ReferenceIsDeclared(t, own, class_, prop);
    DeclaredIriPlain(t, kit, to, own, class_, prop);
    RangeMoves(t, kit, to, PredicateIri(t, own, class_, prop));
  }

  lemma {:induction false} SameFmFacts(vals: seq<string>, key: string, was: Site, now: Site)
    requires was.subjects.fileIri == now.subjects.fileIri && was.graph == now.graph
    ensures FmFacts(vals, key, was) == FmFacts(vals, key, now)
  {
    if vals != [] {
      SameFmFacts(vals[..|vals| - 1], key, was, now);
    }
  }

  /** Lines without a kit key stand on the File node. */
  lemma SameFileNode(was: Site, now: Site)
    requires was.subjects.fileIri == now.subjects.fileIri && was.graph == now.graph
    ensures forall target :: LinkLine(was, target) == LinkLine(now, target)
    ensures forall key, text :: FmLine(was, key, text) == FmLine(now, key, text)
  {
    hide FmFacts, FmValues, Normalized;
    forall key, text
      ensures FmLine(was, key, text) == FmLine(now, key, text)
    {
      SameFmFacts(FmValues(key, text), key, was, now);
    }
  }

  /** A line's facts are what they were exactly when it stays, or when it has none before and after. */
  lemma LineStaysIff(t: Tables, kit: string, to: string, lines: seq<string>, relpath: string, graph: string,
                     line: string)
    requires MayMove(t, kit, to)
    ensures var moved := Moved(t, kit, to);
      SameOrNone(Line(t, SiteOf(t, lines, relpath, graph), line),
                 Line(moved, SiteOf(moved, lines, relpath, graph), line), LineStays(t, kit, to, lines, line))
  {
    hide KitLine, KitLineStays, HasWikilink, IsFree, PlainIris, SameShapes, Moved, Trim, S.DerivedThing, FmLine;
    hide LinkLine;
    SameFileNode(SiteOf(t, lines, relpath, graph), SiteOf(Moved(t, kit, to), lines, relpath, graph));
    match KitValues.ThreeParts(line) {
      case Some((key, _, text)) =>
        match S.KeySegments(key) {
          case Some((own, seg, authored)) =>
            KitLineStaysIff(t, kit, to, lines, relpath, graph, own, seg, authored, text);
          case None =>
        }
      case None =>
    }
  }

  /** Lines with the same facts make up the same facts. */
  lemma {:induction false} KeptFacts(t: Tables, moved: Tables, was: Site, now: Site, lines: seq<string>)
    requires forall l <- lines :: Line(t, was, l).facts == Line(moved, now, l).facts
    ensures L.LineFacts(t, was, lines) == L.LineFacts(moved, now, lines)
  {
    hide Line;
    if lines != [] {
      assert lines[|lines| - 1] in lines && forall l <- lines[..|lines| - 1] :: l in lines;
      KeptFacts(t, moved, was, now, lines[..|lines| - 1]);
    }
  }

  predicate Silent(t: Tables, site: Site, line: string) {
    Line(t, site, line).facts == []
  }

  /** After the move a document's lines state the facts they stated, each of them and in order, exactly when every
      line with facts keeps its predicate, its subject and its targets: when no declared predicate lies under the old
      namespace and no undeclared one is the kit's, the anchor is not minted in the kit's application, and no range
      is a class of the kit -- or, for the last two, the application is where it was. */
  lemma MigrationKeepsFactsIff(t: Tables, kit: string, to: string, lines: seq<string>, relpath: string, graph: string)
    requires MayMove(t, kit, to)
    ensures var moved := Moved(t, kit, to);
      var was, now := SiteOf(t, lines, relpath, graph), SiteOf(moved, lines, relpath, graph);
      (forall l <- lines :: Line(t, was, l).facts == Line(moved, now, l).facts)
      <==> forall l <- lines :: LineStays(t, kit, to, lines, l) || (Silent(t, was, l) && Silent(moved, now, l))
    ensures var moved := Moved(t, kit, to);
      var was, now := SiteOf(t, lines, relpath, graph), SiteOf(moved, lines, relpath, graph);
      (forall l <- lines :: LineStays(t, kit, to, lines, l)) ==>
        L.LineFacts(t, was, lines) == L.LineFacts(moved, now, lines)
  {
    hide Line, LineStays, IsFree, PlainIris, SameShapes, Moved, SiteOf;
    forall l | l in lines
      ensures var moved := Moved(t, kit, to);
        SameOrNone(Line(t, SiteOf(t, lines, relpath, graph), l), Line(moved, SiteOf(moved, lines, relpath, graph), l),
                   LineStays(t, kit, to, lines, l))
    {
      LineStaysIff(t, kit, to, lines, relpath, graph, l);
    }
    if forall l <- lines :: LineStays(t, kit, to, lines, l) {
      var moved := Moved(t, kit, to);
      KeptFacts(t, moved, SiteOf(t, lines, relpath, graph), SiteOf(moved, lines, relpath, graph), lines);
    }
  }
}
