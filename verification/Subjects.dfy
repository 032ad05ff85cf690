/** The two planes of a document (`derive_file_subjects`, src/nquad.rs): its File node, and the Thing
    it expresses, found from its own sidecar lines. */
module Subjects {
  import opened Wrappers
  import opened Text
  import opened PercentCoding
  import opened Resolve
  import opened References
  import opened ReferenceWriters
  import KitValues
  import NQuads

  datatype Subjects = Subjects(fileIri: string, thing: Option<Thing>)

  /** The anchored Thing: its IRI and its (kit, class). */
  datatype Thing = Thing(iri: string, kit: string, class_: string)

  /** What the installed ontologies say: the class a key's segment names, every declared
      "kit/Class/prop", and the kits' namespaces. */
  datatype Ontology = Ontology(
    resolveClass: (string, string) -> string,
    declared: set<string>,
    namespaces: map<string, string>)

  function ConventionalNamespace(kit: string): string {
    "https://repolex.ai/ontology/" + kit + "/"
  }

  function KitNamespace(ont: Ontology, kit: string): string {
    if kit in ont.namespaces then ont.namespaces[kit] else ConventionalNamespace(kit)
  }

  /** `splitn(3, '.')`, when there are three segments: kit, class, property. */
  function KeySegments(key: string): Option<(string, string, string)> {
    if '.' !in key then None
    else
      var i := IndexOf(key, '.');
      var rest := key[i + 1..];
      if '.' !in rest then None
      else
        var j := IndexOf(rest, '.');
        Some((key[..i], rest[..j], rest[j + 1..]))
  }

  /** `parse_universal_id`: (namespace, Class, address). */
  function UniversalId(raw: string): Option<(string, string, string)> {
    match Unbracketed(Trim(raw))
    case None => None
    case Some(text) =>
      var inner := Trim(text);
      if Has(inner, "://") then None
      else
        var segs := Split(inner, '/');
        if |segs| < 3 || segs[0] == "" || segs[1] == "" || segs[2] == "" then None
        else Some((segs[0], segs[1], inner))
  }

  function Lower(c: char): char {
    if 'A' <= c <= 'Z' then (c as int + 32) as char else c
  }

  /** `eq_ignore_ascii_case` */
  predicate SameIgnoringCase(a: string, b: string) {
    |a| == |b| && forall i :: 0 <= i < |a| ==> Lower(a[i]) == Lower(b[i])
  }

  /** `id_key_matches`: kit and property exactly, the class up to ASCII case. */
  predicate IdKeyMatches(authored: string, kit: string, class_: string, prop: string) {
    authored == kit + "." + class_ + "." + prop ||
    (SplitLast(authored).Some? &&
      var (rest, p) := SplitLast(authored).value;
      SplitLast(rest).Some? &&
      var (k, c) := SplitLast(rest).value;
      k == kit && p == prop && SameIgnoringCase(c, class_))
  }

  /** `rsplit_once('.')` */
  function SplitLast(s: string): Option<(string, string)> {
    if '.' !in s then None
    else
      var i := LastIndexOf(s, '.');
      Some((s[..i], s[i + 1..]))
  }

  /** The key and value of a `hasValue` line. */
  function ValueLine(line: string): Option<(string, string)> {
    match KitValues.ThreeParts(line)
    case Some((key, verb, text)) => if verb == "hasValue" then Some((key, text)) else None
    case None => None
  }

  /** The (kit, class) of the first kit-classed line. */
  function FirstClass(ont: Ontology, lines: seq<string>): Option<(string, string)> {
    if lines == [] then None
    else match ValueLine(lines[0])
      case None => FirstClass(ont, lines[1..])
      case Some((key, _)) =>
        match KeySegments(key)
        case Some((kit, seg, _)) => Some((kit, ont.resolveClass(kit, seg)))
        case None => FirstClass(ont, lines[1..])
  }

  /** The first non-blank value under a key the test accepts, trimmed. */
  function FirstValue(lines: seq<string>, accepts: string -> bool): Option<string> {
    if lines == [] then None
    else match ValueLine(lines[0])
      case Some((key, text)) =>
        if accepts(key) && Trim(text) != "" then Some(Trim(text)) else FirstValue(lines[1..], accepts)
      case None => FirstValue(lines[1..], accepts)
  }

  /** The first letter of a class in lower case, and "Id": the id property by convention. */
  function ConventionalIdProp(class_: string): string {
    if class_ != "" && class_[0] < '\U{80}' then [Lower(class_[0])] + class_[1..] + "Id" else class_ + "Id"
  }

  function Derive(ont: Ontology, lines: seq<string>, relpath: string): Subjects {
    Subjects(FileIri(relpath), DerivedThing(ont, lines))
  }

  function DerivedThing(ont: Ontology, lines: seq<string>): Option<Thing> {
    match FirstClass(ont, lines)
    case None => None
    case Some((kit, class_)) =>
      match UniversalThing(lines, kit, class_)
      case Some(t) => Some(t)
      case None => ConventionalThing(ont, lines, kit, class_)
  }

  /** The id lane: the value of `kit.Class.id` is the Thing's full address, and it wins. */
  function UniversalThing(lines: seq<string>, kit: string, class_: string): Option<Thing> {
    var key := kit + "." + class_ + ".id";
    match FirstValue(lines, k => k == key)
    case None => None
    case Some(raw) =>
      match UniversalId(raw)
      case Some((ns, idClass, inner)) => Some(Thing(RESOURCE_ROOT + EncodedPath(inner), ns, idClass))
      case None => None
  }

  /** The convention lane: `<className>Id`, when the class declares it. */
  function ConventionalThing(ont: Ontology, lines: seq<string>, kit: string, class_: string): Option<Thing> {
    var prop := ConventionalIdProp(class_);
    if kit + "/" + class_ + "/" + prop !in ont.declared then None
    else match FirstValue(lines, k => IdKeyMatches(k, kit, class_, prop))
      case None => None
      case Some(id) => Some(Thing(AppBase(KitNamespace(ont, kit)) + class_ + "/" + EncodedPath(id), kit, class_))
  }

  lemma UniversalIdIsReference(raw: string)
    requires UniversalId(raw).Some?
    ensures ThingReference(raw) == Some(RESOURCE_ROOT + EncodedPath(UniversalId(raw).value.2))
  {
    var inner := UniversalId(raw).value.2;
    assert '/' !in inner ==> Split(inner, '/') == [inner];
  }

  /** The Thing a document expresses does not depend on where its file is. */
  lemma ThingFollowsId(ont: Ontology, lines: seq<string>, here: string, there: string)
    ensures Derive(ont, lines, here).thing == Derive(ont, lines, there).thing
    ensures Derive(ont, lines, here).fileIri == Derive(ont, lines, there).fileIri <==> here == there
  {
    if FileIri(here) == FileIri(there) {
      FileIriInjective(here, there);
    }
  }

  // ----- the derived IRIs may stand in statements -----

  predicate SafeOntology(ont: Ontology) {
    (forall k <- ont.namespaces :: AllIriSafe(ont.namespaces[k]))
  }

  lemma {:induction false} FirstValueSafe(lines: seq<string>, accepts: string -> bool)
    requires forall l <- lines :: ControlFree(l)
    ensures FirstValue(lines, accepts).Some? ==> ControlFree(FirstValue(lines, accepts).value)
  {
    if lines != [] {
      assert ControlFree(lines[0]);
      if ValueLine(lines[0]).Some? {
        ThreePartsControlFree(lines[0]);
        ControlFreeTrim(ValueLine(lines[0]).value.1);
      }
      FirstValueSafe(lines[1..], accepts);
    }
  }

  lemma ThreePartsControlFree(line: string)
    requires ControlFree(line) && KitValues.ThreeParts(line).Some?
    ensures var (a, b, c) := KitValues.ThreeParts(line).value; ControlFree(a) && ControlFree(b) && ControlFree(c)
  {
  }

  lemma KitNamespaceSafe(ont: Ontology, kit: string)
    requires SafeOntology(ont) && AllIriSafe(kit)
    ensures AllIriSafe(KitNamespace(ont, kit))
  {
    assert AllIriSafe("https://repolex.ai/ontology/") && AllIriSafe("/");
    AllIriSafeConcat("https://repolex.ai/ontology/", kit);
    AllIriSafeConcat("https://repolex.ai/ontology/" + kit, "/");
  }

  lemma FileIriSafe(relpath: string)
    requires ControlFree(relpath)
    ensures AllIriSafe(FileIri(relpath))
  {
    hide EncodedPath;
    EncodedPathSafe(relpath);
    assert AllIriSafe(FILE_BASE);
    AllIriSafeConcat(FILE_BASE, EncodedPath(relpath));
  }

  /** Both anchors of a document with control-free lines and path are safe, when its class is. */
  lemma DerivedSafe(ont: Ontology, lines: seq<string>, relpath: string)
    requires SafeOntology(ont) && ControlFree(relpath) && forall l <- lines :: ControlFree(l)
    requires FirstClass(ont, lines).Some? ==>
      AllIriSafe(FirstClass(ont, lines).value.0) && AllIriSafe(FirstClass(ont, lines).value.1)
    ensures AllIriSafe(Derive(ont, lines, relpath).fileIri)
    ensures Derive(ont, lines, relpath).thing.Some? ==> AllIriSafe(Derive(ont, lines, relpath).thing.value.iri)
  {
    hide UniversalThing, ConventionalThing, AllIriSafe, ControlFree, SafeOntology, FirstClass, FileIri;
    FileIriSafe(relpath);
    if FirstClass(ont, lines).Some? {
      var (kit, class_) := FirstClass(ont, lines).value;
      UniversalSafe(lines, kit, class_);
      ConventionalSafe(ont, lines, kit, class_);
    }
  }

  lemma UniversalSafe(lines: seq<string>, kit: string, class_: string)
    requires forall l <- lines :: ControlFree(l)
    ensures UniversalThing(lines, kit, class_).Some? ==> AllIriSafe(UniversalThing(lines, kit, class_).value.iri)
  {
    var key := kit + "." + class_ + ".id";
    FirstValueSafe(lines, k => k == key);
    if UniversalThing(lines, kit, class_).Some? {
      var raw := FirstValue(lines, k => k == key).value;
      UniversalIdIsReference(raw);
      ThingReferenceSafe(raw);
    }
  }

  lemma ConventionalSafe(ont: Ontology, lines: seq<string>, kit: string, class_: string)
    requires SafeOntology(ont) && AllIriSafe(kit) && AllIriSafe(class_) && forall l <- lines :: ControlFree(l)
    ensures ConventionalThing(ont, lines, kit, class_).Some? ==>
      AllIriSafe(ConventionalThing(ont, lines, kit, class_).value.iri)
  {
    hide EncodedPath, AppBase, KitNamespace, AllIriSafe;
    var prop := ConventionalIdProp(class_);
    FirstValueSafe(lines, k => IdKeyMatches(k, kit, class_, prop));
    if ConventionalThing(ont, lines, kit, class_).Some? {
      var id := FirstValue(lines, k => IdKeyMatches(k, kit, class_, prop)).value;
      EncodedPathSafe(id);
      KitNamespaceSafe(ont, kit);
      AppBaseSafe(KitNamespace(ont, kit));
      SlashSafe();
      AllIriSafeConcat(AppBase(KitNamespace(ont, kit)), class_);
      AllIriSafeConcat(AppBase(KitNamespace(ont, kit)) + class_, "/");
      AllIriSafeConcat(AppBase(KitNamespace(ont, kit)) + class_ + "/", EncodedPath(id));
    }
  }

  lemma SlashSafe()
    ensures AllIriSafe("/")
  {
  }
}
