/** Validation's own reading of a document (`collect_kit_values`, `emit_predicate` and the property loop of
    `frontmatter_to_turtle`, src/extraction.rs), and exactly when it judges a line as sync will. Validation
    knows only what the shapes declare, and reads every line by the document's first class. */
module Validation {
  import opened Wrappers
  import opened Text
  import opened Resolve
  import opened References
  import opened ReferenceWriters
  import opened Emission
  import NQuads
  import S = Subjects
  import KitValues

  // ----- collecting the kit's values -----

  /** `strip_prefix` of the kit and `splitn(2, '.')`: class segment and property of a key of this kit. */
  function KitKey(kit: string, key: string): Option<(string, string)> {
    if !StartsWith(key, kit + ".") then None
    else
      var rest := key[|kit| + 1..];
      if '.' !in rest then None else Some((rest[..IndexOf(rest, '.')], rest[IndexOf(rest, '.') + 1..]))
  }

  /** The class of the first key of the kit, and every value of the kit's keys; None for a refused shape. */
  datatype Collected = Collected(docType: Option<string>, pairs: seq<(string, string)>)

  type Entries = seq<(KitValues.Yaml, KitValues.Yaml)>

  function EntryKey(kit: string, e: (KitValues.Yaml, KitValues.Yaml)): Option<(string, string)> {
    match e.0 case Str(key) => KitKey(kit, key) case _ => None
  }

  function Pairs(prop: string, vals: seq<string>): seq<(string, string)> {
    seq(|vals|, i requires 0 <= i < |vals| => (prop, vals[i]))
  }

  function Add(ont: S.Ontology, kit: string, c: Collected, e: (KitValues.Yaml, KitValues.Yaml)): Option<Collected> {
    match EntryKey(kit, e)
    case None => Some(c)
    case Some((seg, prop)) =>
      match KitValues.KitValuesOf(e.1)
      case None => None
      case Some(vals) =>
        Some(Collected(Some(c.docType.GetOr(ont.resolveClass(kit, seg))), c.pairs + Pairs(prop, vals)))
  }

  function Collect(ont: S.Ontology, kit: string, entries: Entries): Option<Collected> {
    if entries == [] then Some(Collected(None, []))
    else match Collect(ont, kit, entries[..|entries| - 1])
      case None => None
      case Some(c) => Add(ont, kit, c, entries[|entries| - 1])
  }

  lemma {:induction false} CollectStops(ont: S.Ontology, kit: string, entries: Entries, i: nat)
    requires i <= |entries| && Collect(ont, kit, entries[..i]).None?
    ensures Collect(ont, kit, entries).None?
    decreases |entries| - i
  {
    if i < |entries| {
      CollectNext(ont, kit, entries, i);
      CollectStops(ont, kit, entries, i + 1);
    } else {
      assert entries[..i] == entries;
    }
  }

  lemma CollectNext(ont: S.Ontology, kit: string, entries: Entries, i: nat)
    requires i < |entries|
    ensures Collect(ont, kit, entries[..i + 1]) ==
      if Collect(ont, kit, entries[..i]).None? then None
      else Add(ont, kit, Collect(ont, kit, entries[..i]).value, entries[i])
  {
    hide Add;
    assert entries[..i + 1][..i] == entries[..i];
  }

  /** `collect_kit_values` */
  method CollectKitValues(ont: S.Ontology, kit: string, entries: Entries) returns (c: Option<Collected>)
    ensures c == Collect(ont, kit, entries)
  {
    var docType: Option<string>, pairs := None, [];
    assert entries[..0] == [];
    for i := 0 to |entries|
      invariant Collect(ont, kit, entries[..i]) == Some(Collected(docType, pairs))
    {
      CollectNext(ont, kit, entries, i);
      match EntryKey(kit, entries[i]) {
        case None =>
        case Some((seg, prop)) =>
          if docType.None? {
            docType := Some(ont.resolveClass(kit, seg));
          }
          var vals := KitValues.PushKitValue(entries[i].1, []);
          if vals.None? {
            CollectStops(ont, kit, entries, i + 1);
            return None;
          }
          assert [] + KitValues.KitValuesOf(entries[i].1).value == KitValues.KitValuesOf(entries[i].1).value;
          pairs := pairs + Pairs(prop, vals.value);
      }
    }
    assert entries[..|entries|] == entries;
    return Some(Collected(docType, pairs));
  }

  // ----- one value -----

  /** The kit, the prefix its shapes declare, the document's class and the document. */
  datatype Judge = Judge(kit: string, prefix: string, docType: string, doc: string)

  /** `emit_predicate`: the declared IRI, or the property under the kit's prefix. */
  function EmitPredicate(t: Tables, j: Judge, prop: string): string {
    var key := PropKey(j.kit, j.docType, prop);
    if key in t.propIris then NQuads.RenderIri(t.propIris[key]) else j.prefix + ":" + prop
  }

  /** The Turtle of one value, or the refusal of the document. */
  function TurtleValue(t: Tables, j: Judge, authored: string, value: string): Option<string> {
    var prop := EffectiveProp(t, j.kit, j.docType, authored);
    var key, pred := PropKey(j.kit, j.docType, prop), EmitPredicate(t, j, prop);
    if key in t.objProps then TurtleText(ObjectValues(value), RangeOf(t, pred), t.base, j.doc, pred)
    else if key in t.datatypes then
      Some("<" + j.doc + "> " + pred + " \"" + NQuads.TurtleEscape(value) + "\"^^<" + t.datatypes[key] + "> .\n")
    else Some("<" + j.doc + "> " + pred + " \"" + NQuads.TurtleEscape(value) + "\" .\n")
  }

  function TurtleValues(t: Tables, j: Judge, pairs: seq<(string, string)>): Option<string> {
    if pairs == [] then Some("")
    else match (TurtleValues(t, j, pairs[..|pairs| - 1]), TurtleValue(t, j, pairs[|pairs| - 1].0, pairs[|pairs| - 1].1))
      case (Some(text), Some(more)) => Some(text + more)
      case _ => None
  }

  lemma TurtleValuesNext(t: Tables, j: Judge, pairs: seq<(string, string)>, i: nat)
    requires i < |pairs|
    ensures TurtleValues(t, j, pairs[..i + 1]) ==
      match (TurtleValues(t, j, pairs[..i]), TurtleValue(t, j, pairs[i].0, pairs[i].1))
      case (Some(text), Some(more)) => Some(text + more)
      case _ => None
  {
    hide TurtleValue;
    assert pairs[..i + 1][..i] == pairs[..i];
  }

  /** Validation refuses a document exactly when it refuses one of its values. */
  lemma {:induction false} TurtleValuesIff(t: Tables, j: Judge, pairs: seq<(string, string)>)
    ensures TurtleValues(t, j, pairs).Some? <==> forall p <- pairs :: TurtleValue(t, j, p.0, p.1).Some?
  {
    hide TurtleValue;
    if pairs != [] {
      var init, last := pairs[..|pairs| - 1], pairs[|pairs| - 1];
      assert pairs == init + [last];
      TurtleValuesIff(t, j, init);
    }
  }

  /** The property loop of `frontmatter_to_turtle`. */
  method WriteProperties(t: Tables, j: Judge, pairs: seq<(string, string)>) returns (ttl: Option<string>)
    ensures ttl == TurtleValues(t, j, pairs)
  {
    var text := "";
    assert pairs[..0] == [];
    for i := 0 to |pairs|
      invariant TurtleValues(t, j, pairs[..i]) == Some(text)
    {
      TurtleValuesNext(t, j, pairs, i);
      var prop := EffectiveProp(t, j.kit, j.docType, pairs[i].0);
      var key, pred := PropKey(j.kit, j.docType, prop), EmitPredicate(t, j, prop);
      var more: Option<string>;
      if key in t.objProps {
        more := WriteReferences(pairs[i].1, RangeOf(t, pred), t.base, j.doc, pred);
      } else if key in t.datatypes {
        more := Some("<" + j.doc + "> " + pred + " \"" + NQuads.TurtleEscape(pairs[i].1) + "\"^^<" + t.datatypes[key]
                     + "> .\n");
      } else {
        more := Some("<" + j.doc + "> " + pred + " \"" + NQuads.TurtleEscape(pairs[i].1) + "\" .\n");
      }
      if more.None? {
        TurtleValuesIff(t, j, pairs[..i + 1]);
        TurtleValuesIff(t, j, pairs);
        return None;
      }
      text := text + more.value;
    }
    assert pairs[..|pairs|] == pairs;
    return Some(text);
  }

  // ----- how a value is read -----

  datatype Reading = AsLiteral | AsReference(range: Option<string>)

  /** Sync reads a line by the line's own class, with the domain-open declarations. */
  function SyncReading(t: Tables, kit: string, class_: string, authored: string): Reading {
    var prop := EffectiveProp(t, kit, class_, authored);
    if IsReference(t, kit, class_, prop) then AsReference(RangeOf(t, PredicateIri(t, kit, class_, prop))) else AsLiteral
  }

  /** Validation reads it by the document's first class, with the shapes' declarations alone. */
  function ValidationReading(t: Tables, j: Judge, authored: string): Reading {
    var prop := EffectiveProp(t, j.kit, j.docType, authored);
    if PropKey(j.kit, j.docType, prop) in t.objProps then AsReference(RangeOf(t, EmitPredicate(t, j, prop)))
    else AsLiteral
  }

  predicate Accepts(r: Reading, b: Base, text: string) {
    r.AsReference? ==> NqErrors(ObjectValues(text), r.range, b) == 0
  }

  /** What a reading lets through: any text, addresses, bracketed identifiers, or nothing. */
  datatype Lane = Everything | Addresses | Identifiers | Nothing

  function LaneOf(r: Reading): Lane {
    match r
    case AsLiteral => Everything
    case AsReference(None) => Addresses
    case AsReference(Some(range)) =>
      if range == THING_CLASS_IRI then Identifiers else if IsClassRange(range) then Everything else Nothing
  }

  predicate LetsThrough(lane: Lane, val: string) {
    match lane
    case Everything => true
    case Addresses => FrontmatterValue(val, Base("", "")).Iri?
    case Identifiers => ThingReference(val).Some?
    case Nothing => false
  }

  lemma OneValueLane(val: string, range: Option<string>, b: Base)
    requires val != "" && Trim(val) == val
    ensures NqObject(val, range, b).Some? <==> LetsThrough(LaneOf(AsReference(range)), val)
  {
    hide ThingReference;
    NeverUnresolved(val, b);
    NeverUnresolved(val, Base("", ""));
  }

  lemma {:induction false} ValuesLane(vals: seq<string>, range: Option<string>, b: Base)
    requires forall v <- vals :: v != "" && Trim(v) == v
    ensures NqErrors(vals, range, b) == 0 <==> forall v <- vals :: LetsThrough(LaneOf(AsReference(range)), v)
  {
    hide NqObject, LetsThrough, LaneOf;
    if vals != [] {
      var init, last := vals[..|vals| - 1], vals[|vals| - 1];
      assert vals == init + [last] && last in vals && forall v <- init :: v in vals;
      ValuesLane(init, range, b);
      OneValueLane(last, range, b);
    }
  }

  /** A text is accepted when its lane lets every value of it through. */
  lemma AcceptsIff(r: Reading, b: Base, text: string)
    ensures Accepts(r, b, text) <==> forall v <- ObjectValues(text) :: LetsThrough(LaneOf(r), v)
  {
    hide ObjectValues, LetsThrough;
    ObjectValuesTrimmed(text);
    if r.AsReference? {
      ValuesLane(ObjectValues(text), r.range, b);
    } else {
      assert forall v :: LetsThrough(Everything, v) by { AnythingGoes(); }
    }
  }

  lemma AnythingGoes()
    ensures forall v :: LetsThrough(Everything, v)
  {
  }

  // ----- texts that tell the lanes apart -----

  predicate IsPlainText(text: string) {
    text != "" && ObjectValues(text) == [text] && Trim(text) == text && !HasWikilink(text)
  }

  lemma OneValueText(text: string)
    requires text != "" && ',' !in text && Trim(text) == text
    ensures ObjectValues(text) == [text]
  {
    NothingToSplit(text, ',');
    assert [text][1..] == [];
    assert UrlGroups([text], "") == UrlGroups([], text) == [text];
    assert TrimAll([text]) == [text] + TrimAll([]);
  }

  lemma NoBrackets(text: string)
    requires '[' !in text && ']' !in text
    ensures !HasWikilink(text)
  {
    assert forall i: nat :: OccursAt(text, "[[", i) ==> text[i..i + 2][0] == text[i];
    assert forall i: nat :: OccursAt(text, "]]", i) ==> text[i..i + 2][0] == text[i];
  }

  lemma Bob()
    ensures IsPlainText("bob")
    ensures forall lane :: LetsThrough(lane, "bob") <==> lane == Everything
  {
    TrimmedStays("bob");
    OneValueText("bob");
    NoBrackets("bob");
  }

  lemma APath()
    ensures IsPlainText("a/b")
    ensures forall lane :: LetsThrough(lane, "a/b") <==> lane == Everything || lane == Addresses
  {
    TrimmedStays("a/b");
    OneValueText("a/b");
    NoBrackets("a/b");
  }

  lemma AnIdentifier()
    ensures IsPlainText("<a/b>")
    ensures LetsThrough(Identifiers, "<a/b>") && !LetsThrough(Nothing, "<a/b>")
  {
    hide Trim, Has, ObjectValues;
    NoSpaces("<a/b>");
    NoSpaces("a/b");
    OneValueText("<a/b>");
    NoBrackets("<a/b>");
    assert "<a/b>"[1..4] == "a/b" && Unbracketed("<a/b>") == Some("a/b");
    NoScheme("a/b");
  }

  /** Two readings accept the same texts exactly when they have one lane. */
  lemma SameVerdictIff(r: Reading, s: Reading, b: Base)
    ensures (forall text :: Trim(text) != "" && !HasWikilink(text) ==> (Accepts(r, b, text) <==> Accepts(s, b, text)))
       <==> LaneOf(r) == LaneOf(s)
  {
    hide ObjectValues, LetsThrough, Trim, HasWikilink;
    forall text
      ensures Accepts(r, b, text) <==> forall v <- ObjectValues(text) :: LetsThrough(LaneOf(r), v)
      ensures Accepts(s, b, text) <==> forall v <- ObjectValues(text) :: LetsThrough(LaneOf(s), v)
    {
      AcceptsIff(r, b, text);
      AcceptsIff(s, b, text);
    }
    Bob();
    APath();
    AnIdentifier();
    PlainVerdict(r, b, "bob");
    PlainVerdict(s, b, "bob");
    PlainVerdict(r, b, "a/b");
    PlainVerdict(s, b, "a/b");
    PlainVerdict(r, b, "<a/b>");
    PlainVerdict(s, b, "<a/b>");
  }

  lemma PlainVerdict(r: Reading, b: Base, text: string)
    requires IsPlainText(text)
    ensures Trim(text) != "" && !HasWikilink(text) && (Accepts(r, b, text) <==> LetsThrough(LaneOf(r), text))
  {
    hide LetsThrough, LaneOf;
    AcceptsIff(r, b, text);
  }

  // ----- sync and validation -----

  lemma {:induction false} StripAnglesEnd(iri: string)
    ensures StripAngles(iri + ">") == StripAngles(iri)
  {
    if iri != "" && iri[0] == '<' {
      assert (iri + ">")[1..] == iri[1..] + ">";
      StripAnglesEnd(iri[1..]);
    } else {
      assert (iri + ">")[..|iri|] == iri;
    }
  }

  /** The range of a declared property is found whether its IRI is bracketed or not. */
  lemma RangeOfBracketed(t: Tables, iri: string)
    ensures RangeOf(t, NQuads.RenderIri(iri)) == RangeOf(t, iri)
  {
    assert ("<" + iri + ">")[1..] == iri + ">";
    StripAnglesEnd(iri);
  }

  lemma SyncVerdict(t: Tables, site: Site, kit: string, seg: string, authored: string, text: string)
    ensures KitLine(t, site, kit, seg, authored, text).errors == 0
       <==> Accepts(SyncReading(t, kit, t.ont.resolveClass(kit, seg), authored), t.base, text)
  {
  }

  lemma ValidationVerdict(t: Tables, j: Judge, authored: string, value: string)
    ensures TurtleValue(t, j, authored, value).Some? <==> Accepts(ValidationReading(t, j, authored), t.base, value)
  {
    hide ObjectValues, NqErrors, TurtleText, RangeOf, EmitPredicate, EffectiveProp, PropKey, NQuads.TurtleEscape;
    var prop := EffectiveProp(t, j.kit, j.docType, authored);
    var pred := EmitPredicate(t, j, prop);
    WritersAgree(value, RangeOf(t, pred), t.base, Place("", pred, ""), j.doc, pred);
  }

  /** What sync makes of the sidecar line of one authored value. */
  lemma SyncLine(t: Tables, site: Site, key: string, text: string)
    requires KitValues.KeySafe(key) && Trim(text) != "" && S.KeySegments(key).Some?
    ensures var (kit, seg, authored) := S.KeySegments(key).value;
      Line(t, site, KitValues.Line(key, text)).errors
        == if HasWikilink(text) then 1 else KitLine(t, site, kit, seg, authored, text).errors
  {
    hide KitLine, HasWikilink, KitValues.KeySafe, KitValues.ThreeParts, KitValues.Line;
    KitValues.LineReadsBack(key, text);
    assert "hasValue" != "linksTo";
  }

  /** On one line sync reports no error exactly when its own reading accepts the value and the value has no
      `[[` or `]]` in it; validation accepts exactly when its own reading does. */
  lemma LineMatchesValidation(t: Tables, site: Site, j: Judge, key: string, text: string)
    requires KitValues.KeySafe(key) && Trim(text) != "" && S.KeySegments(key).Some?
    ensures var (kit, seg, authored) := S.KeySegments(key).value;
      (SyncAccepts(t, site, key, text) <==>
         !HasWikilink(text) && Accepts(SyncReading(t, kit, t.ont.resolveClass(kit, seg), authored), t.base, text))
      && (TurtleValue(t, j, authored, text).Some? <==> Accepts(ValidationReading(t, j, authored), t.base, text))
  {
    hide KitLine, HasWikilink, KitValues.KeySafe, Accepts, SyncReading, ValidationReading, TurtleValue, Line, Trim;
    var (kit, seg, authored) := S.KeySegments(key).value;
    SyncLine(t, site, key, text);
    SyncVerdict(t, site, kit, seg, authored, text);
    ValidationVerdict(t, j, authored, text);
  }

  predicate SyncAccepts(t: Tables, site: Site, key: string, text: string) {
    Line(t, site, KitValues.Line(key, text)).errors == 0
  }

  /** The two verdicts on a key's lines are the same for every value free of `[[` and `]]`. */
  ghost predicate JudgedAlike(t: Tables, site: Site, j: Judge, key: string)
    requires S.KeySegments(key).Some?
  {
    forall text :: Trim(text) != "" && !HasWikilink(text) ==>
      SyncAccepts(t, site, key, text) == TurtleValue(t, j, S.KeySegments(key).value.2, text).Some?
  }

  /** On values free of `[[` and `]]` validation judges a key's lines as sync will exactly when the two readings have
      one lane: a condition on what the ontologies declare. */
  lemma JudgedAlikeIff(t: Tables, site: Site, j: Judge, key: string)
    requires KitValues.KeySafe(key) && S.KeySegments(key).Some?
    ensures var (kit, seg, authored) := S.KeySegments(key).value;
      JudgedAlike(t, site, j, key) <==>
        LaneOf(SyncReading(t, kit, t.ont.resolveClass(kit, seg), authored)) == LaneOf(ValidationReading(t, j, authored))
  {
    hide KitLine, HasWikilink, KitValues.KeySafe, Accepts, SyncReading, ValidationReading, TurtleValue, SyncAccepts;
    hide Trim, LaneOf;
    var (kit, seg, authored) := S.KeySegments(key).value;
    var r, s := SyncReading(t, kit, t.ont.resolveClass(kit, seg), authored), ValidationReading(t, j, authored);
    forall text | Trim(text) != ""
      ensures !HasWikilink(text) ==> (SyncAccepts(t, site, key, text) <==> Accepts(r, t.base, text))
      ensures TurtleValue(t, j, authored, text).Some? <==> Accepts(s, t.base, text)
    {
      LineMatchesValidation(t, site, j, key, text);
    }
    SameVerdictIff(r, s, t.base);
  }

  // ----- values with `[[` or `]]` in them -----

  /** The two verdicts on a key's lines are the same for every value. */
  ghost predicate JudgedAlikeAlways(t: Tables, site: Site, j: Judge, key: string)
    requires S.KeySegments(key).Some?
  {
    forall text :: Trim(text) != "" ==>
      SyncAccepts(t, site, key, text) == TurtleValue(t, j, S.KeySegments(key).value.2, text).Some?
  }

  /** Every lane but the empty one lets a text with `[[` in it through. */
  function Brackets(lane: Lane): string {
    match lane
    case Everything => "see [[x]]"
    case Addresses => "a/[[b"
    case Identifiers => "<a/[[b>"
    case Nothing => ""
  }

  lemma OpenBrackets(a: string, b: string)
    ensures HasWikilink(a + "[[" + b)
  {
    var text := a + "[[" + b;
    assert text[|a|..|a| + 2] == "[[";
    assert OccursAt(text, "[[", |a|);
  }

  lemma BracketsPass(lane: Lane)
    requires lane != Nothing
    ensures var text := Brackets(lane);
      Trim(text) != "" && HasWikilink(text) && ObjectValues(text) == [text] && LetsThrough(lane, text)
  {
    hide HasWikilink, ObjectValues, Trim, ThingReference, FrontmatterValue;
    var text := Brackets(lane);
    assert "see " + "[[" + "x]]" == "see [[x]]" && "a/" + "[[" + "b" == "a/[[b" && "<a/" + "[[" + "b>" == "<a/[[b>";
    OpenBrackets("see ", "x]]");
    OpenBrackets("a/", "b");
    OpenBrackets("<a/", "b>");
    assert IsTrimmed(text);
    TrimmedStays(text);
    OneValueText(text);
    AddressWithBrackets();
    IdentifierWithBrackets();
  }

  lemma AddressWithBrackets()
    ensures FrontmatterValue("a/[[b", Base("", "")).Iri?
  {
    TrimmedStays("a/[[b");
    assert "a/[[b"[1] == '/';
  }

  lemma IdentifierWithBrackets()
    ensures ThingReference("<a/[[b>").Some?
  {
    hide Trim, Has;
    NoSpaces("<a/[[b>");
    NoSpaces("a/[[b");
    assert "<a/[[b>"[1..6] == "a/[[b" && Unbracketed("<a/[[b>") == Some("a/[[b");
    NoScheme("a/[[b");
  }

  /** The text is a value or more, and so none that a lane for nothing lets through. */
  lemma BracketsAreValues(text: string)
    requires HasWikilink(text)
    ensures ObjectValues(text) != []
  {
    hide ObjectValues;
    if Has(text, "[[") {
      var i: nat :| OccursAt(text, "[[", i);
      assert text[i] == text[i..i + 2][0];
      SomeValue(text, i);
    } else {
      var i: nat :| OccursAt(text, "]]", i);
      assert text[i] == text[i..i + 2][0];
      SomeValue(text, i);
    }
  }

  /** A key's plain text with a wikilink in it, `see [[x]]`, is written by validation and an error to sync. More
      than that: whatever validation's reading lets through, it lets some text with `[[` through. */
  lemma WikilinkAccepted(t: Tables, site: Site, j: Judge, key: string)
    requires KitValues.KeySafe(key) && S.KeySegments(key).Some?
    requires LaneOf(ValidationReading(t, j, S.KeySegments(key).value.2)) != Nothing
    ensures var text := Brackets(LaneOf(ValidationReading(t, j, S.KeySegments(key).value.2)));
      Trim(text) != "" && TurtleValue(t, j, S.KeySegments(key).value.2, text).Some? && !SyncAccepts(t, site, key, text)
  {
    hide HasWikilink, KitValues.KeySafe, Accepts, SyncReading, ValidationReading, TurtleValue, SyncAccepts, Trim;
    hide LaneOf;
    hide LetsThrough, Brackets, ObjectValues;
    var r := ValidationReading(t, j, S.KeySegments(key).value.2);
    BracketsPass(LaneOf(r));
    AcceptsIff(r, t.base, Brackets(LaneOf(r)));
    LineMatchesValidation(t, site, j, key, Brackets(LaneOf(r)));
  }

  /** Over all values the verdicts on a key agree exactly when neither reading lets anything through. */
  lemma JudgedAlikeAlwaysIff(t: Tables, site: Site, j: Judge, key: string)
    requires KitValues.KeySafe(key) && S.KeySegments(key).Some?
    ensures var (kit, seg, authored) := S.KeySegments(key).value;
      JudgedAlikeAlways(t, site, j, key) <==>
        LaneOf(SyncReading(t, kit, t.ont.resolveClass(kit, seg), authored)) == Nothing
        && LaneOf(ValidationReading(t, j, authored)) == Nothing
  {
    hide HasWikilink, KitValues.KeySafe, Accepts, SyncReading, ValidationReading, TurtleValue, SyncAccepts, Trim;
    hide LaneOf;
    hide Brackets, ObjectValues;
    var (kit, seg, authored) := S.KeySegments(key).value;
    var s := ValidationReading(t, j, authored);
    JudgedAlikeIff(t, site, j, key);
    if LaneOf(s) != Nothing {
      WikilinkAccepted(t, site, j, key);
    } else if JudgedAlike(t, site, j, key) {
      forall text | Trim(text) != "" && HasWikilink(text)
        ensures SyncAccepts(t, site, key, text) == TurtleValue(t, j, authored, text).Some?
      {
        LineMatchesValidation(t, site, j, key, text);
        AcceptsIff(s, t.base, text);
        BracketsAreValues(text);
        assert ObjectValues(text)[0] in ObjectValues(text);
      }
    }
  }

  // ----- own and second class -----

  /** On the document's own class the verdicts differ only for a property declared a reference with no domain:
      sync resolves it, validation takes it for text. They agree even there when its range is a class. */
  lemma OwnClassJudgedAlikeIff(t: Tables, site: Site, j: Judge, key: string)
    requires KitValues.KeySafe(key) && S.KeySegments(key).Some? && SameShapes(t)
    requires var (kit, seg, _) := S.KeySegments(key).value; j.kit == kit && j.docType == t.ont.resolveClass(kit, seg)
    ensures var (kit, _, authored) := S.KeySegments(key).value;
      var prop := EffectiveProp(t, kit, j.docType, authored);
      JudgedAlike(t, site, j, key) <==>
        PropKey(kit, j.docType, prop) in t.objProps
        || !IsReference(t, kit, j.docType, prop)
        || LaneOf(AsReference(RangeOf(t, PredicateIri(t, kit, j.docType, prop)))) == Everything
  {
    hide JudgedAlike, LaneOf, PropKey, RangeOf, EffectiveProp, KitValues.KeySafe;
    var (kit, seg, authored) := S.KeySegments(key).value;
    var prop := EffectiveProp(t, kit, j.docType, authored);
    var full := PropKey(kit, j.docType, prop);
    JudgedAlikeIff(t, site, j, key);
    if full in t.objProps {
      RangeOfBracketed(t, t.propIris[full]);
    }
    LiteralLane();
  }

  lemma LiteralLane()
    ensures LaneOf(AsLiteral) == Everything
  {
  }

  /** A value of a declared reference on the document's own class: the Turtle that validation judges and the
      statements that sync writes name the same targets in the same order. */
  lemma DeclaredLineSameTargets(t: Tables, site: Site, j: Judge, seg: string, authored: string, text: string)
    requires j.docType == t.ont.resolveClass(j.kit, seg)
    requires var key := PropKey(j.kit, j.docType, EffectiveProp(t, j.kit, j.docType, authored));
      key in t.objProps && key in t.propIris
    requires TurtleValue(t, j, authored, text).Some?
    ensures exists iris: seq<string> ::
      |iris| == |ObjectValues(text)| && SameTargets(t, site, j, seg, authored, text, iris)
  {
    hide ObjectValues, NqErrors, TurtleText, RangeOf, EffectiveProp, PropKey, NQuads.TurtleEscape, TurtleLines, NqLines;
    hide NQuads.Document, NqText, RefFacts;
    var prop := EffectiveProp(t, j.kit, j.docType, authored);
    var pred := PredicateIri(t, j.kit, j.docType, prop);
    var at := Place(ClassSubject(site, j.kit, j.docType), pred, site.graph);
    var vals, range := ObjectValues(text), RangeOf(t, pred);
    RangeOfBracketed(t, pred);
    WritersAgree(text, range, t.base, at, j.doc, EmitPredicate(t, j, prop));
    RefText(vals, range, t.base, at);
    var iris :| WriteTargets(iris, vals, range, t.base, at, j.doc, EmitPredicate(t, j, prop));
    assert SameTargets(t, site, j, seg, authored, text, iris);
  }

  /** Both outputs are one line a target. */
  ghost predicate SameTargets(t: Tables, site: Site, j: Judge, seg: string, authored: string, text: string,
                              iris: seq<string>) {
    var prop := EffectiveProp(t, j.kit, j.docType, authored);
    var at := Place(ClassSubject(site, j.kit, j.docType), PredicateIri(t, j.kit, j.docType, prop), site.graph);
    TurtleValue(t, j, authored, text) == Some(TurtleLines(iris, j.doc, EmitPredicate(t, j, prop)))
    && NQuads.Document(KitLine(t, site, j.kit, seg, authored, text).facts) == NqLines(iris, at)
  }

  /** On a line of another class than the document's first, a reference its own class declares and the first
      class does not is judged as text: the verdicts agree only when its range is a class. */
  lemma SecondClassJudgedAlikeIff(t: Tables, site: Site, j: Judge, key: string)
    requires KitValues.KeySafe(key) && S.KeySegments(key).Some?
    requires var (kit, seg, authored) := S.KeySegments(key).value;
      var c := t.ont.resolveClass(kit, seg);
      PropKey(kit, c, EffectiveProp(t, kit, c, authored)) in t.objProps
      && PropKey(j.kit, j.docType, EffectiveProp(t, j.kit, j.docType, authored)) !in t.objProps
    ensures var (kit, seg, authored) := S.KeySegments(key).value;
      var c := t.ont.resolveClass(kit, seg);
      JudgedAlike(t, site, j, key) <==>
        LaneOf(AsReference(RangeOf(t, PredicateIri(t, kit, c, EffectiveProp(t, kit, c, authored))))) == Everything
  {
    hide JudgedAlike, LaneOf, PropKey, RangeOf, EffectiveProp, PredicateIri, KitValues.KeySafe;
    JudgedAlikeIff(t, site, j, key);
    LiteralLane();
  }

  // ----- two keys on which they differ -----

  function Names(): S.Ontology {
    S.Ontology((kit, seg) => seg, {}, map[])
  }

  /** `soul:relatedTo` is declared a reference with no domain, and `soul:previous` one of Journal. */
  function SoulTables(): Tables {
    Tables(Names(), {"soul/Journal/previous"}, map[],
           map["soul/Journal/previous" := "https://repolex.ai/ontology/soul/previous"],
           map["soul/relatedTo" := OpenProp("https://repolex.ai/ontology/soul/relatedTo", true, None)],
           map[], Base("https://repolex.ai/soul", "Soul/"))
  }

  const NOTE := Judge("soul", "soul", "Note", "https://repolex.ai/soul/a.md")

  /** `soul.Note.relatedTo: bob`, and `soul.Journal.previous: bob` in a document whose first class is Note:
      validation accepts both, and sync reports an error for each. */
  lemma BobAccepted(site: Site)
    ensures TurtleValue(SoulTables(), NOTE, "relatedTo", "bob").Some?
    ensures TurtleValue(SoulTables(), NOTE, "previous", "bob").Some?
    ensures KitLine(SoulTables(), site, "soul", "Note", "relatedTo", "bob").errors == 1
    ensures KitLine(SoulTables(), site, "soul", "Journal", "previous", "bob").errors == 1
  {
    hide NQuads.TurtleEscape, ObjectValues, FrontmatterValue;
    SoulKeys();
    Bob();
    BobRefused();
    var t := SoulTables();
    SyncVerdict(t, site, "soul", "Note", "relatedTo", "bob");
    SyncVerdict(t, site, "soul", "Journal", "previous", "bob");
    ValidationVerdict(t, NOTE, "relatedTo", "bob");
    ValidationVerdict(t, NOTE, "previous", "bob");
  }

  lemma SoulKeys()
    ensures PropKey("soul", "Note", "relatedTo") == "soul/Note/relatedTo"
    ensures PropKey("soul", "Note", "previous") == "soul/Note/previous"
    ensures PropKey("soul", "Journal", "previous") == "soul/Journal/previous"
    ensures "soul" + "/" + "relatedTo" == "soul/relatedTo" && "soul" + "/" + "previous" == "soul/previous"
    ensures "soul/Note/relatedTo" != "soul/Journal/previous" && "soul/Note/previous" != "soul/Journal/previous"
  {
    assert "soul/Note/relatedTo"[5] != "soul/Journal/previous"[5];
    assert "soul/Note/previous"[5] != "soul/Journal/previous"[5];
  }

  lemma BobRefused()
    ensures NqErrors(["bob"], None, SoulTables().base) == 1
  {
    Bob();
    OneValueLane("bob", None, SoulTables().base);
    assert ["bob"][..0] == [];
  }
}
