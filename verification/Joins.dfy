/** References reach the Things they name: what sync makes of a line whose value is the id a document gives itself
    (`emit_spo_line_nquads` and `emit_reference_values`, src/nquad.rs). */
module Joins {
  import opened Wrappers
  import opened Text
  import opened PercentCoding
  import opened Resolve
  import opened References
  import opened ReferenceWriters
  import opened Emission
  import NQuads
  import S = Subjects
  import KitValues
  import V = Validation

  // ----- a reference line -----

  /** Sync reads lines under the key as references, of this range. */
  predicate RefersUnder(t: Tables, key: string, range: Option<string>) {
    KitValues.KeySafe(key) && S.KeySegments(key).Some?
    && (var (kit, seg, authored) := S.KeySegments(key).value;
        V.SyncReading(t, kit, t.ont.resolveClass(kit, seg), authored) == V.AsReference(range))
  }

  /** The subject, predicate and graph of a kit key's facts. */
  function PlaceOf(t: Tables, site: Site, key: string): Place
    requires S.KeySegments(key).Some?
  {
    var (kit, seg, authored) := S.KeySegments(key).value;
    var class_ := t.ont.resolveClass(kit, seg);
    var prop := EffectiveProp(t, kit, class_, authored);
    Place(ClassSubject(site, kit, class_), PredicateIri(t, kit, class_, prop), site.graph)
  }

  /** The key's line with this value is one statement, about the Thing at `iri`, and no error. */
  predicate NamesThing(t: Tables, site: Site, key: string, text: string, iri: string)
    requires S.KeySegments(key).Some?
  {
    var at, out := PlaceOf(t, site, key), Line(t, site, KitValues.Line(key, text));
    out.errors == 0 && out.facts == [NQuads.Quad(at.subject, at.pred, NQuads.Iri(iri), at.graph)]
  }

  /** What the line asks for: nothing but an error with `[[` or `]]` in it, and else what its values ask for. */
  lemma ReferenceLine(t: Tables, site: Site, key: string, range: Option<string>, text: string)
    requires RefersUnder(t, key, range) && Trim(text) != ""
    ensures var out, at := Line(t, site, KitValues.Line(key, text)), PlaceOf(t, site, key);
      if HasWikilink(text) then out.errors == 1 && out.facts == []
      else out.errors == NqErrors(ObjectValues(text), range, t.base)
           && out.facts == RefFacts(ObjectValues(text), range, t.base, at)
  {
    hide HasWikilink, KitValues.KeySafe, KitValues.ThreeParts, KitValues.Line, ObjectValues, NqErrors, RefFacts, Trim;
    hide ClassSubject, PredicateIri, EffectiveProp, TypingOf, RangeOf;
    KitValues.LineReadsBack(key, text);
    assert "hasValue" != "linksTo";
  }

  lemma {:induction false} FactCount(vals: seq<string>, range: Option<string>, b: Base, at: Place)
    ensures |RefFacts(vals, range, b, at)| + NqErrors(vals, range, b) == |vals|
  {
    hide NqObject;
    if vals != [] {
      FactCount(vals[..|vals| - 1], range, b, at);
    }
  }

  /** One value with an address is one statement. */
  lemma OneFact(val: string, range: Option<string>, b: Base, at: Place)
    requires NqObject(val, range, b).Some?
    ensures RefFacts([val], range, b, at) == [NQuads.Quad(at.subject, at.pred, NqObject(val, range, b).value, at.graph)]
    ensures NqErrors([val], range, b) == 0
  {
    hide NqObject;
    assert [val][..0] == [];
    assert [] + RefFact(val, range, b, at) == RefFact(val, range, b, at);
  }

  // ----- the id lane -----

  /** A reference to a document's Thing is written as the id that document gives itself. On a property with no
      range or of any class, from any repository, its line names exactly that Thing exactly when the id holds no
      comma and neither `[[` nor `]]`. */
  lemma IdReferenceJoins(t: Tables, site: Site, key: string, range: Option<string>, lines: seq<string>, kit: string,
                         class_: string, raw: string)
    requires S.FirstValue(lines, k => k == kit + "." + class_ + ".id") == Some(raw)
    requires S.UniversalThing(lines, kit, class_).Some?
    requires RefersUnder(t, key, range) && (range.None? || range.value == THING_CLASS_IRI)
    ensures NamesThing(t, site, key, raw, S.UniversalThing(lines, kit, class_).value.iri)
      <==> ',' !in raw && !HasWikilink(raw)
  {
    hide V.SyncReading, Line, PlaceOf, RefFacts, NqErrors, HasWikilink, ObjectValues, EncodedPath, S.UniversalId, Trim;
    hide ThingReference, FrontmatterValue, KitValues.Line, S.KeySegments;
    FirstValueTrimmed(lines, k => k == kit + "." + class_ + ".id");
    S.UniversalIdIsReference(raw);
    ThingLaneAgrees(raw, t.base);
    BracketedText(raw);
    ReferenceLine(t, site, key, range, raw);
    FactCount(ObjectValues(raw), range, t.base, PlaceOf(t, site, key));
    if ',' in raw {
      SeveralValues(raw);
    } else {
      OneValueIff(raw);
      OneFact(raw, range, t.base, PlaceOf(t, site, key));
    }
  }

  lemma {:induction false} FirstValueTrimmed(lines: seq<string>, accepts: string -> bool)
    ensures S.FirstValue(lines, accepts).Some? ==>
      S.FirstValue(lines, accepts).value != ""
        && Trim(S.FirstValue(lines, accepts).value) == S.FirstValue(lines, accepts).value
  {
    hide Trim;
    if lines != [] {
      FirstValueTrimmed(lines[1..], accepts);
      if S.ValueLine(lines[0]).Some? {
        TrimIsTrimmed(S.ValueLine(lines[0]).value.1);
      }
    }
  }

  lemma BracketedText(raw: string)
    requires Trim(raw) == raw && S.UniversalId(raw).Some?
    ensures |raw| >= 2 && raw[0] == '<' && raw[|raw| - 1] == '>' && !IsUrl(raw)
  {
    hide Trim, Split;
  }

  /** A bracketed text with a comma in it is several values. */
  lemma SeveralValues(raw: string)
    requires |raw| >= 2 && raw[0] == '<' && raw[|raw| - 1] == '>' && !IsUrl(raw) && ',' in raw && Trim(raw) == raw
    ensures |ObjectValues(raw)| >= 2
  {
    hide Trim, Split;
    var pieces, i := Split(raw, ','), IndexOf(raw, ',');
    SplitStep(raw, ',');
    assert raw[..i][0] == '<';
    NotBlank(raw[..i], 0);
    LastPiece(raw, ',');
    var last := pieces[|pieces| - 1];
    NotBlank(last, |last| - 1);
    assert pieces == [pieces[0]] + pieces[1..|pieces| - 1] + [last];
    TrimAllConcat([pieces[0]] + pieces[1..|pieces| - 1], [last]);
    TrimAllConcat([pieces[0]], pieces[1..|pieces| - 1]);
    TrimAllOne(pieces[0]);
    TrimAllOne(last);
  }

  lemma NotBlank(s: string, i: nat)
    requires i < |s| && !IsWhite(s[i])
    ensures Trim(s) != ""
  {
    AllWhite(s);
  }

  lemma {:induction false} LastPiece(s: string, c: char)
    requires s != "" && s[|s| - 1] != c
    ensures var last := Split(s, c)[|Split(s, c)| - 1]; last != "" && last[|last| - 1] == s[|s| - 1]
    ensures c in s ==> |Split(s, c)| >= 2
    decreases |s|
  {
    hide Split;
    if c in s {
      var i := IndexOf(s, c);
      var rest := s[i + 1..];
      SplitStep(s, c);
      assert i < |s| - 1;
      assert rest[|rest| - 1] == s[|s| - 1];
      LastPiece(rest, c);
      assert ([s[..i]] + Split(rest, c))[|Split(rest, c)|] == Split(rest, c)[|Split(rest, c)| - 1];
    } else {
      NothingToSplit(s, c);
    }
  }

  // ----- the class lane -----

  /** On a property whose declared range is the class, the line of the bare id names exactly the Thing exactly when
      the id is one value -- it holds no comma or, being a URL, none that another URL follows -- and has neither
      `[[` nor `]]` in it. Any other id but the last kind is read without an error, as other Things. */
  lemma RangeReferenceJoins(t: Tables, site: Site, key: string, ont: S.Ontology, lines: seq<string>, kit: string,
                            class_: string, id: string)
    requires S.FirstValue(lines, k => S.IdKeyMatches(k, kit, class_, S.ConventionalIdProp(class_))) == Some(id)
    requires S.ConventionalThing(ont, lines, kit, class_).Some?
    requires EndsWith(S.KitNamespace(ont, kit), "/") && class_ != "" && '/' !in class_
    requires RefersUnder(t, key, Some(S.KitNamespace(ont, kit) + class_))
    requires S.KitNamespace(ont, kit) + class_ != THING_CLASS_IRI
    ensures NamesThing(t, site, key, id, S.ConventionalThing(ont, lines, kit, class_).value.iri)
      <==> IsOneValue(id) && !HasWikilink(id)
    ensures Line(t, site, KitValues.Line(key, id)).errors == 0 <==> !HasWikilink(id)
  {
    hide V.SyncReading, Line, PlaceOf, HasWikilink, ObjectValues, EncodedPath, AppBase, Trim, KitValues.Line;
    hide S.KeySegments;
    hide S.FirstValue, S.KitNamespace, RefFacts, NqErrors, S.IdKeyMatches, IsOneValue, ThingIriFromRange, IsClassRange;
    var range, at := S.KitNamespace(ont, kit) + class_, PlaceOf(t, site, key);
    var vals := ObjectValues(id);
    FirstValueTrimmed(lines, k => S.IdKeyMatches(k, kit, class_, S.ConventionalIdProp(class_)));
    ConventionalIri(ont, lines, kit, class_, id);
    ReferenceLine(t, site, key, Some(range), id);
    ClassRangeTakesAll(vals, range, t.base, at);
    OneValueIff(id);
    if IsOneValue(id) {
      OneFact(id, Some(range), t.base, at);
    } else if |vals| == 1 {
      assert vals == [vals[0]];
      if ThingIriFromRange(range, vals[0]) == ThingIriFromRange(range, id) {
        RangeInjective(range, vals[0], id);
      }
    }
  }

  lemma ConventionalIri(ont: S.Ontology, lines: seq<string>, kit: string, class_: string, id: string)
    requires S.FirstValue(lines, k => S.IdKeyMatches(k, kit, class_, S.ConventionalIdProp(class_))) == Some(id)
    requires S.ConventionalThing(ont, lines, kit, class_).Some?
    requires EndsWith(S.KitNamespace(ont, kit), "/") && class_ != "" && '/' !in class_
    ensures IsClassRange(S.KitNamespace(ont, kit) + class_)
    ensures ThingIriFromRange(S.KitNamespace(ont, kit) + class_, id)
      == Some(S.ConventionalThing(ont, lines, kit, class_).value.iri)
  {
    hide AppBase, EncodedPath, S.FirstValue, S.KitNamespace;
    LastSlash(S.KitNamespace(ont, kit), class_);
  }

  lemma LastSlash(ns: string, class_: string)
    requires EndsWith(ns, "/") && class_ != "" && '/' !in class_
    ensures '/' in ns + class_
    ensures var i := LastIndexOf(ns + class_, '/'); (ns + class_)[..i + 1] == ns && (ns + class_)[i + 1..] == class_
  {
    var range := ns + class_;
    assert ns[|ns| - 1..][0] == '/' && range[|ns| - 1] == '/';
    var i := LastIndexOf(range, '/');
    assert range[|ns|..] == class_;
    assert forall j :: |ns| <= j < |range| ==> range[j] == class_[j - |ns|];
    assert forall j :: i + 1 <= j < |range| ==> range[i + 1..][j - (i + 1)] == range[j];
    assert i == |ns| - 1;
  }

  lemma {:induction false} ClassRangeTakesAll(vals: seq<string>, range: string, b: Base, at: Place)
    requires IsClassRange(range) && range != THING_CLASS_IRI
    ensures NqErrors(vals, Some(range), b) == 0
    ensures |RefFacts(vals, Some(range), b, at)| == |vals|
    ensures forall i :: 0 <= i < |vals| ==> ThingIriFromRange(range, vals[i]).Some?
    ensures forall i :: 0 <= i < |vals| ==>
      RefFacts(vals, Some(range), b, at)[i].o == NQuads.Iri(ThingIriFromRange(range, vals[i]).value)
  {
    hide AppBase, EncodedPath;
    if vals != [] {
      ClassRangeTakesAll(vals[..|vals| - 1], range, b, at);
    }
  }

  // ----- ids that are no references -----

  /** Such ids exist in both lanes: `<s/N/a,b>` is an address in full and two values as a reference, one of
      them refused, and `a,b` is an id and two others' ids. */
  lemma CommaSplitsIds(b: Base)
    ensures S.UniversalId("<s/N/a,b>") == Some(("s", "N", "s/N/a,b")) && ObjectValues("<s/N/a,b>") == ["<s/N/a", "b>"]
    ensures NqErrors(ObjectValues("<s/N/a,b>"), None, b) == 1
    ensures ObjectValues("a,b") == ["a", "b"] && !IsOneValue("a,b")
  {
    hide ObjectValues, NqObject, S.UniversalId;
    SplitExample();
    IdExample();
    PieceExample(b);
    TwoErrors("<s/N/a", "b>", b);
    assert ',' in "a,b" && !IsUrl("a,b");
  }

  lemma TwoErrors(x: string, y: string, b: Base)
    requires NqObject(x, None, b).Some? && NqObject(y, None, b).None?
    ensures NqErrors([x, y], None, b) == 1
  {
    hide NqObject;
    assert [x, y][..1] == [x] && [x][..0] == [];
    assert NqErrors([x], None, b) == 0;
  }

  lemma PlainPair(x: string, y: string)
    requires ',' !in x && ',' !in y && Trim(x) == x != "" && Trim(y) == y != "" && !IsUrl(Trim(x + "," + y))
    ensures ObjectValues(x + "," + y) == [x, y]
  {
    hide Trim;
    SplitFirst(x, ',', y);
    assert x + "," + y == x + [','] + y;
    NothingToSplit(y, ',');
    assert [x] + [y] == [x, y];
    TrimAllConcat([x], [y]);
    TrimAllOne(x);
    TrimAllOne(y);
  }

  lemma SplitExample()
    ensures ObjectValues("<s/N/a,b>") == ["<s/N/a", "b>"] && ObjectValues("a,b") == ["a", "b"]
  {
    hide Trim, IsUrl, ObjectValues;
    NoSpaces("<s/N/a");
    NoSpaces("b>");
    NoSpaces("<s/N/a" + "," + "b>");
    assert "<s/N/a" + "," + "b>" == "<s/N/a,b>" && "a" + "," + "b" == "a,b";
    NoSpaces("a");
    NoSpaces("b");
    NoSpaces("a" + "," + "b");
    PlainPair("<s/N/a", "b>");
    PlainPair("a", "b");
  }

  lemma IdExample()
    ensures S.UniversalId("<s/N/a,b>") == Some(("s", "N", "s/N/a,b"))
  {
    hide Split, Has, Trim;
    var inner := "s/N/a,b";
    NoSpaces("<s/N/a,b>");
    NoSpaces(inner);
    assert "<s/N/a,b>"[1..8] == inner && Unbracketed("<s/N/a,b>") == Some(inner);
    NoScheme(inner);
    ThreeSegments("a,b");
    assert "s/N/" + "a,b" == inner;
  }

  lemma ThreeSegments(last: string)
    requires '/' !in last
    ensures Split("s/N/" + last, '/') == ["s", "N", last]
  {
    hide Split;
    SplitFirst("s", '/', "N/" + last);
    SplitFirst("N", '/', last);
    NothingToSplit(last, '/');
    assert "s" + ['/'] + ("N/" + last) == "s/N/" + last && "N" + ['/'] + last == "N/" + last;
    assert ["s"] + (["N"] + [last]) == ["s", "N", last];
  }

  lemma PieceExample(b: Base)
    ensures NqObject("<s/N/a", None, b).Some? && NqObject("b>", None, b).None?
  {
    hide EncodedPath;
    TrimmedStays("<s/N/a");
    TrimmedStays("b>");
    assert "<s/N/a"[2] == '/';
  }

  /** Ids with `[[` in them exist in both lanes: the value loop would take either, and its line is an error under
      every key. */
  lemma BracketsRefused(t: Tables, site: Site, key: string)
    requires KitValues.KeySafe(key) && S.KeySegments(key).Some?
    ensures S.UniversalId("<s/N/a[[b>") == Some(("s", "N", "s/N/a[[b")) && ',' !in "<s/N/a[[b>"
    ensures NqErrors(ObjectValues("<s/N/a[[b>"), None, t.base) == 0 && IsOneValue("a[[b")
    ensures Line(t, site, KitValues.Line(key, "<s/N/a[[b>")).errors == 1
    ensures Line(t, site, KitValues.Line(key, "a[[b")).errors == 1
  {
    hide S.UniversalId, ObjectValues, Trim, HasWikilink, Line, KitValues.Line, S.KeySegments, NqObject, IsOneValue;
    hide IsUrl, KitValues.KeySafe;
    V.OpenBrackets("<s/N/a", "b>");
    V.OpenBrackets("a", "b");
    assert "<s/N/a" + "[[" + "b>" == "<s/N/a[[b>" && "a" + "[[" + "b" == "a[[b";
    NoSpaces("<s/N/a[[b>");
    NoSpaces("a[[b");
    BracketsId();
    V.SyncLine(t, site, key, "<s/N/a[[b>");
    V.SyncLine(t, site, key, "a[[b");
    V.OneValueText("<s/N/a[[b>");
    BracketsTaken(t.base);
    OneFact("<s/N/a[[b>", None, t.base, Place("", "", ""));
    assert IsOneValue("a[[b") by { ShortIsOneValue(); }
  }

  lemma ShortIsOneValue()
    ensures IsOneValue("a[[b")
  {
  }

  lemma BracketsTaken(b: Base)
    ensures NqObject("<s/N/a[[b>", None, b).Some?
  {
    hide S.UniversalId, Trim, EncodedPath;
    BracketsId();
    S.UniversalIdIsReference("<s/N/a[[b>");
    ThingLaneAgrees("<s/N/a[[b>", b);
  }

  lemma BracketsId()
    ensures S.UniversalId("<s/N/a[[b>") == Some(("s", "N", "s/N/a[[b"))
  {
    hide Split, Has, Trim;
    var inner := "s/N/a[[b";
    NoSpaces("<s/N/a[[b>");
    NoSpaces(inner);
    assert "<s/N/a[[b>"[1..9] == inner && Unbracketed("<s/N/a[[b>") == Some(inner);
    NoScheme(inner);
    ThreeSegments("a[[b");
    assert "s/N/" + "a[[b" == inner;
  }
}
