/** Which documents can be written and read back, and why old lines replay to the same statements. */
module EmissionSafety {
  import opened Wrappers
  import opened Text
  import opened PercentCoding
  import opened Paths
  import opened Resolve
  import opened References
  import opened ReferenceWriters
  import opened Emission
  import NQuads
  import S = Subjects
  import KitValues

  // ----- pieces of control-free text -----

  lemma {:induction false} SplitControlFree(s: string, c: char)
    requires ControlFree(s)
    ensures forall p <- Split(s, c) :: ControlFree(p)
    decreases |s|
  {
    if c in s {
      SplitControlFree(s[IndexOf(s, c) + 1..], c);
    }
  }

  lemma {:induction false} TrimAllControlFree(parts: seq<string>)
    requires forall p <- parts :: ControlFree(p)
    ensures forall v <- TrimAll(parts) :: ControlFree(v)
  {
    hide ControlFree, Trim;
    if parts != [] {
      assert parts[0] in parts;
      ControlFreeTrim(parts[0]);
      TrimAllControlFree(parts[1..]);
    }
  }

  lemma {:induction false} UrlGroupsControlFree(pieces: seq<string>, current: string)
    requires ControlFree(current) && forall p <- pieces :: ControlFree(p)
    ensures forall g <- UrlGroups(pieces, current) :: ControlFree(g)
  {
    hide IsUrl, Trim;
    if pieces != [] {
      assert pieces[0] in pieces;
      UrlGroupsControlFree(pieces[1..], pieces[0]);
      UrlGroupsControlFree(pieces[1..], current + "," + pieces[0]);
    }
  }

  lemma ObjectValuesControlFree(value: string)
    requires ControlFree(value)
    ensures forall v <- ObjectValues(value) :: ControlFree(v)
  {
    hide ControlFree, Split;
    SplitControlFree(value, ',');
    assert ControlFree("") by { NoControls(); }
    UrlGroupsControlFree(Split(value, ','), "");
    TrimAllControlFree(Split(value, ','));
    TrimAllControlFree(UrlGroups(Split(value, ','), ""));
  }

  lemma NoControls()
    ensures ControlFree("") && ControlFree("/") && ControlFree(".md")
  {
  }

  lemma ControlFreeConcat(a: string, b: string)
    requires ControlFree(a) && ControlFree(b)
    ensures ControlFree(a + b)
  {
  }

  lemma {:induction false} WalkedControlFree(segs: seq<string>, stack: seq<string>)
    requires (forall p <- segs :: ControlFree(p)) && forall p <- stack :: ControlFree(p)
    ensures Walked(segs, stack).Some? ==> forall p <- Walked(segs, stack).value :: ControlFree(p)
  {
    hide ControlFree;
    if segs != [] {
      assert segs[0] in segs;
      WalkedControlFree(segs[1..], stack);
      WalkedControlFree(segs[1..], stack + [segs[0]]);
      if stack != [] {
        WalkedControlFree(segs[1..], stack[..|stack| - 1]);
      }
    }
  }

  lemma {:induction false} JoinControlFree(parts: seq<string>)
    requires forall p <- parts :: ControlFree(p)
    ensures ControlFree(Join(parts, "/"))
  {
    if parts != [] {
      assert parts[0] in parts;
      JoinControlFree(parts[1..]);
    }
  }

  lemma NormalizedControlFree(target: string)
    requires ControlFree(target)
    ensures Normalized(target, "").Some? ==> ControlFree(Normalized(target, "").value)
  {
    hide ControlFree, Join, Split, Walked;
    var from := Combined(target, "");
    if StartsWith(target, "/") {
      assert from == target[1..|target|];
      ControlFreePiece(target, 1, |target|);
    }
    SplitControlFree(from, '/');
    WalkedControlFree(Split(from, '/'), []);
    if Normalized(target, "").Some? {
      var stack := Walked(Split(from, '/'), []).value;
      JoinControlFree(stack);
      NoControls();
      ControlFreeConcat(Join(stack, "/"), if '.' in stack[|stack| - 1] then "" else ".md");
    }
  }

  lemma DropSlashesControlFree(s: string)
    requires ControlFree(s)
    ensures ControlFree(DropSlashes(s))
  {
  }

  // ----- safe documents -----

  predicate SafeTables(t: Tables) {
    S.SafeOntology(t.ont) && AllIriSafe(t.base.base)
    && (forall k <- t.datatypes :: AllIriSafe(t.datatypes[k]))
    && (forall k <- t.propIris :: AllIriSafe(t.propIris[k]))
    && (forall k <- t.ranges :: AllIriSafe(t.ranges[k]))
    && forall k <- t.open ::
      AllIriSafe(t.open[k].iri) && (t.open[k].datatypeIri.Some? ==> AllIriSafe(t.open[k].datatypeIri.value))
  }

  predicate SafeSite(site: Site) {
    AllIriSafe(site.graph) && AllIriSafe(site.subjects.fileIri)
    && match site.subjects.thing
       case Some(t) => AllIriSafe(t.iri) && AllIriSafe(t.kit) && AllIriSafe(t.class_)
       case None => true
  }

  /** The segments of a kit key are written unencoded, so they must be safe as they are. */
  predicate SafeKey(t: Tables, line: string) {
    match KitValues.ThreeParts(line)
    case Some((key, _, _)) =>
      (match S.KeySegments(key)
       case Some((kit, seg, prop)) => AllIriSafe(kit) && AllIriSafe(t.ont.resolveClass(kit, seg)) && AllIriSafe(prop)
       case None => true)
    case None => true
  }

  predicate SafeLine(t: Tables, line: string) {
    ControlFree(line) && SafeKey(t, line)
  }

  predicate SafeOut(l: LineOut) {
    NQuads.AllSafe(l.facts) && (l.typing.Some? ==> NQuads.QuadSafe(l.typing.value.quad))
  }

  lemma TypingSafe(t: Tables, site: Site, kit: string, class_: string)
    requires SafeTables(t) && SafeSite(site) && AllIriSafe(kit) && AllIriSafe(class_)
    ensures NQuads.QuadSafe(TypingOf(t, site, kit, class_).quad)
  {
    hide S.KitNamespace, AllIriSafe;
    S.KitNamespaceSafe(t.ont, kit);
    AllIriSafeConcat(S.KitNamespace(t.ont, kit), class_);
    assert AllIriSafe(RDF_TYPE) by { ConstantsSafe(); }
  }

  lemma ConstantsSafe()
    ensures AllIriSafe(RDF_TYPE) && AllIriSafe(GIT_LEX) && AllIriSafe(MD) && AllIriSafe(FM) && AllIriSafe(FILE_BASE)
    ensures AllIriSafe("linksTo") && AllIriSafe("fileId") && AllIriSafe("File")
  {
    RdfTypeSafe();
    GitLexSafe();
    FileBaseSafe();
    NamesSafe();
    hide AllIriSafe;
    AllIriSafeConcat(GIT_LEX, "md/");
    AllIriSafeConcat(GIT_LEX, "fm/");
  }

  lemma RdfTypeSafe()
    ensures AllIriSafe(RDF_TYPE)
  {
    assert AllIriSafe("http://www.w3.org/1999/02/") by { W3Safe(); }
    hide AllIriSafe;
    assert AllIriSafe("22-rdf-syntax-ns#type") by { SyntaxSafe(); }
    AllIriSafeConcat("http://www.w3.org/1999/02/", "22-rdf-syntax-ns#type");
    assert RDF_TYPE == "http://www.w3.org/1999/02/" + "22-rdf-syntax-ns#type";
  }

  lemma SyntaxSafe()
    ensures AllIriSafe("22-rdf-syntax-ns#type")
  {
  }

  lemma W3Safe()
    ensures AllIriSafe("http://www.w3.org/1999/02/")
  {
  }

  lemma GitLexSafe()
    ensures AllIriSafe(GIT_LEX)
  {
  }

  lemma FileBaseSafe()
    ensures AllIriSafe(FILE_BASE)
  {
  }

  lemma NamesSafe()
    ensures AllIriSafe("linksTo") && AllIriSafe("fileId") && AllIriSafe("File") && AllIriSafe("md/")
      && AllIriSafe("fm/")
    ensures AllIriSafe("externalLink") && AllIriSafe("unresolvedLink")
  {
  }

  lemma PredicateSafe(t: Tables, kit: string, class_: string, prop: string)
    requires SafeTables(t) && AllIriSafe(kit) && AllIriSafe(prop)
    ensures AllIriSafe(PredicateIri(t, kit, class_, prop))
  {
    hide S.KitNamespace, AllIriSafe;
    S.KitNamespaceSafe(t.ont, kit);
    AllIriSafeConcat(S.KitNamespace(t.ont, kit), prop);
  }

  lemma NqObjectSafe(val: string, range: Option<string>, b: Base)
    requires ControlFree(val) && AllIriSafe(b.base) && (range.Some? ==> AllIriSafe(range.value))
    ensures NqObject(val, range, b).Some? ==> NQuads.TermSafe(NqObject(val, range, b).value)
  {
    hide FrontmatterValue, ThingReference, ThingIriFromRange, AllIriSafe;
    FrontmatterValueSafe(val, b);
    ThingReferenceSafe(val);
    if range.Some? {
      RangeSafe(range.value, val);
    }
  }

  lemma {:induction false} RefFactsSafe(vals: seq<string>, range: Option<string>, b: Base, at: Place)
    requires (forall v <- vals :: ControlFree(v)) && AllIriSafe(b.base) && (range.Some? ==> AllIriSafe(range.value))
    requires AllIriSafe(at.subject) && AllIriSafe(at.pred) && AllIriSafe(at.graph)
    ensures NQuads.AllSafe(RefFacts(vals, range, b, at))
  {
    hide NqObject, ControlFree, AllIriSafe;
    if vals != [] {
      assert vals[|vals| - 1] in vals;
      RefFactsSafe(vals[..|vals| - 1], range, b, at);
      NqObjectSafe(vals[|vals| - 1], range, b);
    }
  }

  lemma KitLineSafe(t: Tables, site: Site, kit: string, seg: string, authored: string, text: string)
    requires SafeTables(t) && SafeSite(site) && ControlFree(text)
    requires AllIriSafe(kit) && AllIriSafe(authored) && AllIriSafe(t.ont.resolveClass(kit, seg))
    ensures SafeOut(KitLine(t, site, kit, seg, authored, text))
  {
    hide AllIriSafe, ControlFree, ObjectValues, NqErrors, RefFacts, PredicateIri, IsReference;
    var class_ := t.ont.resolveClass(kit, seg);
    var prop := EffectiveProp(t, kit, class_, authored);
    assert AllIriSafe(prop) by {
      assert AllIriSafe("createdDate") && AllIriSafe("updatedDate") by { DateNamesSafe(); }
    }
    TypingSafe(t, site, kit, class_);
    PredicateSafe(t, kit, class_, prop);
    var at := Place(ClassSubject(site, kit, class_), PredicateIri(t, kit, class_, prop), site.graph);
    ObjectValuesControlFree(text);
    RefFactsSafe(ObjectValues(text), RangeOf(t, at.pred), t.base, at);
  }

  lemma DateNamesSafe()
    ensures AllIriSafe("createdDate") && AllIriSafe("updatedDate")
  {
  }

  lemma FileIriSafe(path: string)
    requires ControlFree(path)
    ensures AllIriSafe(FileIri(path))
  {
    hide EncodedPath;
    ConstantsSafe();
    EncodedPathSafe(path);
    AllIriSafeConcat(FILE_BASE, EncodedPath(path));
  }

  lemma LinkLineSafe(site: Site, target: string)
    requires SafeSite(site) && ControlFree(target)
    ensures SafeOut(LinkLine(site, target))
  {
    hide AllIriSafe, ControlFree, Normalized, FileIri;
    ConstantsSafe();
    AllIriSafeConcat(MD, "linksTo");
    DropSlashesControlFree(target);
    NormalizedControlFree(DropSlashes(target));
    if Normalized(DropSlashes(target), "").Some? {
      FileIriSafe(Normalized(DropSlashes(target), "").value);
    }
  }

  lemma {:induction false} FmFactsSafe(vals: seq<string>, key: string, site: Site)
    requires SafeSite(site) && ControlFree(key) && forall v <- vals :: ControlFree(v)
    ensures NQuads.AllSafe(FmFacts(vals, key, site))
  {
    hide AllIriSafe, ControlFree, EncodedPath, FileIri;
    if vals != [] {
      var val := vals[|vals| - 1];
      assert val in vals;
      FmFactsSafe(vals[..|vals| - 1], key, site);
      FmPredicateSafe(key);
      FileIriSafe(val);
    }
  }

  lemma FmPredicateSafe(key: string)
    requires ControlFree(key)
    ensures AllIriSafe(FM + EncodedPath(key))
  {
    hide EncodedPath;
    ConstantsSafe();
    EncodedPathSafe(key);
    AllIriSafeConcat(FM, EncodedPath(key));
  }

  lemma FmLineSafe(site: Site, key: string, text: string)
    requires SafeSite(site) && ControlFree(key) && ControlFree(text)
    ensures SafeOut(FmLine(site, key, text))
  {
    hide AllIriSafe, ControlFree, EncodedPath, FmFacts, Split;
    FmPredicateSafe(key);
    SplitControlFree(text, ',');
    TrimAllControlFree(Split(text, ','));
    ControlFreeTrim(text);
    FmFactsSafe(FmValues(key, text), key, site);
  }

  lemma MdLineSafe(site: Site, key: string, text: string)
    requires SafeSite(site) && IsMdKey(key)
    ensures SafeOut(MdLine(site, key, text))
  {
    hide AllIriSafe;
    NamesSafe();
    assert key[3..] == (if key == "md.externalLink" then "externalLink" else "unresolvedLink");
    ConstantsSafe();
    AllIriSafeConcat(MD, key[3..]);
  }

  /** Every statement a safe line asks for is well formed. */
  lemma LineSafe(t: Tables, site: Site, line: string)
    requires SafeTables(t) && SafeSite(site) && SafeLine(t, line)
    ensures SafeOut(Line(t, site, line))
  {
    hide AllIriSafe, KitLine, LinkLine, FmLine, MdLine, HasWikilink, SafeTables, SafeSite, IsMdKey, Trim;
    hide KitValues.ThreeParts, S.KeySegments;
    if KitValues.ThreeParts(line).Some? {
      S.ThreePartsControlFree(line);
      var (key, verb, text) := KitValues.ThreeParts(line).value;
      hide ControlFree;
      LinkLineSafe(site, text);
      FmLineSafe(site, key, text);
      if S.KeySegments(key).Some? {
        var (kit, seg, prop) := S.KeySegments(key).value;
        KitLineSafe(t, site, kit, seg, prop, text);
      }
      if IsMdKey(key) {
        MdLineSafe(site, key, text);
      }
    }
  }

  lemma AfterTypingSafe(s: State, ty: Typing)
    requires NQuads.AllSafe(s.quads) && NQuads.QuadSafe(ty.quad)
    ensures NQuads.AllSafe(AfterTyping(s, ty).quads)
  {
    hide NQuads.QuadSafe;
  }

  lemma AfterLineSafe(s: State, l: LineOut)
    requires NQuads.AllSafe(s.quads) && SafeOut(l)
    ensures NQuads.AllSafe(AfterLine(s, l).quads)
  {
    hide AfterTyping, NQuads.QuadSafe;
    if l.typing.Some? {
      AfterTypingSafe(s, l.typing.value);
    }
  }

  lemma {:induction false} AfterLinesSafe(s: State, t: Tables, site: Site, lines: seq<string>)
    requires SafeTables(t) && SafeSite(site) && NQuads.AllSafe(s.quads) && forall l <- lines :: SafeLine(t, l)
    ensures NQuads.AllSafe(AfterLines(s, t, site, lines).quads)
  {
    hide AfterLine, Line, SafeOut, SafeTables, SafeSite, SafeLine, NQuads.AllSafe;
    if lines != [] {
      var last := lines[|lines| - 1];
      assert last in lines;
      AfterLinesSafe(s, t, site, lines[..|lines| - 1]);
      LineSafe(t, site, last);
      AfterLineSafe(AfterLines(s, t, site, lines[..|lines| - 1]), Line(t, site, last));
    }
  }

  lemma AnchoredSafe(t: Tables, site: Site)
    requires SafeTables(t) && SafeSite(site)
    ensures NQuads.AllSafe(Anchored(State([], [], 0), t, site).quads)
  {
    hide AllIriSafe, AfterTyping, TypingOf, SafeTables;
    ConstantsSafe();
    AllIriSafeConcat(GIT_LEX, "File");
    AllIriSafeConcat(GIT_LEX, "fileId");
    var s1 := State([], [NQuads.Quad(site.subjects.fileIri, RDF_TYPE, NQuads.Iri(GIT_LEX + "File"), site.graph)], 0);
    assert [] + s1.quads == s1.quads;
    if site.subjects.thing.Some? {
      var thing := site.subjects.thing.value;
      TypingSafe(t, site, thing.kit, thing.class_);
      AfterTypingSafe(s1, TypingOf(t, site, thing.kit, thing.class_));
    }
  }

  /** The text a safe document writes -- whatever its values hold -- is one well-formed statement a line,
      and a reader gets exactly the quads that were meant, in order. */
  lemma DocumentReadsBack(t: Tables, site: Site, lines: seq<string>)
    requires SafeTables(t) && SafeSite(site) && forall l <- lines :: SafeLine(t, l)
    ensures NQuads.ReadDocument(NQuads.Document(Emitted(t, site, lines).quads)) == Some(Emitted(t, site, lines).quads)
  {
    hide Anchored, AfterLines, SafeTables, SafeSite, SafeLine, NQuads.AllSafe, NQuads.ReadDocument, NQuads.Document;
    AnchoredSafe(t, site);
    AfterLinesSafe(Anchored(State([], [], 0), t, site), t, site, lines);
    NQuads.ReadsBack(Emitted(t, site, lines).quads);
  }

  /** A type statement is well formed exactly when its unencoded parts are safe: the class (and namespace)
      of an id such as `<soul/My Note/x>` goes into the type IRI as it was written. */
  lemma TypingReadsIff(t: Tables, site: Site, kit: string, class_: string)
    requires AllIriSafe(site.graph) && AllIriSafe(ClassSubject(site, kit, class_))
    ensures var q := TypingOf(t, site, kit, class_).quad;
      NQuads.ReadQuad(NQuads.Render(q)) == Some(q) <==> AllIriSafe(S.KitNamespace(t.ont, kit)) && AllIriSafe(class_)
  {
    hide AllIriSafe, S.KitNamespace, NQuads.ReadQuad, NQuads.Render;
    NQuads.ReadsBackIffSafe(TypingOf(t, site, kit, class_).quad);
    ConstantsSafe();
    AllIriSafeConcat(S.KitNamespace(t.ont, kit), class_);
  }

  /** So is a literal under a key no ontology declares: its property segment must be safe. */
  lemma UndeclaredKeyReadsIff(t: Tables, site: Site, kit: string, seg: string, prop: string, text: string)
    requires SafeTables(t) && SafeSite(site) && AllIriSafe(kit)
    requires var c := t.ont.resolveClass(kit, seg);
      EffectiveProp(t, kit, c, prop) == prop && PropKey(kit, c, prop) !in t.propIris
      && OpenDeclaration(t, kit, prop).None? && !IsReference(t, kit, c, prop)
    ensures var facts := KitLine(t, site, kit, seg, prop, text).facts;
      |facts| == 1 && (NQuads.ReadQuad(NQuads.Render(facts[0])) == Some(facts[0]) <==> AllIriSafe(prop))
  {
    hide AllIriSafe, S.KitNamespace, NQuads.ReadQuad, NQuads.Render, ObjectValues, NqErrors, RefFacts, PropKey;
    NQuads.ReadsBackIffSafe(KitLine(t, site, kit, seg, prop, text).facts[0]);
    S.KitNamespaceSafe(t.ont, kit);
    AllIriSafeConcat(S.KitNamespace(t.ont, kit), prop);
  }

  // ----- wikilinks in paths -----

  /** A path with `[[` inside it is an address to the resolver, so to validation, and an error to sync. */
  lemma InnerWikilink(a: string, b: string, base: Base)
    requires a != "" && b != "" && a[0] !in {'[', '@', '<'} && !IsWhite(a[0]) && b[|b| - 1] != ']'
    requires !IsUrl(a + "/[[" + b)
    ensures HasWikilink(a + "/[[" + b)
    ensures FrontmatterValue(a + "/[[" + b, base).Iri?
  {
    var v := a + "/[[" + b;
    assert v[|a| + 1..|a| + 3] == "[[";
    assert OccursAt(v, "[[", |a| + 1);
    assert v[0] == a[0] && v[|v| - 1] == b[|b| - 1] && v[|a|] == '/';
    assert |v| >= 2 && v[|v| - 2..][1] == v[|v| - 1];
    assert !StartsWith(v, "[[") && !EndsWith(v, "]]") && !StartsWith(v, "@");
    if Unbracketed(Trim(v)).Some? {
      NotBracketed(v);
    }
  }

  lemma NotBracketed(v: string)
    requires v != "" && v[0] != '<' && !IsWhite(v[0])
    ensures Unbracketed(Trim(v)).None?
  {
    TrimEndShape(v);
  }

  // ----- old lines -----

  /** A line on an old date key states what the new key states, in any class that declares only the new one. */
  lemma RenamedDateSame(t: Tables, site: Site, kit: string, seg: string, prop: string, text: string)
    requires NewDateName(prop).Some?
    requires var c := t.ont.resolveClass(kit, seg);
      PropKey(kit, c, prop) !in t.propIris && PropKey(kit, c, NewDateName(prop).value) in t.propIris
    ensures KitLine(t, site, kit, seg, prop, text) == KitLine(t, site, kit, seg, NewDateName(prop).value, text)
  {
    hide PropKey, IsReference, PredicateIri, ObjectValues, NqErrors, RefFacts;
    var c := t.ont.resolveClass(kit, seg);
    assert NewDateName("createdDate").None? && NewDateName("updatedDate").None?;
    assert EffectiveProp(t, kit, c, prop) == NewDateName(prop).value;
  }

  lemma KeyOfSegments(kit: string, seg: string, prop: string)
    requires '.' !in kit && '.' !in seg
    ensures S.KeySegments(kit + "." + seg + "." + prop) == Some((kit, seg, prop))
  {
    var rest := seg + "." + prop;
    var key := kit + "." + seg + "." + prop;
    assert key == kit + "." + rest;
    assert key[|kit|] == '.' && key[..|kit|] == kit && key[|kit| + 1..] == rest;
    IndexOfUnique(key, '.', |kit|);
    assert rest[|seg|] == '.' && rest[..|seg|] == seg && rest[|seg| + 1..] == prop;
    IndexOfUnique(rest, '.', |seg|);
  }

  /** A sidecar line written under an old date key replays, whatever its value, to what the line under the new
      key says, in any class that declares only the new one. */
  lemma RenamedLineSame(t: Tables, site: Site, kit: string, seg: string, prop: string, text: string)
    requires NewDateName(prop).Some? && '.' !in kit && '.' !in seg
    requires var c := t.ont.resolveClass(kit, seg);
      PropKey(kit, c, prop) !in t.propIris && PropKey(kit, c, NewDateName(prop).value) in t.propIris
    requires KitValues.KeySafe(kit + "." + seg + "." + prop)
      && KitValues.KeySafe(kit + "." + seg + "." + NewDateName(prop).value)
    ensures Line(t, site, KitValues.Line(kit + "." + seg + "." + prop, text))
         == Line(t, site, KitValues.Line(kit + "." + seg + "." + NewDateName(prop).value, text))
  {
    hide KitLine, HasWikilink, KitValues.ThreeParts, KitValues.Line, KitValues.KeySafe, S.KeySegments, PropKey;
    hide NewDateName;
    var renamed := NewDateName(prop).value;
    KitValues.LineReadsBack(kit + "." + seg + "." + prop, text);
    KitValues.LineReadsBack(kit + "." + seg + "." + renamed, text);
    KeyOfSegments(kit, seg, prop);
    KeyOfSegments(kit, seg, renamed);
    RenamedDateSame(t, site, kit, seg, prop, text);
    assert "hasValue" != "linksTo";
  }

  /** A link line written with leading slashes, and one written with the resolved path, name the same file;
      a link is refused exactly when it climbs out of the repository or names nothing. */
  lemma LinkErasAgree(site: Site, target: string)
    ensures LinkLine(site, "/" + target) == LinkLine(site, target)
    ensures var p := Normalized(DropSlashes(target), "");
      (LinkLine(site, target).errors == 0 <==> p.Some?)
        && (p.Some? ==> LinkLine(site, p.value) == LinkLine(site, target))
  {
    assert ("/" + target)[1..] == target;
    if Normalized(DropSlashes(target), "").Some? {
      NormalizedIsNormal(DropSlashes(target), "");
      NormalStays(Normalized(DropSlashes(target), "").value);
    }
  }

  lemma NormalStays(path: string)
    requires IsNormalPath(path)
    ensures Normalized(DropSlashes(path), "") == Some(path)
  {
    hide Walked, IsNormalPath;
    FirstIsNoSlash(path);
    NormalizedRooted(path, "");
    assert ("/" + path)[1..] == path && StartsWith("/" + path, "/");
    assert Combined("/" + path, "") == path == Combined(path, "");
  }

  lemma FirstIsNoSlash(path: string)
    requires IsNormalPath(path)
    ensures path != "" && path[0] != '/'
  {
    if path != "" && path[0] == '/' {
      LeadingSlashNotNormal(path);
    }
  }

  lemma LeadingSlashNotNormal(path: string)
    requires path != "" && path[0] == '/'
    ensures !IsNormalPath(path)
  {
    SplitFirst("", '/', path[1..]);
    assert "" + ['/'] + path[1..] == path;
    assert Split(path, '/')[0] == "" && !IsName("");
    assert Split(path, '/')[0] in Split(path, '/');
  }
}
