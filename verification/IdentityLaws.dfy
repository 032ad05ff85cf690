/** Identities: which Thing a document is, and where ids, references and the repository's own paths lead, said of the
    texts as they are written (`derive_file_subjects` and `thing_iri_from_range`, src/nquad.rs;
    `resolve_frontmatter_value`, src/resolve.rs; `resource_uri`, src/git.rs). */
module IdentityLaws {
  import opened Wrappers
  import opened Text
  import opened PercentCoding
  import opened Resolve
  import opened References
  import opened ReferenceWriters
  import opened Subjects
  import KitValues
  import NQuads
  import J = Joins

  // ----- applications -----

  /** The application of a namespace is the namespace without its first `ontology` level. */
  lemma AppBaseDropsTier(a: string, b: string)
    requires forall j: nat :: j < |a| ==> !OccursAt(a + "/ontology/" + b, "/ontology/", j)
    ensures AppBase(a + "/ontology/" + b) == a + "/" + b
  {
    var ns := a + "/ontology/" + b;
    assert ns[|a|..|a| + 10] == "/ontology/";
    assert OccursAt(ns, "/ontology/", |a|);
    assert ns[..|a|] == a && ns[|a| + 10..] == b;
  }

  lemma AppBaseStays(ns: string)
    requires !Has(ns, "/ontology/")
    ensures AppBase(ns) == ns
  {
  }

  lemma ConventionalApp(kit: string)
    ensures AppBase(ConventionalNamespace(kit)) == "https://repolex.ai/" + kit + "/"
  {
    var a, b := "https://repolex.ai", kit + "/";
    var ns := a + "/ontology/" + b;
    assert "https://repolex.ai/ontology/" == a + "/ontology/";
    assert ns == ConventionalNamespace(kit);
    forall j: nat | j < |a| ensures !OccursAt(ns, "/ontology/", j) {
      assert ns[j] == a[j] && ns[j + 1] == (a + "/")[j + 1];
      BeginsAlike(ns, "/ontology/", j);
    }
    AppBaseDropsTier(a, b);
    assert a + "/" + b == "https://repolex.ai/" + kit + "/";
  }

  lemma BeginsAlike(s: string, w: string, j: nat)
    requires |w| >= 2
    ensures OccursAt(s, w, j) ==> j + 2 <= |s| && s[j] == w[0] && s[j + 1] == w[1]
  {
    if OccursAt(s, w, j) {
      assert s[j..j + |w|][0] == s[j] && s[j..j + |w|][1] == s[j + 1];
    }
  }

  lemma IdentifierAddress(name: string, id: string)
    requires '/' in name && IsTrimmed(name + "/" + id) && !Has(name + "/" + id, "://")
    ensures ThingReference("<" + (name + "/" + id) + ">")
      == Some("https://repolex.ai/" + (EncodedPath(name) + ("/" + EncodedPath(id))))
  {
    hide EncodedPath, Trim, Has;
    Bracketed(name + "/" + id);
    EncodedWithSlash(name, id);
    assert '/' in name + "/" + id;
  }

  lemma EncodedWithSlash(name: string, id: string)
    ensures EncodedPath(name + "/" + id) == EncodedPath(name) + ("/" + EncodedPath(id))
  {
    hide EncodedPath;
    EncodedPathConcat(name, "/" + id);
    EncodedPathConcat("/", id);
    assert name + ("/" + id) == name + "/" + id;
    EncodedPathSame("/");
    SlashStands();
  }

  lemma Bracketed(inner: string)
    requires IsTrimmed(inner)
    ensures Unbracketed(Trim("<" + inner + ">")) == Some(inner) && Trim(inner) == inner
  {
    hide Trim;
    TrimmedStays(inner);
    TrimmedStays("<" + inner + ">");
    assert ("<" + inner + ">")[1..|inner| + 1] == inner;
  }

  lemma ClassAddress(kit: string, class_: string, id: string)
    requires class_ != "" && '/' !in class_
    ensures ThingIriFromRange(ConventionalNamespace(kit) + class_, id)
      == Some("https://repolex.ai/" + (kit + "/" + class_ + ("/" + EncodedPath(id))))
  {
    hide EncodedPath, AppBase;
    var ns := ConventionalNamespace(kit);
    J.LastSlash(ns, class_);
    ConventionalApp(kit);
    assert "https://repolex.ai/" + kit + "/" + class_ + "/" + EncodedPath(id)
        == "https://repolex.ai/" + (kit + "/" + class_ + ("/" + EncodedPath(id)));
  }

  /** One Thing, one address: the identifier `<kit/Class/id>` and the bare id under the class's range, in a kit with
      the namespace of convention, are the same IRI exactly when kit and class need no escape. */
  lemma LanesMeet(kit: string, class_: string, id: string)
    requires class_ != "" && '/' !in class_
    requires IsTrimmed(kit + "/" + class_ + "/" + id) && !Has(kit + "/" + class_ + "/" + id, "://")
    ensures ThingReference("<" + (kit + "/" + class_ + "/" + id) + ">")
        == ThingIriFromRange(ConventionalNamespace(kit) + class_, id)
      <==> forall c <- kit + "/" + class_ :: StandsForItself(c)
  {
    hide EncodedPath, StandsForItself, ThingReference, ThingIriFromRange, IsTrimmed, Has, ConventionalNamespace;
    var name := kit + "/" + class_;
    assert name[|kit|] == '/';
    IdentifierAddress(name, id);
    ClassAddress(kit, class_, id);
    SameHead("https://repolex.ai/", EncodedPath(name), name, "/" + EncodedPath(id));
    EncodedPathSame(name);
  }

  lemma SlashStands()
    ensures forall c <- "/" :: StandsForItself(c)
  {
  }

  lemma SameHead(root: string, x: string, y: string, tail: string)
    ensures root + (x + tail) == root + (y + tail) <==> x == y
  {
    var a, b := root + (x + tail), root + (y + tail);
    assert a[|root|..|a| - |tail|] == x && b[|root|..|b| - |tail|] == y;
  }

  // ----- ids -----

  /** The value of an id line is read as `<namespace/Class/identifier>` exactly when none of the three is empty and it
      is no URL. The identifier may hold slashes, but does not begin with one. */
  lemma UniversalIdIff(ns: string, class_: string, id: string)
    requires '/' !in ns && '/' !in class_
    ensures var inner := ns + "/" + class_ + "/" + id;
      UniversalId("<" + inner + ">") == Some((ns, class_, inner))
      <==> IsTrimmed(inner) && !Has(inner, "://") && ns != "" && class_ != "" && id != "" && id[0] != '/'
  {
    hide Trim, Has, Split;
    var inner := ns + "/" + class_ + "/" + id;
    TrimmedStays("<" + inner + ">");
    assert ("<" + inner + ">")[1..|inner| + 1] == inner;
    TrimIsTrimmed(inner);
    ThreeSegments(ns, class_, id);
    FirstPiece(id);
  }

  lemma ThreeSegments(ns: string, class_: string, id: string)
    requires '/' !in ns && '/' !in class_
    ensures Split(ns + "/" + class_ + "/" + id, '/') == [ns, class_] + Split(id, '/')
  {
    hide Split;
    SplitFirst(ns, '/', class_ + "/" + id);
    SplitFirst(class_, '/', id);
    assert ns + ['/'] + (class_ + "/" + id) == ns + "/" + class_ + "/" + id;
    assert class_ + ['/'] + id == class_ + "/" + id;
    assert [ns] + ([class_] + Split(id, '/')) == [ns, class_] + Split(id, '/');
  }

  lemma FirstPiece(s: string)
    ensures Split(s, '/')[0] == "" <==> s == "" || s[0] == '/'
  {
  }

  /** One letter is the other in upper or lower case. */
  predicate OtherCase(x: char, y: char) {
    ('A' <= x <= 'Z' && y as int == x as int + 32) || ('A' <= y <= 'Z' && x as int == y as int + 32)
  }

  predicate SameLetters(a: string, b: string) {
    |a| == |b| && forall i :: 0 <= i < |a| ==> a[i] == b[i] || OtherCase(a[i], b[i])
  }

  /** A key names the id property exactly when its kit and property are the ones asked for and its class is, in any
      mixture of upper and lower case. Its kit may hold dots. */
  lemma IdKeyIff(k: string, c: string, p: string, kit: string, class_: string, prop: string)
    requires '.' !in c && '.' !in p && '.' !in class_ && '.' !in prop
    ensures IdKeyMatches(k + "." + c + "." + p, kit, class_, prop)
      <==> k == kit && p == prop && SameLetters(c, class_)
  {
    LastSplit(k + "." + c, p);
    LastSplit(k, c);
    LastSplit(kit + "." + class_, prop);
    LastSplit(kit, class_);
    LettersIff(c, class_);
  }

  lemma LastSplit(rest: string, last: string)
    requires '.' !in last
    ensures SplitLast(rest + "." + last) == Some((rest, last))
  {
    var s := rest + "." + last;
    assert s[|rest|] == '.' && s[|rest| + 1..] == last && s[..|rest|] == rest;
    LastIndexAt(s, '.', |rest|);
  }

  lemma LastIndexAt(s: string, c: char, i: nat)
    requires i < |s| && s[i] == c && c !in s[i + 1..]
    ensures LastIndexOf(s, c) == i
  {
    var j := LastIndexOf(s, c);
    InTail(s, i);
    InTail(s, j);
  }

  lemma InTail(s: string, i: nat)
    requires i < |s|
    ensures forall k :: i < k < |s| ==> s[k] in s[i + 1..]
  {
    assert forall k :: i < k < |s| ==> s[k] == s[i + 1..][k - i - 1];
  }

  lemma LettersIff(a: string, b: string)
    ensures SameIgnoringCase(a, b) <==> SameLetters(a, b)
  {
    if |a| == |b| {
      forall i | 0 <= i < |a| ensures Lower(a[i]) == Lower(b[i]) <==> a[i] == b[i] || OtherCase(a[i], b[i]) {
        LowerIff(a[i], b[i]);
      }
    }
  }

  lemma LowerIff(x: char, y: char)
    ensures Lower(x) == Lower(y) <==> x == y || OtherCase(x, y)
  {
    assert x == (x as int) as char && y == (y as int) as char;
  }

  /** The id property of a class: the class's name with a small first letter, and `Id`. */
  lemma ConventionalIdPropIs(class_: string)
    ensures class_ == "" ==> ConventionalIdProp(class_) == "Id"
    ensures class_ != "" ==>
      var prop := ConventionalIdProp(class_);
      prop != "" && prop[1..] == class_[1..] + "Id"
      && if 'A' <= class_[0] <= 'Z' then OtherCase(class_[0], prop[0]) else prop[0] == class_[0]
  {
    if class_ != "" && class_[0] >= '\U{80}' {
      assert (class_ + "Id")[1..] == class_[1..] + "Id";
    }
  }

  // ----- the lines a document is known by -----

  /** A line that gives a key a value. */
  predicate Gives(line: string, key: string, text: string) {
    KitValues.ThreeParts(line) == Some((key, "hasValue", text))
  }

  ghost predicate HasTwoDots(key: string) {
    exists i, j :: 0 <= i < j < |key| && key[i] == '.' && key[j] == '.'
  }

  /** A line under a key of some kit and class. */
  ghost predicate IsClassed(line: string) {
    exists key, text :: Gives(line, key, text) && HasTwoDots(key)
  }

  lemma SegmentsIff(key: string)
    ensures KeySegments(key).Some? <==> HasTwoDots(key)
  {
    if '.' in key {
      var i := IndexOf(key, '.');
      var rest := key[i + 1..];
      assert forall k :: 0 <= k < i ==> key[k] == key[..i][k];
      assert forall k :: i < k < |key| ==> key[k] == rest[k - i - 1];
      if '.' in rest {
        assert key[i + 1 + IndexOf(rest, '.')] == '.';
      }
    }
  }

  lemma SegmentsOf(kit: string, seg: string, prop: string)
    requires '.' !in kit && '.' !in seg
    ensures KeySegments(kit + "." + seg + "." + prop) == Some((kit, seg, prop))
  {
    var key, rest := kit + "." + seg + "." + prop, seg + "." + prop;
    assert key[..|kit|] == kit && key[|kit|] == '.' && key[|kit| + 1..] == rest;
    IndexOfUnique(key, '.', |kit|);
    assert rest[..|seg|] == seg && rest[|seg|] == '.' && rest[|seg| + 1..] == prop;
    IndexOfUnique(rest, '.', |seg|);
  }

  /** Line `i` is the first under a key of some kit and class, and gives the key kit.seg.prop a value. */
  ghost predicate FirstClassedAt(lines: seq<string>, i: nat, kit: string, seg: string, prop: string) {
    i < |lines| && '.' !in kit && '.' !in seg
    && (exists text :: Gives(lines[i], kit + "." + seg + "." + prop, text))
    && forall j :: 0 <= j < i ==> !IsClassed(lines[j])
  }

  lemma {:induction false} FirstClassIs(ont: Ontology, lines: seq<string>, i: nat, kit: string, seg: string,
                                        prop: string)
    requires FirstClassedAt(lines, i, kit, seg, prop)
    ensures FirstClass(ont, lines) == Some((kit, ont.resolveClass(kit, seg)))
  {
    hide KitValues.ThreeParts, KeySegments, HasTwoDots;
    if i == 0 {
      SegmentsOf(kit, seg, prop);
    } else {
      NotClassed(lines[0]);
      assert forall j :: 0 <= j < i - 1 ==> lines[1..][j] == lines[j + 1];
      FirstClassIs(ont, lines[1..], i - 1, kit, seg, prop);
    }
  }

  lemma NotClassed(line: string)
    requires !IsClassed(line)
    ensures ValueLine(line).Some? ==> KeySegments(ValueLine(line).value.0).None?
  {
    hide KitValues.ThreeParts, KeySegments, HasTwoDots;
    if ValueLine(line).Some? {
      var (key, text) := ValueLine(line).value;
      assert Gives(line, key, text);
      SegmentsIff(key);
    }
  }

  lemma {:induction false} NoClassedLine(ont: Ontology, lines: seq<string>)
    requires forall l <- lines :: !IsClassed(l)
    ensures FirstClass(ont, lines).None?
  {
    if lines != [] {
      NotClassed(lines[0]);
      NoClassedLine(ont, lines[1..]);
    }
  }

  function KeyIs(key: string): string -> bool {
    k => k == key
  }

  /** The line gives a key that the test accepts a value that is not blank. */
  ghost predicate Answers(line: string, accepts: string -> bool) {
    exists key, text :: Gives(line, key, text) && accepts(key) && Trim(text) != ""
  }

  /** Line `i` is the first to answer, with this value but for white space around it. */
  ghost predicate FirstAnswerAt(lines: seq<string>, accepts: string -> bool, i: nat, value: string) {
    i < |lines| && (exists key, text :: Gives(lines[i], key, text) && accepts(key) && Trim(text) == value)
    && value != "" && forall j :: 0 <= j < i ==> !Answers(lines[j], accepts)
  }

  lemma {:induction false} FirstValueIs(lines: seq<string>, accepts: string -> bool, i: nat, value: string)
    requires FirstAnswerAt(lines, accepts, i, value)
    ensures FirstValue(lines, accepts) == Some(value)
  {
    hide KitValues.ThreeParts, Trim;
    if i > 0 {
      NoAnswer(lines[0], accepts);
      assert forall j :: 0 <= j < i - 1 ==> lines[1..][j] == lines[j + 1];
      FirstValueIs(lines[1..], accepts, i - 1, value);
    }
  }

  lemma NoAnswer(line: string, accepts: string -> bool)
    requires !Answers(line, accepts)
    ensures ValueLine(line).Some? ==> !accepts(ValueLine(line).value.0) || Trim(ValueLine(line).value.1) == ""
  {
    hide KitValues.ThreeParts, Trim;
    if ValueLine(line).Some? {
      assert Gives(line, ValueLine(line).value.0, ValueLine(line).value.1);
    }
  }

  lemma {:induction false} NothingAnswers(lines: seq<string>, accepts: string -> bool)
    requires forall l <- lines :: !Answers(l, accepts)
    ensures FirstValue(lines, accepts).None?
  {
    hide Trim;
    if lines != [] {
      NoAnswer(lines[0], accepts);
      NothingAnswers(lines[1..], accepts);
    }
  }

  // ----- the Thing a document is -----

  /** The id decides. A document whose first classed line is of a class, and whose first filled-in `id` line of that
      class holds `<ns/Class/x>`, is the Thing x of class Class in ns, whatever its other lines, its own class and
      its place in the repository say. */
  lemma IdDecides(ont: Ontology, lines: seq<string>, relpath: string, i: nat, kit: string, seg: string, prop: string,
                  j: nat, ns: string, class_: string, id: string)
    requires FirstClassedAt(lines, i, kit, seg, prop)
    requires '/' !in ns && '/' !in class_ && ns != "" && class_ != "" && id != "" && id[0] != '/'
    requires IsTrimmed(ns + "/" + class_ + "/" + id) && !Has(ns + "/" + class_ + "/" + id, "://")
    requires var key := kit + "." + ont.resolveClass(kit, seg) + ".id";
      FirstAnswerAt(lines, KeyIs(key), j, "<" + (ns + "/" + class_ + "/" + id) + ">")
    ensures Derive(ont, lines, relpath).thing
      == Some(Thing("https://repolex.ai/" + EncodedPath(ns + "/" + class_ + "/" + id), ns, class_))
  {
    hide FirstClass, FirstValue, FirstClassedAt, FirstAnswerAt, UniversalId, EncodedPath, Has;
    var c := ont.resolveClass(kit, seg);
    var key := kit + "." + c + ".id";
    FirstClassIs(ont, lines, i, kit, seg, prop);
    FirstValueIs(lines, KeyIs(key), j, "<" + (ns + "/" + class_ + "/" + id) + ">");
    UniversalIdIff(ns, class_, id);
    UniversalFound(lines, kit, c, "<" + (ns + "/" + class_ + "/" + id) + ">");
  }

  lemma UniversalFound(lines: seq<string>, kit: string, class_: string, raw: string)
    requires var key := kit + "." + class_ + ".id"; FirstValue(lines, KeyIs(key)) == Some(raw)
    ensures UniversalThing(lines, kit, class_) == match UniversalId(raw)
      case Some((ns, c, inner)) => Some(Thing("https://repolex.ai/" + EncodedPath(inner), ns, c))
      case None => None
  {
    hide FirstValue, UniversalId, EncodedPath;
    var key := kit + "." + class_ + ".id";
    SameTest(lines, KeyIs(key), k => k == kit + "." + class_ + ".id");
  }

  lemma {:induction false} SameTest(lines: seq<string>, f: string -> bool, g: string -> bool)
    requires forall k :: f(k) == g(k)
    ensures FirstValue(lines, f) == FirstValue(lines, g)
  {
    hide Trim, ValueLine;
    if lines != [] {
      SameTest(lines[1..], f, g);
    }
  }

  /** Without an id line that can be read, the class's own id property decides: when the class declares it, the first
      filled-in line under it, whatever the case of its class, gives the id of a Thing of that class in the kit's
      application. */
  lemma ConventionDecides(ont: Ontology, lines: seq<string>, relpath: string, i: nat, kit: string, seg: string,
                          prop: string, j: nat, id: string)
    requires FirstClassedAt(lines, i, kit, seg, prop)
    requires var class_ := ont.resolveClass(kit, seg);
      NoReadableId(lines, kit, class_) && kit + "/" + class_ + "/" + ConventionalIdProp(class_) in ont.declared
      && FirstAnswerAt(lines, k => IdKeyMatches(k, kit, class_, ConventionalIdProp(class_)), j, id)
    ensures var class_ := ont.resolveClass(kit, seg);
      Derive(ont, lines, relpath).thing
      == Some(Thing(AppBase(KitNamespace(ont, kit)) + class_ + "/" + EncodedPath(id), kit, class_))
  {
    hide FirstClass, FirstValue, FirstClassedAt, FirstAnswerAt, EncodedPath, IdKeyMatches, ConventionalIdProp, AppBase;
    var class_ := ont.resolveClass(kit, seg);
    FirstClassIs(ont, lines, i, kit, seg, prop);
    UnreadableId(lines, kit, class_);
    FirstValueIs(lines, k => IdKeyMatches(k, kit, class_, ConventionalIdProp(class_)), j, id);
    ConventionalFound(ont, lines, kit, class_, Some(id));
  }

  /** And then a document is no Thing when its class declares no id property or no line fills it in; nor is one
      without a classed line. */
  lemma NoThing(ont: Ontology, lines: seq<string>, relpath: string, i: nat, kit: string, seg: string, prop: string)
    requires FirstClassedAt(lines, i, kit, seg, prop) || forall l <- lines :: !IsClassed(l)
    requires FirstClassedAt(lines, i, kit, seg, prop) ==>
      var class_ := ont.resolveClass(kit, seg);
      NoReadableId(lines, kit, class_)
      && (kit + "/" + class_ + "/" + ConventionalIdProp(class_) !in ont.declared
          || forall l <- lines :: !Answers(l, k => IdKeyMatches(k, kit, class_, ConventionalIdProp(class_))))
    ensures Derive(ont, lines, relpath).thing.None?
  {
    hide FirstClass, FirstValue, FirstClassedAt, Answers, EncodedPath, IdKeyMatches, ConventionalIdProp, AppBase;
    hide IsClassed;
    if FirstClassedAt(lines, i, kit, seg, prop) {
      var class_ := ont.resolveClass(kit, seg);
      FirstClassIs(ont, lines, i, kit, seg, prop);
      UnreadableId(lines, kit, class_);
      if kit + "/" + class_ + "/" + ConventionalIdProp(class_) in ont.declared {
        NothingAnswers(lines, k => IdKeyMatches(k, kit, class_, ConventionalIdProp(class_)));
        ConventionalFound(ont, lines, kit, class_, None);
      }
    } else {
      NoClassedLine(ont, lines);
    }
  }

  /** No filled-in `id` line, or the first one is no address. */
  ghost predicate NoReadableId(lines: seq<string>, kit: string, class_: string) {
    var key := kit + "." + class_ + ".id";
    (forall l <- lines :: !Answers(l, KeyIs(key)))
    || exists j: nat, raw :: FirstAnswerAt(lines, KeyIs(key), j, raw) && UniversalId(raw).None?
  }

  lemma UnreadableId(lines: seq<string>, kit: string, class_: string)
    requires NoReadableId(lines, kit, class_)
    ensures UniversalThing(lines, kit, class_).None?
  {
    hide FirstValue, FirstAnswerAt, Answers, UniversalId, EncodedPath;
    var key := kit + "." + class_ + ".id";
    if forall l <- lines :: !Answers(l, KeyIs(key)) {
      NothingAnswers(lines, KeyIs(key));
      SameTest(lines, KeyIs(key), k => k == kit + "." + class_ + ".id");
    } else {
      var j: nat, raw :| FirstAnswerAt(lines, KeyIs(key), j, raw) && UniversalId(raw).None?;
      FirstValueIs(lines, KeyIs(key), j, raw);
      UniversalFound(lines, kit, class_, raw);
    }
  }

  lemma ConventionalFound(ont: Ontology, lines: seq<string>, kit: string, class_: string, id: Option<string>)
    requires kit + "/" + class_ + "/" + ConventionalIdProp(class_) in ont.declared
    requires FirstValue(lines, k => IdKeyMatches(k, kit, class_, ConventionalIdProp(class_))) == id
    ensures ConventionalThing(ont, lines, kit, class_) == match id
      case Some(x) => Some(Thing(AppBase(KitNamespace(ont, kit)) + class_ + "/" + EncodedPath(x), kit, class_))
      case None => None
  {
    hide FirstValue, EncodedPath, IdKeyMatches, ConventionalIdProp, AppBase, KitNamespace;
    var prop := ConventionalIdProp(class_);
    SameTest(lines, k => IdKeyMatches(k, kit, class_, prop),
             k => IdKeyMatches(k, kit, class_, ConventionalIdProp(class_)));
  }

  // ----- references by class, by URL and by path -----

  /** A declared range decides what a value is: under the range of all Things it has to be an identifier in brackets,
      under any other class it is an id of that class. */
  lemma RangeDecides(val: string, range: string, b: Base)
    ensures NqObject(val, Some(range), b) ==
      match (if range == "https://repolex.ai/ontology/" + "git-lex/Thing" then ThingReference(val)
             else ThingIriFromRange(range, val))
      case Some(iri) => Some(NQuads.Iri(iri))
      case None => None
  {
    hide ThingReference, ThingIriFromRange;
    assert THING_CLASS_IRI == "https://repolex.ai/ontology/" + "git-lex/Thing";
  }

  /** A URL leads to itself, bare or in angle brackets: as it stands when it is encoded, and else with the characters
      escaped that need it. */
  lemma UrlLeadsToItself(scheme: string, rest: string, b: Base)
    requires scheme == "http://" || scheme == "https://"
    requires IsTrimmed(scheme + rest) && !EndsWith(scheme + rest, "]]")
    ensures FrontmatterValue(scheme + rest, b) == Iri(EncodedUrl(scheme + rest))
    ensures FrontmatterValue("<" + (scheme + rest) + ">", b) == Iri(EncodedUrl(scheme + rest))
    ensures IsEncodedUrl(scheme + rest) ==> FrontmatterValue(scheme + rest, b) == Iri(scheme + rest)
  {
    hide EncodedUrl, Trim, Has, IsEncodedUrl;
    var url := scheme + rest;
    assert url[0] == 'h';
    Bracketed(url);
    BracketedIsNoWikilink("<" + url + ">");
    assert OccursAt(url, "://", |scheme| - 3) by { assert url[|scheme| - 3..|scheme|] == scheme[|scheme| - 3..]; }
    EncodedUrlFixpoint(url);
  }

  /** The folder named after the repository's namespace, with a capital, is the namespace: a path under it leads to
      the same place without the folder, and any other path leads below the namespace as it is. */
  lemma FolderIsNamespace(head: string, ns: string, folder: string, path: string)
    requires head == "" || EndsWith(head, "/")
    requires '/' !in ns && ns != "" && |folder| == |ns| && folder[1..] == ns[1..]
    requires if 'a' <= ns[0] <= 'z' then OtherCase(folder[0], ns[0]) else folder[0] == ns[0]
    ensures ResourceUri(BaseOf(head + ns), folder + "/" + path) == "https://repolex.ai/" + head + ns + "/" + path
    ensures path != "" && !StartsWith(path, folder + "/") ==>
      ResourceUri(BaseOf(head + ns), path) == "https://repolex.ai/" + head + ns + "/" + path
  {
    assert folder == [Upper(ns[0])] + ns[1..] by {
      assert folder == [folder[0]] + folder[1..];
      UpperIs(ns[0], folder[0]);
    }
    if head == "" {
      assert head + ns == ns;
    } else {
      J.LastSlash(head, ns);
    }
    assert (folder + "/" + path)[|folder + "/"|..] == path;
    assert "https://repolex.ai/" + (head + ns) + "/" + path == "https://repolex.ai/" + head + ns + "/" + path;
  }

  lemma UpperIs(c: char, d: char)
    requires if 'a' <= c <= 'z' then OtherCase(d, c) else d == c
    ensures d == Upper(c)
  {
    assert d == (d as int) as char;
  }
}
