/** The namespace of a repository (`resource_base`, src/git.rs) shows in a document's statements through
    path-valued references alone: exactly when a document's statements are the same under two namespaces. */
module WalkNamespace {
  import opened Wrappers
  import opened Text
  import opened PercentCoding
  import opened Resolve
  import opened References
  import opened ReferenceWriters
  import opened Walk
  import opened WalkCorrect
  import E = Emission
  import Links
  import NQuads
  import S = Subjects
  import KitValues

  // ----- texts that part -----

  /** The texts have a common beginning after which both go on, differently: no ending makes them equal. */
  ghost predicate Diverge(a: string, b: string) {
    exists i :: PartAt(a, b, i)
  }

  predicate PartAt(a: string, b: string, i: nat) {
    i < |a| && i < |b| && a[..i] == b[..i] && a[i] != b[i]
  }

  lemma DivergeAround(head: string, a: string, b: string, x: string, y: string)
    requires Diverge(a, b)
    ensures Diverge(head + a + x, head + b + y) && head + a + x != head + b + y
  {
    var i: nat :| PartAt(a, b, i);
    var s, t, k := head + a + x, head + b + y, |head| + i;
    assert s[..k] == head + a[..i] && t[..k] == head + b[..i];
    assert s[k] == a[i] && t[k] == b[i];
    assert PartAt(s, t, k);
  }

  lemma {:induction false} NamesDiverge(m: string, n: string, x: string, y: string)
    requires m != n && '/' !in m && '/' !in n
    ensures Diverge(m + "/" + x, n + "/" + y)
  {
    var a, b := m + "/" + x, n + "/" + y;
    if m == "" || n == "" || m[0] != n[0] {
      assert PartAt(a, b, 0);
    } else {
      assert m == [m[0]] + m[1..] && n == [m[0]] + n[1..];
      NamesDiverge(m[1..], n[1..], x, y);
      DivergeAround([m[0]], m[1..] + "/" + x, n[1..] + "/" + y, "", "");
      assert a == [m[0]] + (m[1..] + "/" + x) + "" && b == [m[0]] + (n[1..] + "/" + y) + "";
    }
  }

  // ----- which values carry the namespace -----

  /** `resolve_frontmatter_value`'s rule for repository paths. */
  predicate IsPathValue(raw: string) {
    !StartsWith(raw, "[[") && !EndsWith(raw, "]]") && !StartsWith(raw, "@") && Unbracketed(Trim(raw)).None?
    && !StartsWith(raw, "http://") && !StartsWith(raw, "https://") && ('/' in raw || EndsWith(raw, ".md"))
  }

  lemma EncodedPathNotEmpty(s: string)
    requires s != ""
    ensures EncodedPath(s) != ""
  {
    DecodeEncode(s);
    assert Decoded("") == "" by { Links.DecodedEmpty(); }
  }

  /** Two namespaces give a value the same object, unless it is a path; then they give addresses that part. */
  lemma ValueUnderBases(val: string, range: Option<string>, m: string, n: string, at: Place)
    requires m != n && '/' !in m && '/' !in n
    ensures NqObject(val, range, BaseOf(m)).Some? <==> NqObject(val, range, BaseOf(n)).Some?
    ensures !(range.None? && IsPathValue(val)) ==> NqObject(val, range, BaseOf(m)) == NqObject(val, range, BaseOf(n))
    ensures range.None? && IsPathValue(val) ==>
      NqObject(val, range, BaseOf(m)).Some?
      && Diverge(NqLine(at, NqObject(val, range, BaseOf(m)).value), NqLine(at, NqObject(val, range, BaseOf(n)).value))
  {
    hide EncodedPath, EncodedUrl, Trim, NQuads.Render, Diverge;
    if range.None? && IsPathValue(val) {
      assert val != "";
      EncodedPathNotEmpty(val);
      AddressesDiverge(EncodedPath(val), m, n, at);
    }
  }

  lemma AddressesDiverge(path: string, m: string, n: string, at: Place)
    requires m != n && '/' !in m && '/' !in n && path != ""
    ensures Diverge(NqLine(at, NQuads.Iri(ResourceUri(BaseOf(m), path))),
                    NqLine(at, NQuads.Iri(ResourceUri(BaseOf(n), path))))
  {
    hide Diverge, BaseOf, NQuads.RenderIri;
    var x, y := m + "/" + Tail(m, path), n + "/" + Tail(n, path);
    NamesDiverge(m, n, Tail(m, path), Tail(n, path));
    var head, tail := AddressHead(at), AddressTail(at);
    DivergeAround(head, x, y, tail, tail);
    AddressLine(path, m, at);
    AddressLine(path, n, at);
  }

  /** What is left of a path when the folder named after the namespace is stripped. */
  function Tail(ns: string, path: string): string {
    if StartsWith(path, BaseOf(ns).strip) then path[|BaseOf(ns).strip|..] else path
  }

  /** A statement up to the namespace in its object, and from the end of its object. */
  function AddressHead(at: Place): string {
    NQuads.RenderIri(at.subject) + " " + NQuads.RenderIri(at.pred) + " " + "<" + RESOURCE_ROOT
  }

  function AddressTail(at: Place): string {
    ">" + (" " + NQuads.RenderIri(at.graph) + " ." + "\n")
  }

  lemma AddressLine(path: string, ns: string, at: Place)
    requires path != ""
    ensures NqLine(at, NQuads.Iri(ResourceUri(BaseOf(ns), path)))
         == AddressHead(at) + (ns + "/" + Tail(ns, path)) + AddressTail(at)
  {
    var start := NQuads.RenderIri(at.subject) + " " + NQuads.RenderIri(at.pred) + " ";
    var end := " " + NQuads.RenderIri(at.graph) + " ." + "\n";
    Regrouped(start, "<", RESOURCE_ROOT, ns, "/", Tail(ns, path), ">", end);
    var iri := RESOURCE_ROOT + ns + "/" + Tail(ns, path);
    RegroupedEnd(start + ("<" + iri + ">"), " ", NQuads.RenderIri(at.graph), " .", "\n");
  }

  lemma Regrouped(a: string, b: string, c: string, d: string, e: string, f: string, g: string, h: string)
    ensures a + (b + (c + d + e + f) + g) + h == a + b + c + (d + e + f) + (g + h)
  {
    assert c + d + e + f == c + (d + e + f);
    var m := d + e + f;
    assert b + (c + m) + g == (b + c) + (m + g);
    assert a + ((b + c) + (m + g)) == (a + b + c) + (m + g);
    assert (a + b + c) + (m + g) + h == a + b + c + m + (g + h);
  }

  lemma RegroupedEnd(a: string, b: string, c: string, d: string, e: string)
    ensures a + b + c + d + e == a + (b + c + d + e)
  {
  }

  predicate HasPathValue(vals: seq<string>, range: Option<string>) {
    range.None? && exists v <- vals :: IsPathValue(v)
  }

  lemma {:induction false} ValuesUnderBases(vals: seq<string>, range: Option<string>, m: string, n: string, at: Place)
    requires m != n && '/' !in m && '/' !in n
    ensures NqErrors(vals, range, BaseOf(m)) == NqErrors(vals, range, BaseOf(n))
    ensures HasPathValue(vals, range) ==>
      Diverge(NqText(vals, range, BaseOf(m), at), NqText(vals, range, BaseOf(n), at))
    ensures !HasPathValue(vals, range) ==> NqText(vals, range, BaseOf(m), at) == NqText(vals, range, BaseOf(n), at)
    ensures !HasPathValue(vals, range) ==>
      E.RefFacts(vals, range, BaseOf(m), at) == E.RefFacts(vals, range, BaseOf(n), at)
  {
    hide NqObject, NqLine, Diverge, IsPathValue, BaseOf;
    if vals != [] {
      var init, last := vals[..|vals| - 1], vals[|vals| - 1];
      assert vals == init + [last];
      ValuesUnderBases(init, range, m, n, at);
      ValueUnderBases(last, range, m, n, at);
      LastText(vals, range, BaseOf(m), at);
      LastText(vals, range, BaseOf(n), at);
      var a, b := NqText(init, range, BaseOf(m), at), NqText(init, range, BaseOf(n), at);
      var x, y := TextOf(last, range, BaseOf(m), at), TextOf(last, range, BaseOf(n), at);
      if HasPathValue(init, range) {
        DivergeAround("", a, b, x, y);
        assert "" + a + x == a + x && "" + b + y == b + y;
      } else if range.None? && IsPathValue(last) {
        DivergeAround(a, x, y, "", "");
        assert a + x + "" == a + x && b + y + "" == b + y;
      }
    }
  }

  function TextOf(val: string, range: Option<string>, b: Base, at: Place): string {
    match NqObject(val, range, b) case Some(o) => NqLine(at, o) case None => ""
  }

  lemma LastText(vals: seq<string>, range: Option<string>, b: Base, at: Place)
    requires vals != []
    ensures NqText(vals, range, b, at)
      == NqText(vals[..|vals| - 1], range, b, at) + TextOf(vals[|vals| - 1], range, b, at)
  {
  }

  // ----- one line, one document -----

  /** A reference line of a kit that has a repository path among its values. */
  predicate RefersByPath(t: E.Tables, line: string) {
    match KitValues.ThreeParts(line)
    case None => false
    case Some((key, verb, text)) =>
      Trim(text) != "" && verb != "linksTo" && !E.HasWikilink(text)
      && match S.KeySegments(key)
         case None => false
         case Some((kit, seg, authored)) => KitRefersByPath(t, kit, seg, authored, text)
  }

  predicate KitRefersByPath(t: E.Tables, kit: string, seg: string, authored: string, text: string) {
    var class_ := t.ont.resolveClass(kit, seg);
    var prop := E.EffectiveProp(t, kit, class_, authored);
    E.IsReference(t, kit, class_, prop)
    && HasPathValue(ObjectValues(text), E.RangeOf(t, E.PredicateIri(t, kit, class_, prop)))
  }

  /** The same ontologies in a repository of the given namespace. */
  function In(t: E.Tables, ns: string): E.Tables {
    t.(base := BaseOf(ns))
  }

  ghost predicate LinesPart(a: E.LineOut, b: E.LineOut, part: bool) {
    a.errors == b.errors && a.typing == b.typing
    && (if part then Diverge(NQuads.Document(a.facts), NQuads.Document(b.facts)) else a.facts == b.facts)
  }

  lemma KitLineUnderBases(t: E.Tables, site: E.Site, kit: string, seg: string, authored: string, text: string,
                          m: string, n: string)
    requires m != n && '/' !in m && '/' !in n
    ensures LinesPart(E.KitLine(In(t, m), site, kit, seg, authored, text),
                      E.KitLine(In(t, n), site, kit, seg, authored, text),
                      KitRefersByPath(t, kit, seg, authored, text))
  {
    hide Diverge, E.RefFacts, NqErrors, ObjectValues, HasPathValue, BaseOf, NQuads.Document, E.PropKey, NqText;
    var class_ := t.ont.resolveClass(kit, seg);
    var prop := E.EffectiveProp(t, kit, class_, authored);
    SameDeclarations(t, m, kit, class_, authored);
    SameDeclarations(t, n, kit, class_, authored);
    var pred := E.PredicateIri(t, kit, class_, prop);
    var at := Place(E.ClassSubject(site, kit, class_), pred, site.graph);
    if E.IsReference(t, kit, class_, prop) {
      var vals, range := ObjectValues(text), E.RangeOf(t, pred);
      ValuesUnderBases(vals, range, m, n, at);
      E.RefText(vals, range, BaseOf(m), at);
      E.RefText(vals, range, BaseOf(n), at);
    }
  }

  lemma SameDeclarations(t: E.Tables, ns: string, kit: string, class_: string, authored: string)
    ensures E.EffectiveProp(In(t, ns), kit, class_, authored) == E.EffectiveProp(t, kit, class_, authored)
    ensures forall prop :: E.PredicateIri(In(t, ns), kit, class_, prop) == E.PredicateIri(t, kit, class_, prop)
    ensures forall prop :: E.IsReference(In(t, ns), kit, class_, prop) == E.IsReference(t, kit, class_, prop)
    ensures forall prop :: E.DatatypeOf(In(t, ns), kit, class_, prop) == E.DatatypeOf(t, kit, class_, prop)
    ensures forall site :: E.TypingOf(In(t, ns), site, kit, class_) == E.TypingOf(t, site, kit, class_)
    ensures forall pred :: E.RangeOf(In(t, ns), pred) == E.RangeOf(t, pred)
  {
  }

  lemma LineUnderBases(t: E.Tables, site: E.Site, line: string, m: string, n: string)
    requires m != n && '/' !in m && '/' !in n
    ensures LinesPart(E.Line(In(t, m), site, line), E.Line(In(t, n), site, line), RefersByPath(t, line))
  {
    hide LinesPart, E.KitLine, E.HasWikilink, KitRefersByPath, E.FmLine, E.LinkLine;
    if KitValues.ThreeParts(line).Some? {
      var (key, _, text) := KitValues.ThreeParts(line).value;
      if S.KeySegments(key).Some? {
        var (kit, seg, authored) := S.KeySegments(key).value;
        KitLineUnderBases(t, site, kit, seg, authored, text, m, n);
      }
    }
    SameLine(E.Line(In(t, m), site, line));
  }

  lemma SameLine(l: E.LineOut)
    ensures LinesPart(l, l, false)
  {
  }

  predicate DocRefersByPath(t: E.Tables, lines: seq<string>) {
    exists l <- lines :: RefersByPath(t, l)
  }

  ghost predicate StatesPart(a: E.State, b: E.State, part: bool) {
    a.typings == b.typings && a.errors == b.errors
    && (if part then Diverge(NQuads.Document(a.quads), NQuads.Document(b.quads)) else a.quads == b.quads)
  }

  lemma AddedPart(a: seq<E.Quad>, b: seq<E.Quad>, x: seq<E.Quad>, y: seq<E.Quad>)
    requires Diverge(NQuads.Document(a), NQuads.Document(b))
      || (a == b && Diverge(NQuads.Document(x), NQuads.Document(y)))
    ensures Diverge(NQuads.Document(a + x), NQuads.Document(b + y))
  {
    hide Diverge, NQuads.Document;
    NQuads.DocumentConcat(a, x);
    NQuads.DocumentConcat(b, y);
    var p, q, r, s := NQuads.Document(a), NQuads.Document(b), NQuads.Document(x), NQuads.Document(y);
    if Diverge(p, q) {
      DivergeAround("", p, q, r, s);
      assert "" + p + r == p + r && "" + q + s == q + s;
    } else {
      DivergeAround(p, r, s, "", "");
      assert p + r + "" == p + r && q + s + "" == q + s;
    }
  }

  lemma TypingPart(a: E.State, b: E.State, ty: E.Typing, part: bool)
    requires StatesPart(a, b, part)
    ensures StatesPart(E.AfterTyping(a, ty), E.AfterTyping(b, ty), part)
  {
    hide Diverge, NQuads.Document;
    if part {
      AddedPart(a.quads, b.quads, [ty.quad], [ty.quad]);
    }
  }

  lemma AfterLinePart(a: E.State, b: E.State, x: E.LineOut, y: E.LineOut, before: bool, here: bool)
    requires StatesPart(a, b, before) && LinesPart(x, y, here)
    ensures StatesPart(E.AfterLine(a, x), E.AfterLine(b, y), before || here)
  {
    hide Diverge, NQuads.Document, E.AfterTyping;
    var a1 := if x.typing.Some? then E.AfterTyping(a, x.typing.value) else a;
    var b1 := if x.typing.Some? then E.AfterTyping(b, x.typing.value) else b;
    if x.typing.Some? {
      TypingPart(a, b, x.typing.value, before);
      TypingErrors(a, x.typing.value);
      TypingErrors(b, x.typing.value);
    }
    if before || here {
      AddedPart(a1.quads, b1.quads, x.facts, y.facts);
    }
  }

  lemma TypingErrors(s: E.State, ty: E.Typing)
    ensures E.AfterTyping(s, ty).errors == s.errors
  {
  }

  lemma {:induction false} LinesUnderBases(t: E.Tables, site: E.Site, lines: seq<string>, s: E.State, m: string,
                                           n: string)
    requires m != n && '/' !in m && '/' !in n
    ensures StatesPart(E.AfterLines(s, In(t, m), site, lines), E.AfterLines(s, In(t, n), site, lines),
                       DocRefersByPath(t, lines))
  {
    hide StatesPart, LinesPart, E.AfterLine, E.Line, RefersByPath, In;
    if lines == [] {
      SameState(s);
    } else {
      var init, last := lines[..|lines| - 1], lines[|lines| - 1];
      assert lines == init + [last];
      LinesUnderBases(t, site, init, s, m, n);
      LineUnderBases(t, site, last, m, n);
      AfterLinePart(E.AfterLines(s, In(t, m), site, init), E.AfterLines(s, In(t, n), site, init),
                    E.Line(In(t, m), site, last), E.Line(In(t, n), site, last),
                    DocRefersByPath(t, init), RefersByPath(t, last));
      assert DocRefersByPath(t, lines) <==> DocRefersByPath(t, init) || RefersByPath(t, last);
    }
  }

  lemma SameState(s: E.State)
    ensures StatesPart(s, s, false)
  {
  }

  // ----- the walk's emission -----

  const GRAPH_BASE := "https://repolex.ai/git-lex/NamedGraph/"

  /** The path and, when it is known, the blob hash of a document, stated of its File. */
  function GitText(file: string, relpath: string, blobHash: string): string {
    var tail := "\" " + NQuads.RenderIri(GRAPH_BASE + "now") + " .\n";
    NQuads.RenderIri(file) + " " + NQuads.RenderIri(E.GIT_LEX + "git/path") + " \"" + NQuads.NqEscape(relpath) + tail
    + if blobHash == "" then ""
      else NQuads.RenderIri(file) + " " + NQuads.RenderIri(E.GIT_LEX + "git/blobHash") + " \"" + blobHash + tail
  }

  /** The sequential half's emission of one document. */
  function EmitText(t: E.Tables, relpath: string, blobHash: string, lines: seq<string>): (string, nat) {
    var site := E.Site(S.Derive(t.ont, lines, relpath), GRAPH_BASE + "now");
    var s := E.Emitted(t, site, lines);
    (GitText(site.subjects.fileIri, relpath, blobHash) + NQuads.Document(s.quads), s.errors)
  }

  /** The walk emits as the program does, with the declarations the context hash stands for. */
  ghost predicate IsEmission(pipe: Pipeline, tables: string -> E.Tables) {
    forall hash, ns, p, blobHash, lines ::
      pipe.emit(Context(hash, ns), p, blobHash, lines) == EmitText(In(tables(hash), ns), p, blobHash, lines)
  }

  lemma EmitTextUnderBases(t: E.Tables, relpath: string, blobHash: string, lines: seq<string>, m: string, n: string)
    requires m != n && '/' !in m && '/' !in n
    ensures var a, b := EmitText(In(t, m), relpath, blobHash, lines), EmitText(In(t, n), relpath, blobHash, lines);
      if DocRefersByPath(t, lines) then Diverge(a.0, b.0) else a == b
  {
    hide Diverge, E.Anchored, E.AfterLines, NQuads.Document, GitText, DocRefersByPath, S.Derive;
    var site := E.Site(S.Derive(t.ont, lines, relpath), GRAPH_BASE + "now");
    var s := E.Anchored(E.State([], [], 0), t, site);
    AnchoredSame(t, site, m);
    AnchoredSame(t, site, n);
    LinesUnderBases(t, site, lines, s, m, n);
    if DocRefersByPath(t, lines) {
      var git := GitText(site.subjects.fileIri, relpath, blobHash);
      var a := NQuads.Document(E.AfterLines(s, In(t, m), site, lines).quads);
      var b := NQuads.Document(E.AfterLines(s, In(t, n), site, lines).quads);
      DivergeAround(git, a, b, "", "");
      assert git + a + "" == git + a && git + b + "" == git + b;
    }
  }

  lemma AnchoredSame(t: E.Tables, site: E.Site, ns: string)
    ensures E.Anchored(E.State([], [], 0), In(t, ns), site) == E.Anchored(E.State([], [], 0), t, site)
  {
  }

  /** A document's statements are the same under two namespaces exactly when no line of it refers by path. */
  lemma SameEmissionIff(pipe: Pipeline,
                        tables: string -> E.Tables, ctx: Context, ns: string, p: string, blobHash: string,
                        lines: seq<string>)
    requires IsEmission(pipe, tables) && '/' !in ns && '/' !in ctx.ns
    ensures SameEmission(pipe, ctx, ns, p, blobHash, lines)
      <==> ns == ctx.ns || !DocRefersByPath(tables(ctx.hash), lines)
    ensures !SameEmission(pipe, ctx, ns, p, blobHash, lines) ==>
      Diverge(pipe.emit(ctx.(ns := ns), p, blobHash, lines).0, pipe.emit(ctx, p, blobHash, lines).0)
  {
    hide EmitText, DocRefersByPath, In, Diverge;
    assert ctx.(ns := ns) == Context(ctx.hash, ns) && ctx == Context(ctx.hash, ctx.ns);
    if ns != ctx.ns {
      EmitTextUnderBases(tables(ctx.hash), p, blobHash, lines, ns, ctx.ns);
      var a := EmitText(In(tables(ctx.hash), ns), p, blobHash, lines).0;
      var b := EmitText(In(tables(ctx.hash), ctx.ns), p, blobHash, lines).0;
      if Diverge(a, b) {
        DivergeAround("", a, b, "", "");
        assert "" + a + "" == a && "" + b + "" == b;
      }
    }
  }
}
