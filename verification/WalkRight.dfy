/** Exactly when a cached walk is right: after files came and went and after a change of namespace, neither of
    which the walk cache sees in full. */
module WalkRight {
  import opened Wrappers
  import opened Text
  import opened PercentCoding
  import opened Paths
  import opened Links
  import opened Walk
  import opened WalkCorrect
  import opened WalkStale
  import opened WalkNamespace
  import E = Emission
  import ES = EmissionSafety
  import NQuads
  import S = Subjects
  import KitValues
  import Sorting

  // ----- the two lines of a link that moved -----

  lemma LinksToReads(key: string, text: string)
    requires KitValues.KeySafe(key)
    ensures KitValues.ThreeParts(ResolvedLine(key, text)) == Some((key, "linksTo", text))
  {
    var line, rest := ResolvedLine(key, text), "linksTo | " + text;
    assert line == (key + " | ") + rest;
    KitValues.FirstInPrefix(key + " | ", rest);
    assert line[..|key|] == key && line[|key| + 3..] == rest;
    WordEnds("linksTo", text);
    assert "linksTo" + " | " + text == rest;
    assert rest[..7] == "linksTo" && rest[10..] == text;
  }

  lemma WordEnds(word: string, text: string)
    requires ' ' !in word
    ensures Find(word + " | " + text, " | ") == Some(|word|)
  {
    var s := word + " | " + text;
    assert s[|word|..|word| + 3] == " | ";
    assert OccursAt(s, " | ", |word|);
    assert forall j :: 0 <= j < |word| ==> s[j] == word[j] && word[j] != ' ';
    var i := Find(s, " | ").value;
    assert s[i..i + 3][0] == s[i];
  }

  lemma UnresolvedReads(dest: string)
    ensures KitValues.ThreeParts(UnresolvedLine(dest)) == Some(("md.unresolvedLink", "hasValue", dest))
  {
    hide KitValues.ThreeParts, KitValues.KeySafe;
    UnresolvedKeySafe();
    KitValues.LineReadsBack("md.unresolvedLink", dest);
    assert "md.unresolvedLink" + " | hasValue | " == "md.unresolvedLink | hasValue | ";
    assert KitValues.Line("md.unresolvedLink", dest) == UnresolvedLine(dest);
  }

  lemma UnresolvedKeySafe()
    ensures KitValues.KeySafe("md.unresolvedLink")
  {
    hide Find;
    var key := "md.unresolvedLink";
    WordEnds(key, "");
    assert key + " | " + "" == key + " | ";
  }

  lemma UnresolvedKeyPlain()
    ensures S.KeySegments("md.unresolvedLink").None?
      && S.SplitLast("md.unresolvedLink") == Some(("md", "unresolvedLink"))
    ensures S.SplitLast("md").None?
  {
    OneDot("md", "unresolvedLink");
    assert "md" + "." + "unresolvedLink" == "md.unresolvedLink";
  }

  lemma OneDot(a: string, b: string)
    requires '.' !in a && '.' !in b
    ensures S.KeySegments(a + "." + b).None? && S.SplitLast(a + "." + b) == Some((a, b))
  {
    var key := a + "." + b;
    assert key[|a|] == '.' && key[..|a|] == a && key[|a| + 1..] == b;
    IndexOfUnique(key, '.', |a|);
    assert forall j :: 0 <= j < |key| && j != |a| ==> key[j] == if j < |a| then a[j] else b[j - |a| - 1];
    var i := LastIndexOf(key, '.');
    assert i == |a|;
  }

  /** The line of a link to a file that is there under one index only, and its line under the other. */
  predicate IsPairOf(p: string, x: string, y: string, path: string, dest: string) {
    IsNormalPath(path) && Trim(dest) != ""
    && ((x == ResolvedLine(p, path) && y == UnresolvedLine(dest))
        || (y == ResolvedLine(p, path) && x == UnresolvedLine(dest)))
  }

  ghost predicate IsMovedPair(p: string, x: string, y: string) {
    exists path, dest :: IsPairOf(p, x, y, path, dest)
  }

  /** Line by line the same, or the two lines of a link that moved. */
  ghost predicate Paired(p: string, xs: seq<string>, ys: seq<string>) {
    |xs| == |ys| && forall i :: 0 <= i < |xs| ==> xs[i] == ys[i] || IsMovedPair(p, xs[i], ys[i])
  }

  ghost predicate HasMoved(p: string, xs: seq<string>, ys: seq<string>)
    requires |xs| == |ys|
  {
    exists i :: 0 <= i < |xs| && IsMovedPair(p, xs[i], ys[i])
  }

  lemma MovedLinesDiffer(p: string, x: string, y: string)
    requires KitValues.KeySafe(p) && IsMovedPair(p, x, y)
    ensures x != y
  {
    hide IsPairOf, KitValues.KeySafe, KitValues.ThreeParts, ResolvedLine, UnresolvedLine;
    var path, dest :| IsPairOf(p, x, y, path, dest);
    PairCases(p, x, y, path, dest);
    LinksToReads(p, path);
    UnresolvedReads(dest);
    assert "linksTo" != "hasValue";
  }

  lemma PairCases(p: string, x: string, y: string, path: string, dest: string)
    requires IsPairOf(p, x, y, path, dest)
    ensures IsNormalPath(path) && Trim(dest) != ""
    ensures (x == ResolvedLine(p, path) && y == UnresolvedLine(dest))
      || (y == ResolvedLine(p, path) && x == UnresolvedLine(dest))
  {
  }

  /** The parser reports no destination of white space alone. */
  predicate ReportsWords(nodes: seq<Node>) {
    forall n <- nodes :: n.InlineLink? ==> n.dest == "" || Trim(n.dest) != ""
  }

  lemma NodePaired(n: Node, p: string, a: set<string>, b: set<string>)
    requires n.InlineLink? ==> n.dest == "" || Trim(n.dest) != ""
    ensures var x, y := LineOf(n, p, a), LineOf(n, p, b);
      if Moves(n, p, a, b) then |x| == 1 && |y| == 1 && IsMovedPair(p, x[0], y[0]) else x == y
  {
    hide Trim, IsNormalPath, Normalized, ResolvedLine, UnresolvedLine;
    if Moves(n, p, a, b) {
      var path := LinkTarget(n, p).value;
      NormalizedIsNormal(Decoded(PathPart(n.dest)), DocDir(p));
      var x, y := LineOf(n, p, a), LineOf(n, p, b);
      assert IsPairOf(p, x[0], y[0], path, n.dest);
    }
  }

  /** A document's lines under two file lists: paired, and with a link that moved exactly when some link moved. */
  lemma {:induction false} LinksPaired(nodes: seq<Node>, p: string, a: set<string>, b: set<string>)
    requires ReportsWords(nodes) && KitValues.KeySafe(p)
    ensures var xs, ys := LinkLines(nodes, p, a), LinkLines(nodes, p, b);
      Paired(p, xs, ys) && (HasMoved(p, xs, ys) <==> AnyMoves(nodes, p, a, b))
  {
    hide LineOf, Moves, IsMovedPair, KitValues.KeySafe, Trim;
    if nodes != [] {
      assert nodes == [nodes[0]] + nodes[1..];
      LinksPaired(nodes[1..], p, a, b);
      NodePaired(nodes[0], p, a, b);
      var x, y := LineOf(nodes[0], p, a), LineOf(nodes[0], p, b);
      OneNode(p, x, y, Moves(nodes[0], p, a, b));
      PairedConcat(p, x, y, LinkLines(nodes[1..], p, a), LinkLines(nodes[1..], p, b));
    }
  }

  lemma OneNode(p: string, x: seq<string>, y: seq<string>, moves: bool)
    requires if moves then |x| == 1 && |y| == 1 && IsMovedPair(p, x[0], y[0]) else x == y
    requires KitValues.KeySafe(p)
    ensures Paired(p, x, y) && (HasMoved(p, x, y) <==> moves)
  {
    hide IsMovedPair, KitValues.KeySafe;
    if !moves {
      SameIsUnmoved(p, x);
    }
  }

  lemma SameIsUnmoved(p: string, xs: seq<string>)
    requires KitValues.KeySafe(p)
    ensures Paired(p, xs, xs) && !HasMoved(p, xs, xs)
  {
    hide IsMovedPair, KitValues.KeySafe;
    forall i | 0 <= i < |xs|
      ensures !IsMovedPair(p, xs[i], xs[i])
    {
      if IsMovedPair(p, xs[i], xs[i]) {
        MovedLinesDiffer(p, xs[i], xs[i]);
      }
    }
  }

  lemma PairedConcat(p: string, x: seq<string>, y: seq<string>, xs: seq<string>, ys: seq<string>)
    requires Paired(p, x, y) && Paired(p, xs, ys)
    ensures Paired(p, x + xs, y + ys) && (HasMoved(p, x + xs, y + ys) <==> HasMoved(p, x, y) || HasMoved(p, xs, ys))
  {
    hide IsMovedPair;
    var a, b, k := x + xs, y + ys, |x|;
    assert forall i :: 0 <= i < k ==> a[i] == x[i] && b[i] == y[i];
    assert forall i :: k <= i < |a| ==> a[i] == xs[i - k] && b[i] == ys[i - k];
    if HasMoved(p, x, y) {
      var i :| 0 <= i < |x| && IsMovedPair(p, x[i], y[i]);
      assert IsMovedPair(p, a[i], b[i]);
    }
    if HasMoved(p, xs, ys) {
      var i :| 0 <= i < |xs| && IsMovedPair(p, xs[i], ys[i]);
      assert IsMovedPair(p, a[k + i], b[k + i]);
    }
  }

  // ----- the anchors do not see links -----

  lemma PairValues(p: string, x: string, y: string)
    requires KitValues.KeySafe(p) && IsMovedPair(p, x, y)
    ensures S.ValueLine(x).Some? ==> S.ValueLine(x).value.0 == "md.unresolvedLink"
    ensures S.ValueLine(y).Some? ==> S.ValueLine(y).value.0 == "md.unresolvedLink"
  {
    hide IsPairOf, KitValues.KeySafe, KitValues.ThreeParts, ResolvedLine, UnresolvedLine;
    var path, dest :| IsPairOf(p, x, y, path, dest);
    PairCases(p, x, y, path, dest);
    LinksToReads(p, path);
    UnresolvedReads(dest);
    assert "linksTo" != "hasValue";
  }

  lemma {:induction false} PairedFirstClass(ont: S.Ontology, p: string, xs: seq<string>, ys: seq<string>)
    requires KitValues.KeySafe(p) && Paired(p, xs, ys)
    ensures S.FirstClass(ont, xs) == S.FirstClass(ont, ys)
  {
    hide IsMovedPair, KitValues.KeySafe, S.ValueLine, S.KeySegments;
    if xs != [] {
      UnresolvedKeyPlain();
      if IsMovedPair(p, xs[0], ys[0]) {
        PairValues(p, xs[0], ys[0]);
      }
      PairedFirstClass(ont, p, xs[1..], ys[1..]);
    }
  }

  lemma {:induction false} PairedFirstValue(p: string, xs: seq<string>, ys: seq<string>, accepts: string -> bool)
    requires KitValues.KeySafe(p) && Paired(p, xs, ys) && !accepts("md.unresolvedLink")
    ensures S.FirstValue(xs, accepts) == S.FirstValue(ys, accepts)
  {
    hide IsMovedPair, KitValues.KeySafe, S.ValueLine, Trim;
    if xs != [] {
      if IsMovedPair(p, xs[0], ys[0]) {
        PairValues(p, xs[0], ys[0]);
      }
      PairedFirstValue(p, xs[1..], ys[1..], accepts);
    }
  }

  lemma IdKeysAreNot(kit: string, class_: string, prop: string)
    ensures "md.unresolvedLink" != kit + "." + class_ + "." + prop
      && !S.IdKeyMatches("md.unresolvedLink", kit, class_, prop)
  {
    hide S.SplitLast, S.KeySegments;
    UnresolvedKeyPlain();
    TwoDots(kit, class_, prop);
    var plain := "md.unresolvedLink";
    assert forall j :: 0 <= j < |plain| && j != 2 ==> plain[j] != '.';
  }

  lemma TwoDots(kit: string, class_: string, prop: string)
    ensures var key := kit + "." + class_ + "." + prop;
      exists i, j :: 0 <= i < j < |key| && key[i] == '.' && key[j] == '.'
  {
    var key := kit + "." + class_ + "." + prop;
    assert key[|kit|] == '.' && key[|kit| + 1 + |class_|] == '.';
  }

  lemma PairedDerive(ont: S.Ontology, p: string, xs: seq<string>, ys: seq<string>, relpath: string)
    requires KitValues.KeySafe(p) && Paired(p, xs, ys)
    ensures S.Derive(ont, xs, relpath) == S.Derive(ont, ys, relpath)
  {
    hide Paired, KitValues.KeySafe, S.FirstValue, S.FirstClass, S.IdKeyMatches, S.UniversalId, S.KitNamespace;
    PairedFirstClass(ont, p, xs, ys);
    if S.FirstClass(ont, xs).Some? {
      var (kit, class_) := S.FirstClass(ont, xs).value;
      IdKeysAreNot(kit, class_, "id");
      IdKeysAreNot(kit, class_, S.ConventionalIdProp(class_));
      UniversalPaired(p, xs, ys, kit, class_);
      ConventionalPaired(ont, p, xs, ys, kit, class_);
    }
  }

  lemma UniversalPaired(p: string, xs: seq<string>, ys: seq<string>, kit: string, class_: string)
    requires KitValues.KeySafe(p) && Paired(p, xs, ys) && "md.unresolvedLink" != kit + "." + class_ + "." + "id"
    ensures S.UniversalThing(xs, kit, class_) == S.UniversalThing(ys, kit, class_)
  {
    hide Paired, KitValues.KeySafe, S.FirstValue, S.UniversalId;
    var key := kit + "." + class_ + ".id";
    assert key == kit + "." + class_ + "." + "id";
    PairedFirstValue(p, xs, ys, k => k == key);
  }

  lemma ConventionalPaired(ont: S.Ontology, p: string, xs: seq<string>, ys: seq<string>, kit: string, class_: string)
    requires KitValues.KeySafe(p) && Paired(p, xs, ys)
    requires !S.IdKeyMatches("md.unresolvedLink", kit, class_, S.ConventionalIdProp(class_))
    ensures S.ConventionalThing(ont, xs, kit, class_) == S.ConventionalThing(ont, ys, kit, class_)
  {
    hide Paired, KitValues.KeySafe, S.FirstValue, S.IdKeyMatches, S.KitNamespace;
    var prop := S.ConventionalIdProp(class_);
    PairedFirstValue(p, xs, ys, k => S.IdKeyMatches(k, kit, class_, prop));
  }

  // ----- what the two lines state -----

  lemma LinkStatements(site: E.Site, path: string, dest: string)
    ensures var x := NQuads.Quad(site.subjects.fileIri, E.MD + "linksTo", NQuads.Iri(path), site.graph);
      var y := NQuads.Quad(site.subjects.fileIri, E.MD + "unresolvedLink", NQuads.Plain(dest), site.graph);
      Diverge(NQuads.Document([x]), NQuads.Document([y])) && Diverge(NQuads.Document([y]), NQuads.Document([x]))
  {
    hide Diverge;
    var x := NQuads.Quad(site.subjects.fileIri, E.MD + "linksTo", NQuads.Iri(path), site.graph);
    var y := NQuads.Quad(site.subjects.fileIri, E.MD + "unresolvedLink", NQuads.Plain(dest), site.graph);
    NQuads.DocumentOne(x);
    NQuads.DocumentOne(y);
    var head := NQuads.RenderIri(site.subjects.fileIri) + " <" + E.MD;
    var a := "> " + NQuads.RenderTerm(x.o) + " " + NQuads.RenderIri(x.g) + " ." + "\n";
    var b := "> " + NQuads.RenderTerm(y.o) + " " + NQuads.RenderIri(y.g) + " ." + "\n";
    Rendered(x, "linksTo");
    Rendered(y, "unresolvedLink");
    LettersPart();
    DivergeAround(head, "linksTo", "unresolvedLink", a, b);
    DivergeAround(head, "unresolvedLink", "linksTo", b, a);
  }

  lemma LettersPart()
    ensures Diverge("linksTo", "unresolvedLink") && Diverge("unresolvedLink", "linksTo")
  {
    assert PartAt("linksTo", "unresolvedLink", 0) && PartAt("unresolvedLink", "linksTo", 0);
  }

  lemma Rendered(q: NQuads.Quad, name: string)
    requires q.p == E.MD + name
    ensures NQuads.Render(q) + "\n" == NQuads.RenderIri(q.s) + " <" + E.MD + name
      + ("> " + NQuads.RenderTerm(q.o) + " " + NQuads.RenderIri(q.g) + " ." + "\n")
  {
    hide NQuads.RenderTerm;
    var s, o, g := NQuads.RenderIri(q.s), NQuads.RenderTerm(q.o), NQuads.RenderIri(q.g);
    assert NQuads.RenderIri(q.p) == "<" + E.MD + name + ">";
    assert s + " " + ("<" + E.MD + name + ">") + " " + o + " " + g + " ." + "\n"
      == s + " <" + E.MD + name + ("> " + o + " " + g + " ." + "\n");
  }

  lemma ResolvedStates(t: E.Tables, site: E.Site, p: string, path: string)
    requires KitValues.KeySafe(p) && IsNormalPath(path)
    ensures E.Line(t, site, ResolvedLine(p, path)) ==
      E.LineOut(0, None, [NQuads.Quad(site.subjects.fileIri, E.MD + "linksTo", NQuads.Iri(FileIri(path)), site.graph)])
  {
    hide KitValues.KeySafe, IsNormalPath, KitValues.ThreeParts, ResolvedLine, E.KitLine, E.FmLine, E.HasWikilink;
    LinksToReads(p, path);
    ES.NormalStays(path);
    NormalNotBlank(path);
  }

  lemma NormalNotBlank(path: string)
    requires IsNormalPath(path)
    ensures Trim(path) != ""
  {
    hide Trim, Split, Join, IsName;
    var segs := Split(path, '/');
    var last := segs[|segs| - 1];
    assert '.' in last;
    JoinSplit(path, '/');
    LastPart(segs, "/");
    AllWhite(path);
    assert '.' in path && !IsWhite('.');
  }

  lemma {:induction false} LastPart(parts: seq<string>, sep: string)
    requires parts != []
    ensures forall c <- parts[|parts| - 1] :: c in Join(parts, sep)
  {
    if |parts| > 1 {
      LastPart(parts[1..], sep);
    }
  }

  lemma UnresolvedStates(t: E.Tables, site: E.Site, dest: string)
    requires Trim(dest) != ""
    ensures E.Line(t, site, UnresolvedLine(dest)) ==
      if E.HasWikilink(dest) then E.LineOut(1, None, [])
      else E.LineOut(0, None,
        [NQuads.Quad(site.subjects.fileIri, E.MD + "unresolvedLink", NQuads.Plain(dest), site.graph)])
  {
    hide KitValues.ThreeParts, UnresolvedLine, E.KitLine, E.FmLine, E.HasWikilink, Trim, S.KeySegments, E.LinkLine;
    UnresolvedReads(dest);
    UnresolvedKeyPlain();
    assert "md.unresolvedLink"[3..] == "unresolvedLink" && "hasValue" != "linksTo";
  }

  /** Without errors the two lines make statements that part. */
  lemma MovedLinesPart(t: E.Tables, t2: E.Tables, site: E.Site, p: string, x: string, y: string)
    requires KitValues.KeySafe(p) && IsMovedPair(p, x, y)
    requires E.Line(t, site, x).errors == 0 && E.Line(t2, site, y).errors == 0
    ensures LinesPart(E.Line(t, site, x), E.Line(t2, site, y), true)
  {
    hide IsPairOf, KitValues.KeySafe, E.Line, Diverge, NQuads.Document, Trim, IsNormalPath, ResolvedLine;
    hide UnresolvedLine;
    var path, dest :| IsPairOf(p, x, y, path, dest);
    PairCases(p, x, y, path, dest);
    ResolvedStates(t, site, p, path);
    ResolvedStates(t2, site, p, path);
    UnresolvedStates(t, site, dest);
    UnresolvedStates(t2, site, dest);
    LinkStatements(site, FileIri(path), dest);
  }

  // ----- two sequences of lines -----

  lemma {:induction false} ErrorsGrow(s: E.State, t: E.Tables, site: E.Site, lines: seq<string>)
    ensures E.AfterLines(s, t, site, lines).errors >= s.errors
  {
    hide E.Line, E.AfterTyping;
    if lines != [] {
      ErrorsGrow(s, t, site, lines[..|lines| - 1]);
      E.AfterLineErrors(E.AfterLines(s, t, site, lines[..|lines| - 1]), E.Line(t, site, lines[|lines| - 1]));
    }
  }

  lemma LinePairs(t: E.Tables, site: E.Site, p: string, x: string, y: string, m: string, n: string)
    requires KitValues.KeySafe(p) && (x == y || IsMovedPair(p, x, y)) && '/' !in m && '/' !in n
    requires E.Line(In(t, m), site, x).errors == 0 && E.Line(In(t, n), site, y).errors == 0
    ensures LinesPart(E.Line(In(t, m), site, x), E.Line(In(t, n), site, y),
                      IsMovedPair(p, x, y) || (m != n && RefersByPath(t, x)))
  {
    hide KitValues.KeySafe, E.Line, LinesPart, RefersByPath;
    if IsMovedPair(p, x, y) {
      MovedLinesPart(In(t, m), In(t, n), site, p, x, y);
    } else if m != n {
      LineUnderBases(t, site, x, m, n);
    } else {
      SameLine(E.Line(In(t, m), site, x));
    }
  }

  lemma LastLine(s: E.State, t: E.Tables, site: E.Site, lines: seq<string>)
    requires lines != []
    ensures var k := |lines| - 1;
      E.AfterLines(s, t, site, lines) == E.AfterLine(E.AfterLines(s, t, site, lines[..k]), E.Line(t, site, lines[k]))
    ensures E.AfterLines(s, t, site, lines).errors == s.errors ==>
      E.AfterLines(s, t, site, lines[..|lines| - 1]).errors == s.errors
        && E.Line(t, site, lines[|lines| - 1]).errors == 0
  {
    hide E.Line, E.AfterLine;
    var k := |lines| - 1;
    ErrorsGrow(s, t, site, lines[..k]);
    E.AfterLineErrors(E.AfterLines(s, t, site, lines[..k]), E.Line(t, site, lines[k]));
  }

  /** The lines state the same, or something that parts: when a link moved, or the namespace did and shows. */
  lemma {:induction false} PairedLines(t: E.Tables, site: E.Site, p: string, xs: seq<string>, ys: seq<string>,
                                       s: E.State,
                                       m: string, n: string)
    requires KitValues.KeySafe(p) && Paired(p, xs, ys) && '/' !in m && '/' !in n
    requires E.AfterLines(s, In(t, m), site, xs).errors == s.errors
      && E.AfterLines(s, In(t, n), site, ys).errors == s.errors
    ensures StatesPart(E.AfterLines(s, In(t, m), site, xs), E.AfterLines(s, In(t, n), site, ys),
                       HasMoved(p, xs, ys) || (m != n && DocRefersByPath(t, xs)))
    decreases |xs|
  {
    hide StatesPart, LinesPart, E.AfterLine, E.AfterLines, E.Line, RefersByPath, DocRefersByPath, In, KitValues.KeySafe;
    hide IsMovedPair, HasMoved;
    if xs == [] {
      NoLines(t, site, p, s, m, n);
    } else {
      var k := |xs| - 1;
      LastLine(s, In(t, m), site, xs);
      LastLine(s, In(t, n), site, ys);
      PairedLines(t, site, p, xs[..k], ys[..k], s, m, n);
      LinePairs(t, site, p, xs[k], ys[k], m, n);
      AfterLinePart(E.AfterLines(s, In(t, m), site, xs[..k]), E.AfterLines(s, In(t, n), site, ys[..k]),
                    E.Line(In(t, m), site, xs[k]), E.Line(In(t, n), site, ys[k]),
                    HasMoved(p, xs[..k], ys[..k]) || (m != n && DocRefersByPath(t, xs[..k])),
                    IsMovedPair(p, xs[k], ys[k]) || (m != n && RefersByPath(t, xs[k])));
      PairedParts(t, p, xs, ys, k);
    }
  }

  lemma NoLines(t: E.Tables, site: E.Site, p: string, s: E.State, m: string, n: string)
    ensures StatesPart(E.AfterLines(s, In(t, m), site, []), E.AfterLines(s, In(t, n), site, []), false)
    ensures !HasMoved(p, [], []) && !DocRefersByPath(t, [])
  {
    SameState(s);
  }

  lemma PairedParts(t: E.Tables, p: string, xs: seq<string>, ys: seq<string>, k: nat)
    requires Paired(p, xs, ys) && |xs| == k + 1
    ensures HasMoved(p, xs, ys) <==> HasMoved(p, xs[..k], ys[..k]) || IsMovedPair(p, xs[k], ys[k])
    ensures DocRefersByPath(t, xs) <==> DocRefersByPath(t, xs[..k]) || RefersByPath(t, xs[k])
  {
    hide RefersByPath, IsMovedPair;
    assert xs == xs[..k] + [xs[k]];
    if HasMoved(p, xs[..k], ys[..k]) {
      var i :| 0 <= i < k && IsMovedPair(p, xs[..k][i], ys[..k][i]);
      assert IsMovedPair(p, xs[i], ys[i]);
    }
    if HasMoved(p, xs, ys) {
      var i :| 0 <= i < k + 1 && IsMovedPair(p, xs[i], ys[i]);
      assert i < k ==> IsMovedPair(p, xs[..k][i], ys[..k][i]);
    }
  }

  /** What the walk emits for the document under the two lists and namespaces, when neither has an error. */
  lemma PairedEmission(t: E.Tables, p: string, blobHash: string, xs: seq<string>, ys: seq<string>, m: string, n: string)
    requires KitValues.KeySafe(p) && Paired(p, xs, ys) && '/' !in m && '/' !in n
    requires EmitText(In(t, m), p, blobHash, xs).1 == 0 && EmitText(In(t, n), p, blobHash, ys).1 == 0
    ensures var a, b := EmitText(In(t, m), p, blobHash, xs), EmitText(In(t, n), p, blobHash, ys);
      if HasMoved(p, xs, ys) || (m != n && DocRefersByPath(t, xs)) then Diverge(a.0, b.0) else a == b
  {
    hide Diverge, E.Anchored, E.AfterLines, NQuads.Document, GitText, DocRefersByPath, S.Derive, HasMoved, Paired;
    hide KitValues.KeySafe;
    PairedDerive(t.ont, p, xs, ys, p);
    var site := E.Site(S.Derive(t.ont, xs, p), GRAPH_BASE + "now");
    var s := E.Anchored(E.State([], [], 0), t, site);
    AnchoredSame(t, site, m);
    AnchoredSame(t, site, n);
    AnchoredErrors(t, site);
    PairedLines(t, site, p, xs, ys, s, m, n);
    var a := NQuads.Document(E.AfterLines(s, In(t, m), site, xs).quads);
    var b := NQuads.Document(E.AfterLines(s, In(t, n), site, ys).quads);
    if Diverge(a, b) {
      var git := GitText(site.subjects.fileIri, p, blobHash);
      DivergeAround(git, a, b, "", "");
      assert git + a + "" == git + a && git + b + "" == git + b;
    }
  }

  lemma AnchoredErrors(t: E.Tables, site: E.Site)
    ensures E.Anchored(E.State([], [], 0), t, site).errors == 0
  {
  }

  // ----- one document of a walk -----

  /** The document's lines as the walk finds it now. */
  function LinesNow(env: Env, p: string): seq<string>
    requires IsReadable(env.tree, p)
  {
    SpoLines(env.pipe, p, env.tree.content[p].value, MdIndex(env.tree.files))
  }

  /** The path holds no ` | `, and the parser reports no blank destination. */
  predicate HasPlainLinks(env: Env, p: string) {
    KitValues.KeySafe(p)
    && (IsReadable(env.tree, p) && env.pipe.parse(env.tree.content[p].value).Some? ==>
          ReportsWords(env.pipe.parse(env.tree.content[p].value).value))
  }

  /** The walk serves the document, some link of which names a file that came or went since the cache was written,
      or some reference of which shows the namespace the cache was written under, which is another. */
  predicate ServesStale(env: Env, disk: Disk, t: E.Tables, ns: string, p: string) {
    IsServed(env, disk, p)
    && (LinksMove(env.pipe, p, env.tree.content[p].value, ListedIndex(disk), MdIndex(env.tree.files))
        || (ns != env.ctx.ns && DocRefersByPath(t, LinesNow(env, p))))
  }

  lemma SpoPaired(pipe: Pipeline, p: string, content: string, a: set<string>, b: set<string>)
    requires KitValues.KeySafe(p) && (pipe.parse(content).Some? ==> ReportsWords(pipe.parse(content).value))
    ensures var xs, ys := SpoLines(pipe, p, content, a), SpoLines(pipe, p, content, b);
      Paired(p, xs, ys) && (HasMoved(p, xs, ys) <==> LinksMove(pipe, p, content, a, b))
      && (!HasMoved(p, xs, ys) ==> xs == ys)
  {
    hide KitValues.KeySafe, IsMovedPair, AnyMoves, LinkLines, IsMarkdown, Paired, HasMoved, ReportsWords;
    hide Sorting.SortDedup;
    var fm := Sorting.SortDedup(pipe.frontmatter(content).0);
    var x, y := LinksOf(MdLinks(pipe, p, content, a)), LinksOf(MdLinks(pipe, p, content, b));
    SameIsUnmoved(p, fm);
    if IsMarkdown(p) && pipe.parse(content).Some? {
      LinksPaired(pipe.parse(content).value, p, a, b);
    } else {
      SameIsUnmoved(p, []);
    }
    PairedConcat(p, fm, fm, x, y);
    UnmovedIsSame(p, fm + x, fm + y);
  }

  lemma UnmovedIsSame(p: string, xs: seq<string>, ys: seq<string>)
    requires Paired(p, xs, ys)
    ensures !HasMoved(p, xs, ys) ==> xs == ys
  {
    hide IsMovedPair;
  }

  lemma ExtractionErrors(pipe: Pipeline, ctx: Context, p: string, content: string, blob: string, index: set<string>)
    ensures var x := ExtractAt(pipe, ctx, p, content, blob, index);
      x.frag == pipe.emit(ctx, p, blob, SpoLines(pipe, p, content, index)).0
      && x.errors >= pipe.emit(ctx, p, blob, SpoLines(pipe, p, content, index)).1
  {
  }

  /** A stale fragment is not the one it ought to be: the extraction has an error, or its text parts from it. */
  lemma StaleParts(env: Env, tables: string -> E.Tables, p: string, content: string, blob: string, ns: string,
                   was: set<string>, index: set<string>)
    requires IsEmission(env.pipe, tables) && '/' !in ns && '/' !in env.ctx.ns && KitValues.KeySafe(p)
    requires env.pipe.parse(content).Some? ==> ReportsWords(env.pipe.parse(content).value)
    requires LinksMove(env.pipe, p, content, was, index)
      || (ns != env.ctx.ns && DocRefersByPath(tables(env.ctx.hash), SpoLines(env.pipe, p, content, index)))
    requires ExtractAt(env.pipe, env.ctx.(ns := ns), p, content, blob, was).errors == 0
    ensures ExtractAt(env.pipe, env.ctx, p, content, blob, index).errors > 0
      || Diverge(ExtractAt(env.pipe, env.ctx.(ns := ns), p, content, blob, was).frag,
                 ExtractAt(env.pipe, env.ctx, p, content, blob, index).frag)
  {
    hide Diverge, LinksMove, DocRefersByPath, SpoLines, ExtractAt, KitValues.KeySafe, EmitText, Paired, HasMoved, In;
    var t, xs, ys := tables(env.ctx.hash), SpoLines(env.pipe, p, content, was), SpoLines(env.pipe, p, content, index);
    ExtractionErrors(env.pipe, env.ctx.(ns := ns), p, content, blob, was);
    ExtractionErrors(env.pipe, env.ctx, p, content, blob, index);
    SpoPaired(env.pipe, p, content, was, index);
    assert env.ctx.(ns := ns) == Context(env.ctx.hash, ns) && env.ctx == Context(env.ctx.hash, env.ctx.ns);
    if ExtractAt(env.pipe, env.ctx, p, content, blob, index).errors == 0 {
      PairedEmission(t, p, blob, xs, ys, ns, env.ctx.ns);
    }
  }

  /** What the walk answers for the document is at most what it ought to answer, in errors; and it is that,
      unless it is stale. */
  ghost predicate GivenRight(given: Outcome, due: Outcome, stale: bool) {
    given.errors <= due.errors
    && if stale then given.errors < due.errors || Diverge(given.nquads, due.nquads) else given == due
  }

  lemma GivenOrStale(env: Env, tables: string -> E.Tables, disk: Disk, ns: string, suspects: set<string>, p: string)
    requires IsPipeline(env.pipe) && IsEmission(env.pipe, tables) && CacheSound(env.pipe, disk, ns, suspects)
    requires env == EnvFor(env.pipe, env.tree, env.ctx, disk, env.opts, env.forced, env.forceFull)
      && env.opts.buildNquads
    requires '/' !in ns && '/' !in env.ctx.ns && HasPlainLinks(env, p) && (IsServed(env, disk, p) ==> p !in suspects)
    ensures GivenRight(Given(env, disk, p), Due(env, p), ServesStale(env, disk, tables(env.ctx.hash), ns, p))
  {
    hide Diverge, LinksMove, SpoLines, DocRefersByPath, CacheSound, ExtractAt, QuadLines, IsEmission, Lines, MdLinks;
    hide IsMentioned, SidecarsMatch, IsMarkdown, KitValues.KeySafe;
    if IsServed(env, disk, p) {
      MatchingRow(env, disk, ns, suspects, p);
      var content, blob := env.tree.content[p].value, BlobHash(env.tree, p);
      if ServesStale(env, disk, tables(env.ctx.hash), ns, p) {
        StaleParts(env, tables, p, content, blob, ns, ListedIndex(disk), MdIndex(env.tree.files));
      } else {
        SameEmissionIff(env.pipe, tables, env.ctx, ns, p, blob, LinesNow(env, p));
        ExtractionSameIff(env.pipe, env.ctx, ns, p, content, blob, ListedIndex(disk), MdIndex(env.tree.files));
      }
    }
  }

  // ----- the whole walk -----

  lemma {:induction false} GivenAllOrStale(env: Env, tables: string -> E.Tables, disk: Disk, ns: string,
                                           suspects: set<string>, files: seq<string>)
    requires IsPipeline(env.pipe) && IsEmission(env.pipe, tables) && CacheSound(env.pipe, disk, ns, suspects)
    requires env == EnvFor(env.pipe, env.tree, env.ctx, disk, env.opts, env.forced, env.forceFull)
      && env.opts.buildNquads
    requires '/' !in ns && '/' !in env.ctx.ns
    requires forall p <- files :: HasPlainLinks(env, p) && (IsServed(env, disk, p) ==> p !in suspects)
    ensures GivenRight(GivenAll(env, disk, files), DueAll(env, files),
                       exists p <- files :: ServesStale(env, disk, tables(env.ctx.hash), ns, p))
  {
    hide Diverge, CacheSound, IsEmission, IsPipeline, HasPlainLinks, ServesStale, IsServed, Given, Due, EnvFor;
    if files != [] {
      var init, last := files[..|files| - 1], files[|files| - 1];
      assert files == init + [last];
      GivenAllOrStale(env, tables, disk, ns, suspects, init);
      GivenOrStale(env, tables, disk, ns, suspects, last);
      PlusRight(GivenAll(env, disk, init), DueAll(env, init),
                exists p <- init :: ServesStale(env, disk, tables(env.ctx.hash), ns, p),
                Given(env, disk, last), Due(env, last), ServesStale(env, disk, tables(env.ctx.hash), ns, last));
    }
  }

  lemma PlusRight(a: Outcome, b: Outcome, before: bool, x: Outcome, y: Outcome, here: bool)
    requires GivenRight(a, b, before) && GivenRight(x, y, here)
    ensures GivenRight(Plus(a, x), Plus(b, y), before || here)
  {
    hide Diverge;
    if Diverge(a.nquads, b.nquads) {
      DivergeAround("", a.nquads, b.nquads, x.nquads, y.nquads);
      assert "" + a.nquads + x.nquads == a.nquads + x.nquads && "" + b.nquads + y.nquads == b.nquads + y.nquads;
    } else if a == b && Diverge(x.nquads, y.nquads) {
      DivergeAround(a.nquads, x.nquads, y.nquads, "", "");
      assert a.nquads + x.nquads + "" == a.nquads + x.nquads && b.nquads + y.nquads + "" == b.nquads + y.nquads;
    }
  }

  /** After any change of files and of namespace a cached walk answers what a full one does exactly when no document
      it serves has a link to a file that came or went or, under another namespace, a reference by path. */
  lemma CachedWalkRightIff(env: Env, tables: string -> E.Tables, disk: Disk, ns: string, suspects: set<string>)
    requires IsPipeline(env.pipe) && IsEmission(env.pipe, tables) && CacheSound(env.pipe, disk, ns, suspects)
    requires env == EnvFor(env.pipe, env.tree, env.ctx, disk, env.opts, env.forced, env.forceFull)
    requires IsTree(env.tree) && env.opts.buildNquads && '/' !in ns && '/' !in env.ctx.ns
    requires forall p <- env.tree.files :: HasPlainLinks(env, p) && (IsServed(env, disk, p) ==> p !in suspects)
    ensures WalkOnce(env.pipe, env.tree, env.ctx, disk, env.opts, env.forced, env.forceFull).0
         == Answer(env.pipe, env.tree, env.ctx, true, env.tree.files)
       <==> forall p <- env.tree.files :: !ServesStale(env, disk, tables(env.ctx.hash), ns, p)
  {
    hide Diverge, CacheSound, IsEmission, IsPipeline, HasPlainLinks, ServesStale, IsServed, WalkOnce, Answer, EnvFor;
    hide GivenAll, DueAll, IsTree;
    WalkGives(env.pipe, env.tree, env.ctx, disk, env.opts, env.forced, env.forceFull);
    AnswerIsDue(env, env.tree.files);
    GivenAllOrStale(env, tables, disk, ns, suspects, env.tree.files);
    var a, b := GivenAll(env, disk, env.tree.files).nquads, DueAll(env, env.tree.files).nquads;
    if Diverge(a, b) {
      DivergeAround("", a, b, "", "");
      assert "" + a + "" == a && "" + b + "" == b;
    }
  }
}
