/** Which documents a walk must not serve because git calls their sidecars changed (`dirty_sidecar_sources`,
    src/nquad.rs), and what becomes of the sidecars of the others. */
module DirtySidecars {
  import opened Wrappers
  import opened Text
  import opened Walk
  import opened WalkCorrect
  import opened WalkStale

  // ----- reading git's status -----

  const EXTRACT := ".lex/extract/"

  /** What stands after the last separator, separators taken from the left as `split` takes them. */
  function AfterArrow(s: string): string
    decreases |s|
  {
    match Find(s, " -> ") case None => s case Some(i) => AfterArrow(s[i + 4..])
  }

  /** A line's path: after the two status letters and a space, the new name of a rename, without quotes. */
  function LinePath(line: string): string
    requires |line| >= 4
  {
    TrimMatches(AfterArrow(line[3..]), '"')
  }

  /** `strip_suffix` */
  function Stem(side: string, suffix: string): set<string> {
    if EndsWith(side, suffix) then {side[..|side| - |suffix|]} else {}
  }

  function SourcesOf(line: string): set<string> {
    if |line| < 4 || !StartsWith(LinePath(line), EXTRACT) then {}
    else
      var side := LinePath(line)[|EXTRACT|..];
      Stem(side, ".fm.spo") + Stem(side, ".md.spo")
  }

  function Sources(lines: seq<string>): set<string> {
    if lines == [] then {} else Sources(lines[..|lines| - 1]) + SourcesOf(lines[|lines| - 1])
  }

  /** `dirty_sidecar_sources` on the text git printed. Git's status letters are ASCII, so that its lines are cut
      after three characters where the source cuts after three bytes. */
  method DirtySidecarSources(status: string) returns (out: set<string>)
    ensures out == Sources(Lines(status))
  {
    var lines := Lines(status);
    out := {};
    assert lines[..0] == [];
    for i := 0 to |lines|
      invariant out == Sources(lines[..i])
    {
      assert lines[..i + 1][..i] == lines[..i];
      var line := lines[i];
      if |line| < 4 {
        continue;
      }
      var path := LinePath(line);
      if !StartsWith(path, EXTRACT) {
        continue;
      }
      var side := path[|EXTRACT|..];
      var found := FindStems(side, [".fm.spo", ".md.spo"]);
      out := out + found;
    }
    assert lines[..|lines|] == lines;
  }

  /** The inner loop over the two suffixes. */
  method FindStems(side: string, suffixes: seq<string>) returns (found: set<string>)
    requires |suffixes| == 2
    ensures found == Stem(side, suffixes[0]) + Stem(side, suffixes[1])
  {
    found := {};
    for i := 0 to |suffixes|
      invariant found
        == (if i > 0 then Stem(side, suffixes[0]) else {}) + (if i > 1 then Stem(side, suffixes[1]) else {})
    {
      if EndsWith(side, suffixes[i]) {
        found := found + {side[..|side| - |suffixes[i]|]};
      }
    }
  }

  lemma {:induction false} SourcesHold(lines: seq<string>, line: string)
    requires line in lines
    ensures SourcesOf(line) <= Sources(lines)
  {
    hide SourcesOf;
    if lines[|lines| - 1] != line {
      assert lines == lines[..|lines| - 1] + [lines[|lines| - 1]];
      SourcesHold(lines[..|lines| - 1], line);
    }
  }

  // ----- writing git's status -----

  predicate IsPlainChar(c: char) {
    ' ' <= c <= '~' && c != '"' && c != '\\'
  }

  /** How git writes a character inside quotes: a plain one as itself, any other as an escape without spaces. */
  ghost predicate IsEscaping(esc: char -> string) {
    forall c ::
      if IsPlainChar(c) then esc(c) == [c] else |esc(c)| >= 2 && esc(c)[0] == '\\' && ' ' !in esc(c)
  }

  function Escaped(esc: char -> string, s: string): string {
    if s == "" then "" else esc(s[0]) + Escaped(esc, s[1..])
  }

  predicate IsBare(s: string) {
    forall c <- s :: IsPlainChar(c) && c != ' '
  }

  /** A name with a space or an escape in it is quoted. */
  function Shown(esc: char -> string, s: string): string {
    if IsBare(s) then s else "\"" + Escaped(esc, s) + "\""
  }

  /** One row of `git status --porcelain`: the status letters, the old name of a rename, the path. */
  datatype Row = Row(x: char, y: char, was: Option<string>, path: string)

  function RowText(esc: char -> string, r: Row): string {
    [r.x, r.y, ' '] + (match r.was case Some(before) => Shown(esc, before) + " -> " case None => "")
      + Shown(esc, r.path)
  }

  predicate IsPlainName(s: string) {
    (forall c <- s :: IsPlainChar(c)) && !Has(s, " -> ")
  }

  // ----- escaped names -----

  lemma {:induction false} EscapedPlain(esc: char -> string, s: string)
    requires IsEscaping(esc)
    ensures |Escaped(esc, s)| >= |s|
    ensures Escaped(esc, s) == s <==> forall c <- s :: IsPlainChar(c)
    ensures (exists c <- s :: !IsPlainChar(c)) ==> |Escaped(esc, s)| > |s|
  {
    hide IsPlainChar;
    if s != "" {
      assert s == [s[0]] + s[1..];
      EscapedPlain(esc, s[1..]);
      assert IsPlainChar(s[0]) ==> esc(s[0]) == [s[0]];
      assert !IsPlainChar(s[0]) ==> |esc(s[0])| >= 2;
      assert ([s[0]] + Escaped(esc, s[1..]))[1..] == Escaped(esc, s[1..]);
    }
  }

  lemma {:induction false} EscapedConcat(esc: char -> string, a: string, b: string)
    ensures Escaped(esc, a + b) == Escaped(esc, a) + Escaped(esc, b)
  {
    if a == "" {
      assert a + b == b;
    } else {
      assert (a + b)[1..] == a[1..] + b;
      EscapedConcat(esc, a[1..], b);
    }
  }

  lemma {:induction false} EscapedFront(esc: char -> string, s: string, t: string)
    requires IsEscaping(esc) && (forall c <- t :: IsPlainChar(c)) && StartsWith(Escaped(esc, s), t)
    ensures StartsWith(s, t)
  {
    if t != "" && s != "" {
      assert Escaped(esc, s)[0] == t[0] && t[0] in t;
      assert IsPlainChar(s[0]);
      assert Escaped(esc, s)[1..] == Escaped(esc, s[1..]);
      assert t == [t[0]] + t[1..] && s == [s[0]] + s[1..];
      EscapedFront(esc, s[1..], t[1..]);
    }
  }

  /** Escaping makes no separator. */
  lemma {:induction false} NoArrowMade(esc: char -> string, s: string, i: nat)
    requires IsEscaping(esc) && OccursAt(Escaped(esc, s), " -> ", i)
    ensures Contains(s, " -> ")
  {
    var e := Escaped(esc, s);
    assert e[i] == e[i..i + 4][0] == ' ';
    var n := |esc(s[0])|;
    if i < n {
      assert esc(s[0])[i] == ' ';
      assert IsPlainChar(s[0]) && i == 0;
      assert e == e[..4] + e[4..];
      EscapedFront(esc, s, " -> ");
      assert OccursAt(s, " -> ", 0);
    } else {
      assert e[n..] == Escaped(esc, s[1..]);
      SliceOfSlice(e, n, |e|, i - n, i - n + 4);
      assert e[n..] == e[n..|e|];
      NoArrowMade(esc, s[1..], i - n);
      assert s[1..] == s[1..|s|];
      ContainsSub(s, 1, |s|, " -> ");
    }
  }

  // ----- separators -----

  lemma {:induction false} AfterArrowClean(s: string)
    ensures !Has(AfterArrow(s), " -> ")
    decreases |s|
  {
    match Find(s, " -> ") {
      case None =>
      case Some(i) => AfterArrowClean(s[i + 4..]);
    }
  }

  lemma ArrowEnds(a: string)
    ensures |a| >= 3 && a[|a| - 3] == ' ' && a[|a| - 2] == '-' && a[|a| - 1] == '>' <==> EndsWith(a, " ->")
  {
    if |a| >= 3 {
      var t := a[|a| - 3..];
      assert t[0] == a[|a| - 3] && t[1] == a[|a| - 2] && t[2] == a[|a| - 1];
    }
  }

  /** The first separator of the text is this one or stands before it. */
  lemma FirstSeparator(a: string, b: string)
    requires !EndsWith(a, " ->")
    ensures var found := Find(a + " -> " + b, " -> "); found.Some? && (found.value == |a| || found.value + 4 <= |a|)
  {
    hide EndsWith, Find;
    var s := a + " -> " + b;
    assert s[|a|..|a| + 4] == " -> ";
    assert OccursAt(s, " -> ", |a|);
    ArrowEnds(a);
    var i := Find(s, " -> ").value;
    SeparatorAt(s, i);
    SeparatorAt(s, |a|);
    assert forall j :: 0 <= j < |a| ==> s[j] == a[j];
  }

  lemma TailEnds(a: string, k: nat)
    requires k <= |a| && !EndsWith(a, " ->")
    ensures !EndsWith(a[k..], " ->")
  {
    ArrowEnds(a);
    ArrowEnds(a[k..]);
  }

  /** A separator after a text that does not end in the beginning of one ends it. */
  lemma {:induction false} AfterSeparator(a: string, b: string)
    requires !EndsWith(a, " ->")
    ensures AfterArrow(a + " -> " + b) == AfterArrow(b)
    decreases |a|
  {
    hide EndsWith, Find, OccursAt;
    var s := a + " -> " + b;
    FirstSeparator(a, b);
    var i := Find(s, " -> ").value;
    if i == |a| {
      assert s[i + 4..] == b;
    } else {
      TailEnds(a, i + 4);
      AfterSeparator(a[i + 4..], b);
      assert s[i + 4..] == a[i + 4..] + " -> " + b;
    }
  }

  lemma SeparatorAt(s: string, i: nat)
    requires OccursAt(s, " -> ", i)
    ensures s[i] == ' ' && s[i + 1] == '-' && s[i + 2] == '>' && s[i + 3] == ' '
  {
    var t := s[i..i + 4];
    assert t[0] == s[i] && t[1] == s[i + 1] && t[2] == s[i + 2] && t[3] == s[i + 3];
  }

  lemma ShownEnds(esc: char -> string, s: string)
    ensures !EndsWith(Shown(esc, s), " ->")
  {
    var t := Shown(esc, s);
    ArrowEnds(t);
    if |t| >= 3 && IsBare(s) {
      assert t[|t| - 3] in s;
    }
  }

  /** The old name of a rename is passed over. */
  lemma NewName(esc: char -> string, r: Row)
    ensures |RowText(esc, r)| >= 3 && AfterArrow(RowText(esc, r)[3..]) == AfterArrow(Shown(esc, r.path))
  {
    hide Shown, AfterArrow;
    var head := [r.x, r.y, ' '];
    match r.was {
      case Some(before) =>
        ShownEnds(esc, before);
        AfterSeparator(Shown(esc, before), Shown(esc, r.path));
        assert RowText(esc, r)[3..] == Shown(esc, before) + " -> " + Shown(esc, r.path);
      case None =>
        assert RowText(esc, r)[3..] == Shown(esc, r.path);
    }
  }

  // ----- which sources are found -----

  predicate IsSuffix(suffix: string) {
    suffix == ".fm.spo" || suffix == ".md.spo"
  }

  function SidecarPath(src: string, suffix: string): string {
    ".lex/extract/" + src + suffix
  }

  lemma ArrowInSource(src: string, suffix: string)
    requires IsSuffix(suffix)
    ensures Has(SidecarPath(src, suffix), " -> ") <==> Has(src, " -> ")
  {
    hide Has, OccursAt, IsSuffix, SidecarPath;
    var p := SidecarPath(src, suffix);
    SidecarParts(src, suffix);
    if Has(p, " -> ") {
      var i: nat :| OccursAt(p, " -> ", i);
      InnerArrow(src, suffix, i);
    } else if Has(src, " -> ") {
      ContainsSub(p, |EXTRACT|, |EXTRACT| + |src|, " -> ");
    }
  }

  lemma SidecarParts(src: string, suffix: string)
    requires IsSuffix(suffix)
    ensures var p := SidecarPath(src, suffix);
      |p| == |EXTRACT| + |src| + 7 && p[|EXTRACT|..|EXTRACT| + |src|] == src
      && (forall j :: 0 <= j < |EXTRACT| ==> p[j] != ' ') && forall j :: |EXTRACT| + |src| <= j < |p| ==> p[j] != ' '
  {
  }

  lemma InnerArrow(src: string, suffix: string, i: nat)
    requires IsSuffix(suffix) && OccursAt(SidecarPath(src, suffix), " -> ", i)
    ensures Contains(src, " -> ")
  {
    hide SidecarPath, IsSuffix;
    var p := SidecarPath(src, suffix);
    SidecarParts(src, suffix);
    SeparatorAt(p, i);
    assert |EXTRACT| <= i && i + 4 <= |EXTRACT| + |src|;
    SliceOfSlice(p, |EXTRACT|, |EXTRACT| + |src|, i - |EXTRACT|, i - |EXTRACT| + 4);
    assert OccursAt(src, " -> ", i - |EXTRACT|);
  }

  lemma EscapedSidecar(esc: char -> string, src: string, suffix: string)
    requires IsEscaping(esc) && IsSuffix(suffix)
    ensures Escaped(esc, SidecarPath(src, suffix)) == SidecarPath(Escaped(esc, src), suffix)
  {
    hide IsEscaping, IsPlainChar, Escaped, IsSuffix;
    EscapedConcat(esc, EXTRACT + src, suffix);
    EscapedConcat(esc, EXTRACT, src);
    ScaffoldPlain(suffix);
    EscapedPlain(esc, EXTRACT);
    EscapedPlain(esc, suffix);
  }

  lemma ScaffoldPlain(suffix: string)
    requires IsSuffix(suffix)
    ensures (forall c <- EXTRACT :: IsPlainChar(c)) && forall c <- suffix :: IsPlainChar(c)
  {
  }

  lemma {:induction false} QuotesTrimmed(s: string)
    requires s != "" && s[0] != '"' && s[|s| - 1] != '"'
    ensures TrimMatches(s, '"') == s && TrimMatches("\"" + s + "\"", '"') == s
  {
    var t := "\"" + s + "\"";
    assert t[1..] == s + "\"" && (s + "\"")[..|s|] == s;
    assert TrimMatches(t, '"') == TrimMatches(s + "\"", '"') == TrimMatches(s, '"');
  }

  /** Without a separator in it a sidecar's row is read as the name git wrote, escapes and all. */
  lemma NameAsWritten(esc: char -> string, r: Row, src: string, suffix: string)
    requires IsEscaping(esc) && IsSuffix(suffix) && r.path == SidecarPath(src, suffix) && !Has(src, " -> ")
    ensures |RowText(esc, r)| >= 4 && LinePath(RowText(esc, r)) == SidecarPath(Escaped(esc, src), suffix)
  {
    hide Has, Escaped, SidecarPath, TrimMatches, RowText;
    var e := Escaped(esc, r.path);
    NewName(esc, r);
    ArrowInSource(src, suffix);
    EscapedSidecar(esc, src, suffix);
    SidecarEnds(Escaped(esc, src), suffix);
    QuotesTrimmed(e);
    EscapedPlain(esc, r.path);
    NoArrowShown(esc, r.path);
    RowLong(esc, r);
  }

  lemma SidecarEnds(src: string, suffix: string)
    requires IsSuffix(suffix)
    ensures var p := SidecarPath(src, suffix); p != "" && p[0] == '.' && p[|p| - 1] == 'o'
  {
  }

  lemma RowLong(esc: char -> string, r: Row)
    requires Shown(esc, r.path) != ""
    ensures |RowText(esc, r)| >= 4
  {
  }

  lemma NoArrowShown(esc: char -> string, s: string)
    requires IsEscaping(esc) && !Has(s, " -> ")
    ensures AfterArrow(Shown(esc, s)) == Shown(esc, s)
  {
    hide Escaped;
    var t, e := Shown(esc, s), Escaped(esc, s);
    if Has(t, " -> ") {
      var i: nat :| OccursAt(t, " -> ", i);
      SeparatorAt(t, i);
      if !IsBare(s) {
        assert 0 < i && i + 3 < |t| - 1;
        assert t[1..|t| - 1] == e;
        SliceOfSlice(t, 1, |t| - 1, i - 1, i + 3);
        NoArrowMade(esc, s, i - 1);
      }
    }
  }

  lemma StemOf(src: string, suffix: string)
    requires IsSuffix(suffix)
    ensures var side := src + suffix; Stem(side, ".fm.spo") + Stem(side, ".md.spo") == {src}
  {
    var side := src + suffix;
    assert side[|side| - 7..] == suffix && side[..|side| - 7] == src;
    assert ".fm.spo"[1] != ".md.spo"[1];
  }

  /** No source that is found has a separator in its name. */
  lemma FoundHasNoArrow(line: string, src: string)
    requires src in SourcesOf(line)
    ensures !Has(src, " -> ")
  {
    hide TrimMatches, AfterArrow, Has;
    AfterArrowClean(line[3..]);
    TrimmedInside(AfterArrow(line[3..]), '"');
    var path := LinePath(line);
    assert src == path[|EXTRACT|..][..|src|] == path[|EXTRACT|..|EXTRACT| + |src|];
    if Has(src, " -> ") {
      ContainsSub(path, |EXTRACT|, |EXTRACT| + |src|, " -> ");
      ContainsTransitive(AfterArrow(line[3..]), path, " -> ");
    }
  }

  lemma {:induction false} TrimmedInside(s: string, c: char)
    ensures Contains(s, TrimMatches(s, c))
  {
    if s != "" && s[0] == c {
      TrimmedInside(s[1..], c);
      assert s[1..] == s[1..|s|];
      ContainsSub(s, 1, |s|, TrimMatches(s, c));
    } else if s != "" && s[|s| - 1] == c {
      TrimmedInside(s[..|s| - 1], c);
      assert s[..|s| - 1] == s[0..|s| - 1];
      ContainsSub(s, 0, |s| - 1, TrimMatches(s, c));
    } else {
      assert OccursAt(s, s, 0);
    }
  }

  /** The row of a source's sidecar, renamed or not and whatever its status letters, gives the source exactly when
      git writes the source's name without an escape and there is no ` -> ` in it. */
  lemma SourceFoundIff(esc: char -> string, r: Row, src: string, suffix: string)
    requires IsEscaping(esc) && IsSuffix(suffix) && r.path == SidecarPath(src, suffix)
    ensures src in SourcesOf(RowText(esc, r)) <==> IsPlainName(src)
  {
    hide Has, Escaped, RowText, LinePath, Stem;
    if Has(src, " -> ") {
      if src in SourcesOf(RowText(esc, r)) {
        FoundHasNoArrow(RowText(esc, r), src);
      }
    } else {
      NameAsWritten(esc, r, src, suffix);
      StemOf(Escaped(esc, src), suffix);
      EscapedPlain(esc, src);
      assert SidecarPath(Escaped(esc, src), suffix)[|EXTRACT|..] == Escaped(esc, src) + suffix;
    }
  }

  // ----- the sidecars a walk leaves -----

  predicate SameSidecars(a: Disk, b: Disk, p: string) {
    (p in a.fm <==> p in b.fm) && (p in a.fm ==> a.fm[p] == b.fm[p])
    && (p in a.md <==> p in b.md) && (p in a.md ==> a.md[p] == b.md[p])
  }

  /** A document that is served, or cannot be read, keeps its sidecars; any other gets those of its extraction. */
  predicate SidecarsAfter(env: Env, before: Disk, disk: Disk, p: string) {
    if !IsReadable(env.tree, p) || IsServed(env, before, p) || !env.opts.writeSidecars
    then SameSidecars(before, disk, p)
    else SidecarsMatch(disk, p, ExtractNow(env.pipe, env.tree, env.ctx, p))
  }

  lemma EmitSidecars(env: Env, st: State, p: string)
    requires IsReadable(env.tree, p)
    ensures var content := env.tree.content[p].value;
      var disk := Emit(env, st, p, content, env.pipe.hash(content),
                       MdLinks(env.pipe, p, content, MdIndex(env.tree.files))).disk;
      if env.opts.writeSidecars then SidecarsMatch(disk, p, ExtractNow(env.pipe, env.tree, env.ctx, p))
      else SameSidecars(st.disk, disk, p)
  {
    hide Extract, MdLinks, QuadLines;
  }

  lemma ProcessSidecars(env: Env, before: Disk, st: State, p: string)
    requires SameAt(before, st.disk, p)
    ensures SidecarsAfter(env, before, Process(env, st, p, Prepare(env, p)).disk, p)
  {
    hide Extract, MdLinks, QuadLines, IsMentioned, Emit, SidecarsMatch;
    if IsReadable(env.tree, p) {
      EmitSidecars(env, st, p);
      if p in env.cache.rows {
        EmitSidecars(env, st.(proven := st.proven[p := env.cache.rows[p]]), p);
      }
    }
  }

  lemma SidecarsFrame(env: Env, before: Disk, a: Disk, b: Disk, p: string)
    requires SidecarsAfter(env, before, a, p) && SameAt(a, b, p)
    ensures SidecarsAfter(env, before, b, p)
  {
    hide ExtractNow, IsServed;
  }

  ghost predicate SidecarInv(env: Env, before: Disk, st: State, done: seq<string>) {
    Untouched(before, st.disk, done) && (!env.opts.buildNquads ==> st.nq == "")
    && forall p <- done :: SidecarsAfter(env, before, st.disk, p)
  }

  lemma SidecarStep(env: Env, before: Disk, st: State, done: seq<string>, p: string)
    requires SidecarInv(env, before, st, done) && p !in done
    ensures SidecarInv(env, before, Process(env, st, p, Prepare(env, p)), done + [p])
  {
    hide Process, Prepare, SameAt, SidecarsAfter, Given;
    var next := Process(env, st, p, Prepare(env, p));
    ProcessGives(env, before, st, p);
    ProcessSidecars(env, before, st, p);
    UntouchedBoth(before, st.disk, next.disk, done, p);
    forall q | q in done
      ensures SidecarsAfter(env, before, next.disk, q)
    {
      assert q !in [p];
      SidecarsFrame(env, before, st.disk, next.disk, q);
    }
  }

  lemma {:induction false} SidecarRun(env: Env, before: Disk, st: State, done: seq<string>, rest: seq<string>)
    requires SidecarInv(env, before, st, done)
    requires forall i, j :: 0 <= i < j < |done + rest| ==> (done + rest)[i] != (done + rest)[j]
    ensures SidecarInv(env, before, OneAtATime(env, st, rest), done + rest)
    decreases |rest|
  {
    if rest == [] {
      assert done + rest == done;
    } else {
      hide Process, SidecarInv, Prepare;
      NextIsNew(done, rest);
      SidecarStep(env, before, st, done, rest[0]);
      NextMoved(done, rest);
      SidecarRun(env, before, Process(env, st, rest[0], Prepare(env, rest[0])), done + [rest[0]], rest[1..]);
    }
  }

  lemma SidecarStart(env: Env, disk: Disk)
    ensures SidecarInv(env, disk, State("", 0, 0, map[], disk), [])
  {
  }

  /** Whatever the cache and the disk hold: a walk that writes sidecars leaves those of each document it does not
      serve equal to the document's extraction, and those of the others as they were. */
  lemma WalkSidecars(pipe: Pipeline, t: Tree, ctx: Context, disk: Disk, opts: Opts, forced: set<string>,
                     forceFull: bool)
    requires IsTree(t)
    ensures var disk' := WalkOnce(pipe, t, ctx, disk, opts, forced, forceFull).1;
      forall p <- t.files :: SidecarsAfter(EnvFor(pipe, t, ctx, disk, opts, forced, forceFull), disk, disk', p)
  {
    hide SidecarsAfter, Load;
    var env := EnvFor(pipe, t, ctx, disk, opts, forced, forceFull);
    SidecarStart(env, disk);
    assert [] + t.files == t.files;
    SidecarRun(env, disk, State("", 0, 0, map[], disk), [], t.files);
    var st := OneAtATime(env, State("", 0, 0, map[], disk), t.files);
    forall p | p in t.files
      ensures SidecarsAfter(env, disk, Save(env, st), p)
    {
      SavedSidecars(env, disk, st, p);
    }
  }

  lemma SavedSidecars(env: Env, before: Disk, st: State, p: string)
    requires SidecarsAfter(env, before, st.disk, p)
    ensures SidecarsAfter(env, before, Save(env, st), p)
  {
    hide ExtractNow, IsServed;
  }

  // ----- dirty sidecars -----

  /** A document whose sidecar git lists, by a plain name, is forced: the walk that reads that status leaves its
      sidecars equal to its extraction, whatever was in them, in the cache or in the manifest. */
  lemma DirtySidecarRewritten(pipe: Pipeline, t: Tree, ctx: Context, disk: Disk, opts: Opts, status: string,
                              esc: char -> string, r: Row, p: string, suffix: string)
    requires IsTree(t) && p in t.files && IsReadable(t, p) && opts.writeSidecars
    requires IsEscaping(esc) && IsSuffix(suffix) && r.path == SidecarPath(p, suffix) && IsPlainName(p)
    requires RowText(esc, r) in Lines(status)
    ensures SidecarsMatch(WalkOnce(pipe, t, ctx, disk, opts, Sources(Lines(status)), false).1, p,
                          ExtractNow(pipe, t, ctx, p))
  {
    hide ExtractNow, WalkOnce, SidecarsMatch, IsPlainName, RowText, Sources, SourcesOf, Lines, Load;
    SourceFoundIff(esc, r, p, suffix);
    SourcesHold(Lines(status), RowText(esc, r));
    WalkSidecars(pipe, t, ctx, disk, opts, Sources(Lines(status)), false);
    ForcedNotServed(EnvFor(pipe, t, ctx, disk, opts, Sources(Lines(status)), false), disk, p);
  }

  lemma ForcedNotServed(env: Env, disk: Disk, p: string)
    ensures p in env.forced ==> !IsServed(env, disk, p)
    ensures p !in env.forced ==> (IsServed(env, disk, p) <==> IsServed(env.(forced := {}), disk, p))
  {
    hide IsMentioned, MdLinks;
  }

  /** A document the cache would serve has wrong sidecars, and git lists one of them. The walk puts them right
      exactly when the document's name is plain: with a quote, a backslash, a letter outside ASCII or ` -> ` in it
      the row is read as another name and the sidecars stay as they are. */
  lemma DirtyRewrittenIff(pipe: Pipeline, t: Tree, ctx: Context, disk: Disk, opts: Opts, status: string,
                          esc: char -> string, r: Row, p: string, suffix: string)
    requires IsTree(t) && p in t.files && IsReadable(t, p) && opts.writeSidecars
    requires IsEscaping(esc) && IsSuffix(suffix) && r.path == SidecarPath(p, suffix)
      && Lines(status) == [RowText(esc, r)]
    requires IsServed(EnvFor(pipe, t, ctx, disk, opts, {}, false), disk, p)
    requires !SidecarsMatch(disk, p, ExtractNow(pipe, t, ctx, p))
    ensures var disk' := WalkOnce(pipe, t, ctx, disk, opts, Sources(Lines(status)), false).1;
      SidecarsMatch(disk', p, ExtractNow(pipe, t, ctx, p)) <==> IsPlainName(p)
  {
    hide ExtractNow, WalkOnce, SidecarsMatch, IsPlainName, RowText, SourcesOf, Lines, Load, IsServed;
    var forced := Sources(Lines(status));
    assert forced == {} + SourcesOf(RowText(esc, r)) by { OneRow(RowText(esc, r)); }
    SourceFoundIff(esc, r, p, suffix);
    WalkSidecars(pipe, t, ctx, disk, opts, forced, false);
    var env := EnvFor(pipe, t, ctx, disk, opts, forced, false);
    ForcedNotServed(env, disk, p);
    assert env.(forced := {}) == EnvFor(pipe, t, ctx, disk, opts, {}, false);
    if p !in forced {
      SameSidecarsMatch(disk, WalkOnce(pipe, t, ctx, disk, opts, forced, false).1, p, ExtractNow(pipe, t, ctx, p));
    }
  }

  lemma OneRow(line: string)
    ensures Sources([line]) == {} + SourcesOf(line)
  {
    assert [line][..0] == [];
  }

  lemma SameSidecarsMatch(a: Disk, b: Disk, p: string, x: Extraction)
    requires SameSidecars(a, b, p)
    ensures SidecarsMatch(a, p, x) <==> SidecarsMatch(b, p, x)
  {
  }
}
