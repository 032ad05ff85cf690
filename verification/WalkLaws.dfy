/** What a full walk comes to, said from the parts it is made of -- the frontmatter reader, the Markdown parser and the
    emitter -- and not from the walk's own bookkeeping. */
module WalkLaws {
  import opened Wrappers
  import opened Text
  import opened Links
  import opened Walk
  import opened WalkCorrect
  import Sorting

  // ----- one document, from its parts -----

  /** The last segment of the path begins at `i`. */
  predicate IsNameStart(p: string, i: nat)
    requires i <= |p|
  {
    (i == 0 || p[i - 1] == '/') && '/' !in p[i..]
  }

  /** A Markdown file that is no kit's template: its name ends in `.md` and does not begin with `__`. */
  predicate IsOwnDocument(p: string) {
    EndsWith(p, ".md") && forall i :: 0 <= i <= |p| && IsNameStart(p, i) ==> !StartsWith(p[i..], "__")
  }

  function OwnDocuments(files: seq<string>): set<string> {
    set p | p in files && IsOwnDocument(p)
  }

  lemma OwnDocumentIff(p: string)
    ensures IsMarkdown(p) <==> IsOwnDocument(p)
  {
    hide Split;
    var name := FileName(p);
    var k := NameAt(p);
    MdHasNoSlash(p);
    assert k <= |p| - 3 ==> name[|name| - 3..] == p[|p| - 3..];
    forall i | 0 <= i <= |p| && IsNameStart(p, i) ensures i == k {
      OneNameStart(p, i, k);
    }
  }

  lemma OneNameStart(p: string, i: nat, k: nat)
    requires i <= |p| && k <= |p| && IsNameStart(p, i) && IsNameStart(p, k)
    ensures i == k
  {
    AllInTail(p, i);
    AllInTail(p, k);
  }

  lemma AllInTail(p: string, i: nat)
    requires i <= |p|
    ensures forall j :: i <= j < |p| ==> p[j] in p[i..]
  {
    assert forall j :: i <= j < |p| ==> p[j] == p[i..][j - i];
  }

  lemma MdHasNoSlash(p: string)
    ensures EndsWith(p, ".md") ==> |p| >= 3 && forall j :: |p| - 3 <= j < |p| ==> p[j] != '/'
  {
    assert |p| >= 3 ==> forall j :: |p| - 3 <= j < |p| ==> p[j] == p[|p| - 3..][j - (|p| - 3)];
  }

  lemma NameAt(p: string) returns (k: nat)
    ensures k <= |p| && IsNameStart(p, k) && p[k..] == FileName(p)
  {
    hide Split;
    if '/' in p {
      k := LastIndexOf(p, '/') + 1;
      var before, name := p[..k - 1], p[k..];
      assert p == before + ['/'] + name;
      SplitAt(before, '/', name);
      NothingToSplit(name, '/');
      assert (Split(before, '/') + [name])[|Split(before, '/')|] == name;
    } else {
      k := 0;
      NothingToSplit(p, '/');
      assert p[0..] == p;
    }
  }

  lemma OwnDocumentsAre(files: seq<string>)
    ensures MdIndex(files) == OwnDocuments(files)
  {
    hide IsMarkdown, IsOwnDocument;
    forall p | p in files ensures IsMarkdown(p) <==> IsOwnDocument(p) {
      OwnDocumentIff(p);
    }
  }

  /** What git's index or HEAD holds for the file, if anything. */
  function IndexHash(t: Tree, p: string): string {
    if p in t.index then t.index[p] else ""
  }

  /** The frontmatter lines, sorted and each once, and then the links in document order. */
  function DocLines(pipe: Pipeline, t: Tree, p: string): seq<string>
    requires IsReadable(t, p)
  {
    var content := t.content[p].value;
    Sorting.SortDedup(pipe.frontmatter(content).0)
    + match pipe.parse(content)
      case Some(nodes) => if IsOwnDocument(p) then LinkLines(nodes, p, OwnDocuments(t.files)) else []
      case None => []
  }

  function DocText(pipe: Pipeline, t: Tree, ctx: Context, p: string): string
    requires IsReadable(t, p)
  {
    pipe.emit(ctx, p, IndexHash(t, p), DocLines(pipe, t, p)).0
  }

  /** The YAML errors, one more for Markdown that could not be parsed, and the emitter's. */
  function DocErrors(pipe: Pipeline, t: Tree, ctx: Context, p: string): nat
    requires IsReadable(t, p)
  {
    var content := t.content[p].value;
    pipe.frontmatter(content).1 + (if IsOwnDocument(p) && pipe.parse(content).None? then 1 else 0)
    + pipe.emit(ctx, p, IndexHash(t, p), DocLines(pipe, t, p)).1
  }

  /** The link lines, sorted and each once. */
  function DocLinks(pipe: Pipeline, t: Tree, p: string): seq<string>
    requires IsReadable(t, p)
  {
    match pipe.parse(t.content[p].value)
    case Some(nodes) => if IsOwnDocument(p) then Sorting.SortDedup(LinkLines(nodes, p, OwnDocuments(t.files))) else []
    case None => []
  }

  /** The document is read without any error. */
  predicate IsClean(pipe: Pipeline, t: Tree, ctx: Context, p: string) {
    IsReadable(t, p) && DocErrors(pipe, t, ctx, p) == 0
  }

  lemma ExtractionIs(pipe: Pipeline, t: Tree, ctx: Context, p: string)
    requires IsReadable(t, p)
    ensures var x := ExtractNow(pipe, t, ctx, p);
      x.frag == DocText(pipe, t, ctx, p) && x.errors == DocErrors(pipe, t, ctx, p)
      && x.fm == Sorting.SortDedup(pipe.frontmatter(t.content[p].value).0)
      && LinkCount(x) == |DocLinks(pipe, t, p)|
      && x.md == (if IsOwnDocument(p) && pipe.parse(t.content[p].value).Some? then Some(DocLinks(pipe, t, p)) else None)
  {
    hide Sorting.SortDedup, LinkLines, IsMarkdown, IsOwnDocument;
    OwnDocumentIff(p);
    OwnDocumentsAre(t.files);
    var fm := Sorting.SortDedup(pipe.frontmatter(t.content[p].value).0);
    assert fm + [] == fm;
  }

  // ----- all documents -----

  function ErrorSum(pipe: Pipeline, t: Tree, ctx: Context, files: seq<string>): nat {
    if files == [] then 0
    else
      var p := files[|files| - 1];
      ErrorSum(pipe, t, ctx, files[..|files| - 1]) + if IsReadable(t, p) then DocErrors(pipe, t, ctx, p) else 1
  }

  function AllText(pipe: Pipeline, t: Tree, ctx: Context, files: seq<string>): string {
    if files == [] then ""
    else
      var p := files[|files| - 1];
      AllText(pipe, t, ctx, files[..|files| - 1]) + if IsReadable(t, p) then DocText(pipe, t, ctx, p) else ""
  }

  /** The non-empty lines of every document's text. */
  function FactSum(pipe: Pipeline, t: Tree, ctx: Context, files: seq<string>): nat {
    if files == [] then 0
    else
      var p := files[|files| - 1];
      FactSum(pipe, t, ctx, files[..|files| - 1])
      + if IsReadable(t, p) then |NonEmptyLines(Lines(DocText(pipe, t, ctx, p)))| else 0
  }

  function NonEmptyLines(lines: seq<string>): seq<string> {
    if lines == [] then [] else (if lines[0] == "" then [] else [lines[0]]) + NonEmptyLines(lines[1..])
  }

  lemma {:induction false} CountIs(lines: seq<string>)
    ensures CountNonEmpty(lines) == |NonEmptyLines(lines)|
  {
    if lines != [] {
      CountIs(lines[1..]);
    }
  }

  lemma {:induction false} AnswerIs(pipe: Pipeline, t: Tree, ctx: Context, build: bool, files: seq<string>)
    ensures Answer(pipe, t, ctx, build, files) == Outcome(
      if build then AllText(pipe, t, ctx, files) else "", ErrorSum(pipe, t, ctx, files), FactSum(pipe, t, ctx, files))
  {
    hide ExtractNow, DocText, DocErrors, NonEmptyLines, CountNonEmpty, Lines;
    if files != [] {
      var p := files[|files| - 1];
      AnswerIs(pipe, t, ctx, build, files[..|files| - 1]);
      if IsReadable(t, p) {
        ExtractionIs(pipe, t, ctx, p);
        CountIs(Lines(DocText(pipe, t, ctx, p)));
      }
    }
  }

  /** Any walk that may be trusted -- a forced full one from any disk, or a cached one whose served documents are
      settled and untouched -- answers every document's text in order, the sum of their errors and of their lines. */
  lemma WalkComesTo(pipe: Pipeline, t: Tree, ctx: Context, disk: Disk, opts: Opts, forced: set<string>, forceFull: bool,
                    ns: string, suspects: set<string>)
    requires IsPipeline(pipe) && CacheSound(pipe, disk, ns, suspects)
    requires MayWalk(pipe, t, ctx, disk, opts, forced, forceFull, ns, suspects)
    ensures WalkOnce(pipe, t, ctx, disk, opts, forced, forceFull).0 == Outcome(
      if opts.buildNquads then AllText(pipe, t, ctx, t.files) else "",
      ErrorSum(pipe, t, ctx, t.files), FactSum(pipe, t, ctx, t.files))
  {
    hide WalkOnce, Answer, AllText, ErrorSum, FactSum, CacheSound, MayWalk;
    WalkIsAnswer(pipe, t, ctx, disk, opts, forced, forceFull, ns, suspects);
    AnswerIs(pipe, t, ctx, opts.buildNquads, t.files);
  }

  /** With sidecars written, a document's two files hold exactly its frontmatter lines and its link lines, each once
      and in order, and are not there when there are none. */
  lemma SidecarsHold(pipe: Pipeline, t: Tree, ctx: Context, disk: Disk, opts: Opts, forced: set<string>,
                     forceFull: bool, ns: string, suspects: set<string>, p: string)
    requires IsPipeline(pipe) && CacheSound(pipe, disk, ns, suspects) && opts.writeSidecars
    requires MayWalk(pipe, t, ctx, disk, opts, forced, forceFull, ns, suspects)
    requires p in t.files && IsReadable(t, p)
    ensures var after := WalkOnce(pipe, t, ctx, disk, opts, forced, forceFull).1;
      SidecarIs(after.fm, p, Sorting.SortDedup(pipe.frontmatter(t.content[p].value).0))
      && (IsOwnDocument(p) && pipe.parse(t.content[p].value).Some? ==> SidecarIs(after.md, p, DocLinks(pipe, t, p)))
  {
    hide WalkOnce, Answer, CacheSound, MayWalk, ExtractNow, DocLinks, SidecarIs, Sorting.SortDedup;
    WalkIsAnswer(pipe, t, ctx, disk, opts, forced, forceFull, ns, suspects);
    assert SidecarsCurrent(pipe, t, ctx, WalkOnce(pipe, t, ctx, disk, opts, forced, forceFull).1, p);
    ExtractionIs(pipe, t, ctx, p);
  }

  // ----- which documents the cache may serve next time -----

  /** What a walk that served nothing writes down about a document. */
  function RowOf(env: Env, p: string): Entry
    requires IsReadable(env.tree, p)
  {
    Entry(env.pipe.hash(env.tree.content[p].value), IndexHash(env.tree, p), |DocLinks(env.pipe, env.tree, p)|,
          |NonEmptyLines(Lines(DocText(env.pipe, env.tree, env.ctx, p)))|, env.opts.writeSidecars)
  }

  ghost predicate RowsAre(env: Env, st: State, done: seq<string>) {
    (forall p :: p in st.proven <==> p in done && IsClean(env.pipe, env.tree, env.ctx, p))
    && forall p <- st.proven :: RowIs(env, st, p)
  }

  predicate RowIs(env: Env, st: State, p: string)
    requires p in st.proven
  {
    IsReadable(env.tree, p) && st.proven[p] == RowOf(env, p)
    && p in st.disk.frags && st.disk.frags[p] == DocText(env.pipe, env.tree, env.ctx, p)
  }

  lemma EmittedRow(env: Env, st: State, p: string)
    requires IsReadable(env.tree, p)
    ensures var content := env.tree.content[p].value;
      var st' := Emit(env, st, p, content, env.pipe.hash(content),
                      MdLinks(env.pipe, p, content, MdIndex(env.tree.files)));
      if IsClean(env.pipe, env.tree, env.ctx, p)
      then st'.proven == st.proven[p := RowOf(env, p)]
           && st'.disk.frags == st.disk.frags[p := DocText(env.pipe, env.tree, env.ctx, p)]
      else st'.proven == st.proven && st'.disk.frags == st.disk.frags
  {
    hide MdLinks, DocText, DocErrors, NonEmptyLines, CountNonEmpty, Lines, DocLinks, Extract, LinkCount;
    ExtractionIs(env.pipe, env.tree, env.ctx, p);
    CountIs(Lines(DocText(env.pipe, env.tree, env.ctx, p)));
  }

  lemma FreshStep(env: Env, st: State, done: seq<string>, p: string)
    requires env.cache == EmptyCache && RowsAre(env, st, done) && p !in done
    ensures RowsAre(env, Process(env, st, p, Prepare(env, p)), done + [p])
  {
    hide MdLinks, DocText, RowOf, IsClean, Emit, IsMentioned;
    var st' := Process(env, st, p, Prepare(env, p));
    if IsReadable(env.tree, p) {
      EmittedRow(env, st, p);
    } else {
      CleanIsReadable(env, p);
    }
    assert forall q :: q in done + [p] <==> q in done || q == p;
    forall q | q in st'.proven
      ensures RowIs(env, st', q)
    {
      if q != p {
        assert RowIs(env, st, q);
      }
    }
  }

  lemma CleanIsReadable(env: Env, p: string)
    ensures IsClean(env.pipe, env.tree, env.ctx, p) ==> IsReadable(env.tree, p)
  {
  }

  lemma {:induction false} FreshRun(env: Env, st: State, done: seq<string>, rest: seq<string>)
    requires env.cache == EmptyCache && RowsAre(env, st, done)
    requires forall i, j :: 0 <= i < j < |done + rest| ==> (done + rest)[i] != (done + rest)[j]
    ensures RowsAre(env, OneAtATime(env, st, rest), done + rest)
    decreases |rest|
  {
    if rest == [] {
      assert done + rest == done;
    } else {
      hide Process, RowsAre, Prepare;
      NextIsNew(done, rest);
      FreshStep(env, st, done, rest[0]);
      NextMoved(done, rest);
      FreshRun(env, Process(env, st, rest[0], Prepare(env, rest[0])), done + [rest[0]], rest[1..]);
    }
  }

  /** Exactly the documents read without an error have a row, what was found of them, and their text. */
  ghost predicate HasRows(env: Env, disk: Disk) {
    disk.manifest.Some? && disk.manifest.value.ctx == env.ctx.hash
    && disk.frags.Keys == disk.manifest.value.rows.Keys
    && (forall p :: p in disk.manifest.value.rows <==> p in env.tree.files && IsClean(env.pipe, env.tree, env.ctx, p))
    && forall p <- disk.manifest.value.rows :: IsReadable(env.tree, p)
         && disk.manifest.value.rows[p] == RowOf(env, p)
         && disk.frags[p] == DocText(env.pipe, env.tree, env.ctx, p)
  }

  lemma SavedRows(env: Env, st: State)
    requires RowsAre(env, st, env.tree.files)
    ensures HasRows(env, Save(env, st))
  {
    hide RowOf, IsClean, DocText, Sorting.SortDedup, IsReadable;
    assert forall p <- st.proven :: RowIs(env, st, p);
  }

  /** The manifest and the fragments a forced full walk leaves, from any disk. */
  lemma FullWalkRows(pipe: Pipeline, t: Tree, ctx: Context, disk: Disk, opts: Opts, forced: set<string>)
    requires IsTree(t)
    ensures HasRows(EnvFor(pipe, t, ctx, disk, opts, forced, true), WalkOnce(pipe, t, ctx, disk, opts, forced, true).1)
  {
    hide OneAtATime, RowIs, IsClean, Save, HasRows, Load;
    var env := EnvFor(pipe, t, ctx, disk, opts, forced, true);
    var start := State("", 0, 0, map[], disk);
    assert RowsAre(env, start, []);
    assert [] + t.files == t.files;
    FreshRun(env, start, [], t.files);
    SavedRows(env, OneAtATime(env, start, t.files));
  }

  // ----- a cached walk -----

  /** Only documents read without an error are proven. */
  ghost predicate OnlyClean(env: Env, st: State, done: seq<string>) {
    forall p <- st.proven :: p in done && IsClean(env.pipe, env.tree, env.ctx, p)
  }

  lemma CleanStep(env: Env, disk0: Disk, st: State, done: seq<string>, p: string)
    requires UsableAt(env, disk0, p) && SameAt(disk0, st.disk, p) && OnlyClean(env, st, done)
    ensures OnlyClean(env, Process(env, st, p, Prepare(env, p)), done + [p])
  {
    hide MdLinks, IsClean, Emit, IsMentioned, Extract, UsableAt, SameAt, Hit;
    assert forall q <- done :: q in done + [p];
    assert p in done + [p];
    match Prepare(env, p) {
      case Unreadable =>
      case Changed(_, _, _) => EmittedRow(env, st, p);
      case Unchanged(bytesHash) =>
        HitIs(env, disk0, st, p, bytesHash);
        HitIsClean(env, disk0, p);
        EmittedRow(env, st, p);
        EmittedRow(env, st.(proven := st.proven[p := env.cache.rows[p]]), p);
    }
  }

  lemma HitIsClean(env: Env, disk0: Disk, p: string)
    requires UsableAt(env, disk0, p) && IsReadable(env.tree, p)
    ensures IsHit(env, disk0, p) ==> IsClean(env.pipe, env.tree, env.ctx, p)
  {
    hide DocErrors, RowFrom, Prepare;
    ExtractionIs(env.pipe, env.tree, env.ctx, p);
  }

  lemma {:induction false} CleanRun(env: Env, disk0: Disk, st: State, done: seq<string>, rest: seq<string>)
    requires CacheUsable(env, disk0, rest) && Untouched(disk0, st.disk, done) && OnlyClean(env, st, done)
    requires !env.opts.buildNquads ==> st.nq == ""
    requires forall i, j :: 0 <= i < j < |done + rest| ==> (done + rest)[i] != (done + rest)[j]
    ensures OnlyClean(env, OneAtATime(env, st, rest), done + rest)
    decreases |rest|
  {
    if rest == [] {
      assert done + rest == done;
    } else {
      hide Process, Prepare, SameAt, UsableAt, IsClean, StepDone;
      var p := rest[0];
      NextIsNew(done, rest);
      assert p in rest && forall q <- rest[1..] :: q in rest;
      CleanStep(env, disk0, st, done, p);
      ProcessDone(env, disk0, st, p);
      var st' := Process(env, st, p, Prepare(env, p));
      DoneOnlyAt(env, st, st', p);
      UntouchedExtends(disk0, st, st', done, p);
      NextMoved(done, rest);
      CleanRun(env, disk0, st', done + [p], rest[1..]);
    }
  }

  lemma DoneOnlyAt(env: Env, st: State, st': State, p: string)
    requires StepDone(env, st, st', p) && (!env.opts.buildNquads ==> st.nq == "")
    ensures OnlyAt(st, st', p) && (!env.opts.buildNquads ==> st'.nq == "")
  {
    hide ExtractNow, SidecarsMatch, RowGood;
  }

  /** No walk that may be trusted leaves a row, and so anything to serve later, for a document with an error: the
      error is reported again on every walk until it is gone. */
  lemma ErrorsStayLoud(pipe: Pipeline, t: Tree, ctx: Context, disk: Disk, opts: Opts, forced: set<string>,
                       forceFull: bool, ns: string, suspects: set<string>, p: string)
    requires IsPipeline(pipe) && CacheSound(pipe, disk, ns, suspects)
    requires MayWalk(pipe, t, ctx, disk, opts, forced, forceFull, ns, suspects)
    requires !IsClean(pipe, t, ctx, p)
    ensures var after := WalkOnce(pipe, t, ctx, disk, opts, forced, forceFull).1;
      after.manifest.Some? && p !in after.manifest.value.rows && p !in after.frags
  {
    hide OneAtATime, IsClean, CacheSound, MayServe, Load, CacheUsable, SameAt;
    var env := EnvFor(pipe, t, ctx, disk, opts, forced, forceFull);
    if forceFull {
      EmptyCacheUsable(env, disk);
    } else {
      ServableUsable(env, disk, ns, suspects);
    }
    var start := State("", 0, 0, map[], disk);
    StartInv(env, disk);
    assert [] + t.files == t.files;
    CleanRun(env, disk, start, [], t.files);
  }

  /** A document is served from the cache exactly when the walk is not forced past it, its bytes and its hash in git's
      index are the cached ones, it mentions no name that came or went, and everything asked for is there. */
  lemma ServedIff(env: Env, disk: Disk, p: string)
    ensures IsServed(env, disk, p) <==>
      !env.forceFull && p !in env.forced && p in env.cache.rows && IsReadable(env.tree, p)
      && env.cache.rows[p].bytesHash == env.pipe.hash(env.tree.content[p].value)
      && env.cache.rows[p].indexHash == IndexHash(env.tree, p)
      && !MentionedIn(env.cache.changedNames, env.tree.content[p].value)
      && (env.opts.buildNquads ==> p in disk.frags)
      && (env.opts.writeSidecars ==> env.cache.rows[p].sidecars)
  {
    hide MdLinks, MentionedIn;
  }
}
