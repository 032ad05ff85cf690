/** The working-tree walk of src/nquad.rs over the walk cache of src/walkcache.rs: preparation of
    a chunk of documents in parallel, then emission, cache bookkeeping and sidecar writes in file
    order. */
module Walk {
  import opened Wrappers
  import opened Text
  import opened Links
  import Paths
  import Sorting
  import ParallelMap

  // ----- what the walk reads and writes -----

  /** The code outside the model, as functions of what it reads. `hash` is git's blob hash;
      `frontmatter` gives a document's flattened frontmatter lines and its YAML errors; `parse` is
      the markdown parser (None: it gave up); `emit` turns a document's lines into its N-Quads
      and its resolution errors, in a context. */
  datatype Pipeline = Pipeline(
    hash: string -> string,
    frontmatter: string -> (seq<string>, nat),
    parse: string -> Option<seq<Node>>,
    emit: (Context, string, string, seq<string>) -> (string, nat))

  /** What every document's output depends on besides the document: the build and the installed ontologies,
      which `context_hash` covers, and the namespace under `resource_base`, which it does not. */
  datatype Context = Context(hash: string, ns: string)

  /** The documents in walk order, their text (None: unreadable), and the blob hashes git's index
      or HEAD holds for them. */
  datatype Tree = Tree(files: seq<string>, content: map<string, Option<string>>, index: map<string, string>)

  datatype Entry = Entry(bytesHash: string, indexHash: string, links: nat, quads: nat, sidecars: bool)

  datatype Manifest = Manifest(ctx: string, filesHash: string, rows: map<string, Entry>)

  /** `.lex/_ignore/walkcache/` (files.tsv, manifest.tsv, frag/) and the sidecars. */
  datatype Disk = Disk(
    filesTsv: Option<string>,
    manifest: Option<Manifest>,
    frags: map<string, string>,
    fm: map<string, string>,
    md: map<string, string>)

  datatype Opts = Opts(writeSidecars: bool, buildNquads: bool)

  predicate IsMarkdown(rel: string) {
    var name := FileName(rel);
    EndsWith(name, ".md") && !StartsWith(name, "__")
  }

  function MdIndex(files: seq<string>): set<string> {
    set p | p in files && IsMarkdown(p)
  }

  predicate IsTree(t: Tree) {
    (forall i, j :: 0 <= i < j < |t.files| ==> t.files[i] != t.files[j])
    && (forall p <- t.files :: p in t.content)
    && (forall p <- t.files :: IsLine(p) && StripCR(p) == p && p != "")
  }

  function BlobHash(t: Tree, p: string): string {
    if p in t.index then t.index[p] else ""
  }

  // ----- extraction of one document -----

  datatype Extraction = Extraction(fm: seq<string>, md: Option<seq<string>>, frag: string, errors: nat)

  /** The markdown half: None when the document is not markdown, Some(None) when the parser gave up. */
  function MdLinks(pipe: Pipeline, p: string, content: string, mdIndex: set<string>): Option<Option<seq<string>>> {
    if !IsMarkdown(p) then None
    else match pipe.parse(content)
      case None => Some(None)
      case Some(nodes) => Some(Some(LinkLines(nodes, p, mdIndex)))
  }

  function LinksOf(mdLinks: Option<Option<seq<string>>>): seq<string> {
    match mdLinks case Some(Some(l)) => l case _ => []
  }

  function Extract(pipe: Pipeline, ctx: Context, p: string, content: string, blobHash: string,
                   mdLinks: Option<Option<seq<string>>>): Extraction {
    var (raw, yamlErrors) := pipe.frontmatter(content);
    var fm := Sorting.SortDedup(raw);
    var links := LinksOf(mdLinks);
    var (frag, emitErrors) := pipe.emit(ctx, p, blobHash, fm + links);
    var parseErrors := if mdLinks == Some(None) then 1 else 0;
    Extraction(fm, if mdLinks.Some? && mdLinks.value.Some? then Some(Sorting.SortDedup(links)) else None,
               frag, yamlErrors + parseErrors + emitErrors)
  }

  function ExtractAt(pipe: Pipeline, ctx: Context, p: string, content: string, blobHash: string, mdIndex: set<string>)
    : Extraction
  {
    Extract(pipe, ctx, p, content, blobHash, MdLinks(pipe, p, content, mdIndex))
  }

  function LinkCount(x: Extraction): nat {
    if x.md.Some? then |x.md.value| else 0
  }

  /** Non-empty lines of a fragment. */
  function QuadLines(frag: string): nat {
    CountNonEmpty(Lines(frag))
  }

  function CountNonEmpty(lines: seq<string>): nat {
    if lines == [] then 0 else (if lines[0] == "" then 0 else 1) + CountNonEmpty(lines[1..])
  }

  /** `write_sidecar_loud` / `remove_sidecar_loud`: a sidecar holds its lines, and does not exist without any. */
  function PutSidecar(sidecars: map<string, string>, p: string, lines: seq<string>): map<string, string> {
    if lines != [] then sidecars[p := Unlines(lines)] else sidecars - {p}
  }

  predicate SidecarIs(sidecars: map<string, string>, p: string, lines: seq<string>) {
    if lines != [] then p in sidecars && sidecars[p] == Unlines(lines) else p !in sidecars
  }

  // ----- loading the cache -----

  /** The cache as one run sees it: the rows it may trust and the names that came or went. */
  datatype Loaded = Loaded(rows: map<string, Entry>, changedNames: set<string>)

  const EmptyCache := Loaded(map[], {})

  /** `WalkCache::load`, or the empty cache when it refuses. */
  function Load(pipe: Pipeline, disk: Disk, ctx: Context, files: seq<string>): Loaded {
    if disk.manifest.None? || disk.filesTsv.None? then EmptyCache
    else
      var m, listed := disk.manifest.value, disk.filesTsv.value;
      if m.ctx != ctx.hash || pipe.hash(listed) != m.filesHash then EmptyCache
      else
        var changed := SymmetricDifference(set p | p in Lines(listed), set p | p in files);
        if exists rel <- changed :: ReferenceNeedle(rel).None? then EmptyCache
        else Loaded(m.rows, set rel | rel in changed :: ReferenceNeedle(rel).value)
  }

  ghost predicate MentionedIn(names: set<string>, content: string) {
    exists w <- names :: Contains(content, w)
  }

  predicate IsMentioned(names: set<string>, content: string)
    ensures IsMentioned(names, content) <==> MentionedIn(names, content)
  {
    exists w <- names :: Find(content, w).Some?
  }

  // ----- the parallel half -----

  datatype Prepared =
    | Unreadable
    | Unchanged(bytesHash: string)
    | Changed(content: string, bytesHash: string, mdLinks: Option<Option<seq<string>>>)

  /** Everything fixed for the length of one walk. */
  datatype Env = Env(pipe: Pipeline, tree: Tree, ctx: Context, opts: Opts, cache: Loaded, forced: set<string>,
                     forceFull: bool)

  /** The cached identity a job may compare against. */
  function CachedIdentity(env: Env, p: string): Option<(string, string)> {
    if env.forceFull || p in env.forced || p !in env.cache.rows then None
    else Some((env.cache.rows[p].bytesHash, env.cache.rows[p].indexHash))
  }

  /** `prepare_walk_file` */
  function Prepare(env: Env, p: string): Prepared {
    if p !in env.tree.content || env.tree.content[p].None? then Unreadable
    else
      var content := env.tree.content[p].value;
      var bytesHash := env.pipe.hash(content);
      if CachedIdentity(env, p) == Some((bytesHash, BlobHash(env.tree, p)))
        && !IsMentioned(env.cache.changedNames, content)
      then Unchanged(bytesHash)
      else Changed(content, bytesHash, MdLinks(env.pipe, p, content, MdIndex(env.tree.files)))
  }

  // ----- the sequential half -----

  /** What the walk accumulates: text, counts, the rows proven or made this run (`fresh`), and the disk. */
  datatype State = State(nq: string, errors: nat, facts: nat, proven: map<string, Entry>, disk: Disk)

  /** `WalkCache::hit` */
  function Hit(env: Env, st: State, p: string, bytesHash: string): Option<(string, Entry)> {
    if p !in env.cache.rows then None
    else
      var e := env.cache.rows[p];
      if e.bytesHash != bytesHash || e.indexHash != BlobHash(env.tree, p) then None
      else if !env.opts.buildNquads then Some(("", e))
      else if p in st.disk.frags then Some((st.disk.frags[p], e))
      else None
  }

  /** One document of the sequential half. */
  function Process(env: Env, st: State, p: string, prep: Prepared): State {
    match prep
    case Unreadable => st.(errors := st.errors + 1)
    case Changed(content, bytesHash, mdLinks) => Emit(env, st, p, content, bytesHash, mdLinks)
    case Unchanged(bytesHash) =>
      match Hit(env, st, p, bytesHash)
      case Some((frag, e)) =>
        var st1 := st.(proven := st.proven[p := e]);
        if e.sidecars || !env.opts.writeSidecars
        then st1.(nq := if env.opts.buildNquads then st.nq + frag else st.nq, facts := st.facts + e.quads)
        else Reread(env, st1, p, bytesHash)
      case None => Reread(env, st, p, bytesHash)
  }

  /** A hit that cannot be used: the document is read and parsed after all. */
  function Reread(env: Env, st: State, p: string, bytesHash: string): State {
    if p !in env.tree.content || env.tree.content[p].None? then st.(errors := st.errors + 1)
    else
      var content := env.tree.content[p].value;
      Emit(env, st, p, content, bytesHash, MdLinks(env.pipe, p, content, MdIndex(env.tree.files)))
  }

  /** Extraction, sidecars, quads, and the cache row of an error-free document. */
  function Emit(env: Env, st: State, p: string, content: string, bytesHash: string,
                mdLinks: Option<Option<seq<string>>>): State {
    var x := Extract(env.pipe, env.ctx, p, content, BlobHash(env.tree, p), mdLinks);
    var fm := if env.opts.writeSidecars then PutSidecar(st.disk.fm, p, x.fm) else st.disk.fm;
    var md := if env.opts.writeSidecars && x.md.Some? then PutSidecar(st.disk.md, p, x.md.value) else st.disk.md;
    var stored := x.errors == 0;
    var e := Entry(bytesHash, BlobHash(env.tree, p), LinkCount(x), QuadLines(x.frag), env.opts.writeSidecars);
    State(if env.opts.buildNquads then st.nq + x.frag else "",
          st.errors + x.errors,
          st.facts + QuadLines(x.frag),
          if stored then st.proven[p := e] else st.proven,
          st.disk.(fm := fm, md := md, frags := if stored then st.disk.frags[p := x.frag] else st.disk.frags))
  }

  /** The documents one at a time, each prepared just before it is processed. */
  function OneAtATime(env: Env, st: State, files: seq<string>): State
    decreases |files|
  {
    if files == [] then st
    else OneAtATime(env, Process(env, st, files[0], Prepare(env, files[0])), files[1..])
  }

  /** `WalkCache::save`: the list, then the manifest naming its hash, then the orphan fragments go. */
  function Save(env: Env, st: State): Disk {
    var listed := Unlines(Sorting.SortDedup(env.tree.files));
    st.disk.(filesTsv := Some(listed),
             manifest := Some(Manifest(env.ctx.hash, env.pipe.hash(listed), st.proven)),
             frags := map p | p in st.disk.frags && p in st.proven :: st.disk.frags[p])
  }

  datatype Outcome = Outcome(nquads: string, errors: nat, facts: nat)

  function EnvFor(pipe: Pipeline, tree: Tree, ctx: Context, disk: Disk, opts: Opts, forced: set<string>,
                  forceFull: bool): Env {
    Env(pipe, tree, ctx, opts, if forceFull then EmptyCache else Load(pipe, disk, ctx, tree.files), forced, forceFull)
  }

  /** A whole walk: its answer and the disk it leaves. */
  function WalkOnce(pipe: Pipeline, tree: Tree, ctx: Context, disk: Disk, opts: Opts, forced: set<string>,
                    forceFull: bool)
    : (Outcome, Disk)
  {
    var env := EnvFor(pipe, tree, ctx, disk, opts, forced, forceFull);
    var st := OneAtATime(env, State("", 0, 0, map[], disk), tree.files);
    (Outcome(st.nq, st.errors, st.facts), Save(env, st))
  }

  // ----- the walk as the source runs it -----

  lemma {:induction false} OneAtATimeConcat(env: Env, st: State, a: seq<string>, b: seq<string>)
    ensures OneAtATime(env, st, a + b) == OneAtATime(env, OneAtATime(env, st, a), b)
    decreases |a|
  {
    if a == [] {
      assert a + b == b;
    } else {
      assert (a + b)[1..] == a[1..] + b;
      OneAtATimeConcat(env, Process(env, st, a[0], Prepare(env, a[0])), a[1..], b);
    }
  }

  lemma OneAtATimeSnoc(env: Env, st: State, files: seq<string>, i: nat)
    requires i < |files|
    ensures OneAtATime(env, st, files[..i + 1]) ==
      Process(env, OneAtATime(env, st, files[..i]), files[i], Prepare(env, files[i]))
  {
    assert files[..i + 1] == files[..i] + [files[i]];
    OneAtATimeConcat(env, st, files[..i], [files[i]]);
    var mid := OneAtATime(env, st, files[..i]);
    assert OneAtATime(env, mid, [files[i]]) == Process(env, mid, files[i], Prepare(env, files[i]));
  }

  /** `generate_frontmatter_nquads_with`: chunks of the file list are prepared on `cores` threads and
      then processed in order. Whatever the chunk size, the thread count and the schedule, the answer
      and the disk are those of the documents taken one at a time. */
  method GenerateFrontmatterNquads(pipe: Pipeline, tree: Tree, ctx: Context, disk: Disk, opts: Opts,
                                   forced: set<string>, forceFull: bool, cores: nat, chunkSize: nat)
    returns (out: Outcome, disk': Disk)
    requires chunkSize > 0
    ensures (out, disk') == WalkOnce(pipe, tree, ctx, disk, opts, forced, forceFull)
  {
    var env := EnvFor(pipe, tree, ctx, disk, opts, forced, forceFull);
    var start := State("", 0, 0, map[], disk);
    var st := start;
    var done := 0;
    assert tree.files[..0] == [];
    while done < |tree.files|
      invariant 0 <= done <= |tree.files|
      invariant st == OneAtATime(env, start, tree.files[..done])
    {
      var end := if done + chunkSize < |tree.files| then done + chunkSize else |tree.files|;
      var jobs := tree.files[done..end];
      var prepared := ParallelMap.Map(jobs, cores, p => Prepare(env, p));
      ChunkNext(env, start, tree.files, done, end);
      st := ProcessChunk(env, st, jobs, prepared);
      done := end;
    }
    assert tree.files[..done] == tree.files;
    out := Outcome(st.nq, st.errors, st.facts);
    disk' := Save(env, st);
  }

  lemma ChunkNext(env: Env, start: State, files: seq<string>, done: nat, end: nat)
    requires done <= end <= |files|
    ensures OneAtATime(env, start, files[..end])
      == OneAtATime(env, OneAtATime(env, start, files[..done]), files[done..end])
  {
    hide OneAtATime;
    assert files[..end] == files[..done] + files[done..end];
    OneAtATimeConcat(env, start, files[..done], files[done..end]);
  }

  /** The inner loop: the prepared documents of a chunk, in order. */
  method ProcessChunk(env: Env, start: State, jobs: seq<string>, prepared: seq<Prepared>) returns (st: State)
    requires |prepared| == |jobs| && forall i :: 0 <= i < |jobs| ==> prepared[i] == Prepare(env, jobs[i])
    ensures st == OneAtATime(env, start, jobs)
  {
    st := start;
    assert jobs[..0] == [];
    for i := 0 to |jobs|
      invariant st == OneAtATime(env, start, jobs[..i])
    {
      OneAtATimeSnoc(env, start, jobs, i);
      st := Process(env, st, jobs[i], prepared[i]);
    }
    assert jobs[..|jobs|] == jobs;
  }
}
