/** What one walk over the cache does: it answers from the tree alone, as long as every document it takes
    from the cache is settled -- no link of it names a file that came or went, the namespace it was emitted
    under shows in none of its statements -- and none has been tampered with. */
module WalkCorrect {
  import opened Wrappers
  import opened Text
  import opened Links
  import opened Walk
  import Paths
  import Sorting

  /** Blob hashes are injective. */
  ghost predicate IsPipeline(pipe: Pipeline) {
    forall a, b :: pipe.hash(a) == pipe.hash(b) ==> a == b
  }

  // ----- one document under two file lists and two namespaces -----

  /** Some link of the document names a file that one index has and the other has not. */
  predicate LinksMove(pipe: Pipeline, p: string, content: string, a: set<string>, b: set<string>) {
    IsMarkdown(p) && pipe.parse(content).Some? && AnyMoves(pipe.parse(content).value, p, a, b)
  }

  /** The lines a document's statements are made from. */
  function SpoLines(pipe: Pipeline, p: string, content: string, index: set<string>): seq<string> {
    Sorting.SortDedup(pipe.frontmatter(content).0) + LinksOf(MdLinks(pipe, p, content, index))
  }

  /** The document's lines make the same statements and the same errors under both namespaces. */
  predicate SameEmission(pipe: Pipeline, ctx: Context, ns: string, p: string, blobHash: string, lines: seq<string>) {
    pipe.emit(ctx.(ns := ns), p, blobHash, lines) == pipe.emit(ctx, p, blobHash, lines)
  }

  /** An extraction made under another file list and another namespace is the one made now exactly when no
      link of the document names a file that came or went, and the namespace shows in no statement of it. */
  lemma ExtractionSameIff(pipe: Pipeline, ctx: Context, ns: string, p: string, content: string, blobHash: string,
                          a: set<string>, b: set<string>)
    ensures
      var same := ExtractAt(pipe, ctx.(ns := ns), p, content, blobHash, a)
        == ExtractAt(pipe, ctx, p, content, blobHash, b);
      var settled := !LinksMove(pipe, p, content, a, b)
        && SameEmission(pipe, ctx, ns, p, blobHash, SpoLines(pipe, p, content, b));
      (settled ==> same) && (!IsKeyLike(p) ==> (same <==> settled))
  {
    hide AnyMoves, LinkLines, IsKeyLike;
    if IsMarkdown(p) && pipe.parse(content).Some? {
      var nodes := pipe.parse(content).value;
      LinesMoveIff(nodes, p, a, b);
      if AnyMoves(nodes, p, a, b) && !IsKeyLike(p) {
        MovedLinksDiffer(nodes, p, a, b);
      }
    }
  }

  lemma MovedLinksDiffer(nodes: seq<Node>, p: string, a: set<string>, b: set<string>)
    requires AnyMoves(nodes, p, a, b) && !IsKeyLike(p)
    ensures Sorting.SortDedup(LinkLines(nodes, p, a)) != Sorting.SortDedup(LinkLines(nodes, p, b))
  {
    hide AnyMoves, LinkLines, IsKeyLike;
    MovedLineIsNew(nodes, p, a, b);
    Sorting.SortDedupSorted(LinkLines(nodes, p, a));
    Sorting.SortDedupSorted(LinkLines(nodes, p, b));
  }

  // ----- which links the name test can miss -----

  /** The parser reports each destination as it is written in the text. */
  ghost predicate ReportsText(pipe: Pipeline) {
    forall c, n :: pipe.parse(c).Some? && n in pipe.parse(c).value && n.InlineLink? ==> Contains(c, n.dest)
  }

  /** In a text that mentions no changed name, a link that spells its target's name (Links.SpellsName) names
      no file that came or went. */
  lemma SpelledLinkStays(pipe: Pipeline, content: string, n: Node, p: string, a: set<string>, b: set<string>)
    requires ReportsText(pipe) && pipe.parse(content).Some? && n in pipe.parse(content).value
    requires forall rel <- SymmetricDifference(a, b) ::
      ReferenceNeedle(rel).Some? && !Contains(content, ReferenceNeedle(rel).value)
    requires n.InlineLink? ==> SpellsName(n.dest)
    ensures !Moves(n, p, a, b)
  {
    if Moves(n, p, a, b) {
      var rel := LinkTarget(n, p).value;
      SpelledReferenceContainsNeedle(n.dest, Paths.DocDir(p), rel);
      ContainsTransitive(content, n.dest, ReferenceNeedle(rel).value);
    }
  }

  // ----- what a trustworthy row is -----

  predicate SidecarsMatch(disk: Disk, p: string, x: Extraction) {
    SidecarIs(disk.fm, p, x.fm) && (x.md.Some? ==> SidecarIs(disk.md, p, x.md.value))
  }

  /** The row records an error-free extraction of `content`, and the disk holds its fragment and,
      if the row says so, its sidecars. */
  predicate RowFrom(pipe: Pipeline, ctx: Context, files: seq<string>, disk: Disk, p: string, e: Entry,
                    content: string) {
    var x := ExtractAt(pipe, ctx, p, content, e.indexHash, MdIndex(files));
    pipe.hash(content) == e.bytesHash && x.errors == 0
    && e.links == LinkCount(x) && e.quads == QuadLines(x.frag)
    && (p in disk.frags ==> disk.frags[p] == x.frag)
    && (e.sidecars ==> SidecarsMatch(disk, p, x))
  }

  ghost predicate RowGood(pipe: Pipeline, ctx: Context, files: seq<string>, disk: Disk, p: string, e: Entry) {
    exists content :: RowFrom(pipe, ctx, files, disk, p, e, content)
  }

  /** Every row of the manifest is trustworthy, under the namespace the manifest was written under, except
      for the suspects: documents whose fragment or sidecars something other than a completed walk has
      touched since. */
  ghost predicate CacheSound(pipe: Pipeline, disk: Disk, ns: string, suspects: set<string>) {
    disk.manifest.Some? ==>
      forall listed, p | pipe.hash(listed) == disk.manifest.value.filesHash && p in disk.manifest.value.rows
          && p !in suspects ::
        RowGood(pipe, Context(disk.manifest.value.ctx, ns), Lines(listed), disk, p, disk.manifest.value.rows[p])
  }

  /** The two disks agree about document `p`. */
  predicate SameAt(a: Disk, b: Disk, p: string) {
    (p in a.frags <==> p in b.frags) && (p in a.frags ==> a.frags[p] == b.frags[p])
    && (p in a.fm <==> p in b.fm) && (p in a.fm ==> a.fm[p] == b.fm[p])
    && (p in a.md <==> p in b.md) && (p in a.md ==> a.md[p] == b.md[p])
  }

  lemma RowGoodFrame(pipe: Pipeline, ctx: Context, files: seq<string>, a: Disk, b: Disk, p: string, e: Entry)
    requires RowGood(pipe, ctx, files, a, p, e) && SameAt(a, b, p)
    ensures RowGood(pipe, ctx, files, b, p, e)
  {
    var content :| RowFrom(pipe, ctx, files, a, p, e, content);
    assert RowFrom(pipe, ctx, files, b, p, e, content);
  }

  // ----- the answer a walk ought to give -----

  predicate IsReadable(t: Tree, p: string) {
    p in t.content && t.content[p].Some?
  }

  function ExtractNow(pipe: Pipeline, t: Tree, ctx: Context, p: string): Extraction
    requires IsReadable(t, p)
  {
    ExtractAt(pipe, ctx, p, t.content[p].value, BlobHash(t, p), MdIndex(t.files))
  }

  /** The answer over some documents, from the tree alone: every fragment in order, every error,
      every quad line. */
  function Answer(pipe: Pipeline, t: Tree, ctx: Context, build: bool, files: seq<string>): Outcome {
    if files == [] then Outcome("", 0, 0)
    else
      var rest := Answer(pipe, t, ctx, build, files[..|files| - 1]);
      var p := files[|files| - 1];
      if !IsReadable(t, p) then rest.(errors := rest.errors + 1)
      else
        var x := ExtractNow(pipe, t, ctx, p);
        Outcome(if build then rest.nquads + x.frag else "", rest.errors + x.errors, rest.facts + QuadLines(x.frag))
  }

  // ----- one document -----

  /** The walk finds the document's row still matching, and its fragment if it wants one. */
  predicate IsHit(env: Env, disk: Disk, p: string) {
    Prepare(env, p).Unchanged? && (env.opts.buildNquads ==> p in disk.frags)
  }

  /** It is then served from the cache, unless its sidecars have to be written. */
  predicate IsServed(env: Env, disk: Disk, p: string) {
    IsHit(env, disk, p) && (env.cache.rows[p].sidecars || !env.opts.writeSidecars)
  }

  /** The cache may be believed about a document that is served from it. */
  predicate UsableAt(env: Env, disk: Disk, p: string) {
    IsHit(env, disk, p) ==>
      ExtractNow(env.pipe, env.tree, env.ctx, p).errors == 0
      && (IsServed(env, disk, p) ==>
            RowFrom(env.pipe, env.ctx, env.tree.files, disk, p, env.cache.rows[p], env.tree.content[p].value))
  }

  predicate CacheUsable(env: Env, disk: Disk, files: seq<string>) {
    forall p <- files :: UsableAt(env, disk, p)
  }

  ghost predicate StepInv(env: Env, disk0: Disk, st: State, done: seq<string>) {
    Outcome(st.nq, st.errors, st.facts) == Answer(env.pipe, env.tree, env.ctx, env.opts.buildNquads, done)
    && ProvenGood(env, st, done)
    && Untouched(disk0, st.disk, done)
    && (env.opts.writeSidecars ==> SidecarsWritten(env, st, done))
  }

  ghost predicate ProvenGood(env: Env, st: State, done: seq<string>) {
    forall p | p in st.proven :: p in done && RowGood(env.pipe, env.ctx, env.tree.files, st.disk, p, st.proven[p])
  }

  ghost predicate Untouched(a: Disk, b: Disk, done: seq<string>) {
    (forall p :: p !in done ==> SameAt(a, b, p)) && a.manifest == b.manifest && a.filesTsv == b.filesTsv
  }

  predicate SidecarsWritten(env: Env, st: State, done: seq<string>) {
    forall p <- done :: SidecarsCurrent(env.pipe, env.tree, env.ctx, st.disk, p)
  }

  /** The sidecars of a document hold its extraction, and are absent exactly when that is empty. */
  predicate SidecarsCurrent(pipe: Pipeline, t: Tree, ctx: Context, disk: Disk, p: string) {
    IsReadable(t, p) ==> SidecarsMatch(disk, p, ExtractNow(pipe, t, ctx, p))
  }

  /** What processing one document does: its own contribution and nothing elsewhere on the disk. */
  ghost predicate StepDone(env: Env, st: State, st': State, p: string) {
    OnlyAt(st, st', p)
    && (p in st'.proven ==> RowGood(env.pipe, env.ctx, env.tree.files, st'.disk, p, st'.proven[p]))
    && Contributes(env, st, st', p)
  }

  ghost predicate OnlyAt(st: State, st': State, p: string) {
    Untouched(st.disk, st'.disk, [p])
    && (forall q :: q != p ==> (q in st'.proven <==> q in st.proven))
    && (forall q :: q != p && q in st.proven ==> st'.proven[q] == st.proven[q])
  }

  predicate Contributes(env: Env, st: State, st': State, p: string) {
    if IsReadable(env.tree, p) then
      var x := ExtractNow(env.pipe, env.tree, env.ctx, p);
      st'.nq == (if env.opts.buildNquads then st.nq + x.frag else "")
      && st'.errors == st.errors + x.errors && st'.facts == st.facts + QuadLines(x.frag)
      && (env.opts.writeSidecars ==> SidecarsMatch(st'.disk, p, x))
    else st'.nq == st.nq && st'.errors == st.errors + 1 && st'.facts == st.facts
  }

  lemma EmitDone(env: Env, st: State, p: string)
    requires IsReadable(env.tree, p)
    requires p in st.proven ==> ExtractNow(env.pipe, env.tree, env.ctx, p).errors == 0
    ensures var content := env.tree.content[p].value;
      StepDone(env, st, Emit(env, st, p, content, env.pipe.hash(content),
                             MdLinks(env.pipe, p, content, MdIndex(env.tree.files))), p)
  {
    hide Extract, MdLinks, QuadLines, OnlyAt;
    var content := env.tree.content[p].value;
    var mdLinks := MdLinks(env.pipe, p, content, MdIndex(env.tree.files));
    EmitOnlyAt(env, st, p, content, env.pipe.hash(content), mdLinks);
    var st' := Emit(env, st, p, content, env.pipe.hash(content), mdLinks);
    var x := ExtractNow(env.pipe, env.tree, env.ctx, p);
    assert x == Extract(env.pipe, env.ctx, p, content, BlobHash(env.tree, p), mdLinks);
    if x.errors == 0 {
      assert RowFrom(env.pipe, env.ctx, env.tree.files, st'.disk, p, st'.proven[p], content);
    }
  }

  lemma EmitOnlyAt(env: Env, st: State, p: string, content: string, bytesHash: string,
                   mdLinks: Option<Option<seq<string>>>)
    ensures OnlyAt(st, Emit(env, st, p, content, bytesHash, mdLinks), p)
  {
    hide Extract, QuadLines;
  }

  /** Marking a row proven, or changing only the counts, touches nothing else. */
  lemma MarkOnlyAt(st: State, st': State, p: string)
    requires st'.disk == st.disk
    requires st'.proven == st.proven || (p in st'.proven && st'.proven == st.proven[p := st'.proven[p]])
    ensures OnlyAt(st, st', p)
  {
  }

  lemma OnlyAtTransitive(st: State, mid: State, st': State, p: string)
    requires OnlyAt(st, mid, p) && OnlyAt(mid, st', p)
    ensures OnlyAt(st, st', p)
  {
    forall q | q !in [p]
      ensures SameAt(st.disk, st'.disk, q)
    {
      SameAtTransitive(st.disk, mid.disk, st'.disk, q);
    }
  }

  lemma ProcessDone(env: Env, disk0: Disk, st: State, p: string)
    requires UsableAt(env, disk0, p) && SameAt(disk0, st.disk, p) && p !in st.proven
    requires !env.opts.buildNquads ==> st.nq == ""
    ensures StepDone(env, st, Process(env, st, p, Prepare(env, p)), p)
  {
    hide Extract, MdLinks, QuadLines, OnlyAt, Emit, IsMentioned;
    match Prepare(env, p) {
      case Unreadable => MarkOnlyAt(st, Process(env, st, p, Prepare(env, p)), p);
      case Changed(_, _, _) => EmitDone(env, st, p);
      case Unchanged(bytesHash) => HitDone(env, disk0, st, p, bytesHash);
    }
  }

  /** What `WalkCache::hit` answers, in terms of the disk the walk started from. */
  lemma HitIs(env: Env, disk0: Disk, st: State, p: string, bytesHash: string)
    requires Prepare(env, p) == Unchanged(bytesHash) && SameAt(disk0, st.disk, p)
    ensures Hit(env, st, p, bytesHash) ==
      if IsHit(env, disk0, p) then Some((if env.opts.buildNquads then disk0.frags[p] else "", env.cache.rows[p]))
      else None
  {
    hide IsMentioned, MdLinks;
  }

  lemma HitDone(env: Env, disk0: Disk, st: State, p: string, bytesHash: string)
    requires UsableAt(env, disk0, p) && SameAt(disk0, st.disk, p) && p !in st.proven
    requires !env.opts.buildNquads ==> st.nq == ""
    requires Prepare(env, p) == Unchanged(bytesHash)
    ensures StepDone(env, st, Process(env, st, p, Prepare(env, p)), p)
  {
    hide MdLinks, QuadLines, OnlyAt, Emit, IsMentioned, LinkCount, Hit;
    HitIs(env, disk0, st, p, bytesHash);
    var st' := Process(env, st, p, Prepare(env, p));
    if IsServed(env, disk0, p) {
      var e := env.cache.rows[p];
      var content := env.tree.content[p].value;
      RowFromFrame(env.pipe, env.ctx, env.tree.files, disk0, st.disk, p, e, content);
      MarkOnlyAt(st, st', p);
      assert RowFrom(env.pipe, env.ctx, env.tree.files, st'.disk, p, e, content);
    } else {
      RereadDone(env, disk0, st, p, bytesHash);
    }
  }

  lemma RereadDone(env: Env, disk0: Disk, st: State, p: string, bytesHash: string)
    requires UsableAt(env, disk0, p) && SameAt(disk0, st.disk, p) && p !in st.proven
    requires Prepare(env, p) == Unchanged(bytesHash) && !IsServed(env, disk0, p)
    ensures StepDone(env, st, Process(env, st, p, Prepare(env, p)), p)
  {
    hide Extract, MdLinks, QuadLines, OnlyAt, Emit, IsMentioned, Hit;
    HitIs(env, disk0, st, p, bytesHash);
    if IsHit(env, disk0, p) {
      var st1 := st.(proven := st.proven[p := env.cache.rows[p]]);
      MarkOnlyAt(st, st1, p);
      EmitDone(env, st1, p);
      OnlyAtTransitive(st, st1, Process(env, st, p, Prepare(env, p)), p);
    } else {
      EmitDone(env, st, p);
    }
  }

  lemma RowFromFrame(pipe: Pipeline, ctx: Context, files: seq<string>, a: Disk, b: Disk, p: string, e: Entry,
                     content: string)
    requires RowFrom(pipe, ctx, files, a, p, e, content) && SameAt(a, b, p)
    ensures RowFrom(pipe, ctx, files, b, p, e, content)
  {
  }

  lemma StepInvExtends(env: Env, disk0: Disk, st: State, st': State, done: seq<string>, p: string)
    requires StepInv(env, disk0, st, done) && StepDone(env, st, st', p) && p !in done
    ensures StepInv(env, disk0, st', done + [p])
  {
    hide OnlyAt, ProvenGood, Untouched, SidecarsWritten, Answer, Contributes;
    AnswerExtends(env, st, st', done, p);
    ProvenExtends(env, st, st', done, p);
    UntouchedExtends(disk0, st, st', done, p);
    if env.opts.writeSidecars {
      ContributesSidecars(env, st, st', p);
      SidecarsExtend(env, st, st', done, p);
    }
  }

  lemma AnswerExtends(env: Env, st: State, st': State, done: seq<string>, p: string)
    requires Outcome(st.nq, st.errors, st.facts) == Answer(env.pipe, env.tree, env.ctx, env.opts.buildNquads, done)
    requires Contributes(env, st, st', p)
    ensures Outcome(st'.nq, st'.errors, st'.facts)
      == Answer(env.pipe, env.tree, env.ctx, env.opts.buildNquads, done + [p])
  {
    hide ExtractNow, QuadLines, SidecarsMatch;
    assert (done + [p])[..|done|] == done;
  }

  lemma ContributesSidecars(env: Env, st: State, st': State, p: string)
    requires Contributes(env, st, st', p) && env.opts.writeSidecars
    ensures SidecarsCurrent(env.pipe, env.tree, env.ctx, st'.disk, p)
  {
  }

  lemma ProvenExtends(env: Env, st: State, st': State, done: seq<string>, p: string)
    requires ProvenGood(env, st, done) && OnlyAt(st, st', p)
    requires p in st'.proven ==> RowGood(env.pipe, env.ctx, env.tree.files, st'.disk, p, st'.proven[p])
    ensures ProvenGood(env, st', done + [p])
  {
    hide SameAt, RowGood;
    forall q | q in st'.proven
      ensures q in done + [p] && RowGood(env.pipe, env.ctx, env.tree.files, st'.disk, q, st'.proven[q])
    {
      if q != p {
        RowGoodFrame(env.pipe, env.ctx, env.tree.files, st.disk, st'.disk, q, st.proven[q]);
      }
    }
  }

  lemma UntouchedExtends(disk0: Disk, st: State, st': State, done: seq<string>, p: string)
    requires Untouched(disk0, st.disk, done) && OnlyAt(st, st', p)
    ensures Untouched(disk0, st'.disk, done + [p])
  {
    hide SameAt;
    forall q | q !in done + [p]
      ensures SameAt(disk0, st'.disk, q)
    {
      SameAtTransitive(disk0, st.disk, st'.disk, q);
    }
  }

  lemma SidecarsExtend(env: Env, st: State, st': State, done: seq<string>, p: string)
    requires SidecarsWritten(env, st, done) && OnlyAt(st, st', p) && p !in done
    requires SidecarsCurrent(env.pipe, env.tree, env.ctx, st'.disk, p)
    ensures SidecarsWritten(env, st', done + [p])
  {
    hide SameAt, SidecarsCurrent;
    forall q | q in done + [p]
      ensures SidecarsCurrent(env.pipe, env.tree, env.ctx, st'.disk, q)
    {
      if q != p {
        SidecarsFrame(env.pipe, env.tree, env.ctx, st.disk, st'.disk, q);
      }
    }
  }

  lemma SameAtTransitive(a: Disk, b: Disk, c: Disk, p: string)
    requires SameAt(a, b, p) && SameAt(b, c, p)
    ensures SameAt(a, c, p)
  {
  }

  lemma SidecarsFrame(pipe: Pipeline, t: Tree, ctx: Context, a: Disk, b: Disk, p: string)
    requires SidecarsCurrent(pipe, t, ctx, a, p) && SameAt(a, b, p)
    ensures SidecarsCurrent(pipe, t, ctx, b, p)
  {
  }

  lemma {:induction false} WalkInv(env: Env, disk0: Disk, st: State, done: seq<string>, rest: seq<string>)
    requires CacheUsable(env, disk0, rest) && StepInv(env, disk0, st, done)
    requires forall i, j :: 0 <= i < j < |done + rest| ==> (done + rest)[i] != (done + rest)[j]
    ensures StepInv(env, disk0, OneAtATime(env, st, rest), done + rest)
    decreases |rest|
  {
    if rest == [] {
      assert done + rest == done;
    } else {
      var p := rest[0];
      hide StepInv, UsableAt, Answer, Process;
      NextIsNew(done, rest);
      AnswerQuiet(env.pipe, env.tree, env.ctx, done);
      ProcessDone(env, disk0, st, p);
      var st' := Process(env, st, p, Prepare(env, p));
      StepInvExtends(env, disk0, st, st', done, p);
      NextMoved(done, rest);
      WalkInv(env, disk0, st', done + [p], rest[1..]);
    }
  }

  lemma NextMoved<T>(done: seq<T>, rest: seq<T>)
    requires rest != []
    ensures done + [rest[0]] + rest[1..] == done + rest
  {
  }

  lemma NextIsNew<T>(done: seq<T>, rest: seq<T>)
    requires rest != [] && forall i, j :: 0 <= i < j < |done + rest| ==> (done + rest)[i] != (done + rest)[j]
    ensures rest[0] !in done
  {
    assert (done + rest)[|done|] == rest[0];
    assert forall i :: 0 <= i < |done| ==> (done + rest)[i] == done[i];
  }

  lemma AnswerQuiet(pipe: Pipeline, t: Tree, ctx: Context, files: seq<string>)
    ensures Answer(pipe, t, ctx, false, files).nquads == ""
  {
  }

  // ----- a whole walk -----

  /** The file list the cache was written under. */
  function ListedIndex(disk: Disk): set<string> {
    if disk.filesTsv.Some? then MdIndex(Lines(disk.filesTsv.value)) else {}
  }

  /** The extraction the cache holds is still the document's: none of its links names a file that came or
      went since, and the namespace the cache was written under shows in none of its statements. */
  predicate Settled(env: Env, disk: Disk, ns: string, p: string)
    requires IsReadable(env.tree, p)
  {
    var content := env.tree.content[p].value;
    !LinksMove(env.pipe, p, content, ListedIndex(disk), MdIndex(env.tree.files))
    && SameEmission(env.pipe, env.ctx, ns, p, BlobHash(env.tree, p),
                    SpoLines(env.pipe, p, content, MdIndex(env.tree.files)))
  }

  /** Every document the walk takes from the cache is settled and no suspect. */
  predicate MayServe(env: Env, disk: Disk, ns: string, suspects: set<string>) {
    forall p <- env.tree.files :: IsHit(env, disk, p) ==> p !in suspects && Settled(env, disk, ns, p)
  }

  /** What a trustworthy row says of a document whose bytes and index entry it matches. */
  lemma MatchingRow(env: Env, disk: Disk, ns: string, suspects: set<string>, p: string)
    requires IsPipeline(env.pipe) && CacheSound(env.pipe, disk, ns, suspects)
    requires env == EnvFor(env.pipe, env.tree, env.ctx, disk, env.opts, env.forced, env.forceFull)
    requires Prepare(env, p).Unchanged? && p !in suspects
    ensures disk.manifest.Some? && disk.filesTsv.Some? && disk.manifest.value.ctx == env.ctx.hash
    ensures env.cache.rows[p].indexHash == BlobHash(env.tree, p)
    ensures RowFrom(env.pipe, env.ctx.(ns := ns), Lines(disk.filesTsv.value), disk, p, env.cache.rows[p],
                    env.tree.content[p].value)
  {
    hide ExtractAt, IsMentioned, ReferenceNeedle, SidecarsMatch, Lines, IsMarkdown, MdLinks;
    var m, listed, e := disk.manifest.value, disk.filesTsv.value, env.cache.rows[p];
    assert env.cache == Load(env.pipe, disk, env.ctx, env.tree.files);
    assert Context(m.ctx, ns) == env.ctx.(ns := ns);
    assert RowGood(env.pipe, Context(m.ctx, ns), Lines(listed), disk, p, e);
    var content :| RowFrom(env.pipe, Context(m.ctx, ns), Lines(listed), disk, p, e, content);
    assert content == env.tree.content[p].value;
  }

  lemma ServableUsable(env: Env, disk: Disk, ns: string, suspects: set<string>)
    requires IsPipeline(env.pipe) && CacheSound(env.pipe, disk, ns, suspects)
    requires env == EnvFor(env.pipe, env.tree, env.ctx, disk, env.opts, env.forced, env.forceFull)
    requires MayServe(env, disk, ns, suspects)
    ensures CacheUsable(env, disk, env.tree.files)
  {
    hide CacheSound, LinksMove, SameEmission, IsHit;
    forall p | p in env.tree.files
      ensures UsableAt(env, disk, p)
    {
      if IsHit(env, disk, p) {
        SettledUsable(env, disk, ns, suspects, p);
      }
    }
  }

  lemma SettledUsable(env: Env, disk: Disk, ns: string, suspects: set<string>, p: string)
    requires IsPipeline(env.pipe) && CacheSound(env.pipe, disk, ns, suspects)
    requires env == EnvFor(env.pipe, env.tree, env.ctx, disk, env.opts, env.forced, env.forceFull)
    requires IsHit(env, disk, p) && p !in suspects && Settled(env, disk, ns, p)
    ensures UsableAt(env, disk, p)
  {
    hide CacheSound, LinksMove, SameEmission, ExtractAt, SidecarsMatch, Lines, IsMentioned, MdLinks, SpoLines;
    hide IsMarkdown;
    MatchingRow(env, disk, ns, suspects, p);
    ExtractionSameIff(env.pipe, env.ctx, ns, p, env.tree.content[p].value, BlobHash(env.tree, p),
                      ListedIndex(disk), MdIndex(env.tree.files));
  }

  /** A link that spells its target's name never unsettles a document the walk would take from the cache:
      the name test has the document extracted again first. */
  lemma SpelledLinksSettled(env: Env, disk: Disk, p: string, n: Node)
    requires ReportsText(env.pipe) && IsHit(env, disk, p) && env.pipe.parse(env.tree.content[p].value).Some?
    requires env == EnvFor(env.pipe, env.tree, env.ctx, disk, env.opts, env.forced, env.forceFull)
    requires n in env.pipe.parse(env.tree.content[p].value).value && (n.InlineLink? ==> SpellsName(n.dest))
    ensures !Moves(n, p, ListedIndex(disk), MdIndex(env.tree.files))
  {
    hide Moves, SpellsName, Contains, ReferenceNeedle, Lines, IsMarkdown, MdLinks;
    var content := env.tree.content[p].value;
    assert env.cache == Load(env.pipe, disk, env.ctx, env.tree.files);
    UnmentionedNames(env, disk, content);
    SpelledLinkStays(env.pipe, content, n, p, ListedIndex(disk), MdIndex(env.tree.files));
  }

  /** What an unmentioned text is known not to contain. */
  lemma UnmentionedNames(env: Env, disk: Disk, content: string)
    requires env.cache == Load(env.pipe, disk, env.ctx, env.tree.files) && env.cache.rows != map[]
    requires !IsMentioned(env.cache.changedNames, content)
    ensures disk.filesTsv.Some?
    ensures forall rel <- SymmetricDifference(MdIndex(Lines(disk.filesTsv.value)), MdIndex(env.tree.files)) ::
      ReferenceNeedle(rel).Some? && !Contains(content, ReferenceNeedle(rel).value)
  {
    hide ReferenceNeedle, Contains, Lines, IsMarkdown;
    var listed := disk.filesTsv.value;
    var changed := SymmetricDifference(set p | p in Lines(listed), set p | p in env.tree.files);
    forall rel | rel in SymmetricDifference(MdIndex(Lines(listed)), MdIndex(env.tree.files))
      ensures ReferenceNeedle(rel).Some? && !Contains(content, ReferenceNeedle(rel).value)
    {
      assert rel in changed;
      assert ReferenceNeedle(rel).Some?;
      assert ReferenceNeedle(rel).value in env.cache.changedNames;
    }
  }

  /** A text that lists the walked files lists no others. */
  lemma ListedFiles(pipe: Pipeline, t: Tree, listed: string)
    requires IsPipeline(pipe) && IsTree(t)
    requires pipe.hash(listed) == pipe.hash(Unlines(Sorting.SortDedup(t.files)))
    ensures MdIndex(Lines(listed)) == MdIndex(t.files)
  {
    var sorted := Sorting.SortDedup(t.files);
    Sorting.SortDedupSorted(t.files);
    assert forall l <- sorted :: IsLine(l) && StripCR(l) == l;
    LinesUnlines(sorted);
    assert StripAll(sorted) == sorted;
  }

  /** The disk a completed walk leaves: everything in the manifest is trustworthy again. */
  lemma SaveSound(env: Env, disk0: Disk, st: State)
    requires IsPipeline(env.pipe) && IsTree(env.tree) && StepInv(env, disk0, st, env.tree.files)
    ensures CacheSound(env.pipe, Save(env, st), env.ctx.ns, {})
    ensures env.opts.writeSidecars ==>
      forall p <- env.tree.files :: SidecarsCurrent(env.pipe, env.tree, env.ctx, Save(env, st), p)
  {
    var disk := Save(env, st);
    forall listed, p | env.pipe.hash(listed) == disk.manifest.value.filesHash && p in disk.manifest.value.rows
      ensures RowGood(env.pipe, env.ctx, Lines(listed), disk, p, disk.manifest.value.rows[p])
    {
      ListedFiles(env.pipe, env.tree, listed);
      var e := st.proven[p];
      var content :| RowFrom(env.pipe, env.ctx, env.tree.files, st.disk, p, e, content);
      assert RowFrom(env.pipe, env.ctx, Lines(listed), disk, p, e, content);
    }
    forall p | p in env.tree.files && env.opts.writeSidecars
      ensures SidecarsCurrent(env.pipe, env.tree, env.ctx, disk, p)
    {
      assert SidecarsCurrent(env.pipe, env.tree, env.ctx, st.disk, p);
    }
  }

  /** When a walk may be trusted. A forced full walk always may. */
  ghost predicate MayWalk(pipe: Pipeline, t: Tree, ctx: Context, disk: Disk, opts: Opts, forced: set<string>,
                          forceFull: bool, ns: string, suspects: set<string>) {
    IsTree(t) && (forceFull || MayServe(EnvFor(pipe, t, ctx, disk, opts, forced, forceFull), disk, ns, suspects))
  }

  lemma StartInv(env: Env, disk: Disk)
    ensures StepInv(env, disk, State("", 0, 0, map[], disk), [])
  {
  }

  lemma WalkEndInv(env: Env, disk: Disk, ns: string, suspects: set<string>)
    requires IsPipeline(env.pipe) && CacheSound(env.pipe, disk, ns, suspects)
    requires env == EnvFor(env.pipe, env.tree, env.ctx, disk, env.opts, env.forced, env.forceFull)
    requires MayWalk(env.pipe, env.tree, env.ctx, disk, env.opts, env.forced, env.forceFull, ns, suspects)
    ensures StepInv(env, disk, OneAtATime(env, State("", 0, 0, map[], disk), env.tree.files), env.tree.files)
  {
    hide StepInv, MayServe, CacheSound;
    if !env.forceFull {
      ServableUsable(env, disk, ns, suspects);
    } else {
      EmptyCacheUsable(env, disk);
    }
    StartInv(env, disk);
    assert [] + env.tree.files == env.tree.files;
    WalkInv(env, disk, State("", 0, 0, map[], disk), [], env.tree.files);
  }

  lemma EmptyCacheUsable(env: Env, disk: Disk)
    requires env.cache == EmptyCache
    ensures CacheUsable(env, disk, env.tree.files)
  {
    hide IsMentioned, MdLinks;
  }

  /** A walk -- cached or forced full, with or without sidecars, with or without text -- answers from
      the tree alone, leaves a trustworthy cache, and with sidecars leaves every document's current. */
  lemma WalkIsAnswer(pipe: Pipeline, t: Tree, ctx: Context, disk: Disk, opts: Opts, forced: set<string>,
                     forceFull: bool, ns: string, suspects: set<string>)
    requires IsPipeline(pipe) && CacheSound(pipe, disk, ns, suspects)
    requires MayWalk(pipe, t, ctx, disk, opts, forced, forceFull, ns, suspects)
    ensures var (out, disk') := WalkOnce(pipe, t, ctx, disk, opts, forced, forceFull);
      out == Answer(pipe, t, ctx, opts.buildNquads, t.files)
      && CacheSound(pipe, disk', ctx.ns, {})
      && (opts.writeSidecars ==> forall p <- t.files :: SidecarsCurrent(pipe, t, ctx, disk', p))
  {
    hide CacheSound, MayWalk, SidecarsCurrent, Answer, OneAtATime, Save;
    var env := EnvFor(pipe, t, ctx, disk, opts, forced, forceFull);
    WalkEndInv(env, disk, ns, suspects);
    MayWalkTree(pipe, t, ctx, disk, opts, forced, forceFull, ns, suspects);
    SaveSound(env, disk, OneAtATime(env, State("", 0, 0, map[], disk), t.files));
  }

  lemma MayWalkTree(pipe: Pipeline, t: Tree, ctx: Context, disk: Disk, opts: Opts, forced: set<string>,
                    forceFull: bool, ns: string, suspects: set<string>)
    requires MayWalk(pipe, t, ctx, disk, opts, forced, forceFull, ns, suspects)
    ensures IsTree(t)
  {
  }
}
