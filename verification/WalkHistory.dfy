/** Histories of the walk cache: edits, commits, kit changes, tampering, lost cache files, completed
    walks and walks killed between two writes. */
module WalkHistory {
  import opened Wrappers
  import opened Text
  import opened Walk
  import opened WalkCorrect
  import Sorting

  // ----- the writes of a walk, in order -----

  datatype Write =
    | PutFm(p: string, lines: seq<string>)
    | PutMd(p: string, lines: seq<string>)
    | PutFragment(p: string, text: string)
    | PutList(text: string)
    | PutManifest(m: Manifest)
    | Prune(keep: set<string>)

  function ApplyOne(disk: Disk, w: Write): Disk {
    match w
    case PutFm(p, lines) => disk.(fm := PutSidecar(disk.fm, p, lines))
    case PutMd(p, lines) => disk.(md := PutSidecar(disk.md, p, lines))
    case PutFragment(p, text) => disk.(frags := disk.frags[p := text])
    case PutList(text) => disk.(filesTsv := Some(text))
    case PutManifest(m) => disk.(manifest := Some(m))
    case Prune(keep) => disk.(frags := map p | p in disk.frags && p in keep :: disk.frags[p])
  }

  function Apply(disk: Disk, ws: seq<Write>): Disk
    decreases |ws|
  {
    if ws == [] then disk else Apply(ApplyOne(disk, ws[0]), ws[1..])
  }

  lemma {:induction false} ApplyConcat(disk: Disk, a: seq<Write>, b: seq<Write>)
    ensures Apply(disk, a + b) == Apply(Apply(disk, a), b)
    decreases |a|
  {
    if a == [] {
      assert a + b == b;
    } else {
      assert (a + b)[1..] == a[1..] + b;
      ApplyConcat(ApplyOne(disk, a[0]), a[1..], b);
    }
  }

  /** The writes of one document: its sidecars, then its fragment. */
  function WritesOf(env: Env, st: State, p: string): seq<Write> {
    if !IsReadable(env.tree, p) || IsServed(env, st.disk, p) then []
    else
      var x := ExtractNow(env.pipe, env.tree, env.ctx, p);
      (if env.opts.writeSidecars then [PutFm(p, x.fm)] else [])
      + (if env.opts.writeSidecars && x.md.Some? then [PutMd(p, x.md.value)] else [])
      + (if x.errors == 0 then [PutFragment(p, x.frag)] else [])
  }

  function WritesOfAll(env: Env, st: State, files: seq<string>): seq<Write>
    decreases |files|
  {
    if files == [] then []
    else WritesOf(env, st, files[0]) + WritesOfAll(env, Process(env, st, files[0], Prepare(env, files[0])), files[1..])
  }

  /** `WalkCache::save` */
  function SaveWrites(env: Env, st: State): seq<Write> {
    var listed := Unlines(Sorting.SortDedup(env.tree.files));
    [PutList(listed), PutManifest(Manifest(env.ctx.hash, env.pipe.hash(listed), st.proven)), Prune(st.proven.Keys)]
  }

  const START := State("", 0, 0, map[], Disk(None, None, map[], map[], map[]))

  function AllWrites(env: Env, disk: Disk): seq<Write> {
    var st0 := START.(disk := disk);
    WritesOfAll(env, st0, env.tree.files) + SaveWrites(env, OneAtATime(env, st0, env.tree.files))
  }

  lemma WritesOfRight(env: Env, st: State, p: string)
    ensures Apply(st.disk, WritesOf(env, st, p)) == Process(env, st, p, Prepare(env, p)).disk
  {
    hide Extract, MdLinks, QuadLines, PutSidecar, IsMentioned;
    if IsReadable(env.tree, p) && !IsServed(env, st.disk, p) {
      var x := ExtractNow(env.pipe, env.tree, env.ctx, p);
      var content := env.tree.content[p].value;
      var a := if env.opts.writeSidecars then [PutFm(p, x.fm)] else [];
      var b := if env.opts.writeSidecars && x.md.Some? then [PutMd(p, x.md.value)] else [];
      var c := if x.errors == 0 then [PutFragment(p, x.frag)] else [];
      ApplyConcat(st.disk, a + b, c);
      ApplyConcat(st.disk, a, b);
      ApplyShort(st.disk, a);
      ApplyShort(Apply(st.disk, a), b);
      ApplyShort(Apply(Apply(st.disk, a), b), c);
      assert Process(env, st, p, Prepare(env, p)).disk
          == Emit(env, st, p, content, env.pipe.hash(content),
                  MdLinks(env.pipe, p, content, MdIndex(env.tree.files))).disk;
    }
  }

  lemma ApplyShort(disk: Disk, ws: seq<Write>)
    requires |ws| <= 1
    ensures Apply(disk, ws) == if ws == [] then disk else ApplyOne(disk, ws[0])
  {
    if ws != [] {
      assert ws[1..] == [];
    }
  }

  /** The listed writes are the walk's effect on the disk: a killed walk performs a prefix of them. */
  lemma {:induction false} WritesOfAllRight(env: Env, st: State, files: seq<string>)
    ensures Apply(st.disk, WritesOfAll(env, st, files)) == OneAtATime(env, st, files).disk
    decreases |files|
  {
    if files != [] {
      hide WritesOf, Process;
      WritesOfRight(env, st, files[0]);
      var st' := Process(env, st, files[0], Prepare(env, files[0]));
      ApplyConcat(st.disk, WritesOf(env, st, files[0]), WritesOfAll(env, st', files[1..]));
      WritesOfAllRight(env, st', files[1..]);
    }
  }

  lemma AllWritesRight(pipe: Pipeline, t: Tree, ctx: Context, disk: Disk, opts: Opts, forced: set<string>,
                       forceFull: bool)
    ensures Apply(disk, AllWrites(EnvFor(pipe, t, ctx, disk, opts, forced, forceFull), disk))
         == WalkOnce(pipe, t, ctx, disk, opts, forced, forceFull).1
  {
    hide OneAtATime, WritesOfAll, Load;
    var env := EnvFor(pipe, t, ctx, disk, opts, forced, forceFull);
    var st0 := START.(disk := disk);
    var st := OneAtATime(env, st0, t.files);
    WritesOfAllRight(env, st0, t.files);
    ApplyConcat(disk, WritesOfAll(env, st0, t.files), SaveWrites(env, st));
    var ws := SaveWrites(env, st);
    ApplyThree(st.disk, ws);
    assert Apply(st.disk, ws) == ApplyOne(ApplyOne(ApplyOne(st.disk, ws[0]), ws[1]), ws[2]);
  }

  lemma ApplyThree(disk: Disk, ws: seq<Write>)
    requires |ws| == 3
    ensures Apply(disk, ws) == ApplyOne(ApplyOne(ApplyOne(disk, ws[0]), ws[1]), ws[2])
    ensures Apply(disk, ws[..2]) == ApplyOne(ApplyOne(disk, ws[0]), ws[1])
  {
    ApplyConcat(disk, ws[..2], [ws[2]]);
    ApplyConcat(disk, [ws[0]], [ws[1]]);
    assert ws == ws[..2] + [ws[2]] && ws[..2] == [ws[0]] + [ws[1]];
    ApplyShort(disk, [ws[0]]);
    ApplyShort(ApplyOne(disk, ws[0]), [ws[1]]);
    ApplyShort(Apply(disk, ws[..2]), [ws[2]]);
  }

  // ----- killed walks -----

  function Touches(w: Write): set<string> {
    match w
    case PutFm(p, _) => {p}
    case PutMd(p, _) => {p}
    case PutFragment(p, _) => {p}
    case _ => {}
  }

  function Touched(ws: seq<Write>): set<string> {
    if ws == [] then {} else Touches(ws[0]) + Touched(ws[1..])
  }

  /** Writes below the manifest: whatever they touch becomes suspect, and nothing else. */
  lemma {:induction false} PartialSound(pipe: Pipeline, disk: Disk, ws: seq<Write>, ns: string, suspects: set<string>)
    requires CacheSound(pipe, disk, ns, suspects)
    requires forall w <- ws :: !w.PutManifest? && !w.Prune?
    ensures CacheSound(pipe, Apply(disk, ws), ns, suspects + Touched(ws))
    decreases |ws|
  {
    if ws != [] {
      var disk' := ApplyOne(disk, ws[0]);
      var suspects' := suspects + Touches(ws[0]);
      OneWriteSound(pipe, disk, ws[0], ns, suspects);
      PartialSound(pipe, disk', ws[1..], ns, suspects');
      assert suspects' + Touched(ws[1..]) == suspects + Touched(ws);
    } else {
      assert suspects + Touched(ws) == suspects;
    }
  }

  lemma OneWriteSound(pipe: Pipeline, disk: Disk, w: Write, ns: string, suspects: set<string>)
    requires CacheSound(pipe, disk, ns, suspects) && !w.PutManifest? && !w.Prune?
    ensures CacheSound(pipe, ApplyOne(disk, w), ns, suspects + Touches(w))
  {
    var disk' := ApplyOne(disk, w);
    if disk'.manifest.Some? {
      var m := disk'.manifest.value;
      forall listed, p | pipe.hash(listed) == m.filesHash && p in m.rows && p !in suspects + Touches(w)
        ensures RowGood(pipe, Context(m.ctx, ns), Lines(listed), disk', p, m.rows[p])
      {
        assert RowGood(pipe, Context(m.ctx, ns), Lines(listed), disk, p, m.rows[p]);
        RowGoodFrame(pipe, Context(m.ctx, ns), Lines(listed), disk, disk', p, m.rows[p]);
      }
    }
  }

  lemma {:induction false} WritesBelowManifest(env: Env, st: State, files: seq<string>)
    ensures forall w <- WritesOfAll(env, st, files) :: !w.PutManifest? && !w.Prune?
    decreases |files|
  {
    hide ExtractNow, Process;
    if files != [] {
      WritesBelowManifest(env, Process(env, st, files[0], Prepare(env, files[0])), files[1..]);
    }
  }

  /** Once the manifest is written the cache is whole, pruned or not. */
  lemma UnprunedSound(pipe: Pipeline, disk: Disk, keep: set<string>, ns: string, suspects: set<string>)
    requires CacheSound(pipe, ApplyOne(disk, Prune(keep)), ns, suspects)
    requires disk.manifest.Some? ==> disk.manifest.value.rows.Keys <= keep
    ensures CacheSound(pipe, disk, ns, suspects)
  {
    var disk' := ApplyOne(disk, Prune(keep));
    if disk.manifest.Some? {
      var m := disk.manifest.value;
      forall listed, p | pipe.hash(listed) == m.filesHash && p in m.rows && p !in suspects
        ensures RowGood(pipe, Context(m.ctx, ns), Lines(listed), disk, p, m.rows[p])
      {
        assert RowGood(pipe, Context(m.ctx, ns), Lines(listed), disk', p, m.rows[p]);
        assert p in keep;
        RowGoodFrame(pipe, Context(m.ctx, ns), Lines(listed), disk', disk, p, m.rows[p]);
      }
    }
  }

  // ----- histories -----

  datatype Event =
    | SetTree(tree: Tree)                                    // edits, adds, deletes, renames, `git add`, commits
    | SetContext(hash: string)                               // a new build, a kit installed or removed
    | SetNamespace(ns: string)                               // `kit:` or `name:` of repo.yml
    | Tamper(p: string, fm: Option<string>, md: Option<string>)
    | LoseFragment(p: string)
    | LoseCache
    | CompleteWalk(opts: Opts, forced: set<string>, forceFull: bool)
    | KilledWalk(opts: Opts, forced: set<string>, forceFull: bool, writes: nat)

  /** `written` is the namespace the manifest's fragments were emitted under: no file records it. The suspects
      are the documents whose fragment or sidecars something other than a completed walk touched. */
  datatype Sys = Sys(tree: Tree, ctx: Context, disk: Disk, written: string, suspects: set<string>)

  function SysEnv(pipe: Pipeline, s: Sys, opts: Opts, forced: set<string>, forceFull: bool): Env {
    EnvFor(pipe, s.tree, s.ctx, s.disk, opts, forced, forceFull)
  }

  function Overwrite(m: map<string, string>, p: string, v: Option<string>): map<string, string> {
    match v case Some(text) => m[p := text] case None => m - {p}
  }

  /** The writes a walk killed after `n` of them has performed. */
  function Performed(env: Env, disk: Disk, n: nat): seq<Write> {
    var ws := AllWrites(env, disk);
    if n < |ws| then ws[..n] else ws
  }

  function Step(pipe: Pipeline, s: Sys, e: Event): Sys {
    match e
    case SetTree(tree) => s.(tree := tree)
    case SetContext(hash) => s.(ctx := s.ctx.(hash := hash))
    case SetNamespace(ns) => s.(ctx := s.ctx.(ns := ns))
    case Tamper(p, fm, md) =>
      s.(disk := s.disk.(fm := Overwrite(s.disk.fm, p, fm), md := Overwrite(s.disk.md, p, md)),
         suspects := s.suspects + {p})
    case LoseFragment(p) => s.(disk := s.disk.(frags := s.disk.frags - {p}))
    case LoseCache => s.(disk := s.disk.(filesTsv := None, manifest := None, frags := map[]))
    case CompleteWalk(opts, forced, forceFull) =>
      s.(disk := WalkOnce(pipe, s.tree, s.ctx, s.disk, opts, forced, forceFull).1, written := s.ctx.ns, suspects := {})
    case KilledWalk(opts, forced, forceFull, n) =>
      var ws := Performed(SysEnv(pipe, s, opts, forced, forceFull), s.disk, n);
      s.(disk := Apply(s.disk, ws),
         written := if exists w <- ws :: w.PutManifest? then s.ctx.ns else s.written,
         suspects := s.suspects + Touched(ws))
  }

  /** The conditions under which a walk may be trusted: see WalkCorrect.MayWalk. */
  ghost predicate Allowed(pipe: Pipeline, s: Sys, e: Event) {
    match e
    case CompleteWalk(opts, forced, forceFull) => SysMayWalk(pipe, s, opts, forced, forceFull)
    case KilledWalk(opts, forced, forceFull, _) => SysMayWalk(pipe, s, opts, forced, forceFull)
    case _ => true
  }

  ghost predicate SysMayWalk(pipe: Pipeline, s: Sys, opts: Opts, forced: set<string>, forceFull: bool) {
    MayWalk(pipe, s.tree, s.ctx, s.disk, opts, forced, forceFull, s.written, s.suspects)
  }

  ghost predicate SysSound(pipe: Pipeline, s: Sys) {
    CacheSound(pipe, s.disk, s.written, s.suspects)
  }

  /** A walk killed anywhere leaves every row trustworthy but those of the documents it had begun to rewrite. */
  lemma KilledWalkSound(pipe: Pipeline, s: Sys, opts: Opts, forced: set<string>, forceFull: bool, n: nat)
    requires IsPipeline(pipe) && SysSound(pipe, s) && SysMayWalk(pipe, s, opts, forced, forceFull)
    ensures SysSound(pipe, Step(pipe, s, KilledWalk(opts, forced, forceFull, n)))
  {
    hide CacheSound, MayWalk, WritesOfAll, OneAtATime;
    var env := SysEnv(pipe, s, opts, forced, forceFull);
    var st0 := START.(disk := s.disk);
    var st := OneAtATime(env, st0, s.tree.files);
    var docs, save := WritesOfAll(env, st0, s.tree.files), SaveWrites(env, st);
    var ws := Performed(env, s.disk, n);
    WritesBelowManifest(env, st0, s.tree.files);
    if |ws| <= |docs| + 1 {
      assert forall w <- ws :: w in docs || w == save[0];
      PartialSound(pipe, s.disk, ws, s.written, s.suspects);
    } else {
      assert ws[|docs| + 1] == save[1];
      ManifestReached(pipe, s, opts, forced, forceFull, n);
      SuspectsMayGrow(pipe, Apply(s.disk, ws), s.ctx.ns, s.suspects + Touched(ws));
    }
  }

  /** Killed with the manifest written, the walk has left the cache of a completed one. */
  lemma ManifestReached(pipe: Pipeline, s: Sys, opts: Opts, forced: set<string>, forceFull: bool, n: nat)
    requires IsPipeline(pipe) && SysSound(pipe, s) && SysMayWalk(pipe, s, opts, forced, forceFull)
    requires var env := SysEnv(pipe, s, opts, forced, forceFull);
      |Performed(env, s.disk, n)| >= |WritesOfAll(env, START.(disk := s.disk), s.tree.files)| + 2
    ensures CacheSound(pipe, Apply(s.disk, Performed(SysEnv(pipe, s, opts, forced, forceFull), s.disk, n)),
                       s.ctx.ns, {})
  {
    hide CacheSound, MayWalk, WritesOfAll, OneAtATime;
    var env := SysEnv(pipe, s, opts, forced, forceFull);
    var st0 := START.(disk := s.disk);
    var st := OneAtATime(env, st0, s.tree.files);
    var docs, save := WritesOfAll(env, st0, s.tree.files), SaveWrites(env, st);
    var ws := Performed(env, s.disk, n);
    WalkIsAnswer(pipe, s.tree, s.ctx, s.disk, opts, forced, forceFull, s.written, s.suspects);
    AllWritesRight(pipe, s.tree, s.ctx, s.disk, opts, forced, forceFull);
    if |ws| == |docs| + 2 {
      assert AllWrites(env, s.disk) == ws + [save[2]];
      ApplyConcat(s.disk, ws, [save[2]]);
      ApplyShort(Apply(s.disk, ws), [save[2]]);
      assert ws == docs + save[..2];
      ApplyConcat(s.disk, docs, save[..2]);
      ManifestWritten(Apply(s.disk, docs), save);
      UnprunedSound(pipe, Apply(s.disk, ws), st.proven.Keys, s.ctx.ns, {});
    } else {
      assert ws == AllWrites(env, s.disk);
    }
  }

  lemma ManifestWritten(disk: Disk, save: seq<Write>)
    requires |save| == 3 && save[0].PutList? && save[1].PutManifest?
    ensures Apply(disk, save[..2]).manifest == Some(save[1].m)
  {
    ApplyThree(disk, save);
  }

  lemma SuspectsMayGrow(pipe: Pipeline, disk: Disk, ns: string, suspects: set<string>)
    requires CacheSound(pipe, disk, ns, {})
    ensures CacheSound(pipe, disk, ns, suspects)
  {
  }

  lemma StepSound(pipe: Pipeline, s: Sys, e: Event)
    requires IsPipeline(pipe) && SysSound(pipe, s) && Allowed(pipe, s, e)
    ensures SysSound(pipe, Step(pipe, s, e))
  {
    match e {
      case Tamper(p, _, _) => TamperSound(pipe, s, e);
      case LoseFragment(p) => LoseFragmentSound(pipe, s, p);
      case CompleteWalk(opts, forced, forceFull) =>
        WalkIsAnswer(pipe, s.tree, s.ctx, s.disk, opts, forced, forceFull, s.written, s.suspects);
      case KilledWalk(opts, forced, forceFull, n) => KilledWalkSound(pipe, s, opts, forced, forceFull, n);
      case _ =>
    }
  }

  lemma TamperSound(pipe: Pipeline, s: Sys, e: Event)
    requires SysSound(pipe, s) && e.Tamper?
    ensures SysSound(pipe, Step(pipe, s, e))
  {
    var s', ns := Step(pipe, s, e), s.written;
    if s.disk.manifest.Some? {
      var m := s.disk.manifest.value;
      forall listed, p | pipe.hash(listed) == m.filesHash && p in m.rows && p !in s'.suspects
        ensures RowGood(pipe, Context(m.ctx, ns), Lines(listed), s'.disk, p, m.rows[p])
      {
        assert RowGood(pipe, Context(m.ctx, ns), Lines(listed), s.disk, p, m.rows[p]);
        RowGoodFrame(pipe, Context(m.ctx, ns), Lines(listed), s.disk, s'.disk, p, m.rows[p]);
      }
    }
  }

  lemma LoseFragmentSound(pipe: Pipeline, s: Sys, lost: string)
    requires SysSound(pipe, s)
    ensures SysSound(pipe, Step(pipe, s, LoseFragment(lost)))
  {
    var disk', ns := Step(pipe, s, LoseFragment(lost)).disk, s.written;
    if s.disk.manifest.Some? {
      var m := s.disk.manifest.value;
      forall listed, p | pipe.hash(listed) == m.filesHash && p in m.rows && p !in s.suspects
        ensures RowGood(pipe, Context(m.ctx, ns), Lines(listed), disk', p, m.rows[p])
      {
        assert RowGood(pipe, Context(m.ctx, ns), Lines(listed), s.disk, p, m.rows[p]);
        var content :| RowFrom(pipe, Context(m.ctx, ns), Lines(listed), s.disk, p, m.rows[p], content);
        assert RowFrom(pipe, Context(m.ctx, ns), Lines(listed), disk', p, m.rows[p], content);
      }
    }
  }

  ghost predicate IsHistory(pipe: Pipeline, s: Sys, events: seq<Event>)
    decreases |events|
  {
    events != [] ==> Allowed(pipe, s, events[0]) && IsHistory(pipe, Step(pipe, s, events[0]), events[1..])
  }

  /** Every completed walk of the history answers what a forced full walk of the same tree answers --
      whatever cache that one starts from -- and, when it writes sidecars, leaves every document's current. */
  ghost predicate AnswersRight(pipe: Pipeline, s: Sys, events: seq<Event>)
    decreases |events|
  {
    events != [] ==>
      (events[0].CompleteWalk? ==> WalkRight(pipe, s, events[0].opts, events[0].forced, events[0].forceFull))
      && AnswersRight(pipe, Step(pipe, s, events[0]), events[1..])
  }

  ghost predicate WalkRight(pipe: Pipeline, s: Sys, opts: Opts, forced: set<string>, forceFull: bool) {
    var (out, disk') := WalkOnce(pipe, s.tree, s.ctx, s.disk, opts, forced, forceFull);
    out == Answer(pipe, s.tree, s.ctx, opts.buildNquads, s.tree.files)
    && (forall anyDisk, anyForced :: out == WalkOnce(pipe, s.tree, s.ctx, anyDisk, opts, anyForced, true).0)
    && (opts.writeSidecars ==> forall p <- s.tree.files :: SidecarsCurrent(pipe, s.tree, s.ctx, disk', p))
  }

  /** A forced full walk needs nothing of the disk it starts from. */
  lemma FullWalkFromAnyDisk(pipe: Pipeline, t: Tree, ctx: Context, disk: Disk, opts: Opts, forced: set<string>)
    requires IsPipeline(pipe) && IsTree(t)
    ensures WalkOnce(pipe, t, ctx, disk, opts, forced, true).0 == Answer(pipe, t, ctx, opts.buildNquads, t.files)
    ensures CacheSound(pipe, WalkOnce(pipe, t, ctx, disk, opts, forced, true).1, ctx.ns, {})
  {
    hide Answer, WalkOnce;
    var all := if disk.manifest.Some? then disk.manifest.value.rows.Keys else {};
    WalkIsAnswer(pipe, t, ctx, disk, opts, forced, true, "", all);
  }

  /** The claim of the walk cache, over every history. */
  lemma {:induction false} CachedWalksAreFullWalks(pipe: Pipeline, s: Sys, events: seq<Event>)
    requires IsPipeline(pipe) && SysSound(pipe, s) && IsHistory(pipe, s, events)
    ensures AnswersRight(pipe, s, events)
    decreases |events|
  {
    hide CacheSound, WalkOnce, Answer, Touched, Performed;
    if events != [] {
      var e := events[0];
      StepSound(pipe, s, e);
      if e.CompleteWalk? {
        WalkIsAnswer(pipe, s.tree, s.ctx, s.disk, e.opts, e.forced, e.forceFull, s.written, s.suspects);
        forall anyDisk, anyForced
          ensures WalkOnce(pipe, s.tree, s.ctx, s.disk, e.opts, e.forced, e.forceFull).0
               == WalkOnce(pipe, s.tree, s.ctx, anyDisk, e.opts, anyForced, true).0
        {
          FullWalkFromAnyDisk(pipe, s.tree, s.ctx, anyDisk, e.opts, anyForced);
        }
      }
      CachedWalksAreFullWalks(pipe, Step(pipe, s, e), events[1..]);
    }
  }

  /** A repository that has never been walked starts a history. */
  lemma FreshStart(pipe: Pipeline, s: Sys)
    requires s.disk.manifest.None?
    ensures SysSound(pipe, s)
  {
  }

  /** From a repository that was never walked, and whatever then happens to it. */
  lemma FromScratch(pipe: Pipeline, s: Sys, events: seq<Event>)
    requires IsPipeline(pipe) && s.disk.manifest.None? && IsHistory(pipe, s, events)
    ensures AnswersRight(pipe, s, events)
  {
    hide IsHistory, AnswersRight, SysSound;
    FreshStart(pipe, s);
    CachedWalksAreFullWalks(pipe, s, events);
  }
}
