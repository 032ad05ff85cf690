/** What a cached walk answers when nothing is asked of the cache: the stored fragments of the documents it
    serves, whatever they hold. From it, exactly when a stale fragment makes the answer wrong, and two
    histories that leave one behind. */
module WalkStale {
  import opened Wrappers
  import opened Text
  import opened Links
  import opened Walk
  import opened WalkCorrect
  import opened WalkHistory
  import Sorting

  // ----- what any cached walk answers -----

  /** One document's part of the answer: the stored fragment and count when it is served, else its extraction. */
  function Given(env: Env, disk: Disk, p: string): Outcome {
    if !IsReadable(env.tree, p) then Outcome("", 1, 0)
    else if IsServed(env, disk, p) then
      Outcome(if env.opts.buildNquads then disk.frags[p] else "", 0, env.cache.rows[p].quads)
    else
      var x := ExtractNow(env.pipe, env.tree, env.ctx, p);
      Outcome(if env.opts.buildNquads then x.frag else "", x.errors, QuadLines(x.frag))
  }

  /** The part it ought to have. */
  function Due(env: Env, p: string): Outcome {
    if !IsReadable(env.tree, p) then Outcome("", 1, 0)
    else
      var x := ExtractNow(env.pipe, env.tree, env.ctx, p);
      Outcome(if env.opts.buildNquads then x.frag else "", x.errors, QuadLines(x.frag))
  }

  function Plus(a: Outcome, b: Outcome): Outcome {
    Outcome(a.nquads + b.nquads, a.errors + b.errors, a.facts + b.facts)
  }

  function GivenAll(env: Env, disk: Disk, files: seq<string>): Outcome {
    if files == [] then Outcome("", 0, 0)
    else Plus(GivenAll(env, disk, files[..|files| - 1]), Given(env, disk, files[|files| - 1]))
  }

  function DueAll(env: Env, files: seq<string>): Outcome {
    if files == [] then Outcome("", 0, 0) else Plus(DueAll(env, files[..|files| - 1]), Due(env, files[|files| - 1]))
  }

  lemma {:induction false} AnswerIsDue(env: Env, files: seq<string>)
    ensures Answer(env.pipe, env.tree, env.ctx, env.opts.buildNquads, files) == DueAll(env, files)
  {
    hide IsReadable, Due, Plus;
    if files != [] {
      AnswerIsDue(env, files[..|files| - 1]);
      DueQuiet(env, files[..|files| - 1]);
      AnswerNext(env, files);
    }
  }

  lemma AnswerNext(env: Env, files: seq<string>)
    requires files != []
    requires !env.opts.buildNquads ==>
      Answer(env.pipe, env.tree, env.ctx, env.opts.buildNquads, files[..|files| - 1]).nquads == ""
    ensures Answer(env.pipe, env.tree, env.ctx, env.opts.buildNquads, files)
         == Plus(Answer(env.pipe, env.tree, env.ctx, env.opts.buildNquads, files[..|files| - 1]),
                 Due(env, files[|files| - 1]))
  {
    hide ExtractNow, QuadLines, IsReadable;
  }

  lemma {:induction false} DueQuiet(env: Env, files: seq<string>)
    ensures !env.opts.buildNquads ==> DueAll(env, files).nquads == ""
  {
    hide ExtractNow, QuadLines;
    if files != [] {
      DueQuiet(env, files[..|files| - 1]);
    }
  }

  function OutcomeOf(st: State): Outcome {
    Outcome(st.nq, st.errors, st.facts)
  }

  ghost predicate GivenInv(env: Env, disk0: Disk, st: State, done: seq<string>) {
    OutcomeOf(st) == GivenAll(env, disk0, done) && Untouched(disk0, st.disk, done)
    && (!env.opts.buildNquads ==> st.nq == "")
  }

  ghost predicate StepGives(env: Env, disk0: Disk, st: State, st': State, p: string) {
    OutcomeOf(st') == Plus(OutcomeOf(st), Given(env, disk0, p)) && Untouched(st.disk, st'.disk, [p])
    && (!env.opts.buildNquads ==> st'.nq == "")
  }

  /** One document adds its own part, and touches nothing of the others on the disk. */
  lemma ProcessGives(env: Env, disk0: Disk, st: State, p: string)
    requires SameAt(disk0, st.disk, p) && (!env.opts.buildNquads ==> st.nq == "")
    ensures StepGives(env, disk0, st, Process(env, st, p, Prepare(env, p)), p)
  {
    hide Extract, MdLinks, QuadLines, IsMentioned, Hit, Emit;
    match Prepare(env, p) {
      case Unreadable =>
      case Changed(content, bytesHash, mdLinks) => EmitGives(env, disk0, st, p);
      case Unchanged(bytesHash) =>
        HitIs(env, disk0, st, p, bytesHash);
        if !IsServed(env, disk0, p) {
          EmitGives(env, disk0, st, p);
          EmitGives(env, disk0, st.(proven := st.proven[p := env.cache.rows[p]]), p);
        }
    }
  }

  lemma EmitGives(env: Env, disk0: Disk, st: State, p: string)
    requires IsReadable(env.tree, p) && !IsServed(env, disk0, p) && (!env.opts.buildNquads ==> st.nq == "")
    ensures var content := env.tree.content[p].value;
      StepGives(env, disk0, st, Emit(env, st, p, content, env.pipe.hash(content),
                                     MdLinks(env.pipe, p, content, MdIndex(env.tree.files))), p)
  {
    hide Extract, MdLinks, QuadLines, IsServed;
    var content := env.tree.content[p].value;
    EmitOnlyAt(env, st, p, content, env.pipe.hash(content), MdLinks(env.pipe, p, content, MdIndex(env.tree.files)));
  }

  lemma {:induction false} GivenStep(env: Env, disk0: Disk, st: State, done: seq<string>, rest: seq<string>)
    requires GivenInv(env, disk0, st, done)
    requires forall i, j :: 0 <= i < j < |done + rest| ==> (done + rest)[i] != (done + rest)[j]
    ensures GivenInv(env, disk0, OneAtATime(env, st, rest), done + rest)
    decreases |rest|
  {
    if rest == [] {
      assert done + rest == done;
    } else {
      hide Process, Given, SameAt;
      var p := rest[0];
      NextIsNew(done, rest);
      ProcessGives(env, disk0, st, p);
      var st' := Process(env, st, p, Prepare(env, p));
      assert (done + [p])[..|done|] == done;
      UntouchedBoth(disk0, st.disk, st'.disk, done, p);
      NextMoved(done, rest);
      GivenStep(env, disk0, st', done + [p], rest[1..]);
    }
  }

  lemma UntouchedBoth(disk0: Disk, mid: Disk, disk: Disk, done: seq<string>, p: string)
    requires Untouched(disk0, mid, done) && Untouched(mid, disk, [p])
    ensures Untouched(disk0, disk, done + [p])
  {
    hide SameAt;
    forall q | q !in done + [p]
      ensures SameAt(disk0, disk, q)
    {
      SameAtTransitive(disk0, mid, disk, q);
    }
  }

  /** Whatever the cache holds: the walk answers the stored parts of the documents it serves and the
      extractions of the rest, in order. */
  lemma WalkGives(pipe: Pipeline, t: Tree, ctx: Context, disk: Disk, opts: Opts, forced: set<string>, forceFull: bool)
    requires IsTree(t)
    ensures WalkOnce(pipe, t, ctx, disk, opts, forced, forceFull).0
         == GivenAll(EnvFor(pipe, t, ctx, disk, opts, forced, forceFull), disk, t.files)
  {
    hide Load, Given;
    var env := EnvFor(pipe, t, ctx, disk, opts, forced, forceFull);
    assert [] + t.files == t.files;
    GivenStep(env, disk, State("", 0, 0, map[], disk), [], t.files);
  }

  // ----- when one stale fragment shows -----

  lemma SameTail(g: string, f: string, b: string)
    ensures g + b == f + b <==> g == f
  {
    if g + b == f + b {
      assert |g| == |f|;
      assert g == (g + b)[..|g|] == (f + b)[..|f|] == f;
    }
  }

  lemma {:induction false} GivenButOne(env: Env, disk: Disk, files: seq<string>, i: nat)
    requires i < |files|
    requires forall j :: 0 <= j < |files| && j != i ==> Given(env, disk, files[j]).nquads == Due(env, files[j]).nquads
    ensures GivenAll(env, disk, files).nquads == DueAll(env, files).nquads
       <==> Given(env, disk, files[i]).nquads == Due(env, files[i]).nquads
    decreases |files|
  {
    hide Given, Due;
    var init, last := files[..|files| - 1], files[|files| - 1];
    if i < |files| - 1 {
      GivenButOne(env, disk, init, i);
      SameTail(GivenAll(env, disk, init).nquads, DueAll(env, init).nquads, Due(env, last).nquads);
    } else {
      GivenAsDue(env, disk, init);
      SamePrefix(DueAll(env, init).nquads, Given(env, disk, last).nquads, Due(env, last).nquads);
    }
  }

  lemma {:induction false} GivenAsDue(env: Env, disk: Disk, files: seq<string>)
    requires forall p <- files :: Given(env, disk, p).nquads == Due(env, p).nquads
    ensures GivenAll(env, disk, files).nquads == DueAll(env, files).nquads
  {
    hide Given, Due;
    if files != [] {
      GivenAsDue(env, disk, files[..|files| - 1]);
    }
  }

  /** The stored fragment of a served document is what its extraction would give. */
  predicate FragmentCurrent(env: Env, disk: Disk, p: string)
    requires IsReadable(env.tree, p) && p in disk.frags
  {
    disk.frags[p] == ExtractNow(env.pipe, env.tree, env.ctx, p).frag
  }

  /** A document whose fragment something else touched -- a suspect put back under its row, say -- makes the
      walk's N-Quads wrong exactly when it is served and that fragment is not its extraction's, the other
      served documents being current. */
  lemma OneStaleFragmentIff(env: Env, disk: Disk, i: nat)
    requires IsTree(env.tree) && env.opts.buildNquads && i < |env.tree.files|
    requires env == EnvFor(env.pipe, env.tree, env.ctx, disk, env.opts, env.forced, env.forceFull)
    requires forall j :: 0 <= j < |env.tree.files| && j != i && IsServed(env, disk, env.tree.files[j]) ==>
      FragmentCurrent(env, disk, env.tree.files[j])
    ensures var p := env.tree.files[i];
      WalkOnce(env.pipe, env.tree, env.ctx, disk, env.opts, env.forced, env.forceFull).0.nquads
        == Answer(env.pipe, env.tree, env.ctx, true, env.tree.files).nquads
      <==> (IsServed(env, disk, p) ==> FragmentCurrent(env, disk, p))
  {
    hide ExtractNow, QuadLines, WalkOnce, Answer, IsMentioned, MdLinks;
    WalkGives(env.pipe, env.tree, env.ctx, disk, env.opts, env.forced, env.forceFull);
    AnswerIsDue(env, env.tree.files);
    GivenButOne(env, disk, env.tree.files, i);
  }

  // ----- two histories that leave a stale fragment -----

  /** A pipeline that only copies: the fragment of a document is the namespace and its text. */
  function CopyPipeline(): Pipeline {
    Pipeline(text => text, text => ([text], 0), _ => None,
             (ctx: Context, p, blobHash, lines) => (ctx.ns + (if lines == [] then "" else lines[0]), 0))
  }

  function Ctx(ns: string): Context {
    Context("ctx", ns)
  }

  function OneDoc(text: string): Tree {
    Tree(["a.txt"], map["a.txt" := Some(text)], map[])
  }

  const QUERY := Opts(false, true)

  lemma CopyExtraction(ns: string, text: string, blobHash: string, index: set<string>)
    ensures ExtractAt(CopyPipeline(), Ctx(ns), "a.txt", text, blobHash, index) == Extraction([text], None, ns + text, 0)
  {
    assert !IsMarkdown("a.txt") by { NotMarkdown(); }
    assert Sorting.SortDedup([text]) == [text] by {
      assert [text][1..] == [] && Sorting.SortDedup([]) == [];
    }
    assert [text] + [] == [text];
  }

  lemma NotMarkdown()
    ensures !IsMarkdown("a.txt")
  {
    assert Split("a.txt", '/') == ["a.txt"];
    assert "a.txt"[2..] == "txt";
  }

  /** The row a query walk stores for the one document. */
  function CopyRow(ns: string, text: string): Entry {
    Entry(text, "", 0, QuadLines(ns + text), false)
  }

  function CopyDisk(ns: string, rowOf: string, fragment: string): Disk {
    var listed := Unlines(["a.txt"]);
    Disk(Some(listed), Some(Manifest("ctx", listed, map["a.txt" := CopyRow(ns, rowOf)])), map["a.txt" := fragment],
         map[], map[])
  }

  lemma CopyLoad(ns: string, now: string, rowOf: string, fragment: string)
    ensures Load(CopyPipeline(), CopyDisk(ns, rowOf, fragment), Ctx(now), ["a.txt"])
         == Loaded(map["a.txt" := CopyRow(ns, rowOf)], {})
  {
    var listed := Unlines(["a.txt"]);
    assert IsLine("a.txt") && StripCR("a.txt") == "a.txt";
    LinesUnlines(["a.txt"]);
    assert StripAll(["a.txt"]) == ["a.txt"];
    assert SymmetricDifference(set p | p in Lines(listed), set p | p in ["a.txt"]) == {};
  }

  /** The documents of a walk over the one-document tree. */
  lemma CopyOne(env: Env, st: State)
    ensures OneAtATime(env, st, ["a.txt"]) == Process(env, st, "a.txt", Prepare(env, "a.txt"))
    ensures WritesOfAll(env, st, ["a.txt"]) == WritesOf(env, st, "a.txt")
  {
    assert ["a.txt"][1..] == [];
  }

  lemma FirstWalk(ns: string, text: string)
    ensures WalkOnce(CopyPipeline(), OneDoc(text), Ctx(ns), START.disk, QUERY, {}, false).1
      == CopyDisk(ns, text, ns + text)
  {
    var env := EnvFor(CopyPipeline(), OneDoc(text), Ctx(ns), START.disk, QUERY, {}, false);
    CopyOne(env, START);
    CopyExtraction(ns, text, "", MdIndex(["a.txt"]));
    assert Sorting.SortDedup(["a.txt"]) == ["a.txt"] by {
      assert ["a.txt"][1..] == [] && Sorting.SortDedup([]) == [];
    }
    var st := OneAtATime(env, START, ["a.txt"]);
    assert st.proven == map["a.txt" := CopyRow(ns, text)];
    assert (map p | p in st.disk.frags && p in st.proven :: st.disk.frags[p]) == map["a.txt" := ns + text];
  }

  lemma CopyWrites(env: Env, st: State, before: string, after: string)
    requires before != after
    requires env
      == Env(CopyPipeline(), OneDoc(after), Ctx(""), QUERY, Loaded(map["a.txt" := CopyRow("", before)], {}), {}, false)
    ensures WritesOf(env, st, "a.txt") == [PutFragment("a.txt", after)]
  {
    hide Extract, QuadLines;
    CopyExtraction("", after, "", MdIndex(["a.txt"]));
    assert "" + after == after;
    assert Prepare(env, "a.txt").Changed?;
  }

  lemma KilledAfterFragment(before: string, after: string)
    requires before != after
    ensures var disk := CopyDisk("", before, before);
      var env := EnvFor(CopyPipeline(), OneDoc(after), Ctx(""), disk, QUERY, {}, false);
      Apply(disk, Performed(env, disk, 1)) == CopyDisk("", before, after)
  {
    hide Extract, QuadLines, Load, WritesOf, Process, WritesOfAll, SaveWrites;
    var disk := CopyDisk("", before, before);
    var env := EnvFor(CopyPipeline(), OneDoc(after), Ctx(""), disk, QUERY, {}, false);
    var st0 := START.(disk := disk);
    CopyLoad("", "", before, before);
    CopyOne(env, st0);
    CopyWrites(env, st0, before, after);
    var ws := Performed(env, disk, 1);
    assert ws == [PutFragment("a.txt", after)];
    ApplyShort(disk, ws);
  }

  /** A row that still matches has its document served, whatever the fragment and the namespace. */
  lemma ServedStale(ns: string, now: string, text: string, fragment: string)
    ensures WalkOnce(CopyPipeline(), OneDoc(text), Ctx(now), CopyDisk(ns, text, fragment), QUERY, {}, false).0.nquads
      == fragment
  {
    var env := EnvFor(CopyPipeline(), OneDoc(text), Ctx(now), CopyDisk(ns, text, fragment), QUERY, {}, false);
    var st0 := START.(disk := CopyDisk(ns, text, fragment));
    CopyLoad(ns, now, text, fragment);
    CopyOne(env, st0);
    assert Prepare(env, "a.txt") == Unchanged(text);
    assert "" + fragment == fragment;
  }

  lemma RightAnswer(ns: string, text: string)
    ensures Answer(CopyPipeline(), OneDoc(text), Ctx(ns), true, ["a.txt"]).nquads == ns + text
  {
    CopyExtraction(ns, text, "", MdIndex(["a.txt"]));
    assert ["a.txt"][..0] == [];
    assert "" + (ns + text) == ns + text;
  }

  /** A repository of one document, walked once. */
  function Walked(ns: string, text: string): Sys {
    Sys(OneDoc(text), Ctx(ns), CopyDisk(ns, text, ns + text), ns, {})
  }

  lemma WalkedOnce(ns: string, text: string)
    ensures Step(CopyPipeline(), Sys(OneDoc(text), Ctx(ns), START.disk, "", {}), CompleteWalk(QUERY, {}, false))
         == Walked(ns, text)
  {
    hide WalkOnce, CopyDisk, CopyPipeline, OneDoc;
    FirstWalk(ns, text);
  }

  lemma CopyIsPipeline()
    ensures IsPipeline(CopyPipeline())
  {
  }

  /** The disk after the edit and the killed walk. */
  lemma KilledStep(before: string, after: string)
    requires before != after
    ensures var s := Step(CopyPipeline(), Walked("", before).(tree := OneDoc(after)), KilledWalk(QUERY, {}, false, 1));
      s.disk == CopyDisk("", before, after) && s.ctx == Ctx("")
  {
    hide Apply, Performed, CopyDisk, CopyPipeline, OneDoc, EnvFor, Touched;
    assert "" + before == before;
    KilledAfterFragment(before, after);
  }

  /** Walk a document holding `before`; edit it to `after`; kill a query walk right after it rewrote the
      fragment, before the manifest; put `before` back. The row still matches, so the next cached walk serves
      the fragment of `after`, for any two distinct texts. */
  lemma KilledWalkThenRevert(before: string, after: string)
    requires before != after
    ensures IsPipeline(CopyPipeline())
    ensures var pipe := CopyPipeline();
      var s1 := Step(pipe, Sys(OneDoc(before), Ctx(""), START.disk, "", {}), CompleteWalk(QUERY, {}, false));
      var s2 := Step(pipe, Step(pipe, s1, SetTree(OneDoc(after))), KilledWalk(QUERY, {}, false, 1));
      var s3 := Step(pipe, s2, SetTree(OneDoc(before)));
      WalkOnce(pipe, s3.tree, s3.ctx, s3.disk, QUERY, {}, false).0.nquads == after
      && Answer(pipe, s3.tree, s3.ctx, true, s3.tree.files).nquads == before
  {
    hide WalkOnce, Performed, CopyDisk, CopyPipeline, Apply, Touched, EnvFor, Answer;
    CopyIsPipeline();
    WalkedOnce("", before);
    KilledStep(before, after);
    ServedStale("", "", before, after);
    RightAnswer("", before);
    assert "" + before == before;
  }

  /** Walk a document; change the namespace (`name:` in repo.yml); walk again. The context hash has not moved,
      so the cached walk serves the fragment under the old namespace where a full walk writes the new one,
      for any two distinct namespaces. */
  lemma NamespaceChangeServesOld(was: string, now: string, text: string)
    requires was != now
    ensures IsPipeline(CopyPipeline())
    ensures var pipe := CopyPipeline();
      var s1 := Step(pipe, Sys(OneDoc(text), Ctx(was), START.disk, "", {}), CompleteWalk(QUERY, {}, false));
      var s2 := Step(pipe, s1, SetNamespace(now));
      WalkOnce(pipe, s2.tree, s2.ctx, s2.disk, QUERY, {}, false).0.nquads == was + text
      && Answer(pipe, s2.tree, s2.ctx, true, s2.tree.files).nquads == now + text
      && was + text != now + text
  {
    hide WalkOnce, CopyDisk, CopyPipeline, Answer;
    CopyIsPipeline();
    WalkedOnce(was, text);
    ServedStale(was, now, text, was + text);
    RightAnswer(now, text);
    SameTail(was, now, text);
  }
}
