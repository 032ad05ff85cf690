/** The machine registry under many processes (`registry_update`, src/lib.rs): lock, read, edit, write
    a temporary file, rename it into place, delete the legacy list, unlock -- and any process may die
    or give up between two steps. */
module Registry {
  import opened Wrappers
  import opened RegistryRows
  import Sorting
  import Text

  // ----- one update -----

  datatype Edit =
    | Put(path: string, now: Option<string>, genesis: Option<string>)   // `registry_put`
    | Remove(path: string)                                              // `registry_remove`

  function OrNull(s: Option<string>): Json {
    match s case Some(t) => Str(t) case None => Null
  }

  /** An existing row is stamped: no clock, no write; no genesis, no write. */
  function Stamped(row: Json, now: Option<string>, genesis: Option<string>): Json
    requires row.Obj?
  {
    var timed := if now.Some? then WithField(row, "last_used", Str(now.value)) else row;
    if genesis.Some? then WithField(timed, "genesis", Str(genesis.value)) else timed
  }

  function WithoutPath(rows: seq<Json>, path: string): seq<Json> {
    if rows == [] then []
    else (if Path(rows[0]) == Some(path) then [] else [rows[0]]) + WithoutPath(rows[1..], path)
  }

  function Edited(rows: seq<Json>, e: Edit): seq<Json> {
    match e
    case Remove(path) => WithoutPath(rows, path)
    case Put(path, now, genesis) =>
      match IndexOfPath(rows, path)
      case Some(i) => if i < |rows| && rows[i].Obj? then rows[i := Stamped(rows[i], now, genesis)] else rows
      case None => rows + [Obj(map["path" := Str(path), "last_used" := OrNull(now), "genesis" := OrNull(genesis)])]
  }

  /** The legacy list's paths join with no time, unless they are already there. */
  function WithLegacy(rows: seq<Json>, lines: seq<string>): seq<Json>
    decreases |lines|
  {
    if lines == [] then rows
    else
      var path := Text.Trim(lines[0]);
      if path == "" || IndexOfPath(rows, path).Some? then WithLegacy(rows, lines[1..])
      else WithLegacy(rows + [Obj(map["path" := Str(path), "last_used" := Null])], lines[1..])
  }

  /** `sort_by` on the path, a row without one sorting as empty. */
  function SortKey(row: Json): string {
    match Path(row) case Some(p) => p case None => ""
  }

  function InsertRow(row: Json, rows: seq<Json>): seq<Json> {
    if rows == [] || Sorting.Less(SortKey(row), SortKey(rows[0])) then [row] + rows
    else [rows[0]] + InsertRow(row, rows[1..])
  }

  function SortRows(rows: seq<Json>): seq<Json> {
    if rows == [] then [] else InsertRow(rows[|rows| - 1], SortRows(rows[..|rows| - 1]))
  }

  function Repos(doc: Json): seq<Json> {
    match Field(doc, "repos") case Some(Arr(items)) => items case _ => []
  }

  /** The whole document after one update. */
  function Updated(doc: Json, legacy: seq<string>, e: Edit, key: string -> string): (r: Json)
    requires doc.Obj?
    ensures r.Obj?
  {
    WithField(doc, "repos", Arr(SortRows(Folded(Edited(WithLegacy(Repos(doc), legacy), e), key))))
  }

  function PathsOf(rows: seq<Json>): set<string> {
    set row | row in rows && Path(row).Some? :: Path(row).value
  }

  function LegacyPaths(lines: seq<string>): set<string> {
    set line | line in lines && Text.Trim(line) != "" :: Text.Trim(line)
  }

  lemma PathsOfConcat(a: seq<Json>, b: seq<Json>)
    ensures PathsOf(a + b) == PathsOf(a) + PathsOf(b)
  {
  }

  lemma PathsOfOne(row: Json)
    ensures PathsOf([row]) == if Path(row).Some? then {Path(row).value} else {}
  {
    assert [row][0] == row;
    assert forall r <- [row] :: r == row;
  }

  lemma {:induction false} WithLegacyPaths(rows: seq<Json>, lines: seq<string>)
    ensures PathsOf(WithLegacy(rows, lines)) == PathsOf(rows) + LegacyPaths(lines)
    decreases |lines|
  {
    hide IndexOfPath, Text.Trim, PathsOf;
    if lines != [] {
      var path := Text.Trim(lines[0]);
      assert LegacyPaths(lines) == LegacyPaths(lines[1..]) + (if path == "" then {} else {path}) by {
        assert lines == [lines[0]] + lines[1..];
      }
      var row := Obj(map["path" := Str(path), "last_used" := Null]);
      PathsOfConcat(rows, [row]);
      PathsOfOne(row);
      IndexOfPathHeld(rows, path);
      if path == "" || IndexOfPath(rows, path).Some? {
        WithLegacyPaths(rows, lines[1..]);
      } else {
        WithLegacyPaths(rows + [row], lines[1..]);
      }
    }
  }

  lemma IndexOfPathHeld(rows: seq<Json>, path: string)
    ensures IndexOfPath(rows, path).Some? <==> path in PathsOf(rows)
  {
    IndexOfPathRight(rows, path);
  }

  lemma {:induction false} WithoutPathPaths(rows: seq<Json>, path: string)
    ensures PathsOf(WithoutPath(rows, path)) == PathsOf(rows) - {path}
  {
    if rows != [] {
      WithoutPathPaths(rows[1..], path);
      PathsOfConcat([rows[0]], rows[1..]);
      assert rows == [rows[0]] + rows[1..];
      var kept := if Path(rows[0]) == Some(path) then [] else [rows[0]];
      PathsOfConcat(kept, WithoutPath(rows[1..], path));
      PathsOfOne(rows[0]);
      assert PathsOf([]) == {};
    }
  }

  lemma EditedPaths(rows: seq<Json>, e: Edit)
    ensures PathsOf(Edited(rows, e)) == if e.Put? then PathsOf(rows) + {e.path} else PathsOf(rows) - {e.path}
  {
    match e {
      case Remove(path) => WithoutPathPaths(rows, path);
      case Put(path, now, genesis) =>
        IndexOfPathRight(rows, path);
        match IndexOfPath(rows, path) {
          case Some(i) => SamePaths(rows, Edited(rows, e));
          case None =>
            var row := Edited(rows, e)[|rows|];
            PathsOfConcat(rows, [row]);
            PathsOfOne(row);
        }
    }
  }

  lemma SamePaths(a: seq<Json>, b: seq<Json>)
    requires |a| == |b| && forall i :: 0 <= i < |a| ==> Path(a[i]) == Path(b[i])
    ensures PathsOf(a) == PathsOf(b)
  {
    forall p | p in PathsOf(a)
      ensures p in PathsOf(b)
    {
      var i :| 0 <= i < |a| && Path(a[i]) == Some(p);
      assert b[i] in b;
    }
    forall p | p in PathsOf(b)
      ensures p in PathsOf(a)
    {
      var i :| 0 <= i < |b| && Path(b[i]) == Some(p);
      assert a[i] in a;
    }
  }

  lemma {:induction false} InsertRowElements(row: Json, rows: seq<Json>)
    ensures forall r :: r in InsertRow(row, rows) <==> r == row || r in rows
  {
    if rows != [] && !Sorting.Less(SortKey(row), SortKey(rows[0])) {
      InsertRowElements(row, rows[1..]);
      assert rows == [rows[0]] + rows[1..];
    }
  }

  lemma {:induction false} SortRowsElements(rows: seq<Json>)
    ensures forall r :: r in SortRows(rows) <==> r in rows
  {
    if rows != [] {
      SortRowsElements(rows[..|rows| - 1]);
      InsertRowElements(rows[|rows| - 1], SortRows(rows[..|rows| - 1]));
      assert rows == rows[..|rows| - 1] + [rows[|rows| - 1]];
    }
  }

  function Resolved(paths: set<string>, key: string -> string): set<string> {
    set p | p in paths :: key(p)
  }

  lemma FoldedPaths(rows: seq<Json>, key: string -> string)
    ensures PathsOf(Folded(rows, key)) == Resolved(PathsOf(rows), key)
  {
    hide SpeaksFor, Folded;
    FoldKeeps(rows, key);
    var folded := Folded(rows, key);
    forall p | p in PathsOf(folded)
      ensures p in Resolved(PathsOf(rows), key)
    {
      var r :| r in folded && Path(r) == Some(p);
      SpokenFor(r, rows, key, p);
      var row :| row in rows && At(row, key, p);
      assert Path(row).value in PathsOf(rows);
    }
    forall p | p in Resolved(PathsOf(rows), key)
      ensures p in PathsOf(folded)
    {
      var row :| row in rows && Path(row).Some? && key(Path(row).value) == p;
      var r :| r in folded && Path(r) == Some(p);
    }
  }

  /** The paths a document holds after one update: those it held and the legacy list's, with the edit's
      path added or taken away, each resolved. Every field of the document but `repos` is as it was. */
  lemma UpdatedPaths(doc: Json, legacy: seq<string>, e: Edit, key: string -> string)
    requires doc.Obj?
    ensures var before := PathsOf(Repos(doc)) + LegacyPaths(legacy);
      PathsOf(Repos(Updated(doc, legacy, e, key)))
        == Resolved(if e.Put? then before + {e.path} else before - {e.path}, key)
    ensures forall name :: name != "repos" ==> Field(Updated(doc, legacy, e, key), name) == Field(doc, name)
  {
    hide Folded, Edited, WithLegacy, SortRows;
    var rows := Edited(WithLegacy(Repos(doc), legacy), e);
    WithLegacyPaths(Repos(doc), legacy);
    EditedPaths(WithLegacy(Repos(doc), legacy), e);
    FoldedPaths(rows, key);
    SortRowsElements(Folded(rows, key));
    assert Repos(Updated(doc, legacy, e, key)) == SortRows(Folded(rows, key));
  }

  /** Removing a repository takes its row away exactly when no row, and no legacy line, records it under
      another name: such a row is not matched by the edit and resolves to the removed path right after. */
  lemma RemoveRemovesIff(doc: Json, legacy: seq<string>, canonical: string, key: string -> string)
    requires doc.Obj?
    ensures canonical !in PathsOf(Repos(Updated(doc, legacy, Remove(canonical), key))) <==>
      forall p <- PathsOf(Repos(doc)) + LegacyPaths(legacy) :: key(p) == canonical ==> p == canonical
  {
    UpdatedPaths(doc, legacy, Remove(canonical), key);
  }

  // ----- the protocol -----

  /** repos.json as a reader finds it. */
  datatype RegFile = Missing | Torn | Whole(doc: Json)

  /** The line-based file that came before; it may hold bytes that cannot be read as text. */
  datatype Legacy = Readable(lines: seq<string>) | Unreadable(lines: seq<string>)

  datatype Pc =
    | Idle
    | Waiting(e: Edit)
    | Holding(e: Edit)
    | Computed(e: Edit, body: Json, sawLegacy: bool)
    | Writing(e: Edit, body: Json, sawLegacy: bool)
    | Written(e: Edit, body: Json, sawLegacy: bool)
    | Renamed(e: Edit, sawLegacy: bool)
    | Cleaned

  /** One rename, with the legacy list it folded in and the turn at the lock it was made under. */
  datatype Commit = Commit(e: Edit, legacy: seq<string>, turn: nat)

  datatype State = State(
    reg: RegFile,
    legacy: Option<Legacy>,
    tmps: map<nat, RegFile>,
    lock: Option<nat>,
    turn: nat,
    pcs: map<nat, Pc>,
    log: seq<Commit>)

  function ReadDoc(reg: RegFile): (doc: Json)
    ensures doc.Obj?
  {
    if reg.Whole? && reg.doc.Obj? then reg.doc else Obj(map[])
  }

  function LegacyText(legacy: Option<Legacy>): seq<string> {
    match legacy case Some(Readable(lines)) => lines case _ => []
  }

  function PcOf(s: State, p: nat): Pc {
    if p in s.pcs then s.pcs[p] else Idle
  }

  datatype Event =
    | Start(p: nat, e: Edit)
    | Lock(p: nat)
    | Compute(p: nat)
    | BeginWrite(p: nat)
    | EndWrite(p: nat)
    | Rename(p: nat)
    | DropLegacy(p: nat, removed: bool)   // `remove_file(..).ok()`
    | Quit(p: nat)                        // unlock at the end, an early error return, or death: the lock is released

  predicate Enabled(s: State, ev: Event) {
    match ev
    case Start(p, _) => PcOf(s, p).Idle?
    case Lock(p) => PcOf(s, p).Waiting? && s.lock.None?
    case Compute(p) => PcOf(s, p).Holding?
    case BeginWrite(p) => PcOf(s, p).Computed?
    case EndWrite(p) => PcOf(s, p).Writing?
    case Rename(p) => PcOf(s, p).Written? && p in s.tmps
    case DropLegacy(p, _) => PcOf(s, p).Renamed?
    case Quit(p) => true
  }

  function Step(s: State, ev: Event, key: string -> string): State
    requires Enabled(s, ev)
  {
    var pc := PcOf(s, ev.p);
    match ev
    case Start(p, e) => s.(pcs := s.pcs[p := Waiting(e)])
    case Lock(p) => s.(pcs := s.pcs[p := Holding(pc.e)], lock := Some(p), turn := s.turn + 1)
    case Compute(p) =>
      var body := Updated(ReadDoc(s.reg), LegacyText(s.legacy), pc.e, key);
      s.(pcs := s.pcs[p := Computed(pc.e, body, s.legacy.Some?)])
    case BeginWrite(p) => s.(pcs := s.pcs[p := Writing(pc.e, pc.body, pc.sawLegacy)], tmps := s.tmps[p := Torn])
    case EndWrite(p) => s.(pcs := s.pcs[p := Written(pc.e, pc.body, pc.sawLegacy)], tmps := s.tmps[p := Whole(pc.body)])
    case Rename(p) =>
      s.(pcs := s.pcs[p := Renamed(pc.e, pc.sawLegacy)], reg := s.tmps[p], tmps := s.tmps - {p},
         log := s.log + [Commit(pc.e, LegacyText(s.legacy), s.turn)])
    case DropLegacy(p, removed) =>
      s.(pcs := s.pcs[p := Cleaned], legacy := if pc.sawLegacy && removed then None else s.legacy)
    case Quit(p) => s.(pcs := s.pcs[p := Idle], lock := if s.lock == Some(p) then None else s.lock)
  }

  /** The edits of a log applied one after another. */
  function Replay(reg: RegFile, log: seq<Commit>, key: string -> string): RegFile {
    if log == [] then reg
    else
      var last := log[|log| - 1];
      Whole(Updated(ReadDoc(Replay(reg, log[..|log| - 1], key)), last.legacy, last.e, key))
  }

  predicate InCritical(pc: Pc) {
    !pc.Idle? && !pc.Waiting?
  }

  predicate HasBody(pc: Pc) {
    pc.Computed? || pc.Writing? || pc.Written?
  }

  ghost predicate Inv(s: State, reg0: RegFile, key: string -> string) {
    (forall p: nat :: InCritical(PcOf(s, p)) ==> s.lock == Some(p))
    && (forall p: nat :: PcOk(s, p, key))
    && s.reg == Replay(reg0, s.log, key)
    && TurnsOk(s)
  }

  predicate PcOk(s: State, p: nat, key: string -> string) {
    var pc := PcOf(s, p);
    (HasBody(pc) || pc.Renamed? ==> pc.sawLegacy == s.legacy.Some?)
    && (HasBody(pc) ==> pc.body == Updated(ReadDoc(s.reg), LegacyText(s.legacy), pc.e, key))
    && (HasBody(pc) || pc.Holding? ==> s.log == [] || s.log[|s.log| - 1].turn < s.turn)
    && (pc.Written? ==> p in s.tmps && s.tmps[p] == Whole(pc.body))
    && (pc.Renamed? ==> LegacyFolded(s, pc.e, key))
  }

  /** Every path of the legacy list is in repos.json, unless the edit just made removed it. */
  predicate LegacyFolded(s: State, e: Edit, key: string -> string) {
    forall l <- LegacyPaths(LegacyText(s.legacy)) :: e == Remove(l) || key(l) in PathsOf(Repos(ReadDoc(s.reg)))
  }

  predicate TurnsOk(s: State) {
    (forall i :: 0 <= i < |s.log| ==> s.log[i].turn <= s.turn)
    && (forall i, j :: 0 <= i < j < |s.log| ==> s.log[i].turn < s.log[j].turn)
  }

  lemma StepInv(s: State, ev: Event, reg0: RegFile, key: string -> string)
    requires Inv(s, reg0, key) && Enabled(s, ev)
    ensures Inv(Step(s, ev, key), reg0, key)
  {
    hide Updated, LegacyPaths;
    var s' := Step(s, ev, key);
    assert PcOk(s, ev.p, key);
    forall p: nat
      ensures PcOk(s', p, key)
      ensures InCritical(PcOf(s', p)) ==> s'.lock == Some(p)
    {
      assert PcOk(s, p, key);
      if p == ev.p && ev.Rename? {
        RenameCovers(s, p, key);
      }
    }
    if ev.Rename? {
      assert s'.log[..|s.log|] == s.log;
      assert s.lock == Some(ev.p);
    }
  }

  lemma RenameCovers(s: State, p: nat, key: string -> string)
    requires PcOk(s, p, key) && Enabled(s, Rename(p))
    ensures LegacyFolded(Step(s, Rename(p), key), PcOf(s, p).e, key)
  {
    UpdatedPaths(ReadDoc(s.reg), LegacyText(s.legacy), PcOf(s, p).e, key);
  }

  function Run(s: State, events: seq<Event>, key: string -> string): State
    requires IsRun(s, events, key)
    decreases |events|
  {
    if events == [] then s else Run(Step(s, events[0], key), events[1..], key)
  }

  predicate IsRun(s: State, events: seq<Event>, key: string -> string)
    decreases |events|
  {
    events != [] ==> Enabled(s, events[0]) && IsRun(Step(s, events[0], key), events[1..], key)
  }

  function Begin(reg: RegFile, legacy: Option<Legacy>): State {
    State(reg, legacy, map[], None, 0, map[], [])
  }

  lemma {:induction false} RunInv(s: State, events: seq<Event>, reg0: RegFile, key: string -> string)
    requires Inv(s, reg0, key) && IsRun(s, events, key)
    ensures Inv(Run(s, events, key), reg0, key)
    decreases |events|
  {
    hide Inv, Step;
    if events != [] {
      StepInv(s, events[0], reg0, key);
      RunInv(Step(s, events[0], key), events[1..], reg0, key);
    }
  }

  /** For any number of processes, any interleaving and any deaths: repos.json is the edits that reached
      their rename, applied one after another in the order of their turns at the lock -- no edit is
      applied to a list that lacks an earlier one -- and a reader never finds it torn. */
  lemma Serialised(reg0: RegFile, legacy0: Option<Legacy>, events: seq<Event>, key: string -> string)
    requires IsRun(Begin(reg0, legacy0), events, key)
    ensures var s := Run(Begin(reg0, legacy0), events, key);
      s.reg == Replay(reg0, s.log, key)
      && (forall i, j :: 0 <= i < j < |s.log| ==> s.log[i].turn < s.log[j].turn)
      && (!reg0.Torn? ==> !s.reg.Torn?)
  {
    RunInv(Begin(reg0, legacy0), events, reg0, key);
  }

  // ----- no path is lost -----

  /** The path is on record: in repos.json under its own or its resolved name, or in the legacy list. */
  predicate OnRecord(s: State, q: string, key: string -> string) {
    var held := PathsOf(Repos(ReadDoc(s.reg)));
    q in held || key(q) in held || q in LegacyPaths(LegacyText(s.legacy))
  }

  predicate Removes(e: Edit, q: string, key: string -> string) {
    e.Remove? && (e.path == q || e.path == key(q))
  }

  /** No update in flight removes the path. */
  ghost predicate NotBeingRemoved(s: State, q: string, key: string -> string) {
    forall p: nat :: InFlight(PcOf(s, p)) ==> !Removes(PcOf(s, p).e, q, key)
  }

  predicate InFlight(pc: Pc) {
    !pc.Idle? && !pc.Cleaned?
  }

  lemma StepKeepsRecord(s: State, ev: Event, q: string, reg0: RegFile, key: string -> string)
    requires Inv(s, reg0, key) && Enabled(s, ev)
    requires OnRecord(s, q, key) && NotBeingRemoved(s, q, key) && key(key(q)) == key(q)
    ensures OnRecord(Step(s, ev, key), q, key)
  {
    hide Updated, LegacyPaths, PathsOf, Repos;
    assert PcOk(s, ev.p, key);
    if ev.Rename? {
      var e := PcOf(s, ev.p).e;
      assert !Removes(e, q, key);
      UpdatedPaths(ReadDoc(s.reg), LegacyText(s.legacy), e, key);
      var before := PathsOf(Repos(ReadDoc(s.reg))) + LegacyPaths(LegacyText(s.legacy));
      var after := if e.Put? then before + {e.path} else before - {e.path};
      assert q in after || key(q) in after;
      assert key(q) in Resolved(after, key);
    } else if ev.DropLegacy? {
      assert !Removes(PcOf(s, ev.p).e, q, key);
    }
  }

  ghost predicate NeverRemoved(s: State, events: seq<Event>, q: string, key: string -> string)
    requires IsRun(s, events, key)
    decreases |events|
  {
    NotBeingRemoved(s, q, key)
    && (events != [] ==> NeverRemoved(Step(s, events[0], key), events[1..], q, key))
  }

  /** A path once on record stays on record through any interleaving and any death at any step, until
      somebody removes it. */
  lemma {:induction false} NoPathLost(s: State, events: seq<Event>, q: string, reg0: RegFile, key: string -> string)
    requires Inv(s, reg0, key) && IsRun(s, events, key) && NeverRemoved(s, events, q, key)
    requires OnRecord(s, q, key) && key(key(q)) == key(q)
    ensures OnRecord(Run(s, events, key), q, key)
    decreases |events|
  {
    hide Inv, Step, OnRecord, NotBeingRemoved;
    if events != [] {
      StepInv(s, events[0], reg0, key);
      StepKeepsRecord(s, events[0], q, reg0, key);
      NoPathLost(Step(s, events[0], key), events[1..], q, reg0, key);
    }
  }

  /** A run that leaves nothing on record but the path it was started for. */
  ghost predicate LosesAllBut(s: State, events: seq<Event>, mine: string, key: string -> string) {
    IsRun(s, events, key)
    && Run(s, events, key).legacy == None
    && PathsOf(Repos(ReadDoc(Run(s, events, key).reg))) == {key(mine)}
  }

  /** A legacy list that cannot be read as text is deleted all the same: its paths were never folded. */
  lemma UnreadableLegacyIsDeleted(lines: seq<string>, mine: string, key: string -> string)
    ensures exists events :: LosesAllBut(Begin(Missing, Some(Unreadable(lines))), events, mine, key)
  {
    hide Updated, Run, IsRun, Repos, PathsOf;
    var e := Put(mine, None, None);
    var s0 := Begin(Missing, Some(Unreadable(lines)));
    var s1 := Step(s0, Start(0, e), key);
    var s2 := Step(s1, Lock(0), key);
    var s3 := Step(s2, Compute(0), key);
    var s4 := Step(s3, BeginWrite(0), key);
    var s5 := Step(s4, EndWrite(0), key);
    var s6 := Step(s5, Rename(0), key);
    var s7 := Step(s6, DropLegacy(0, true), key);
    assert s7.legacy == None && s7.reg == Whole(Updated(Obj(map[]), [], e, key));
    UpdatedPaths(Obj(map[]), [], e, key);
    NothingHeld();
    RunNil(s7, key);
    var es6 := [DropLegacy(0, true)] + [];
    RunCons(s6, DropLegacy(0, true), [], key);
    var es5 := [Rename(0)] + es6;
    RunCons(s5, Rename(0), es6, key);
    var es4 := [EndWrite(0)] + es5;
    RunCons(s4, EndWrite(0), es5, key);
    var es3 := [BeginWrite(0)] + es4;
    RunCons(s3, BeginWrite(0), es4, key);
    var es2 := [Compute(0)] + es3;
    RunCons(s2, Compute(0), es3, key);
    var es1 := [Lock(0)] + es2;
    RunCons(s1, Lock(0), es2, key);
    RunCons(s0, Start(0, e), es1, key);
    assert LosesAllBut(s0, [Start(0, e)] + es1, mine, key);
  }

  lemma NothingHeld()
    ensures PathsOf(Repos(Obj(map[]))) + LegacyPaths([]) == {}
  {
  }

  lemma RunNil(s: State, key: string -> string)
    ensures IsRun(s, [], key) && Run(s, [], key) == s
  {
  }

  lemma RunCons(s: State, ev: Event, rest: seq<Event>, key: string -> string)
    requires Enabled(s, ev) && IsRun(Step(s, ev, key), rest, key)
    ensures IsRun(s, [ev] + rest, key) && Run(s, [ev] + rest, key) == Run(Step(s, ev, key), rest, key)
  {
    assert ([ev] + rest)[1..] == rest;
  }
}
