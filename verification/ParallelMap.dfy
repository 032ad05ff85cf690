/** `parallel_map` of src/nquad.rs: worker threads claim indices from one atomic counter,
    compute outside the lock, and store into one locked vector. Each worker always has
    exactly one next move, so an interleaving is the sequence of workers that move. */
module ParallelMap {
  import opened Wrappers

  datatype Worker<R> =
    | Ready                       // about to `fetch_add`
    | Claimed(i: nat)             // holds an index inside the items
    | Computed(i: nat, r: R)      // holds the result, about to lock and store
    | Finished                    // left the loop

  datatype State<R> = State(next: nat, slots: seq<Option<R>>, workers: seq<Worker<R>>)

  function Initial<R>(items: nat, threads: nat): State<R> {
    State(0, seq(items, _ => None), seq(WorkerCount(items, threads), _ => Ready))
  }

  /** `threads.min(items.len()).max(1)` */
  function WorkerCount(items: nat, threads: nat): nat {
    var n := if threads < items then threads else items;
    if n < 1 then 1 else n
  }

  predicate CanMove<R>(s: State<R>, w: nat) {
    w < |s.workers| && !s.workers[w].Finished?
  }

  /** Worker `w` makes its move. (A worker that holds an index outside the items would be stuck; `MoveInv` says
      that none ever does.) */
  function Move<T, R>(items: seq<T>, f: T -> R, s: State<R>, w: nat): State<R>
    requires CanMove(s, w)
  {
    match s.workers[w]
    case Ready =>
      State(s.next + 1, s.slots,
            s.workers[w := if s.next >= |items| then Finished else Claimed(s.next)])
    case Claimed(i) =>
      if i < |items| then s.(workers := s.workers[w := Computed(i, f(items[i]))]) else s
    case Computed(i, r) =>
      if i < |s.slots| then s.(slots := s.slots[i := Some(r)], workers := s.workers[w := Ready]) else s
  }

  predicate Holds<R>(worker: Worker<R>, i: nat) {
    (worker.Claimed? || worker.Computed?) && worker.i == i
  }

  /** What every reachable state satisfies: filled slots hold their item's result, no index
      is held twice, and every claimed index is filled or held. */
  ghost predicate Inv<T, R>(items: seq<T>, f: T -> R, s: State<R>) {
    && |s.slots| == |items| && |s.workers| >= 1
    && (forall i :: 0 <= i < |items| && s.slots[i].Some? ==> i < s.next && s.slots[i].value == f(items[i]))
    && (forall w :: 0 <= w < |s.workers| ==> WorkerOk(items, f, s, s.workers[w]))
    && HeldOnce(s)
    && NoneLost(s)
  }

  ghost predicate HeldOnce<R>(s: State<R>) {
    forall v, w, i :: 0 <= v < w < |s.workers| && Holds(s.workers[v], i) ==> !Holds(s.workers[w], i)
  }

  ghost predicate NoneLost<R>(s: State<R>) {
    forall i :: 0 <= i < s.next && i < |s.slots| && s.slots[i].None? ==>
      exists w :: 0 <= w < |s.workers| && Holds(s.workers[w], i)
  }

  ghost predicate WorkerOk<T, R>(items: seq<T>, f: T -> R, s: State<R>, worker: Worker<R>) {
    match worker
    case Ready => true
    case Claimed(i) => i < |items| == |s.slots| && i < s.next && s.slots[i].None?
    case Computed(i, r) => i < |items| == |s.slots| && i < s.next && s.slots[i].None? && r == f(items[i])
    case Finished => s.next >= |items|
  }

  lemma InitialInv<T, R>(items: seq<T>, threads: nat, f: T -> R)
    ensures Inv(items, f, Initial(|items|, threads))
  {
  }

  lemma MoveInv<T, R>(items: seq<T>, f: T -> R, s: State<R>, w: nat)
    requires Inv(items, f, s) && CanMove(s, w)
    ensures WorkerOk(items, f, s, s.workers[w])
    ensures Inv(items, f, Move(items, f, s, w))
  {
    assert WorkerOk(items, f, s, s.workers[w]);
    var s' := Move(items, f, s, w);
    MoveHeldOnce(items, f, s, w);
    MoveNoneLost(items, f, s, w);
    forall v | 0 <= v < |s'.workers|
      ensures WorkerOk(items, f, s', s'.workers[v])
    {
      assert WorkerOk(items, f, s, s.workers[v]);
      if v != w && s.workers[w].Computed? {
        assert Holds(s.workers[w], s.workers[w].i);
      }
    }
  }

  lemma MoveHeldOnce<T, R>(items: seq<T>, f: T -> R, s: State<R>, w: nat)
    requires Inv(items, f, s) && CanMove(s, w) && WorkerOk(items, f, s, s.workers[w])
    ensures HeldOnce(Move(items, f, s, w))
  {
    var s' := Move(items, f, s, w);
    forall u, v, i | 0 <= u < v < |s'.workers| && Holds(s'.workers[u], i)
      ensures !Holds(s'.workers[v], i)
    {
      assert WorkerOk(items, f, s, s.workers[u]) && WorkerOk(items, f, s, s.workers[v]);
      assert u != w ==> s'.workers[u] == s.workers[u];
      assert v != w ==> s'.workers[v] == s.workers[v];
    }
  }

  lemma MoveNoneLost<T, R>(items: seq<T>, f: T -> R, s: State<R>, w: nat)
    requires Inv(items, f, s) && CanMove(s, w) && WorkerOk(items, f, s, s.workers[w])
    ensures NoneLost(Move(items, f, s, w))
  {
    var s' := Move(items, f, s, w);
    forall i | 0 <= i < s'.next && i < |s'.slots| && s'.slots[i].None?
      ensures exists v :: 0 <= v < |s'.workers| && Holds(s'.workers[v], i)
    {
      if i < s.next {
        var v :| 0 <= v < |s.workers| && Holds(s.workers[v], i);
        assert Holds(s'.workers[v], i);
      } else {
        assert Holds(s'.workers[w], i);
      }
    }
  }

  /** Moves left: three for each unclaimed item, and what each worker still owes. */
  function Remaining<R>(items: nat, s: State<R>): nat {
    (if s.next < items then 3 * (items - s.next) else 0) + Owed(s.workers)
  }

  function Owed<R>(workers: seq<Worker<R>>): nat {
    if workers == [] then 0 else Owed(workers[..|workers| - 1]) + OwedBy(workers[|workers| - 1])
  }

  function OwedBy<R>(worker: Worker<R>): nat {
    match worker
    case Ready => 1
    case Claimed(_) => 3
    case Computed(_, _) => 2
    case Finished => 0
  }

  lemma {:induction false} OwedUpdate<R>(workers: seq<Worker<R>>, w: nat, worker: Worker<R>)
    requires w < |workers|
    ensures Owed(workers[w := worker]) == Owed(workers) - OwedBy(workers[w]) + OwedBy(worker)
  {
    var last := |workers| - 1;
    if w == last {
      assert workers[w := worker][..last] == workers[..last];
    } else {
      assert workers[w := worker][..last] == workers[..last][w := worker];
      OwedUpdate(workers[..last], w, worker);
    }
  }

  lemma {:induction false} OwedNothing<R>(workers: seq<Worker<R>>)
    ensures Owed(workers) == 0 <==> forall w :: 0 <= w < |workers| ==> workers[w].Finished?
  {
    if workers != [] {
      OwedNothing(workers[..|workers| - 1]);
    }
  }

  lemma {:induction false} OwedReady<R>(n: nat, workers: seq<Worker<R>>)
    requires |workers| == n && forall w :: 0 <= w < n ==> workers[w] == Ready
    ensures Owed(workers) == n
  {
    if n > 0 {
      OwedReady(n - 1, workers[..n - 1]);
    }
  }

  /** Every move uses up exactly one of the remaining moves. */
  lemma MoveCounts<T, R>(items: seq<T>, f: T -> R, s: State<R>, w: nat)
    requires Inv(items, f, s) && CanMove(s, w)
    ensures WorkerOk(items, f, s, s.workers[w])
    ensures Remaining(|items|, Move(items, f, s, w)) == Remaining(|items|, s) - 1
  {
    assert WorkerOk(items, f, s, s.workers[w]);
    OwedUpdate(s.workers, w, Move(items, f, s, w).workers[w]);
  }

  /** An interleaving: a sequence of moves by workers that can move. */
  ghost predicate IsSchedule<T, R>(items: seq<T>, f: T -> R, s: State<R>, schedule: seq<nat>)
    decreases |schedule|
  {
    schedule != [] ==> CanMove(s, schedule[0]) && IsSchedule(items, f, Move(items, f, s, schedule[0]), schedule[1..])
  }

  ghost function Run<T, R>(items: seq<T>, f: T -> R, s: State<R>, schedule: seq<nat>): State<R>
    requires IsSchedule(items, f, s, schedule)
    decreases |schedule|
  {
    if schedule == [] then s else Run(items, f, Move(items, f, s, schedule[0]), schedule[1..])
  }

  predicate AllFinished<R>(s: State<R>) {
    forall w :: 0 <= w < |s.workers| ==> s.workers[w].Finished?
  }

  lemma {:induction false} RunInv<T, R>(items: seq<T>, f: T -> R, s: State<R>, schedule: seq<nat>)
    requires Inv(items, f, s) && IsSchedule(items, f, s, schedule)
    ensures Inv(items, f, Run(items, f, s, schedule))
    ensures Remaining(|items|, Run(items, f, s, schedule)) == Remaining(|items|, s) - |schedule|
    decreases |schedule|
  {
    if schedule != [] {
      MoveInv(items, f, s, schedule[0]);
      MoveCounts(items, f, s, schedule[0]);
      RunInv(items, f, Move(items, f, s, schedule[0]), schedule[1..]);
    }
  }

  /** For every thread count and every interleaving: no run is longer than three moves an
      item and one a worker, and a run is that long exactly when every worker is done. */
  lemma EveryScheduleEnds<T, R>(items: seq<T>, threads: nat, f: T -> R, schedule: seq<nat>)
    requires IsSchedule(items, f, Initial(|items|, threads), schedule)
    ensures |schedule| <= 3 * |items| + WorkerCount(|items|, threads)
    ensures |schedule| == 3 * |items| + WorkerCount(|items|, threads) <==>
      AllFinished(Run(items, f, Initial(|items|, threads), schedule))
  {
    hide Inv, IsSchedule, Run, Owed, OwedBy, Move;
    var s0 := Initial<R>(|items|, threads);
    InitialInv(items, threads, f);
    RunInv(items, f, s0, schedule);
    OwedReady(WorkerCount(|items|, threads), s0.workers);
    var s := Run(items, f, s0, schedule);
    NothingRemains(items, f, s);
  }

  lemma NothingRemains<T, R>(items: seq<T>, f: T -> R, s: State<R>)
    requires Inv(items, f, s)
    ensures Remaining(|items|, s) == 0 <==> AllFinished(s)
  {
    OwedNothing(s.workers);
    assert WorkerOk(items, f, s, s.workers[0]);
  }

  /** When the scope joins, every slot holds its own item's result: the `expect` cannot fire. */
  lemma FinishedIsMap<T, R>(items: seq<T>, f: T -> R, s: State<R>)
    requires Inv(items, f, s) && AllFinished(s)
    ensures |s.slots| == |items|
    ensures forall i :: 0 <= i < |items| ==> s.slots[i] == Some(f(items[i]))
  {
    assert WorkerOk(items, f, s, s.workers[0]);
    forall i | 0 <= i < |items|
      ensures s.slots[i].Some?
    {
    }
  }

  /** The move stores into slot `i`. */
  predicate StoresInto<R>(s: State<R>, w: nat, i: nat)
    requires CanMove(s, w)
  {
    s.workers[w].Computed? && s.workers[w].i == i
  }

  /** How often a schedule stores into slot `i`. */
  ghost function Stores<T, R>(items: seq<T>, f: T -> R, s: State<R>, schedule: seq<nat>, i: nat): nat
    requires IsSchedule(items, f, s, schedule)
    decreases |schedule|
  {
    if schedule == [] then 0
    else
      (if StoresInto(s, schedule[0], i) then 1 else 0)
      + Stores(items, f, Move(items, f, s, schedule[0]), schedule[1..], i)
  }

  function Filled<R>(slot: Option<R>): nat {
    if slot.Some? then 1 else 0
  }

  /** A store finds its slot empty, and no other move touches a slot. */
  lemma StoreFillsEmpty<T, R>(items: seq<T>, f: T -> R, s: State<R>, w: nat, i: nat)
    requires Inv(items, f, s) && CanMove(s, w) && i < |items|
    ensures |Move(items, f, s, w).slots| == |items|
    ensures Filled(Move(items, f, s, w).slots[i]) == Filled(s.slots[i]) + (if StoresInto(s, w, i) then 1 else 0)
    ensures !StoresInto(s, w, i) ==> Move(items, f, s, w).slots[i] == s.slots[i]
  {
    assert WorkerOk(items, f, s, s.workers[w]);
  }

  lemma {:induction false} StoresFill<T, R>(items: seq<T>, f: T -> R, s: State<R>, schedule: seq<nat>, i: nat)
    requires Inv(items, f, s) && IsSchedule(items, f, s, schedule) && i < |items|
    ensures |Run(items, f, s, schedule).slots| == |items|
    ensures Filled(s.slots[i]) + Stores(items, f, s, schedule, i) == Filled(Run(items, f, s, schedule).slots[i])
    decreases |schedule|
  {
    if schedule != [] {
      hide Inv, Move;
      SlotCount(items, f, s);
      StoreFillsEmpty(items, f, s, schedule[0], i);
      MoveInv(items, f, s, schedule[0]);
      StoresFill(items, f, Move(items, f, s, schedule[0]), schedule[1..], i);
    }
  }

  lemma SlotCount<T, R>(items: seq<T>, f: T -> R, s: State<R>)
    requires Inv(items, f, s)
    ensures |s.slots| == |items|
  {
  }

  /** In any run, of any number of threads, a slot is written at most once, and it is written exactly when it is
      filled at the end; when all workers are done every slot has been written exactly once. */
  lemma SlotWrittenOnce<T, R>(items: seq<T>, threads: nat, f: T -> R, schedule: seq<nat>, i: nat)
    requires IsSchedule(items, f, Initial(|items|, threads), schedule) && i < |items|
    ensures var s0 := Initial<R>(|items|, threads);
      var end := Run(items, f, s0, schedule);
      |end.slots| == |items| && Stores(items, f, s0, schedule, i) == Filled(end.slots[i]) <= 1
      && (AllFinished(end) ==> Stores(items, f, s0, schedule, i) == 1)
  {
    var s0 := Initial<R>(|items|, threads);
    InitialInv(items, threads, f);
    StoresFill(items, f, s0, schedule, i);
    RunInv(items, f, s0, schedule);
    var end := Run(items, f, s0, schedule);
    if AllFinished(end) {
      FinishedIsMap(items, f, end);
    }
  }

  /** Until every worker is done somebody can move: no interleaving gets stuck. */
  lemma NeverStuck<T, R>(items: seq<T>, f: T -> R, s: State<R>)
    requires Inv(items, f, s) && Remaining(|items|, s) > 0
    ensures exists w :: CanMove(s, w)
  {
    OwedNothing(s.workers);
    if s.next < |items| {
      assert WorkerOk(items, f, s, s.workers[0]);
      assert CanMove(s, 0);
    } else {
      var w :| 0 <= w < |s.workers| && !s.workers[w].Finished?;
      assert CanMove(s, w);
    }
  }

  function MapAll<T, R>(items: seq<T>, f: T -> R): seq<R> {
    seq(|items|, i requires 0 <= i < |items| => f(items[i]))
  }

  /** One move of worker `w` on the shared vector; answers the counter afterwards. */
  method Advance<T, R>(items: seq<T>, f: T -> R, next: nat, slots: array<Option<R>>, workers: array<Worker<R>>, w: nat)
    returns (next': nat)
    requires Inv(items, f, State(next, slots[..], workers[..])) && CanMove(State(next, slots[..], workers[..]), w)
    modifies slots, workers
    ensures WorkerOk(items, f, old(State(next, slots[..], workers[..])), old(workers[w]))
    ensures State(next', slots[..], workers[..]) == Move(items, f, old(State(next, slots[..], workers[..])), w)
  {
    ghost var s := State(next, slots[..], workers[..]);
    assert WorkerOk(items, f, s, s.workers[w]);
    next' := next;
    match workers[w]
    case Ready =>
      next' := next + 1;
      workers[w] := if next >= |items| then Finished else Claimed(next);
    case Claimed(i) =>
      workers[w] := Computed(i, f(items[i]));
    case Computed(i, r) =>
      slots[i] := Some(r);
      workers[w] := Ready;
  }

  /** `parallel_map`: the scheduler picks any worker that can move; the answer is the in-order map. */
  method Map<T, R>(items: seq<T>, threads: nat, f: T -> R) returns (results: seq<R>)
    ensures results == MapAll(items, f)
  {
    var next: nat := 0;
    var slots := new Option<R>[|items|](_ => None);
    var workers := new Worker<R>[WorkerCount(|items|, threads)](_ => Ready);
    InitialInv(items, threads, f);
    assert State(next, slots[..], workers[..]) == Initial<R>(|items|, threads);
    while exists w :: 0 <= w < workers.Length && !workers[w].Finished?
      invariant Inv(items, f, State(next, slots[..], workers[..]))
      decreases Remaining(|items|, State(next, slots[..], workers[..]))
    {
      var w :| 0 <= w < workers.Length && !workers[w].Finished?;
      ghost var s := State(next, slots[..], workers[..]);
      MoveInv(items, f, s, w);
      MoveCounts(items, f, s, w);
      next := Advance(items, f, next, slots, workers, w);
    }
    FinishedIsMap(items, f, State(next, slots[..], workers[..]));
    results := Unwrap(slots[..]);
  }

  function Unwrap<R>(slots: seq<Option<R>>): seq<R>
    requires forall i :: 0 <= i < |slots| ==> slots[i].Some?
  {
    seq(|slots|, i requires 0 <= i < |slots| => slots[i].value)
  }
}
