/** The nearest described ancestor of a class, and the properties a class does not repeat from it
    (`build_model`, src/context.rs). */
module Ancestors {
  import opened Wrappers
  import opened Sorting

  /** The subclass graph: each class's parents in IRI order. */
  type Graph = map<string, seq<string>>

  function Parents(g: Graph, c: string): seq<string> {
    if c in g then g[c] else []
  }

  function Universe(g: Graph): set<string> {
    set c <- g, p <- g[c] :: p
  }

  /** `frontier.iter().find(..)` */
  function FirstIn(described: set<string>, frontier: seq<string>): (r: Option<string>)
    ensures r.Some? ==> r.value in frontier && r.value in described
    ensures r.None? ==> forall x <- frontier :: x !in described
  {
    if frontier == [] then None
    else if frontier[0] in described then Some(frontier[0])
    else FirstIn(described, frontier[1..])
  }

  /** The parents of the frontier's classes that were not seen before, and everything seen now. */
  function Next(g: Graph, frontier: seq<string>, seen: set<string>): (seq<string>, set<string>) {
    if frontier == [] then ([], seen)
    else if frontier[0] in seen then Next(g, frontier[1..], seen)
    else
      var (more, all) := Next(g, frontier[1..], seen + {frontier[0]});
      (Parents(g, frontier[0]) + more, all)
  }

  predicate InUniverse(g: Graph, frontier: seq<string>) {
    forall x <- frontier :: x in Universe(g)
  }

  lemma {:induction false} NextFacts(g: Graph, frontier: seq<string>, seen: set<string>)
    ensures var (next, all) := Next(g, frontier, seen);
      all == seen + (set x <- frontier) && InUniverse(g, next)
      && (forall x :: x in next <==> exists y <- frontier :: y !in seen && x in Parents(g, y))
    decreases |frontier|
  {
    if frontier == [] {
      assert seen + (set x <- frontier) == seen;
    } else {
      var f, rest := frontier[0], frontier[1..];
      assert (set x <- frontier) == {f} + (set x <- rest);
      NextFacts(g, rest, seen);
      NextFacts(g, rest, seen + {f});
      NextMembers(g, frontier, seen);
    }
  }

  lemma {:induction false} NextMembers(g: Graph, frontier: seq<string>, seen: set<string>)
    ensures forall x :: x in Next(g, frontier, seen).0 <==> exists y <- frontier :: y !in seen && x in Parents(g, y)
    ensures forall x <- Next(g, frontier, seen).0 :: x in Universe(g)
    decreases |frontier|
  {
    if frontier != [] {
      var f, rest := frontier[0], frontier[1..];
      assert frontier == [f] + rest;
      if f in seen {
        NextMembers(g, rest, seen);
      } else {
        NextMembers(g, rest, seen + {f});
        ParentsInUniverse(g, f);
        var more := Next(g, rest, seen + {f}).0;
        forall x: string
          ensures x in Next(g, frontier, seen).0 <==> exists y <- frontier :: y !in seen && x in Parents(g, y)
        {
          assert x in Next(g, frontier, seen).0 <==> x in Parents(g, f) || x in more;
        }
      }
    }
  }

  lemma ParentsInUniverse(g: Graph, c: string)
    ensures forall p <- Parents(g, c) :: p in Universe(g)
  {
  }

  /** When nothing new was in the frontier the next one is empty: the search ends on any graph. */
  lemma NextShrinks(g: Graph, frontier: seq<string>, seen: set<string>)
    requires InUniverse(g, frontier) && frontier != []
    ensures var (next, all) := Next(g, frontier, seen);
      |Universe(g) - all| < |Universe(g) - seen| || (|Universe(g) - all| == |Universe(g) - seen| && next == [])
  {
    hide Universe;
    NextFacts(g, frontier, seen);
    var (next, all) := Next(g, frontier, seen);
    if y :| y in frontier && y !in seen {
      Smaller(Universe(g) - all, Universe(g) - seen, y);
    } else {
      NextNothing(g, frontier, seen);
    }
  }

  lemma NextNothing(g: Graph, frontier: seq<string>, seen: set<string>)
    requires forall y <- frontier :: y in seen
    ensures Next(g, frontier, seen) == ([], seen)
  {
  }

  lemma Smaller<T>(a: set<T>, b: set<T>, y: T)
    requires a <= b && y in b && y !in a
    ensures |a| < |b|
  {
    assert a <= b - {y};
    Subset(a, b - {y});
  }

  lemma {:induction false} Subset<T>(a: set<T>, b: set<T>)
    requires a <= b
    ensures |a| <= |b|
  {
    if x :| x in a {
      Subset(a - {x}, b - {x});
    }
  }

  function Search(g: Graph, described: set<string>, frontier: seq<string>, seen: set<string>): Option<string>
    requires InUniverse(g, frontier)
    decreases |Universe(g) - seen|, |frontier|
  {
    if frontier == [] then None
    else match FirstIn(described, frontier)
      case Some(p) => Some(p)
      case None =>
        NextFacts(g, frontier, seen);
        NextShrinks(g, frontier, seen);
        Search(g, described, Next(g, frontier, seen).0, Next(g, frontier, seen).1)
  }

  function NearestDescribed(g: Graph, described: set<string>, c: string): Option<string> {
    ParentsInUniverse(g, c);
    Search(g, described, Parents(g, c), {})
  }

  // ----- the program -----

  /** One round of the loop: the filter inserts into `seen` as it goes. */
  method Expand(g: Graph, frontier: seq<string>, seen: set<string>) returns (next: seq<string>, all: set<string>)
    ensures (next, all) == Next(g, frontier, seen)
  {
    next, all := [], seen;
    assert frontier[0..] == frontier;
    for i := 0 to |frontier|
      invariant next + Next(g, frontier[i..], all).0 == Next(g, frontier, seen).0
      invariant Next(g, frontier[i..], all).1 == Next(g, frontier, seen).1
    {
      assert frontier[i..][1..] == frontier[i + 1..];
      if frontier[i] !in all {
        ghost var more := Next(g, frontier[i + 1..], all + {frontier[i]}).0;
        assert next + (Parents(g, frontier[i]) + more) == (next + Parents(g, frontier[i])) + more;
        all := all + {frontier[i]};
        next := next + Parents(g, frontier[i]);
      }
    }
    assert frontier[|frontier|..] == [] && next + [] == next;
  }

  /** The breadth-first search; it terminates on every graph, cyclic or not. */
  method FindParent(g: Graph, described: set<string>, c: string) returns (parent: Option<string>)
    ensures parent == NearestDescribed(g, described, c)
  {
    ParentsInUniverse(g, c);
    parent := None;
    var frontier, seen := Parents(g, c), {};
    while parent.None? && frontier != []
      invariant InUniverse(g, frontier)
      invariant parent.None? ==> Search(g, described, frontier, seen) == NearestDescribed(g, described, c)
      invariant parent.Some? ==> parent == NearestDescribed(g, described, c)
      decreases |Universe(g) - seen|, |frontier|
    {
      NextFacts(g, frontier, seen);
      NextShrinks(g, frontier, seen);
      parent := FirstIn(described, frontier);
      frontier, seen := Expand(g, frontier, seen);
    }
  }

  // ----- distance -----

  /** `x` is reached from `c` in exactly `n` subclass steps. */
  predicate Steps(g: Graph, c: string, x: string, n: nat)
    decreases n
  {
    if n == 0 then x == c else exists y <- g.Keys :: Steps(g, c, y, n - 1) && x in g[y]
  }

  /** The least number of steps, one at least. */
  ghost predicate Distance(g: Graph, c: string, x: string, n: nat) {
    n >= 1 && Steps(g, c, x, n) && forall m: nat :: 1 <= m < n ==> !Steps(g, c, x, m)
  }

  /** After `n - 1` rounds: the frontier holds every class at distance `n`, all of it is reached in `n` steps,
      and exactly the nearer classes have been seen. */
  ghost predicate AtRound(g: Graph, c: string, frontier: seq<string>, seen: set<string>, n: nat) {
    n >= 1 && (forall x <- frontier :: Steps(g, c, x, n)) && (forall x :: Distance(g, c, x, n) ==> x in frontier)
    && (forall x <- seen :: exists m: nat :: 1 <= m < n && Steps(g, c, x, m))
  }

  lemma FirstRound(g: Graph, c: string)
    ensures AtRound(g, c, Parents(g, c), {}, 1)
  {
    forall x: string
      ensures Steps(g, c, x, 1) <==> x in Parents(g, c)
    {
      assert forall y <- g.Keys :: Steps(g, c, y, 0) <==> y == c;
    }
  }

  /** The class before a nearest one is itself at the distance before. */
  lemma DistanceBack(g: Graph, c: string, x: string, n: nat) returns (y: string)
    requires Distance(g, c, x, n + 1) && n >= 1
    ensures y in g && x in g[y] && Distance(g, c, y, n)
  {
    y :| y in g.Keys && Steps(g, c, y, n) && x in g[y];
    forall m: nat | 1 <= m < n
      ensures !Steps(g, c, y, m)
    {
      StepOn(g, c, y, x, m);
    }
  }

  lemma StepOn(g: Graph, c: string, y: string, x: string, m: nat)
    requires y in g && x in g[y]
    ensures Steps(g, c, y, m) ==> Steps(g, c, x, m + 1)
  {
  }

  lemma NextRound(g: Graph, c: string, frontier: seq<string>, seen: set<string>, n: nat)
    requires AtRound(g, c, frontier, seen, n)
    ensures AtRound(g, c, Next(g, frontier, seen).0, Next(g, frontier, seen).1, n + 1)
  {
    hide Next;
    NextFacts(g, frontier, seen);
    var (next, all) := Next(g, frontier, seen);
    forall x | x in next
      ensures Steps(g, c, x, n + 1)
    {
      var y :| y in frontier && y !in seen && x in Parents(g, y);
      assert Steps(g, c, y, n) && y in g.Keys;
    }
    forall x: string | Distance(g, c, x, n + 1)
      ensures x in next
    {
      var y := DistanceBack(g, c, x, n);
      assert y in frontier && y !in seen;
    }
    forall x | x in all
      ensures exists m: nat :: 1 <= m < n + 1 && Steps(g, c, x, m)
    {
      if x in frontier {
        assert Steps(g, c, x, n);
      }
    }
  }

  /** Nothing at one distance, nothing further off. */
  lemma {:induction false} NothingFurther(g: Graph, c: string, n: nat, x: string, k: nat)
    requires n >= 1 && k >= n && forall z :: !Distance(g, c, z, n)
    ensures !Distance(g, c, x, k)
    decreases k
  {
    if k > n && Distance(g, c, x, k) {
      var y := DistanceBack(g, c, x, k - 1);
      NothingFurther(g, c, n, y, k - 1);
    }
  }

  ghost predicate FoundAt(g: Graph, described: set<string>, c: string, n: nat, p: string, k: nat) {
    p in described && k >= n && Steps(g, c, p, k)
    && forall q, m: nat :: q in described && n <= m < k ==> !Distance(g, c, q, m)
  }

  /** What the search's answer means, from any round on. */
  ghost predicate IsNearest(g: Graph, described: set<string>, c: string, n: nat, r: Option<string>) {
    match r
    case Some(p) => exists k: nat :: FoundAt(g, described, c, n, p, k)
    case None => forall q, m: nat :: q in described && m >= n ==> !Distance(g, c, q, m)
  }

  lemma {:induction false} SearchIsNearest(g: Graph, described: set<string>, c: string, frontier: seq<string>,
                                           seen: set<string>, n: nat)
    requires InUniverse(g, frontier) && AtRound(g, c, frontier, seen, n)
    ensures IsNearest(g, described, c, n, Search(g, described, frontier, seen))
    decreases |Universe(g) - seen|, |frontier|
  {
    hide Universe, Next, InUniverse, Steps;
    if frontier == [] {
      forall q: string, m: nat | q in described && m >= n
        ensures !Distance(g, c, q, m)
      {
        NothingFurther(g, c, n, q, m);
      }
    } else if FirstIn(described, frontier).None? {
      NextFacts(g, frontier, seen);
      NextShrinks(g, frontier, seen);
      NextRound(g, c, frontier, seen, n);
      SearchIsNearest(g, described, c, Next(g, frontier, seen).0, Next(g, frontier, seen).1, n + 1);
      assert forall q :: q in described ==> !Distance(g, c, q, n);
      Widened(g, described, c, n, Search(g, described, frontier, seen));
    } else {
      assert FoundAt(g, described, c, n, FirstIn(described, frontier).value, n);
    }
  }

  lemma Widened(g: Graph, described: set<string>, c: string, n: nat, r: Option<string>)
    requires IsNearest(g, described, c, n + 1, r) && forall q :: q in described ==> !Distance(g, c, q, n)
    ensures IsNearest(g, described, c, n, r)
  {
    hide Distance, Steps;
    match r {
      case Some(p) =>
        var k: nat :| FoundAt(g, described, c, n + 1, p, k);
        assert FoundAt(g, described, c, n, p, k);
      case None =>
    }
  }

  lemma {:induction false} HasDistance(g: Graph, c: string, x: string, k: nat) returns (n: nat)
    requires k >= 1 && Steps(g, c, x, k)
    ensures 1 <= n <= k && Distance(g, c, x, n)
  {
    hide Steps;
    if m: nat :| 1 <= m < k && Steps(g, c, x, m) {
      n := HasDistance(g, c, x, m);
    } else {
      n := k;
    }
  }

  lemma NotReached(g: Graph, c: string, x: string, m: nat)
    requires m >= 1 && forall n: nat :: 1 <= n <= m ==> !Distance(g, c, x, n)
    ensures !Steps(g, c, x, m)
  {
    hide Steps, Distance;
    if Steps(g, c, x, m) {
      var n := HasDistance(g, c, x, m);
    }
  }

  /** A described class `k` steps up, and none nearer. */
  ghost predicate NearestAt(g: Graph, described: set<string>, c: string, p: string, k: nat) {
    p in described && k >= 1 && Steps(g, c, p, k)
    && forall q, m: nat :: q in described && 1 <= m < k ==> !Steps(g, c, q, m)
  }

  /** On any subclass graph: the answer is a described class above the one asked for, and no described class is
      nearer; there is no answer exactly when no described class is above it at all. */
  lemma NearestIsNearest(g: Graph, described: set<string>, c: string)
    ensures var r := NearestDescribed(g, described, c);
      (r.None? <==> forall q, m: nat :: q in described && m >= 1 ==> !Steps(g, c, q, m))
      && (r.Some? ==> exists k: nat :: NearestAt(g, described, c, r.value, k))
  {
    hide Steps, Search, Distance;
    ParentsInUniverse(g, c);
    FirstRound(g, c);
    SearchIsNearest(g, described, c, Parents(g, c), {}, 1);
    match NearestDescribed(g, described, c) {
      case None =>
        forall q: string, m: nat | q in described && m >= 1
          ensures !Steps(g, c, q, m)
        {
          NotReached(g, c, q, m);
        }
      case Some(p) =>
        var k: nat :| FoundAt(g, described, c, 1, p, k);
        forall q: string, m: nat | q in described && 1 <= m < k
          ensures !Steps(g, c, q, m)
        {
          NotReached(g, c, q, m);
        }
        assert p in described && k >= 1 && Steps(g, c, p, k);
        assert NearestAt(g, described, c, p, k);
    }
  }

  // ----- cycles -----

  /** A rank that every subclass step lowers: the graph has no cycle. */
  ghost predicate Ranked(g: Graph, rank: string -> nat) {
    forall c <- g, p <- g[c] :: rank(p) < rank(c)
  }

  lemma {:induction false} StepsLower(g: Graph, rank: string -> nat, c: string, x: string, n: nat)
    requires Ranked(g, rank) && n >= 1 && Steps(g, c, x, n)
    ensures rank(x) < rank(c)
    decreases n
  {
    var y :| y in g.Keys && Steps(g, c, y, n - 1) && x in g[y];
    if n > 1 {
      StepsLower(g, rank, c, y, n - 1);
    }
  }

  /** Without cycles the parent is another class. */
  lemma NearestIsAbove(g: Graph, rank: string -> nat, described: set<string>, c: string)
    requires Ranked(g, rank)
    ensures var r := NearestDescribed(g, described, c); r.Some? ==> r.value != c && rank(r.value) < rank(c)
  {
    hide Steps, NearestDescribed;
    NearestIsNearest(g, described, c);
    var r := NearestDescribed(g, described, c);
    if r.Some? {
      var k: nat :| NearestAt(g, described, c, r.value, k);
      StepsLower(g, rank, c, r.value, k);
    }
  }

  ghost predicate Acyclic(g: Graph) {
    forall c: string, n: nat :: n >= 1 ==> !Steps(g, c, c, n)
  }

  lemma OnCycleOwnParent(g: Graph, c: string, n: nat)
    requires n >= 1 && Steps(g, c, c, n)
    ensures NearestDescribed(g, {c}, c) == Some(c)
  {
    hide NearestDescribed;
    NearestIsNearest(g, {c}, c);
    var r := NearestDescribed(g, {c}, c);
    if r.Some? {
      var k: nat :| NearestAt(g, {c}, c, r.value, k);
    }
  }

  lemma OwnParentCycles(g: Graph, described: set<string>, c: string) returns (n: nat)
    requires NearestDescribed(g, described, c) == Some(c)
    ensures n >= 1 && Steps(g, c, c, n)
  {
    hide NearestDescribed, Steps;
    NearestIsNearest(g, described, c);
    n :| NearestAt(g, described, c, c, n);
  }

  /** No class is its own parent, whatever classes are described, exactly when the graph has no cycle. */
  lemma NoOwnParentIff(g: Graph)
    ensures (forall described, c :: NearestDescribed(g, described, c) != Some(c)) <==> Acyclic(g)
  {
    hide NearestDescribed, Steps;
    if described: set<string>, c: string :| NearestDescribed(g, described, c) == Some(c) {
      var n := OwnParentCycles(g, described, c);
      assert !Acyclic(g);
    } else if c: string, n: nat :| n >= 1 && Steps(g, c, c, n) {
      OnCycleOwnParent(g, c, n);
    }
  }

  /** With a cycle of two classes of which one is described, that class is given as its own parent. */
  lemma OwnParent(c: string, d: string)
    requires c != d
    ensures NearestDescribed(map[c := [d], d := [c]], {c}, c) == Some(c)
  {
    var g: Graph := map[c := [d], d := [c]];
    ParentsInUniverse(g, c);
    assert Parents(g, c) == [d] && Parents(g, d) == [c];
    assert [d][1..] == [] && [c][1..] == [];
    assert FirstIn({c}, [d]) == None;
    assert Next(g, [d], {}) == ([c] + [], {} + {d});
    assert [c] + [] == [c];
    NextFacts(g, [d], {});
    assert FirstIn({c}, [c]) == Some(c);
    assert Search(g, {c}, [d], {}) == Search(g, {c}, [c], {} + {d});
  }

  // ----- which of the nearest -----

  function FlatParents(g: Graph, xs: seq<string>): seq<string> {
    if xs == [] then [] else Parents(g, xs[0]) + FlatParents(g, xs[1..])
  }

  /** The ends of all paths of `n` subclass steps from the classes given, in the order of the parents' listing
      at each step. */
  function PathEnds(g: Graph, xs: seq<string>, n: nat): seq<string>
    decreases n
  {
    if n == 0 then xs else PathEnds(g, FlatParents(g, xs), n - 1)
  }

  lemma {:induction false} FlatConcat(g: Graph, a: seq<string>, b: seq<string>)
    ensures FlatParents(g, a + b) == FlatParents(g, a) + FlatParents(g, b)
  {
    if a == [] {
      assert a + b == b;
    } else {
      assert (a + b)[1..] == a[1..] + b;
      FlatConcat(g, a[1..], b);
    }
  }

  lemma {:induction false} EndsConcat(g: Graph, a: seq<string>, b: seq<string>, n: nat)
    ensures PathEnds(g, a + b, n) == PathEnds(g, a, n) + PathEnds(g, b, n)
    decreases n
  {
    if n > 0 {
      FlatConcat(g, a, b);
      EndsConcat(g, FlatParents(g, a), FlatParents(g, b), n - 1);
    }
  }

  lemma EndsOne(g: Graph, f: string, n: nat)
    ensures PathEnds(g, [f], n + 1) == PathEnds(g, Parents(g, f), n)
  {
    assert [f][1..] == [];
    assert FlatParents(g, [f]) == Parents(g, f) + [] == Parents(g, f);
  }

  lemma {:induction false} NoEnds(g: Graph, n: nat)
    ensures PathEnds(g, [], n) == []
  {
    if n > 0 {
      NoEnds(g, n - 1);
    }
  }

  lemma {:induction false} FirstInConcat(described: set<string>, a: seq<string>, b: seq<string>)
    ensures FirstIn(described, a + b) == if FirstIn(described, a).Some? then FirstIn(described, a)
      else FirstIn(described, b)
  {
    if a == [] {
      assert a + b == b;
    } else {
      assert (a + b)[1..] == a[1..] + b;
      FirstInConcat(described, a[1..], b);
    }
  }

  /** No described class `n` steps up from any of these. */
  predicate Dead(g: Graph, described: set<string>, seen: set<string>, n: nat) {
    forall y <- seen :: FirstIn(described, PathEnds(g, [y], n)).None?
  }

  /** Leaving out what was seen before, and what occurs again, changes nothing in what is found first. */
  lemma {:induction false} NextFirst(g: Graph, described: set<string>, xs: seq<string>, seen: set<string>, n: nat)
    requires Dead(g, described, seen, n + 1)
    ensures FirstIn(described, PathEnds(g, Next(g, xs, seen).0, n)) == FirstIn(described, PathEnds(g, xs, n + 1))
    decreases |xs|
  {
    hide PathEnds, FirstIn;
    if xs == [] {
      NoEnds(g, n);
      NoEnds(g, n + 1);
    } else {
      var f, rest := xs[0], xs[1..];
      assert xs == [f] + rest;
      EndsConcat(g, [f], rest, n + 1);
      FirstInConcat(described, PathEnds(g, [f], n + 1), PathEnds(g, rest, n + 1));
      if f in seen {
        NextFirst(g, described, rest, seen, n);
      } else {
        var more := Next(g, rest, seen + {f}).0;
        EndsOne(g, f, n);
        EndsConcat(g, Parents(g, f), more, n);
        FirstInConcat(described, PathEnds(g, Parents(g, f), n), PathEnds(g, more, n));
        if FirstIn(described, PathEnds(g, [f], n + 1)).None? {
          NextFirst(g, described, rest, seen + {f}, n);
        }
      }
    }
  }

  lemma {:induction false} StepsTransitive(g: Graph, c: string, y: string, x: string, n: nat, e: nat)
    requires Steps(g, c, y, n) && Steps(g, y, x, e)
    ensures Steps(g, c, x, n + e)
    decreases e
  {
    if e > 0 {
      var z :| z in g.Keys && Steps(g, y, z, e - 1) && x in g[z];
      StepsTransitive(g, c, y, z, n, e - 1);
      assert Steps(g, c, z, n + e - 1);
    }
  }

  lemma {:induction false} FlatMembers(g: Graph, xs: seq<string>)
    ensures forall x :: x in FlatParents(g, xs) <==> exists y <- xs :: x in Parents(g, y)
  {
    if xs != [] {
      FlatMembers(g, xs[1..]);
      assert xs == [xs[0]] + xs[1..];
    }
  }

  lemma {:induction false} EndIsReached(g: Graph, xs: seq<string>, n: nat, x: string) returns (y: string)
    requires x in PathEnds(g, xs, n)
    ensures y in xs && Steps(g, y, x, n)
    decreases n
  {
    if n == 0 {
      y := x;
    } else {
      var p := EndIsReached(g, FlatParents(g, xs), n - 1, x);
      FlatMembers(g, xs);
      y :| y in xs && p in Parents(g, y);
      OneStep(g, y, p);
      StepsTransitive(g, y, p, x, 1, n - 1);
    }
  }

  lemma {:induction false} ReachedIsEnd(g: Graph, xs: seq<string>, n: nat, y: string, x: string)
    requires y in xs && Steps(g, y, x, n)
    ensures x in PathEnds(g, xs, n)
    decreases n
  {
    if n > 0 {
      var p := FirstStep(g, y, x, n);
      FlatMembers(g, xs);
      ReachedIsEnd(g, FlatParents(g, xs), n - 1, p, x);
    }
  }

  /** The ends of the paths from one class are exactly the classes reached in that many steps. */
  lemma EndsAreSteps(g: Graph, c: string, n: nat)
    ensures forall x :: x in PathEnds(g, [c], n) <==> Steps(g, c, x, n)
  {
    hide PathEnds, Steps;
    forall x: string
      ensures x in PathEnds(g, [c], n) <==> Steps(g, c, x, n)
    {
      if x in PathEnds(g, [c], n) {
        var y := EndIsReached(g, [c], n, x);
      }
      if Steps(g, c, x, n) {
        ReachedIsEnd(g, [c], n, c, x);
      }
    }
  }

  lemma {:induction false} FirstStep(g: Graph, c: string, x: string, n: nat) returns (p: string)
    requires n >= 1 && Steps(g, c, x, n)
    ensures p in Parents(g, c) && Steps(g, p, x, n - 1)
    decreases n
  {
    var y :| y in g.Keys && Steps(g, c, y, n - 1) && x in g[y];
    if n == 1 {
      p := x;
    } else {
      p := FirstStep(g, c, y, n - 1);
      StepOn(g, p, y, x, n - 2);
    }
  }

  /** No described class is fewer than `k` steps up. */
  ghost predicate NoneNearer(g: Graph, described: set<string>, c: string, k: nat) {
    forall q, m: nat :: q in described && 1 <= m < k ==> !Steps(g, c, q, m)
  }

  /** A class met after `m` steps leads to no described class in fewer than the `k` steps in all. */
  lemma DeadBefore(g: Graph, described: set<string>, c: string, y: string, m: nat, e: nat, k: nat)
    requires Steps(g, c, y, m) && 1 <= m && m + e < k && NoneNearer(g, described, c, k)
    ensures FirstIn(described, PathEnds(g, [y], e)).None?
  {
    hide PathEnds;
    EndsAreSteps(g, y, e);
    if FirstIn(described, PathEnds(g, [y], e)).Some? {
      var q := FirstIn(described, PathEnds(g, [y], e)).value;
      StepsTransitive(g, c, y, q, m, e);
    }
  }

  /** Reached in fewer than `n` steps. */
  ghost predicate MetBefore(g: Graph, c: string, y: string, n: nat) {
    exists m: nat :: 1 <= m < n && Steps(g, c, y, m)
  }

  lemma {:induction false} SearchFirst(g: Graph, described: set<string>, c: string, frontier: seq<string>,
                                       seen: set<string>,
                                       n: nat, k: nat)
    requires InUniverse(g, frontier) && 1 <= n <= k && NoneNearer(g, described, c, k)
    requires forall x <- frontier :: Steps(g, c, x, n)
    requires forall y <- seen :: MetBefore(g, c, y, n)
    requires FirstIn(described, PathEnds(g, frontier, k - n)).Some?
    ensures Search(g, described, frontier, seen) == FirstIn(described, PathEnds(g, frontier, k - n))
    decreases k - n
  {
    hide Universe, Next, InUniverse, Steps, PathEnds, MetBefore;
    if n == k {
      assert PathEnds(g, frontier, 0) == frontier by { NoSteps(g, frontier); }
    } else {
      NoEnds(g, k - n);
      assert frontier != [];
      assert FirstIn(described, frontier).None?;
      NextFacts(g, frontier, seen);
      NextShrinks(g, frontier, seen);
      SeenDead(g, described, c, seen, n, k);
      NextFirst(g, described, frontier, seen, k - n - 1);
      NextSteps(g, c, frontier, seen, n);
      var (next, all) := Next(g, frontier, seen);
      SearchFirst(g, described, c, next, all, n + 1, k);
    }
  }

  lemma NoSteps(g: Graph, xs: seq<string>)
    ensures PathEnds(g, xs, 0) == xs
  {
  }

  lemma SeenDead(g: Graph, described: set<string>, c: string, seen: set<string>, n: nat, k: nat)
    requires 1 <= n < k && NoneNearer(g, described, c, k)
    requires forall y <- seen :: MetBefore(g, c, y, n)
    ensures Dead(g, described, seen, k - n)
  {
    hide Steps, PathEnds, NoneNearer;
    forall y | y in seen
      ensures FirstIn(described, PathEnds(g, [y], k - n)).None?
    {
      var m: nat :| 1 <= m < n && Steps(g, c, y, m);
      DeadBefore(g, described, c, y, m, k - n, k);
    }
  }

  lemma NextSteps(g: Graph, c: string, frontier: seq<string>, seen: set<string>, n: nat)
    requires n >= 1 && forall x <- frontier :: Steps(g, c, x, n)
    requires forall y <- seen :: MetBefore(g, c, y, n)
    ensures forall x <- Next(g, frontier, seen).0 :: Steps(g, c, x, n + 1)
    ensures forall y <- Next(g, frontier, seen).1 :: MetBefore(g, c, y, n + 1)
  {
    hide Next;
    NextFacts(g, frontier, seen);
    forall x | x in Next(g, frontier, seen).0
      ensures Steps(g, c, x, n + 1)
    {
      var y :| y in frontier && y !in seen && x in Parents(g, y);
      assert Steps(g, c, y, n) && y in g.Keys;
    }
    forall y | y in Next(g, frontier, seen).1
      ensures MetBefore(g, c, y, n + 1)
    {
      if y in seen {
        var m: nat :| 1 <= m < n && Steps(g, c, y, m);
      } else {
        assert y in frontier && Steps(g, c, y, n);
      }
    }
  }

  /** Among the nearest described classes the answer is the one at the end of the first path, paths being
      compared step by step in the order each class's parents are listed: the order of discovery. */
  lemma NearestIsFirstFound(g: Graph, described: set<string>, c: string, k: nat)
    requires k >= 1 && NoneNearer(g, described, c, k) && exists p <- described :: Steps(g, c, p, k)
    ensures NearestDescribed(g, described, c) == FirstIn(described, PathEnds(g, [c], k))
    ensures NearestDescribed(g, described, c).Some?
  {
    hide Steps, Search, PathEnds;
    ParentsInUniverse(g, c);
    EndsOne(g, c, k - 1);
    EndsAreSteps(g, c, k);
    forall x | x in Parents(g, c)
      ensures Steps(g, c, x, 1)
    {
      OneStep(g, c, x);
    }
    SearchFirst(g, described, c, Parents(g, c), {}, 1, k);
  }

  lemma OneStep(g: Graph, c: string, x: string)
    ensures Steps(g, c, x, 1) <==> x in Parents(g, c)
  {
    assert forall y <- g.Keys :: Steps(g, c, y, 0) <==> y == c;
  }

  // ----- when that is the order of names -----

  /** Of two classes equally far up, the one named first is the one found first. */
  ghost predicate NamedInOrder(g: Graph, c: string) {
    forall x, y, k: nat :: Distance(g, c, x, k) && Distance(g, c, y, k) && Less(x, y) ==>
      FirstIn({x, y}, PathEnds(g, [c], k)) == Some(x)
  }

  /** The answer is the first by name of the nearest described classes. */
  ghost predicate TakesFirstNamed(g: Graph, described: set<string>, c: string) {
    var r := NearestDescribed(g, described, c);
    forall q, k: nat :: r.Some? && NearestAt(g, described, c, r.value, k) && q in described && Steps(g, c, q, k) ==>
      q == r.value || Less(r.value, q)
  }

  lemma {:induction false} FirstOfFewer(some: set<string>, all: set<string>, xs: seq<string>)
    requires some <= all && FirstIn(all, xs).Some? && FirstIn(all, xs).value in some
    ensures FirstIn(some, xs) == FirstIn(all, xs)
  {
    if xs[0] !in all {
      FirstOfFewer(some, all, xs[1..]);
    }
  }

  lemma NearestHasDistance(g: Graph, described: set<string>, c: string, q: string, k: nat)
    requires k >= 1 && NoneNearer(g, described, c, k) && q in described && Steps(g, c, q, k)
    ensures Distance(g, c, q, k)
  {
    hide Steps;
  }

  lemma InOrderTakesFirst(g: Graph, described: set<string>, c: string)
    requires NamedInOrder(g, c)
    ensures TakesFirstNamed(g, described, c)
  {
    hide Steps, Distance, NearestDescribed, PathEnds, Less;
    var r := NearestDescribed(g, described, c);
    forall q: string, k: nat | r.Some? && NearestAt(g, described, c, r.value, k) && q in described && Steps(g, c, q, k)
      ensures q == r.value || Less(r.value, q)
    {
      NearestIsFirstFound(g, described, c, k);
      NearestHasDistance(g, described, c, q, k);
      NearestHasDistance(g, described, c, r.value, k);
      LessTotal(q, r.value);
      if Less(q, r.value) {
        FirstOfFewer({q, r.value}, described, PathEnds(g, [c], k));
        LessIrreflexive(q);
      }
    }
  }

  lemma PairNearest(g: Graph, c: string, x: string, y: string, k: nat)
    requires Distance(g, c, x, k) && Distance(g, c, y, k)
    ensures NoneNearer(g, {x, y}, c, k) && Steps(g, c, x, k) && Steps(g, c, y, k) && k >= 1
    ensures forall p <- {x, y} :: NearestAt(g, {x, y}, c, p, k)
  {
    hide Steps;
  }

  lemma TakesFirstInOrder(g: Graph, c: string, x: string, y: string, k: nat)
    requires Distance(g, c, x, k) && Distance(g, c, y, k) && Less(x, y) && TakesFirstNamed(g, {x, y}, c)
    ensures FirstIn({x, y}, PathEnds(g, [c], k)) == Some(x)
  {
    hide Steps, Distance, NearestDescribed, PathEnds, Less;
    PairNearest(g, c, x, y, k);
    NearestIsFirstFound(g, {x, y}, c, k);
    var r := NearestDescribed(g, {x, y}, c);
    if r == Some(y) {
      assert x == y || Less(y, x);
      LessTransitiveNot(x, y);
    }
  }

  lemma LessTransitiveNot(x: string, y: string)
    requires Less(x, y)
    ensures x != y && !Less(y, x)
  {
    LessIrreflexive(x);
    if Less(y, x) {
      LessTransitive(x, y, x);
    }
  }

  /** The comment's "first in IRI order" holds for a class whatever is described exactly when at every distance
      above it classes are found in the order of their names. */
  lemma FirstNamedIff(g: Graph, c: string)
    ensures (forall described :: TakesFirstNamed(g, described, c)) <==> NamedInOrder(g, c)
  {
    hide TakesFirstNamed, Distance, Less, PathEnds;
    if NamedInOrder(g, c) {
      forall described: set<string>
        ensures TakesFirstNamed(g, described, c)
      {
        InOrderTakesFirst(g, described, c);
      }
    }
    if forall described :: TakesFirstNamed(g, described, c) {
      forall x: string, y: string, k: nat | Distance(g, c, x, k) && Distance(g, c, y, k) && Less(x, y)
        ensures FirstIn({x, y}, PathEnds(g, [c], k)) == Some(x)
      {
        assert TakesFirstNamed(g, {x, y}, c);
        TakesFirstInOrder(g, c, x, y, k);
      }
    }
  }

  /** One step up it always holds: parents are listed in IRI order. */
  lemma ParentsInOrder(g: Graph, c: string, x: string, y: string)
    requires Increasing(Parents(g, c)) && x in Parents(g, c) && y in Parents(g, c) && Less(x, y)
    ensures FirstIn({x, y}, PathEnds(g, [c], 1)) == Some(x)
  {
    EndsOne(g, c, 0);
    FirstOfSorted(Parents(g, c), x, y);
  }

  lemma {:induction false} FirstOfSorted(s: seq<string>, x: string, y: string)
    requires Increasing(s) && x in s && y in s && Less(x, y)
    ensures FirstIn({x, y}, s) == Some(x)
  {
    if s[0] == y {
      var i :| 0 <= i < |s| && s[i] == x;
      LessTransitiveNot(x, y);
      FirstIsLeast(s, i);
    } else if s[0] != x {
      TailHasNoHead(s);
      FirstOfSorted(s[1..], x, y);
    }
  }

  /** Among classes equally near, the first found is taken: parents come in IRI order, but two steps up the
      order is that of the parents, so `z` is taken here even where `y` comes first. */
  lemma FirstFoundNotFirstNamed(c: string, a: string, b: string, z: string, y: string)
    requires c !in {a, b, z, y} && a !in {b, z, y} && b !in {z, y} && z != y
    ensures NearestDescribed(map[c := [a, b], a := [z], b := [y]], {y, z}, c) == Some(z)
  {
    var g: Graph := map[c := [a, b], a := [z], b := [y]];
    ParentsInUniverse(g, c);
    assert Parents(g, a) == [z] && Parents(g, b) == [y] && Parents(g, c) == [a, b];
    assert [a, b][1..] == [b] && [b][1..] == [];
    assert FirstIn({y, z}, [a, b]) == None;
    assert Next(g, [b], {} + {a}) == ([y] + [], {} + {a} + {b});
    assert Next(g, [a, b], {}).0 == [z] + ([y] + []);
    NextFacts(g, [a, b], {});
    var (next, all) := Next(g, [a, b], {});
    assert next[0] == z;
    assert FirstIn({y, z}, next) == Some(z);
    assert Search(g, {y, z}, [a, b], {}) == Search(g, {y, z}, next, all);
  }

  // ----- own properties -----

  /** A property as a class's shape has it: range or datatype, cardinality, values, comment. */
  datatype Prop = Prop(kind: string, required: bool, single: bool, values: seq<string>, comment: string)

  type Props = map<string, Prop>

  datatype Model = Model(g: Graph, byClass: map<string, Props>, universal: set<string>)

  function Extends(m: Model, c: string): Option<string> {
    NearestDescribed(m.g, m.byClass.Keys, c)
  }

  /** The class's properties that not every Thing carries. */
  function Full(m: Model, c: string): Props {
    if c in m.byClass then map k | k in m.byClass[c] && k !in m.universal :: m.byClass[c][k] else map[]
  }

  /** The properties listed for the class: those it does not have, just so, from the parent shown. */
  function Own(m: Model, c: string): Props {
    match Extends(m, c)
    case None => Full(m, c)
    case Some(p) =>
      var theirs := if p in m.byClass then m.byClass[p] else map[];
      map k | k in Full(m, c) && !(k in theirs && theirs[k] == Full(m, c)[k]) :: Full(m, c)[k]
  }

  lemma ExtendsLower(m: Model, rank: string -> nat, c: string)
    requires Ranked(m.g, rank)
    ensures Extends(m, c).Some? ==> rank(Extends(m, c).value) < rank(c)
  {
    NearestIsAbove(m.g, rank, m.byClass.Keys, c);
  }

  /** What a reader of the listing takes a class to have: everything of the class it extends, overlaid with
      what is listed for it. */
  ghost function Recovered(m: Model, rank: string -> nat, c: string): Props
    requires Ranked(m.g, rank)
    decreases rank(c)
  {
    ExtendsLower(m, rank, c);
    match Extends(m, c)
    case None => Own(m, c)
    case Some(p) => Recovered(m, rank, p) + Own(m, c)
  }

  /** The class has every property of the one it extends. */
  predicate Carries(m: Model, c: string) {
    match Extends(m, c)
    case None => true
    case Some(p) => Full(m, p).Keys <= Full(m, c).Keys
  }

  /** One step: over a parent that is read right, the class is read right exactly when it carries the
      parent's properties. */
  lemma OverlayStepIff(m: Model, c: string, p: string)
    requires Extends(m, c) == Some(p)
    ensures Full(m, p) + Own(m, c) == Full(m, c) <==> Carries(m, c)
  {
    hide Extends;
    var over := Full(m, p) + Own(m, c);
    assert over.Keys == Full(m, p).Keys + Own(m, c).Keys;
    if Carries(m, c) {
      forall k | k in Full(m, c)
        ensures k in over && over[k] == Full(m, c)[k]
      {
      }
      assert over.Keys == Full(m, c).Keys;
    }
  }

  /** The class and the classes on its extends chain. */
  ghost predicate OnChain(m: Model, rank: string -> nat, c: string, holds: string -> bool)
    requires Ranked(m.g, rank)
    decreases rank(c)
  {
    ExtendsLower(m, rank, c);
    holds(c) && match Extends(m, c) case None => true case Some(p) => OnChain(m, rank, p, holds)
  }

  /** On an acyclic subclass graph, reading the listing by its own rule gives every class on a chain its full
      properties exactly when each of them carries its parent's. */
  lemma {:induction false} ListingRecoversIff(m: Model, rank: string -> nat, c: string)
    requires Ranked(m.g, rank)
    ensures OnChain(m, rank, c, d => Ranked(m.g, rank) && Recovered(m, rank, d) == Full(m, d))
      <==> OnChain(m, rank, c, d => Carries(m, d))
    decreases rank(c)
  {
    hide Extends, Own, Full, Carries, Ranked;
    ExtendsLower(m, rank, c);
    if Extends(m, c).Some? {
      var p := Extends(m, c).value;
      ListingRecoversIff(m, rank, p);
      OverlayStepIff(m, c, p);
      ChainHead(m, rank, p);
    } else {
      assert Own(m, c) == Full(m, c) by { OwnAlone(m, c); }
      assert Carries(m, c) by { CarriesAlone(m, c); }
    }
  }

  lemma OwnAlone(m: Model, c: string)
    requires Extends(m, c).None?
    ensures Own(m, c) == Full(m, c)
  {
  }

  lemma CarriesAlone(m: Model, c: string)
    requires Extends(m, c).None?
    ensures Carries(m, c)
  {
  }

  lemma ChainHead(m: Model, rank: string -> nat, p: string)
    requires Ranked(m.g, rank)
    ensures OnChain(m, rank, p, d => Ranked(m.g, rank) && Recovered(m, rank, d) == Full(m, d)) ==>
      Recovered(m, rank, p) == Full(m, p)
  {
    hide Extends, Own, Full, Ranked;
  }

  /** What a listing shows: nothing that every Thing carries, of the rest each property just as the class's shape has
      it, and as its own exactly those that the shape of the class it extends does not have just so. */
  lemma UniversalLeftOut(m: Model, c: string, k: string)
    ensures var shape := if c in m.byClass then m.byClass[c] else map[];
      var p := Extends(m, c);
      var theirs := if p.Some? && p.value in m.byClass then m.byClass[p.value] else map[];
      (k in Full(m, c) <==> k in shape && k !in m.universal) && (k in Full(m, c) ==> Full(m, c)[k] == shape[k])
      && (k in Own(m, c) <==>
            k in shape && k !in m.universal && (k !in theirs || theirs[k] != shape[k]))
      && (k in Own(m, c) ==> Own(m, c)[k] == shape[k])
  {
    hide NearestDescribed;
  }
}
