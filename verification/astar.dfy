/**
 * Generic A* search over an abstract state type, as the solver runs it: an
 * open list re-sorted by f before every extraction, a closed set of visited
 * states, a best-f fallback node, and paths rebuilt by following parent links.
 *
 * Nodes live in an append-only arena (`nodes`) and refer to their parent by
 * index; the open list, the best node and parent links are arena indices.
 * The wall-clock budget of the source becomes a number of loop iterations.
 */
module AStar {
  import opened Wrappers

  /** What the search needs to know about a state space. States are compared
      (for the closed set and the open-list check) by equality, which is what
      the state hash and `equals` stand for. */
  datatype Problem<!S, !A> = Problem(
    actions: S -> seq<A>,
    apply: (S, A) -> S,
    isSolved: S -> bool,
    heuristic: S -> real,
    cost: S -> real)

  /** The default cost function: every step is free. */
  function ZeroCost<S>(s: S): real
  {
    0.0
  }

  datatype Node<S, A> = Node(
    state: S,
    parent: Option<nat>,
    action: Option<A>,
    depth: nat,
    g: real,
    h: real,
    f: real)

  /** The node constructor, which fixes `f = g + h`. */
  function MakeNode<S, A>(state: S, parent: Option<nat>, action: Option<A>, g: real, h: real, depth: nat): (n: Node<S, A>)
    ensures n.f == n.g + n.h
  {
    Node(state, parent, action, depth, g, h, g + h)
  }

  /** One entry of a returned path: the action taken and the state it led to. */
  datatype Step<S, A> = Step(action: A, state: S)

  datatype Search<S(==), A> = Search(
    nodes: seq<Node<S, A>>,
    open: seq<nat>,
    closed: set<S>,
    best: Option<nat>)

  // ---------------------------------------------------------------------------
  // Well-formedness: every index the search holds points into the arena

  /** Parents come before their children, and every non-root node records
      the action that produced it. */
  predicate Linked<S, A>(nodes: seq<Node<S, A>>)
  {
    forall k :: 0 <= k < |nodes| && nodes[k].parent.Some? ==>
      nodes[k].parent.value < k && nodes[k].action.Some?
  }

  predicate WellFormed<S(==,!new), A(!new)>(s: Search<S, A>)
  {
    && Linked(s.nodes)
    && (forall j :: 0 <= j < |s.open| ==> s.open[j] < |s.nodes|)
    && (s.best.Some? ==> s.best.value < |s.nodes|)
  }

  function Root<S, A>(p: Problem<S, A>, initial: S): Node<S, A>
  {
    MakeNode(initial, None, None, 0.0, p.heuristic(initial), 0)
  }

  /** The constructor: the open list holds only the root; nothing is closed
      and there is no best node yet. */
  function Start<S(==,!new), A(!new)>(p: Problem<S, A>, initial: S): (s: Search<S, A>)
    ensures WellFormed(s)
    ensures |s.nodes| == 1 && s.open == [0] && s.closed == {} && s.best.None?
    ensures var root := s.nodes[0];
      && root.state == initial && root.parent.None? && root.depth == 0
      && root.g == 0.0 && root.h == p.heuristic(initial) && root.f == root.h
  {
    Search([Root(p, initial)], [0], {}, None)
  }

  // ---------------------------------------------------------------------------
  // Extraction: stable sort by f, then take the head

  function FOf<S, A>(nodes: seq<Node<S, A>>, i: nat): real
  {
    if i < |nodes| then nodes[i].f else 0.0
  }

  predicate SortedByF<S, A>(nodes: seq<Node<S, A>>, l: seq<nat>)
  {
    forall i, j :: 0 <= i < j < |l| ==> FOf(nodes, l[i]) <= FOf(nodes, l[j])
  }

  /** Inserts `x` after every element of no greater f. */
  function Insert<S, A>(nodes: seq<Node<S, A>>, sorted: seq<nat>, x: nat): (r: seq<nat>)
    ensures multiset(r) == multiset(sorted) + multiset{x}
    ensures |r| == |sorted| + 1
    decreases |sorted|
  {
    if sorted == [] || FOf(nodes, x) < FOf(nodes, sorted[0]) then [x] + sorted
    else
      assert sorted == [sorted[0]] + sorted[1..];
      [sorted[0]] + Insert(nodes, sorted[1..], x)
  }

  lemma {:induction false} InsertSorted<S, A>(nodes: seq<Node<S, A>>, sorted: seq<nat>, x: nat)
    requires SortedByF(nodes, sorted)
    ensures SortedByF(nodes, Insert(nodes, sorted, x))
    decreases |sorted|
  {
    if sorted != [] && FOf(nodes, x) >= FOf(nodes, sorted[0]) {
      var tail := sorted[1..];
      InsertSorted(nodes, tail, x);
      var r := Insert(nodes, sorted, x);
      var rest := Insert(nodes, tail, x);
      assert r == [sorted[0]] + rest;
      forall j | 0 <= j < |rest| ensures FOf(nodes, sorted[0]) <= FOf(nodes, rest[j]) {
        InsertedFrom(nodes, tail, x, j);
        if rest[j] != x {
          var t :| 0 <= t < |tail| && tail[t] == rest[j];
          assert tail[t] == sorted[t + 1];
        }
      }
    }
  }

  lemma InsertedFrom<S, A>(nodes: seq<Node<S, A>>, sorted: seq<nat>, x: nat, j: nat)
    requires j < |Insert(nodes, sorted, x)|
    ensures Insert(nodes, sorted, x)[j] == x || Insert(nodes, sorted, x)[j] in sorted
  {
    var r := Insert(nodes, sorted, x);
    assert r[j] in multiset(r);
  }

  /** The entries of `l` whose f is `v`, in their order in `l`. */
  function WithF<S, A>(nodes: seq<Node<S, A>>, l: seq<nat>, v: real): seq<nat>
    decreases |l|
  {
    if l == [] then []
    else (if FOf(nodes, l[0]) == v then [l[0]] else []) + WithF(nodes, l[1..], v)
  }

  lemma {:induction false} WithFAppend<S, A>(nodes: seq<Node<S, A>>, l: seq<nat>, x: nat, v: real)
    ensures WithF(nodes, l + [x], v) == WithF(nodes, l, v) + (if FOf(nodes, x) == v then [x] else [])
    decreases |l|
  {
    if l != [] {
      assert (l + [x])[1..] == l[1..] + [x];
      WithFAppend(nodes, l[1..], x, v);
    }
  }

  /** A sorted list holds no entry of f `v` once it has passed f `v`. */
  lemma {:induction false} WithFAbove<S, A>(nodes: seq<Node<S, A>>, l: seq<nat>, v: real)
    requires SortedByF(nodes, l) && l != [] && v < FOf(nodes, l[0])
    ensures WithF(nodes, l, v) == []
    decreases |l|
  {
    if |l| > 1 {
      assert FOf(nodes, l[0]) <= FOf(nodes, l[1]);
      WithFAbove(nodes, l[1..], v);
    }
  }

  /** Inserting `x` into a sorted list puts it after every entry of its own
      f and leaves the order of all other entries alone. */
  lemma {:induction false} InsertStable<S, A>(nodes: seq<Node<S, A>>, sorted: seq<nat>, x: nat, v: real)
    requires SortedByF(nodes, sorted)
    ensures WithF(nodes, Insert(nodes, sorted, x), v)
         == WithF(nodes, sorted, v) + (if FOf(nodes, x) == v then [x] else [])
    decreases |sorted|
  {
    if sorted == [] {
    } else if FOf(nodes, x) < FOf(nodes, sorted[0]) {
      var r := [x] + sorted;
      assert Insert(nodes, sorted, x) == r && r[0] == x && r[1..] == sorted;
      if FOf(nodes, x) == v {
        WithFAbove(nodes, sorted, v);
      }
    } else {
      var tail := sorted[1..];
      var rest := Insert(nodes, tail, x);
      var r := [sorted[0]] + rest;
      assert Insert(nodes, sorted, x) == r && r[0] == sorted[0] && r[1..] == rest;
      assert SortedByF(nodes, tail) by {
        forall i, j | 0 <= i < j < |tail| ensures FOf(nodes, tail[i]) <= FOf(nodes, tail[j]) {
          assert tail[i] == sorted[i + 1] && tail[j] == sorted[j + 1];
        }
      }
      InsertStable(nodes, tail, x, v);
    }
  }

  /** The open list's sort: a stable sort by ascending f (the comparator
      `a.f - b.f`), written as insertion sort. Stability: the entries of
      any one f keep their order. */
  function SortByF<S, A>(nodes: seq<Node<S, A>>, l: seq<nat>): (r: seq<nat>)
    ensures multiset(r) == multiset(l)
    ensures |r| == |l|
    ensures SortedByF(nodes, r)
    ensures forall v :: WithF(nodes, r, v) == WithF(nodes, l, v)
    decreases |l|
  {
    if l == [] then []
    else
      var init := l[..|l| - 1];
      var last := l[|l| - 1];
      assert l == init + [last];
      var sortedInit := SortByF(nodes, init);
      InsertSorted(nodes, sortedInit, last);
      forall v ensures WithF(nodes, Insert(nodes, sortedInit, last), v) == WithF(nodes, l, v) {
        InsertStable(nodes, sortedInit, last, v);
        WithFAppend(nodes, init, last, v);
      }
      Insert(nodes, sortedInit, last)
  }

  /** The reference choice: the earliest entry of least f. */
  function FirstMin<S, A>(nodes: seq<Node<S, A>>, l: seq<nat>): (i: nat)
    requires |l| > 0
    ensures i < |l|
    ensures forall j :: 0 <= j < |l| ==> FOf(nodes, l[i]) <= FOf(nodes, l[j])
    ensures forall j :: 0 <= j < i ==> FOf(nodes, l[j]) > FOf(nodes, l[i])
    decreases |l|
  {
    if |l| == 1 then 0
    else
      var m := FirstMin(nodes, l[..|l| - 1]);
      if FOf(nodes, l[|l| - 1]) < FOf(nodes, l[m]) then |l| - 1 else m
  }

  /** Sorting then taking the head extracts the earliest open entry of least f. */
  lemma {:induction false} SortHeadIsFirstMin<S, A>(nodes: seq<Node<S, A>>, l: seq<nat>)
    requires |l| > 0
    ensures SortByF(nodes, l)[0] == l[FirstMin(nodes, l)]
    decreases |l|
  {
    if |l| > 1 {
      var init := l[..|l| - 1];
      SortHeadIsFirstMin(nodes, init);
    }
  }

  // ---------------------------------------------------------------------------
  // One iteration

  /** An open node already has the state, at no greater cost. */
  predicate Covered<S(==,!new), A(!new)>(s: Search<S, A>, state: S, g: real)
  {
    exists j :: 0 <= j < |s.open| && s.open[j] < |s.nodes| && s.nodes[s.open[j]].state == state && s.nodes[s.open[j]].g <= g
  }

  /** The child that applying `a` to node `k` produces. */
  function Child<S, A>(p: Problem<S, A>, nodes: seq<Node<S, A>>, k: nat, a: A): Node<S, A>
    requires k < |nodes|
  {
    var state := p.apply(nodes[k].state, a);
    var g := nodes[k].g + p.cost(state);
    MakeNode(state, Some(k), Some(a), g, p.heuristic(state), nodes[k].depth + 1)
  }

  /** One pass of the action loop: a child whose state is closed is skipped;
      any other child is stored, may become the best node (strict `<`), and
      is pushed unless an open node already covers its state. */
  function ExpandOne<S(==,!new), A(!new)>(p: Problem<S, A>, s: Search<S, A>, k: nat, a: A): (r: Search<S, A>)
    requires WellFormed(s) && k < |s.nodes|
    ensures WellFormed(r)
    ensures r.closed == s.closed
    ensures |s.nodes| <= |r.nodes| && r.nodes[..|s.nodes|] == s.nodes
    ensures p.apply(s.nodes[k].state, a) in s.closed ==> r == s
    ensures p.apply(s.nodes[k].state, a) !in s.closed ==>
      && r.nodes == s.nodes + [Child(p, s.nodes, k, a)]
      && (r.open == s.open + [|s.nodes|] <==> !Covered(s, Child(p, s.nodes, k, a).state, Child(p, s.nodes, k, a).g))
      && (r.open == s.open <==> Covered(s, Child(p, s.nodes, k, a).state, Child(p, s.nodes, k, a).g))
  {
    var child := Child(p, s.nodes, k, a);
    if child.state in s.closed then s
    else
      var index := |s.nodes|;
      var best := if s.best.None? || child.f < s.nodes[s.best.value].f then Some(index) else s.best;
      var open := if Covered(s, child.state, child.g) then s.open else s.open + [index];
      assert open != s.open + [index] ==> open == s.open;
      Search(s.nodes + [child], open, s.closed, best)
  }

  /** The action loop over the actions still to consider. */
  function Expand<S(==,!new), A(!new)>(p: Problem<S, A>, s: Search<S, A>, k: nat, actions: seq<A>): (r: Search<S, A>)
    requires WellFormed(s) && k < |s.nodes|
    ensures WellFormed(r)
    ensures r.closed == s.closed
    ensures |s.nodes| <= |r.nodes| && r.nodes[..|s.nodes|] == s.nodes
    decreases |actions|
  {
    if actions == [] then s
    else
      var s' := ExpandOne(p, s, k, actions[0]);
      var r := Expand(p, s', k, actions[1..]);
      assert r.nodes[..|s.nodes|] == r.nodes[..|s'.nodes|][..|s.nodes|];
      r
  }

  /** What one iteration did: popped a solved node, or carried on. */
  datatype Iteration<T> = Found(search: T, node: nat) | Continued(search: T)

  /** One iteration of the search loop: pop the head of the sorted open list;
      stop if it is solved, otherwise close its state and expand it. */
  function Iterate<S(==,!new), A(!new)>(p: Problem<S, A>, s: Search<S, A>): (r: Iteration<Search<S, A>>)
    requires WellFormed(s) && |s.open| > 0
    ensures WellFormed(r.search)
    ensures r.Found? ==> r.node < |r.search.nodes| && p.isSolved(r.search.nodes[r.node].state)
    ensures r.Found? ==> r.search.closed == s.closed && r.search.nodes == s.nodes
    ensures s.closed <= r.search.closed
    ensures r.Continued? ==> exists k :: k in s.open && !p.isSolved(s.nodes[k].state) && r.search.closed == s.closed + {s.nodes[k].state}
  {
    var sorted := SortByF(s.nodes, s.open);
    PoppedIsOpen(s, sorted);
    var k := sorted[0];
    var popped := Search(s.nodes, sorted[1..], s.closed, s.best);
    if p.isSolved(s.nodes[k].state) then Found(popped, k)
    else
      Continued(Expand(p, popped.(closed := s.closed + {s.nodes[k].state}), k, p.actions(s.nodes[k].state)))
  }

  lemma PoppedIsOpen<S(!new), A(!new)>(s: Search<S, A>, sorted: seq<nat>)
    requires WellFormed(s) && |s.open| > 0
    requires multiset(sorted) == multiset(s.open)
    ensures |sorted| > 0 && sorted[0] in s.open
    ensures forall j :: 0 <= j < |sorted| ==> sorted[j] in s.open && sorted[j] < |s.nodes|
  {
    assert |sorted| == |multiset(sorted)| == |multiset(s.open)| == |s.open|;
    forall j | 0 <= j < |sorted| ensures sorted[j] in s.open && sorted[j] < |s.nodes| {
      assert sorted[j] in multiset(sorted);
      var t :| 0 <= t < |s.open| && s.open[t] == sorted[j];
    }
  }

  // ---------------------------------------------------------------------------
  // The loop and its result

  /** How the loop ended: with a solved node, or out of fuel or open nodes. */
  datatype Outcome<T> = Solved(search: T, node: nat) | Stopped(search: T)

  /** A bounded `while (more(s))` loop whose body may return early. */
  function Drive<T>(step: T -> Iteration<T>, more: T -> bool, s: T, fuel: nat): Outcome<T>
    decreases fuel
  {
    if fuel == 0 || !more(s) then Stopped(s)
    else
      match step(s)
      case Found(t, k) => Solved(t, k)
      case Continued(t) => Drive(step, more, t, fuel - 1)
  }

  /** An invariant kept by every step, and a reflexive, transitive relation
      every step respects, hold of the loop's final state. */
  lemma {:induction false} DriveKeeps<T(!new)>(
    step: T -> Iteration<T>, more: T -> bool, inv: T -> bool, rel: (T, T) -> bool, s: T, fuel: nat)
    requires forall t :: inv(t) && more(t) ==> inv(step(t).search) && rel(t, step(t).search)
    requires forall t :: rel(t, t)
    requires forall t, u, v :: rel(t, u) && rel(u, v) ==> rel(t, v)
    requires inv(s)
    ensures inv(Drive(step, more, s, fuel).search)
    ensures rel(s, Drive(step, more, s, fuel).search)
    decreases fuel
  {
    if fuel > 0 && more(s) && step(s).Continued? {
      DriveKeeps(step, more, inv, rel, step(s).search, fuel - 1);
    }
  }

  /** A loop that ends with a found node ends with one a step found. */
  lemma {:induction false} DriveFound<T(!new)>(
    step: T -> Iteration<T>, more: T -> bool, inv: T -> bool, found: (T, nat) -> bool, s: T, fuel: nat)
    requires forall t :: inv(t) && more(t) ==> inv(step(t).search)
    requires forall t :: inv(t) && more(t) && step(t).Found? ==> found(step(t).search, step(t).node)
    requires inv(s)
    ensures Drive(step, more, s, fuel).Solved? ==>
      found(Drive(step, more, s, fuel).search, Drive(step, more, s, fuel).node)
    decreases fuel
  {
    if fuel > 0 && more(s) && step(s).Continued? {
      DriveFound(step, more, inv, found, step(s).search, fuel - 1);
    }
  }

  /** The loop body as a total step: an iteration when there is an open node. */
  function StepSearch<S(==,!new), A(!new)>(p: Problem<S, A>, s: Search<S, A>): (r: Iteration<Search<S, A>>)
    ensures WellFormed(s) ==> WellFormed(r.search)
  {
    if WellFormed(s) && |s.open| > 0 then Iterate(p, s) else Continued(s)
  }

  function StepOf<S(==,!new), A(!new)>(p: Problem<S, A>): (r: Search<S, A> -> Iteration<Search<S, A>>)
    ensures forall s :: r(s) == StepSearch(p, s)
  {
    s => StepSearch(p, s)
  }

  predicate HasOpen<S(==,!new), A(!new)>(s: Search<S, A>)
  {
    |s.open| > 0
  }

  /** The node a solved outcome reports exists and holds a solved state. */
  predicate SolvedAt<S(==,!new), A(!new)>(p: Problem<S, A>, s: Search<S, A>, k: nat)
  {
    k < |s.nodes| && p.isSolved(s.nodes[k].state)
  }

  function WellFormedOf<S(==,!new), A(!new)>(): (r: Search<S, A> -> bool)
    ensures forall s :: r(s) == WellFormed(s)
  {
    s => WellFormed(s)
  }

  function SolvedAtOf<S(==,!new), A(!new)>(p: Problem<S, A>): (r: (Search<S, A>, nat) -> bool)
    ensures forall s, k :: r(s, k) == SolvedAt(p, s, k)
  {
    (s: Search<S, A>, k: nat) => SolvedAt(p, s, k)
  }

  /** The closed set only grows. */
  predicate ClosedGrows<S(==,!new), A(!new)>(s: Search<S, A>, t: Search<S, A>)
  {
    s.closed <= t.closed
  }

  /** The search loop `while (open is not empty && time remains)`, with the
      remaining time counted in iterations. */
  function Loop<S(==,!new), A(!new)>(p: Problem<S, A>, s: Search<S, A>, fuel: nat): (r: Outcome<Search<S, A>>)
    requires WellFormed(s)
    ensures WellFormed(r.search)
    ensures r.Solved? ==> SolvedAt(p, r.search, r.node)
  {
    LoopKeepsWellFormed(p, s, fuel);
    Drive(StepOf(p), HasOpen, s, fuel)
  }

  lemma LoopKeepsWellFormed<S(!new), A(!new)>(p: Problem<S, A>, s: Search<S, A>, fuel: nat)
    requires WellFormed(s)
    ensures WellFormed(Drive(StepOf(p), HasOpen, s, fuel).search)
    ensures Drive(StepOf(p), HasOpen, s, fuel).Solved? ==>
      SolvedAt(p, Drive(StepOf(p), HasOpen, s, fuel).search, Drive(StepOf(p), HasOpen, s, fuel).node)
    ensures ClosedGrows(s, Drive(StepOf(p), HasOpen, s, fuel).search)
  {
    var step := StepOf(p);
    var inv := WellFormedOf<S, A>();
    forall t | inv(t) && HasOpen(t) ensures inv(step(t).search) && ClosedGrows(t, step(t).search) {
      var it := Iterate(p, t);
    }
    forall t: Search<S, A>, u: Search<S, A>, v: Search<S, A> | ClosedGrows(t, u) && ClosedGrows(u, v)
      ensures ClosedGrows(t, v)
    {
    }
    DriveKeeps(step, HasOpen, inv, ClosedGrows, s, fuel);
    forall t | inv(t) && HasOpen(t) && step(t).Found? ensures SolvedAtOf(p)(step(t).search, step(t).node) {
      var it := Iterate(p, t);
    }
    DriveFound(step, HasOpen, inv, SolvedAtOf(p), s, fuel);
  }

  /** `reconstructPath`: the steps from the root to node `k`, root excluded. */
  function ReconstructPath<S, A>(nodes: seq<Node<S, A>>, k: nat): (path: seq<Step<S, A>>)
    requires Linked(nodes) && k < |nodes|
    ensures nodes[k].parent.None? <==> path == []
    ensures path != [] ==> path[|path| - 1] == Step(nodes[k].action.value, nodes[k].state)
    decreases k
  {
    match nodes[k].parent
    case None => []
    case Some(j) => ReconstructPath(nodes, j) + [Step(nodes[k].action.value, nodes[k].state)]
  }

  /** `findPath`: the path to the first solved node popped; failing that,
      the path to the best node; failing that, nothing. */
  function FindPath<S(==,!new), A(!new)>(p: Problem<S, A>, initial: S, fuel: nat): (r: Option<seq<Step<S, A>>>)
    ensures fuel == 0 ==> r.None?
    ensures Loop(p, Start(p, initial), fuel).Solved? ==>
      r.Some? && (r.value != [] ==> p.isSolved(r.value[|r.value| - 1].state))
  {
    match Loop(p, Start(p, initial), fuel)
    case Solved(s, k) => Some(ReconstructPath(s.nodes, k))
    case Stopped(s) =>
      if s.best.Some? then Some(ReconstructPath(s.nodes, s.best.value)) else None
  }
}

/**
 * What the search maintains, and what follows for the paths it returns.
 */
module AStarProperties {
  import opened Wrappers
  import opened AStar

  /** Node `k` is its parent's child under its recorded action: the action is
      one the parent's state offers, the state is the action's result,
      depth grows by one, g adds the step's cost, h is the heuristic and
      f = g + h. */
  ghost predicate ChildOk<S, A>(p: Problem<S, A>, nodes: seq<Node<S, A>>, k: nat)
  {
    && k < |nodes|
    && nodes[k].parent.Some? && nodes[k].action.Some?
    && nodes[k].parent.value < k
    && nodes[k].action.value in p.actions(nodes[nodes[k].parent.value].state)
    && nodes[k] == Child(p, nodes, nodes[k].parent.value, nodes[k].action.value)
  }

  /** The arena holds the root (g = 0, h = heuristic, depth 0) followed by
      children only. */
  ghost predicate Grown<S, A>(p: Problem<S, A>, initial: S, nodes: seq<Node<S, A>>)
  {
    && |nodes| >= 1
    && nodes[0] == Root(p, initial)
    && forall k :: 1 <= k < |nodes| ==> ChildOk(p, nodes, k)
  }

  /** `b` is the first generated child of least f. */
  ghost predicate FirstMinChild<S, A>(nodes: seq<Node<S, A>>, b: nat)
  {
    && 1 <= b < |nodes|
    && (forall j :: 1 <= j < |nodes| ==> nodes[b].f <= nodes[j].f)
    && (forall j :: 1 <= j < b ==> nodes[j].f > nodes[b].f)
  }

  ghost predicate BestOk<S, A>(nodes: seq<Node<S, A>>, best: Option<nat>)
  {
    && (best.None? <==> |nodes| == 1)
    && (best.Some? ==> FirstMinChild(nodes, best.value))
  }

  ghost predicate Inv<S(!new), A(!new)>(p: Problem<S, A>, initial: S, s: Search<S, A>)
  {
    WellFormed(s) && Grown(p, initial, s.nodes) && BestOk(s.nodes, s.best)
  }

  ghost function InvOf<S(!new), A(!new)>(p: Problem<S, A>, initial: S): (r: Search<S, A> -> bool)
    ensures forall s :: r(s) == Inv(p, initial, s)
  {
    s => Inv(p, initial, s)
  }

  // ---------------------------------------------------------------------------
  // The invariant holds throughout

  lemma StartInv<S(!new), A(!new)>(p: Problem<S, A>, initial: S)
    ensures Inv(p, initial, Start(p, initial))
  {
  }

  lemma ChildOkExtends<S, A>(p: Problem<S, A>, nodes: seq<Node<S, A>>, n: Node<S, A>, k: nat)
    requires ChildOk(p, nodes, k)
    ensures ChildOk(p, nodes + [n], k)
  {
    var j := nodes[k].parent.value;
    assert (nodes + [n])[j] == nodes[j];
  }

  lemma ExpandOneInv<S(!new), A(!new)>(p: Problem<S, A>, initial: S, s: Search<S, A>, k: nat, a: A)
    requires Inv(p, initial, s) && k < |s.nodes|
    requires a in p.actions(s.nodes[k].state)
    ensures Inv(p, initial, ExpandOne(p, s, k, a))
  {
    var r := ExpandOne(p, s, k, a);
    var child := Child(p, s.nodes, k, a);
    if child.state !in s.closed {
      assert r.nodes == s.nodes + [child];
      forall i | 1 <= i < |r.nodes| ensures ChildOk(p, r.nodes, i) {
        if i < |s.nodes| {
          ChildOkExtends(p, s.nodes, child, i);
        } else {
          assert r.nodes[k] == s.nodes[k];
        }
      }
      if s.best.Some? && child.f >= s.nodes[s.best.value].f {
        assert r.best == s.best;
      } else {
        assert r.best == Some(|s.nodes|);
      }
    }
  }

  lemma {:induction false} ExpandInv<S(!new), A(!new)>(p: Problem<S, A>, initial: S, s: Search<S, A>, k: nat, actions: seq<A>)
    requires Inv(p, initial, s) && k < |s.nodes|
    requires forall a :: a in actions ==> a in p.actions(s.nodes[k].state)
    ensures Inv(p, initial, Expand(p, s, k, actions))
    decreases |actions|
  {
    if actions != [] {
      var s' := ExpandOne(p, s, k, actions[0]);
      ExpandOneInv(p, initial, s, k, actions[0]);
      assert s'.nodes[k] == s'.nodes[..|s.nodes|][k] == s.nodes[k];
      ExpandInv(p, initial, s', k, actions[1..]);
    }
  }

  lemma IterateInv<S(!new), A(!new)>(p: Problem<S, A>, initial: S, s: Search<S, A>)
    requires Inv(p, initial, s) && |s.open| > 0
    ensures Inv(p, initial, Iterate(p, s).search)
  {
    var sorted := SortByF(s.nodes, s.open);
    PoppedIsOpen(s, sorted);
    var k := sorted[0];
    var popped := Search(s.nodes, sorted[1..], s.closed, s.best);
    if !p.isSolved(s.nodes[k].state) {
      var closing := popped.(closed := s.closed + {s.nodes[k].state});
      ExpandInv(p, initial, closing, k, p.actions(s.nodes[k].state));
    }
  }

  /** Every search state the loop reaches satisfies the invariant. */
  lemma LoopInv<S(!new), A(!new)>(p: Problem<S, A>, initial: S, s: Search<S, A>, fuel: nat)
    requires Inv(p, initial, s)
    ensures Inv(p, initial, Loop(p, s, fuel).search)
  {
    var inv := InvOf(p, initial);
    forall t | inv(t) && HasOpen(t) ensures inv(StepOf(p)(t).search) && ClosedGrows(t, StepOf(p)(t).search) {
      IterateInv(p, initial, t);
    }
    forall t: Search<S, A>, u: Search<S, A>, v: Search<S, A> | ClosedGrows(t, u) && ClosedGrows(u, v)
      ensures ClosedGrows(t, v)
    {
    }
    DriveKeeps(StepOf(p), HasOpen, inv, ClosedGrows, s, fuel);
  }

  // ---------------------------------------------------------------------------
  // Single iterations

  /** An iteration pops the earliest open node of least f; it returns that
      node if it is solved and otherwise adds its state to the closed set. */
  lemma IterateExtractsFirstMin<S(!new), A(!new)>(p: Problem<S, A>, s: Search<S, A>)
    requires WellFormed(s) && |s.open| > 0
    ensures var k := s.open[FirstMin(s.nodes, s.open)];
      && (Iterate(p, s).Found? <==> p.isSolved(s.nodes[k].state))
      && (Iterate(p, s).Found? ==> Iterate(p, s).node == k && Iterate(p, s).search.closed == s.closed)
      && (Iterate(p, s).Continued? ==> Iterate(p, s).search.closed == s.closed + {s.nodes[k].state})
  {
    SortHeadIsFirstMin(s.nodes, s.open);
  }

  lemma {:induction false} ExpandCreatesNoClosed<S(!new), A(!new)>(p: Problem<S, A>, s: Search<S, A>, k: nat, actions: seq<A>)
    requires WellFormed(s) && k < |s.nodes|
    ensures forall i :: |s.nodes| <= i < |Expand(p, s, k, actions).nodes| ==> Expand(p, s, k, actions).nodes[i].state !in s.closed
    decreases |actions|
  {
    if actions != [] {
      var s' := ExpandOne(p, s, k, actions[0]);
      assert s'.nodes[k] == s'.nodes[..|s.nodes|][k];
      ExpandCreatesNoClosed(p, s', k, actions[1..]);
      var r := Expand(p, s', k, actions[1..]);
      assert r.nodes[..|s'.nodes|] == s'.nodes;
    }
  }

  lemma {:induction false} ExpandAppendsOpen<S(!new), A(!new)>(p: Problem<S, A>, s: Search<S, A>, k: nat, actions: seq<A>)
    requires WellFormed(s) && k < |s.nodes|
    ensures var r := Expand(p, s, k, actions);
      && |s.open| <= |r.open| && r.open[..|s.open|] == s.open
      && (forall j :: |s.open| <= j < |r.open| ==> |s.nodes| <= r.open[j])
    decreases |actions|
  {
    if actions != [] {
      var s' := ExpandOne(p, s, k, actions[0]);
      assert s'.nodes[k] == s'.nodes[..|s.nodes|][k];
      ExpandAppendsOpen(p, s', k, actions[1..]);
      var r := Expand(p, s', k, actions[1..]);
      assert r.open[..|s.open|] == r.open[..|s'.open|][..|s.open|];
    }
  }

  /** Expanding a node never creates a child whose state is closed, and only
      appends newly created nodes to the open list. */
  lemma ExpandSkipsClosed<S(!new), A(!new)>(p: Problem<S, A>, s: Search<S, A>, k: nat, actions: seq<A>)
    requires WellFormed(s) && k < |s.nodes|
    ensures var r := Expand(p, s, k, actions);
      && (forall i :: |s.nodes| <= i < |r.nodes| ==> r.nodes[i].state !in s.closed)
      && |s.open| <= |r.open| && r.open[..|s.open|] == s.open
      && (forall j :: |s.open| <= j < |r.open| ==> |s.nodes| <= r.open[j])
  {
    ExpandCreatesNoClosed(p, s, k, actions);
    ExpandAppendsOpen(p, s, k, actions);
  }

  // ---------------------------------------------------------------------------
  // Paths

  /** `step` is a legal move from `from`. */
  ghost predicate Legal<S, A>(p: Problem<S, A>, from: S, step: Step<S, A>)
  {
    step.action in p.actions(from) && step.state == p.apply(from, step.action)
  }

  ghost function StateBefore<S, A>(initial: S, path: seq<Step<S, A>>, i: nat): S
    requires i <= |path|
  {
    if i == 0 then initial else path[i - 1].state
  }

  /** Each step of the path is legal from the state the previous step (or
      the start) reached. */
  ghost predicate Follows<S, A>(p: Problem<S, A>, initial: S, path: seq<Step<S, A>>)
  {
    forall i :: 0 <= i < |path| ==> Legal(p, StateBefore(initial, path, i), path[i])
  }

  /** A reconstructed path leads from the start to node `k` through legal
      steps, one per level of depth. */
  lemma {:induction false} PathFacts<S, A>(p: Problem<S, A>, initial: S, nodes: seq<Node<S, A>>, k: nat)
    requires Grown(p, initial, nodes) && Linked(nodes) && k < |nodes|
    ensures var path := ReconstructPath(nodes, k);
      && |path| == nodes[k].depth
      && Follows(p, initial, path)
      && StateBefore(initial, path, |path|) == nodes[k].state
    decreases k
  {
    if k > 0 {
      assert ChildOk(p, nodes, k);
      var j := nodes[k].parent.value;
      PathFacts(p, initial, nodes, j);
      var prefix := ReconstructPath(nodes, j);
      var step := Step(nodes[k].action.value, nodes[k].state);
      var path := ReconstructPath(nodes, k);
      assert path == prefix + [step];
      forall i | 0 <= i < |path| ensures Legal(p, StateBefore(initial, path, i), path[i]) {
        if i < |prefix| {
          assert StateBefore(initial, path, i) == StateBefore(initial, prefix, i);
        } else {
          assert StateBefore(initial, path, i) == StateBefore(initial, prefix, |prefix|);
        }
      }
    }
  }

  /** A property of states that holds at the start and that every legal
      step keeps holds at every state along a path that follows the rules. */
  lemma {:induction false} FollowsKeeps<S(!new), A(!new)>(
    p: Problem<S, A>, inv: S -> bool, initial: S, path: seq<Step<S, A>>, i: nat)
    requires forall x, step :: inv(x) && Legal(p, x, step) ==> inv(step.state)
    requires inv(initial)
    requires Follows(p, initial, path) && i <= |path|
    ensures inv(StateBefore(initial, path, i))
    decreases i
  {
    if i > 0 {
      FollowsKeeps(p, inv, initial, path, i - 1);
      assert Legal(p, StateBefore(initial, path, i - 1), path[i - 1]);
    }
  }

  // ---------------------------------------------------------------------------
  // Results of findPath

  /** A solved start, given one iteration, yields the empty path. */
  lemma SolvedStartGivesEmptyPath<S(!new), A(!new)>(p: Problem<S, A>, initial: S, fuel: nat)
    requires p.isSolved(initial) && fuel > 0
    ensures FindPath(p, initial, fuel) == Some([])
  {
    var s := Start(p, initial);
    assert SortByF(s.nodes, s.open) == [0];
    assert Iterate(p, s) == Found(Search(s.nodes, [], {}, None), 0);
    assert Loop(p, s, fuel) == Solved(Search(s.nodes, [], {}, None), 0);
  }

  /** Every returned path is a sequence of legal steps from the start; when
      the loop popped a solved node the path ends in a solved state. */
  lemma FindPathSound<S(!new), A(!new)>(p: Problem<S, A>, initial: S, fuel: nat)
    ensures FindPath(p, initial, fuel).Some? ==> Follows(p, initial, FindPath(p, initial, fuel).value)
    ensures Loop(p, Start(p, initial), fuel).Solved? ==>
      && FindPath(p, initial, fuel).Some?
      && p.isSolved(StateBefore(initial, FindPath(p, initial, fuel).value, |FindPath(p, initial, fuel).value|))
  {
    StartInv(p, initial);
    LoopInv(p, initial, Start(p, initial), fuel);
    var o := Loop(p, Start(p, initial), fuel);
    match o
    case Solved(s, k) => PathFacts(p, initial, s.nodes, k);
    case Stopped(s) =>
      if s.best.Some? {
        PathFacts(p, initial, s.nodes, s.best.value);
      }
  }

  /** When no solved node is popped, the result is the path to the first
      generated node of least f, or nothing if no node was generated. */
  lemma FindPathFallback<S(!new), A(!new)>(p: Problem<S, A>, initial: S, fuel: nat)
    requires Loop(p, Start(p, initial), fuel).Stopped?
    ensures var s := Loop(p, Start(p, initial), fuel).search;
      && (FindPath(p, initial, fuel).None? <==> |s.nodes| == 1)
      && (|s.nodes| > 1 ==>
            && s.best.Some?
            && FirstMinChild(s.nodes, s.best.value)
            && FindPath(p, initial, fuel) == Some(ReconstructPath(s.nodes, s.best.value)))
  {
    StartInv(p, initial);
    LoopInv(p, initial, Start(p, initial), fuel);
  }

  lemma {:induction false} ZeroCostNode<S, A>(p: Problem<S, A>, initial: S, nodes: seq<Node<S, A>>, k: nat)
    requires Grown(p, initial, nodes) && k < |nodes|
    requires forall x :: p.cost(x) == 0.0
    ensures nodes[k].g == 0.0 && nodes[k].f == nodes[k].h
    decreases k
  {
    if k > 0 {
      assert ChildOk(p, nodes, k);
      ZeroCostNode(p, initial, nodes, nodes[k].parent.value);
    }
  }

  /** With the default cost function every node has g = 0 and f = h: the
      search orders nodes by the heuristic alone (greedy best-first). */
  lemma ZeroCostIsGreedy<S(!new), A(!new)>(p: Problem<S, A>, initial: S, fuel: nat)
    requires forall x :: p.cost(x) == 0.0
    ensures var s := Loop(p, Start(p, initial), fuel).search;
      forall k :: 0 <= k < |s.nodes| ==> s.nodes[k].g == 0.0 && s.nodes[k].f == s.nodes[k].h
  {
    StartInv(p, initial);
    LoopInv(p, initial, Start(p, initial), fuel);
    var s := Loop(p, Start(p, initial), fuel).search;
    forall k | 0 <= k < |s.nodes| ensures s.nodes[k].g == 0.0 && s.nodes[k].f == s.nodes[k].h {
      ZeroCostNode(p, initial, s.nodes, k);
    }
  }
}
