/** The student graph and its collusion networks.

    Every match adds an edge in both directions between its two students;
    a student's network is the set of students reachable from it. The
    breadth-first search of the source is `Bfs`; `Reachable` is an
    independent layer-by-layer definition of the same set, and both are
    proved to compute the least neighbour-closed set containing the start.
 */
module Networks {
  import opened Sorting
  import opened Matches

  type Graph = map<string, set<string>>

  // ---------------------------------------------------------------- graph

  /** `graph[a].add(b); graph[b].add(a)` on a default-dict of sets. */
  function AddEdge(g: Graph, a: string, b: string): Graph {
    var g1 := g[a := (if a in g then g[a] else {}) + {b}];
    g1[b := (if b in g1 then g1[b] else {}) + {a}]
  }

  /** Some match has `a` and `b` as its two students. */
  predicate Adjacent(ms: seq<Match>, a: string, b: string) {
    exists i :: 0 <= i < |ms| && ms[i].Links(a, b)
  }

  /** The student graph built from the matches in order (model.py:155-158). */
  function BuildGraph(ms: seq<Match>): Graph {
    if |ms| == 0 then map[]
    else AddEdge(BuildGraph(ms[..|ms| - 1]), ms[|ms| - 1].student1, ms[|ms| - 1].student2)
  }

  lemma {:induction false} StudentsSnoc(ms: seq<Match>)
    requires |ms| > 0
    ensures Students(ms) == Students(ms[..|ms| - 1]) + {ms[|ms| - 1].student1, ms[|ms| - 1].student2}
  {
    var prev := ms[..|ms| - 1];
    assert forall i :: 0 <= i < |prev| ==> prev[i] == ms[i];
  }

  lemma {:induction false} AdjacentSnoc(ms: seq<Match>, a: string, b: string)
    requires |ms| > 0
    ensures Adjacent(ms, a, b) <==> Adjacent(ms[..|ms| - 1], a, b) || ms[|ms| - 1].Links(a, b)
  {
    var prev := ms[..|ms| - 1];
    if Adjacent(ms, a, b) && !ms[|ms| - 1].Links(a, b) {
      var i :| 0 <= i < |ms| && ms[i].Links(a, b);
      assert prev[i] == ms[i];
    }
    if Adjacent(prev, a, b) {
      var i :| 0 <= i < |prev| && prev[i].Links(a, b);
      assert ms[i] == prev[i];
    }
  }

  /** The students of the graph are the students of the matches. */
  lemma {:induction false} GraphKeys(ms: seq<Match>)
    ensures BuildGraph(ms).Keys == Students(ms)
  {
    if |ms| > 0 {
      GraphKeys(ms[..|ms| - 1]);
      StudentsSnoc(ms);
    }
  }

  /** `b` is a neighbour of `a` exactly when some match links them. */
  lemma {:induction false} GraphEdge(ms: seq<Match>, a: string, b: string)
    requires a in BuildGraph(ms)
    ensures b in BuildGraph(ms)[a] <==> Adjacent(ms, a, b)
  {
    var prev := ms[..|ms| - 1];
    var last := ms[|ms| - 1];
    var gp := BuildGraph(prev);
    AdjacentSnoc(ms, a, b);
    if a in gp {
      GraphEdge(prev, a, b);
    } else {
      GraphKeys(prev);
    }
  }

  ghost predicate Symmetric(g: Graph) {
    forall a, b :: a in g && b in g[a] ==> b in g && a in g[b]
  }

  /** The student graph is symmetric. */
  lemma GraphSymmetric(ms: seq<Match>)
    ensures Symmetric(BuildGraph(ms))
  {
    var g := BuildGraph(ms);
    GraphKeys(ms);
    forall a, b | a in g && b in g[a] ensures b in g && a in g[b] {
      GraphEdge(ms, a, b);
      var i :| 0 <= i < |ms| && ms[i].Links(a, b);
      assert ms[i].Links(b, a);
      assert b in Students(ms);
      GraphEdge(ms, b, a);
    }
  }

  // ---------------------------------------------------------------- reachability

  /** Every neighbour of a member of `c` is a member of `c`. */
  ghost predicate Closed(g: Graph, c: set<string>) {
    forall x, y :: x in c && x in g && y in g[x] ==> y in c
  }

  /** `r` is the least neighbour-closed set that contains `start`: the
      students reachable from `start`. */
  ghost predicate IsReachSet(g: Graph, start: string, r: set<string>) {
    && start in r
    && Closed(g, r)
    && forall c :: start in c && Closed(g, c) ==> r <= c
  }

  /** Two sets that both meet the definition are equal. */
  lemma ReachSetUnique(g: Graph, start: string, r1: set<string>, r2: set<string>)
    requires IsReachSet(g, start, r1) && IsReachSet(g, start, r2)
    ensures r1 == r2
  {
    assert r1 <= r2;
    assert r2 <= r1;
  }

  /** Every node that is a neighbour of some node. */
  function AllNeighbours(g: Graph): set<string> {
    set x, y | x in g && y in g[x] :: y
  }

  /** The neighbours of the nodes in `f`. */
  function Step(g: Graph, f: set<string>): set<string> {
    set x, y | x in f && x in g && y in g[x] :: y
  }

  /** Layer-by-layer exploration: `frontier` holds the nodes first found in
      the previous layer. */
  function Layers(g: Graph, reached: set<string>, frontier: set<string>, ghost u: set<string>): (r: set<string>)
    requires reached !! frontier
    requires reached + frontier <= u && AllNeighbours(g) <= u
    requires forall x :: x in reached && x in g ==> g[x] <= reached + frontier
    ensures reached + frontier <= r
    ensures Closed(g, r)
    ensures forall c :: reached + frontier <= c && Closed(g, c) ==> r <= c
    decreases |u - reached|
  {
    if frontier == {} then reached
    else
      var reached' := reached + frontier;
      var frontier' := Step(g, frontier) - reached';
      assert u - reached' < u - reached by {
        var x :| x in frontier;
        assert x in u - reached && x !in u - reached';
      }
      Layers(g, reached', frontier', u)
  }

  /** The students reachable from `start`. */
  function Reachable(g: Graph, start: string): (r: set<string>)
    ensures IsReachSet(g, start, r)
  {
    Layers(g, {}, {start}, {start} + AllNeighbours(g))
  }

  // ---------------------------------------------------------------- the search

  /** The positions of `q` whose element has already been reached. */
  function StaleCount(q: seq<string>, reached: set<string>): nat {
    if |q| == 0 then 0 else (if q[0] in reached then 1 else 0) + StaleCount(q[1..], reached)
  }

  lemma {:induction false} StaleCountAppend(a: seq<string>, b: seq<string>, reached: set<string>)
    ensures StaleCount(a + b, reached) == StaleCount(a, reached) + StaleCount(b, reached)
  {
    if |a| > 0 {
      assert (a + b)[1..] == a[1..] + b;
      StaleCountAppend(a[1..], b, reached);
    } else {
      assert a + b == b;
    }
  }

  lemma {:induction false} StaleCountNone(q: seq<string>, reached: set<string>)
    requires forall k :: 0 <= k < |q| ==> q[k] !in reached
    ensures StaleCount(q, reached) == 0
  {
    if |q| > 0 {
      StaleCountNone(q[1..], reached);
    }
  }

  /** `[node for node in nodes if node not in reached]`. */
  function Unreached(nodes: seq<string>, reached: set<string>): (r: seq<string>)
    ensures forall k :: 0 <= k < |r| ==> r[k] in nodes && r[k] !in reached
    ensures forall y :: y in nodes && y !in reached ==> y in r
  {
    if |nodes| == 0 then []
    else (if nodes[0] !in reached then [nodes[0]] else []) + Unreached(nodes[1..], reached)
  }

  /** Every node in the queue is in `c`. */
  ghost predicate QueuedIn(queue: seq<string>, c: set<string>) {
    forall k :: 0 <= k < |queue| ==> queue[k] in c
  }

  /** Every node of `ns` is a neighbour of `x`. */
  ghost predicate NeighboursOf(g: Graph, x: string, ns: seq<string>) {
    forall k :: 0 <= k < |ns| ==> x in g && ns[k] in g[x]
  }

  /** Every neighbour of a reached node is reached or queued. */
  ghost predicate Frontiered(g: Graph, r: set<string>, queue: seq<string>) {
    forall x, y :: x in r && x in g && y in g[x] ==> y in r || y in queue
  }

  /** Every closed set containing `start` contains the reached and queued nodes. */
  ghost predicate BelowClosed(g: Graph, start: string, r: set<string>, queue: seq<string>) {
    forall c :: start in c && Closed(g, c) ==> r <= c && QueuedIn(queue, c)
  }

  lemma StepFrontiered(g: Graph, r: set<string>, queue: seq<string>, newNodes: seq<string>)
    requires |queue| > 0 && Frontiered(g, r, queue)
    requires queue[0] in g ==> forall y :: y in g[queue[0]] && y !in r + {queue[0]} ==> y in newNodes
    ensures Frontiered(g, r + {queue[0]}, queue[1..] + newNodes)
  {
    var x := queue[0];
    forall z, y | z in r + {x} && z in g && y in g[z] ensures y in r + {x} || y in queue[1..] + newNodes {
      if z != x && y !in r && y != x {
        assert y in queue;
        var k :| 0 <= k < |queue| && queue[k] == y;
        assert queue[1..][k - 1] == y;
      }
    }
  }

  lemma StepBelowClosed(g: Graph, start: string, r: set<string>, queue: seq<string>, newNodes: seq<string>)
    requires |queue| > 0 && BelowClosed(g, start, r, queue)
    requires NeighboursOf(g, queue[0], newNodes)
    ensures BelowClosed(g, start, r + {queue[0]}, queue[1..] + newNodes)
  {
    forall c | start in c && Closed(g, c) ensures r + {queue[0]} <= c && QueuedIn(queue[1..] + newNodes, c) {
      assert QueuedIn(queue, c);
      assert queue[0] in c;
    }
  }

  /** Popping a node already reached and appending only unreached nodes
      leaves fewer stale queue entries. */
  lemma StaleDrop(queue: seq<string>, r: set<string>, newNodes: seq<string>)
    requires |queue| > 0 && queue[0] in r
    requires forall k :: 0 <= k < |newNodes| ==> newNodes[k] !in r
    ensures StaleCount(queue[1..] + newNodes, r) < StaleCount(queue, r)
  {
    StaleCountNone(newNodes, r);
    StaleCountAppend(queue[1..], newNodes, r);
  }

  /** Appending neighbours of the popped node keeps the queue inside a set
      holding every neighbour. */
  lemma StepQueuedIn(g: Graph, queue: seq<string>, newNodes: seq<string>, u: set<string>)
    requires |queue| > 0 && QueuedIn(queue, u) && AllNeighbours(g) <= u
    requires NeighboursOf(g, queue[0], newNodes)
    ensures QueuedIn(queue[1..] + newNodes, u)
  {
    forall k | 0 <= k < |newNodes| ensures newNodes[k] in u {
      var x := queue[0];
      var y := newNodes[k];
      assert y in AllNeighbours(g);
    }
  }

  /** `_reachable(graph, start)`: a queue that pops from the front, marks
      the popped node as reached, and appends its neighbours not yet
      reached (a node can be queued more than once). */
  method Bfs(g: Graph, start: string) returns (r: set<string>)
    ensures IsReachSet(g, start, r)
  {
    ghost var u := {start} + AllNeighbours(g);
    r := {};
    var queue := [start];
    while |queue| > 0
      invariant AllNeighbours(g) <= u
      invariant BfsInv(g, start, u, r, queue)
      decreases |u - r|, StaleCount(queue, r)
    {
      var x := queue[0];
      var neighbours := SetToSeq(if x in g then g[x] else {});
      var newNodes := Unreached(neighbours, r + {x});
      BfsTurn(g, start, u, r, queue, neighbours, newNodes);
      r := r + {x};
      queue := queue[1..] + newNodes;
    }
    BfsDone(g, start, r);
  }

  /** The invariant of the search loop, over the nodes `u` it can meet. */
  ghost predicate BfsInv(g: Graph, start: string, u: set<string>, r: set<string>, queue: seq<string>) {
    && r <= u && QueuedIn(queue, u)
    && (start in r || start in queue)
    && Frontiered(g, r, queue)
    && BelowClosed(g, start, r, queue)
  }

  /** One turn of the loop with the neighbours listed and the unreached
      ones picked out, as the method computes them. */
  lemma BfsTurn(g: Graph, start: string, u: set<string>, r: set<string>, queue: seq<string>,
                neighbours: seq<string>, newNodes: seq<string>)
    requires AllNeighbours(g) <= u && |queue| > 0 && BfsInv(g, start, u, r, queue)
    requires forall y :: y in neighbours <==> y in (if queue[0] in g then g[queue[0]] else {})
    requires newNodes == Unreached(neighbours, r + {queue[0]})
    ensures BfsInv(g, start, u, r + {queue[0]}, queue[1..] + newNodes)
    ensures |u - (r + {queue[0]})| < |u - r|
         || (|u - (r + {queue[0]})| == |u - r| && StaleCount(queue[1..] + newNodes, r + {queue[0]}) < StaleCount(queue, r))
  {
    var x := queue[0];
    forall k | 0 <= k < |newNodes| ensures x in g && newNodes[k] in g[x] {
      assert newNodes[k] in neighbours;
    }
    BfsStep(g, start, u, r, queue, newNodes);
  }

  /** One turn of the loop: popping the front node and appending its
      unreached neighbours keeps the invariants, and either reaches a new
      node or drops a stale queue entry. */
  lemma BfsStep(g: Graph, start: string, u: set<string>, r: set<string>, queue: seq<string>, newNodes: seq<string>)
    requires AllNeighbours(g) <= u && |queue| > 0
    requires r <= u && QueuedIn(queue, u) && (start in r || start in queue)
    requires Frontiered(g, r, queue) && BelowClosed(g, start, r, queue)
    requires forall k :: 0 <= k < |newNodes| ==> newNodes[k] !in r + {queue[0]}
    requires NeighboursOf(g, queue[0], newNodes)
    requires queue[0] in g ==> forall y :: y in g[queue[0]] && y !in r + {queue[0]} ==> y in newNodes
    ensures var r', q' := r + {queue[0]}, queue[1..] + newNodes;
      && r' <= u && QueuedIn(q', u) && (start in r' || start in q')
      && Frontiered(g, r', q') && BelowClosed(g, start, r', q')
      && (|u - r'| < |u - r| || (|u - r'| == |u - r| && StaleCount(q', r') < StaleCount(queue, r)))
  {
    var x := queue[0];
    StepFrontiered(g, r, queue, newNodes);
    StepBelowClosed(g, start, r, queue, newNodes);
    StepQueuedIn(g, queue, newNodes, u);
    if x in r {
      assert r + {x} == r;
      StaleDrop(queue, r, newNodes);
    } else {
      assert x in u - r && x !in u - (r + {x});
      assert u - (r + {x}) < u - r;
    }
  }

  /** With the queue empty, the reached set is the reachable set. */
  lemma BfsDone(g: Graph, start: string, r: set<string>)
    requires start in r && Frontiered(g, r, []) && BelowClosed(g, start, r, [])
    ensures IsReachSet(g, start, r)
  {
    forall c | start in c && Closed(g, c) ensures r <= c {
      assert r <= c && QueuedIn([], c);
    }
  }

  // ---------------------------------------------------------------- networks

  /** The reachable set of `s` lies inside every closed set holding `s`. */
  lemma ReachableLeast(g: Graph, s: string, c: set<string>)
    requires s in c && Closed(g, c)
    ensures Reachable(g, s) <= c
  {
  }

  /** In a symmetric graph, a neighbour's network contains one's own. */
  lemma NeighbourNetwork(g: Graph, y: string, z: string)
    requires Symmetric(g)
    requires y in g && z in g[y]
    ensures Reachable(g, y) <= Reachable(g, z)
  {
    var rz := Reachable(g, z);
    assert z in g && y in g[z];
    assert y in rz;
    ReachableLeast(g, y, rz);
  }

  /** In a symmetric graph, every member of a network has that network. */
  lemma {:induction false} SameNetwork(g: Graph, a: string, x: string)
    requires Symmetric(g)
    requires x in Reachable(g, a)
    ensures Reachable(g, x) == Reachable(g, a)
  {
    var ra := Reachable(g, a);
    ReachableLeast(g, x, ra);
    var back := set y | y in ra && a in Reachable(g, y);
    forall y, z | y in back && y in g && z in g[y] ensures z in back {
      NeighbourNetwork(g, y, z);
    }
    ReachableLeast(g, a, back);
    ReachableLeast(g, a, Reachable(g, x));
  }

  /** The distinct networks: one reachable set per student (model.py:163-164). */
  function AllNetworks(g: Graph): set<set<string>> {
    set s | s in g :: Reachable(g, s)
  }

  /** Every network is a non-empty set of students that occur in a match. */
  lemma NetworksCoverStudents(ms: seq<Match>, n: set<string>)
    requires n in AllNetworks(BuildGraph(ms))
    ensures n != {} && n <= Students(ms)
  {
    var g := BuildGraph(ms);
    GraphSymmetric(ms);
    GraphKeys(ms);
    var s :| s in g && n == Reachable(g, s);
    assert Closed(g, g.Keys);
    ReachableLeast(g, s, g.Keys);
  }

  /** Every student that occurs in a match has a network. */
  lemma StudentHasNetwork(ms: seq<Match>, s: string)
    requires s in Students(ms)
    ensures Reachable(BuildGraph(ms), s) in AllNetworks(BuildGraph(ms))
    ensures s in Reachable(BuildGraph(ms), s)
  {
    GraphKeys(ms);
  }

  /** Two different networks have no student in common. */
  lemma NetworksDisjoint(ms: seq<Match>, n1: set<string>, n2: set<string>)
    requires n1 in AllNetworks(BuildGraph(ms)) && n2 in AllNetworks(BuildGraph(ms))
    requires n1 != n2
    ensures n1 !! n2
  {
    var g := BuildGraph(ms);
    GraphSymmetric(ms);
    var s1 :| s1 in g && n1 == Reachable(g, s1);
    var s2 :| s2 in g && n2 == Reachable(g, s2);
    if x :| x in n1 && x in n2 {
      SameNetwork(g, s1, x);
      SameNetwork(g, s2, x);
    }
  }

  /** The two students of a match are in the same network. */
  lemma MatchWithinNetwork(ms: seq<Match>, i: nat)
    requires i < |ms|
    ensures var g := BuildGraph(ms);
      ms[i].student1 in g && ms[i].student2 in Reachable(g, ms[i].student1)
  {
    var g := BuildGraph(ms);
    GraphKeys(ms);
    assert ms[i].student1 in Students(ms);
    assert ms[i].Links(ms[i].student1, ms[i].student2);
    GraphEdge(ms, ms[i].student1, ms[i].student2);
  }
}
