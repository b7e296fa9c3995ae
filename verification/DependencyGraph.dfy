/** The closure of a binary's imports. A graph maps every readable binary to the files its imports resolve to, in import
    order; a file outside the map cannot be read as a PE image. */
module DependencyGraph {
  import opened Wrappers

  type Path = string
  type Graph = map<Path, seq<Path>>

  predicate Walk(graph: Graph, w: seq<Path>) {
    w != [] && forall i | 0 <= i < |w| - 1 :: w[i] in graph && w[i + 1] in graph[w[i]]
  }

  predicate Leads(graph: Graph, w: seq<Path>, from: Path, to: Path) {
    Walk(graph, w) && w[0] == from && w[|w| - 1] == to
  }

  ghost predicate Reachable(graph: Graph, root: Path, p: Path) {
    exists w :: Leads(graph, w, root, p)
  }

  lemma RootIsReachable(graph: Graph, root: Path)
    ensures Reachable(graph, root, root)
  {
    assert Leads(graph, [root], root, root);
  }

  lemma ChildIsReachable(graph: Graph, root: Path, p: Path, child: Path)
    requires Reachable(graph, root, p) && p in graph && child in graph[p]
    ensures Reachable(graph, root, child)
  {
    var w :| Leads(graph, w, root, p);
    assert Leads(graph, w + [child], root, child);
  }

  /** A set that holds the root and every child of its members holds everything reachable. */
  predicate Closed(graph: Graph, s: set<Path>) {
    forall p <- s :: p in graph && forall child <- graph[p] :: child in s
  }

  lemma {:induction false} ClosedHoldsWalks(graph: Graph, s: set<Path>, w: seq<Path>)
    requires Closed(graph, s) && Walk(graph, w) && w[0] in s
    ensures w[|w| - 1] in s
    decreases |w|
  {
    if |w| > 1 {
      WalkOn(graph, w);
      ClosedHoldsWalks(graph, s, w[1..]);
    }
  }

  lemma WalkOn(graph: Graph, w: seq<Path>)
    requires Walk(graph, w) && |w| > 1
    ensures Walk(graph, w[1..]) && w[0] in graph && w[1] in graph[w[0]]
  {
    assert w[0 + 1] in graph[w[0]];
    forall i | 0 <= i < |w| - 2 ensures w[1..][i] in graph && w[1..][i + 1] in graph[w[1..][i]] {
      assert w[(i + 1) + 1] in graph[w[i + 1]];
    }
  }

  lemma ClosedHoldsReachable(graph: Graph, root: Path, s: set<Path>)
    requires Closed(graph, s) && root in s
    ensures forall p | Reachable(graph, root, p) :: p in s
  {
    forall p | Reachable(graph, root, p) ensures p in s {
      var w :| Leads(graph, w, root, p);
      ClosedHoldsWalks(graph, s, w);
    }
  }

  // ----- the worklist -----

  /** Binaries in the order they were read, and what each imports. */
  datatype Explored = Explored(nodes: seq<Path>, edges: map<Path, seq<Path>>)

  predicate Distinct(s: seq<Path>) {
    forall i, j :: 0 <= i < j < |s| ==> s[i] != s[j]
  }

  /** Everything queued or read is reachable, and what was read has its children read or queued. */
  ghost predicate Inv(graph: Graph, root: Path, queue: seq<Path>, visited: set<Path>, out: Explored) {
    && visited == (set p | p in out.nodes) && Distinct(out.nodes)
    && out.edges.Keys == visited && (forall p <- visited :: p in graph && out.edges[p] == graph[p])
    && (forall p <- queue :: Reachable(graph, root, p)) && (forall p <- visited :: Reachable(graph, root, p))
    && (root in visited || root in queue)
    && (forall p <- visited :: forall child <- graph[p] :: child in visited || child in queue)
  }

  /** The children that are not read yet, each time they are named. */
  method NotVisited(children: seq<Path>, visited: set<Path>) returns (more: seq<Path>)
    ensures forall c <- children :: c in visited || c in more
    ensures forall c <- more :: c in children && c !in visited
  {
    more := [];
    for k := 0 to |children|
      invariant forall c <- children[..k] :: c in visited || c in more
      invariant forall c <- more :: c in children && c !in visited
    {
      assert children[..k + 1] == children[..k] + [children[k]];
      if children[k] !in visited { more := more + [children[k]]; }
    }
    assert children[..|children|] == children;
  }

  lemma VisitKeepsInv(graph: Graph, root: Path, queue: seq<Path>, visited: set<Path>, out: Explored, more: seq<Path>)
    requires queue != [] && Inv(graph, root, queue, visited, out)
    requires queue[0] !in visited && queue[0] in graph
    requires forall c <- graph[queue[0]] :: c in visited + {queue[0]} || c in more
    requires forall c <- more :: c in graph[queue[0]]
    ensures var p := queue[0];
            Inv(graph, root, queue[1..] + more, visited + {p}, Explored(out.nodes + [p], out.edges[p := graph[p]]))
  {
    var p := queue[0];
    forall c <- more ensures Reachable(graph, root, c) { ChildIsReachable(graph, root, p, c); }
    hide Reachable;
    assert queue == [p] + queue[1..];
    var nodes := out.nodes + [p];
    assert Distinct(nodes) by { assert p !in out.nodes; }
  }

  lemma SkipKeepsInv(graph: Graph, root: Path, queue: seq<Path>, visited: set<Path>, out: Explored)
    requires queue != [] && queue[0] in visited && Inv(graph, root, queue, visited, out)
    ensures Inv(graph, root, queue[1..], visited, out)
  {
    hide Reachable, Distinct;
    assert queue == [queue[0]] + queue[1..];
  }

  /** The loop of `main`: on every import graph it stops; it succeeds exactly when everything reachable can be read, and
      then names each reachable binary once, nothing else, with edges that stay inside. */
  method Explore(graph: Graph, root: Path) returns (r: Result<Explored>)
    ensures r.Ok? <==> forall p | Reachable(graph, root, p) :: p in graph
    ensures r.Ok? ==> Distinct(r.value.nodes) && (forall p :: p in r.value.nodes <==> Reachable(graph, root, p))
    ensures r.Ok? ==> (forall p :: p in r.value.edges <==> p in r.value.nodes)
    ensures r.Ok? ==> forall p <- r.value.edges ::
              r.value.edges[p] == graph[p] && forall child <- graph[p] :: child in r.value.edges
  {
    hide Reachable, Distinct;
    var queue: seq<Path>, visited: set<Path>, out := [root], {}, Explored([], map[]);
    RootIsReachable(graph, root);
    StartsInv(graph, root);
    while queue != []
      invariant Inv(graph, root, queue, visited, out)
      decreases |graph.Keys - visited|, |queue|
    {
      var current := queue[0];
      if current in visited {
        SkipKeepsInv(graph, root, queue, visited, out);
        queue := queue[1..];
        continue;
      }
      if current !in graph { return Err; }
      var more := NotVisited(graph[current], visited + {current});
      VisitKeepsInv(graph, root, queue, visited, out, more);
      VisitProgresses(graph, visited, current);
      queue := queue[1..] + more;
      out := Explored(out.nodes + [current], out.edges[current := graph[current]]);
      visited := visited + {current};
    }
    ClosedHoldsReachable(graph, root, visited);
    return Ok(out);
  }

  lemma StartsInv(graph: Graph, root: Path)
    requires Reachable(graph, root, root)
    ensures Inv(graph, root, [root], {}, Explored([], map[]))
  {
  }

  lemma VisitProgresses(graph: Graph, visited: set<Path>, current: Path)
    requires current in graph && current !in visited
    ensures |graph.Keys - (visited + {current})| < |graph.Keys - visited|
  {
    assert graph.Keys - visited == (graph.Keys - (visited + {current})) + {current};
  }
}
