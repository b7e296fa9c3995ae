/** The plan of a signing run: a node for every file and nested entry, and an edge from each entry to its container. */
module CodePlan {
  import opened Sorting
  import opened Wrappers
  import opened Zip
  import P = PackageSigning

  datatype PlanNode = PlanNode(path: string, outputPath: string, kind: P.Kind, depth: nat)
  datatype Edge = Edge(before: nat, after: nat)

  /** The format by name and bytes, whether the name alone is of a known format, and the nested exclusions. */
  datatype Options = Options(
    kindOf: (string, Node) -> P.Kind,
    isKnown: string -> bool,
    excluded: (string, string) -> bool,
    recurse: bool)

  /** The formats that `is_container` names: packages, and plain ZIP files. */
  predicate IsZipLike(kind: P.Kind) {
    P.IsContainer(kind) || kind.ZipFile?
  }

  function Nested(container: string, name: string): string {
    container + "!" + name
  }

  predicate IsPlanned(o: Options, container: string, name: string) {
    !IsDir(name) && !o.excluded(name, Nested(container, name)) && o.isKnown(name)
  }

  // ----- the entries a container contributes -----

  predicate EntryBefore(a: Entry, b: Entry) {
    Less(a.name, b.name)
  }

  function Eligible(o: Options, container: string, entries: seq<Entry>): seq<Entry> {
    if entries == [] then []
    else (if IsPlanned(o, container, entries[0].name) then [entries[0]] else []) + Eligible(o, container, entries[1..])
  }

  /** The planned entries in the order of their display paths, which is that of their names. */
  function Planned(o: Options, container: string, entries: seq<Entry>): seq<Entry> {
    Sort(EntryBefore, Eligible(o, container, entries))
  }

  /** `inspect_zip_entries`. */
  function Inspect(o: Options, container: string, node: Node): Result<seq<Entry>> {
    if !node.Archive? || exists e <- node.entries :: !IsDir(e.name) && !SafeName(e.name) then Err
    else Ok(Planned(o, container, node.entries))
  }

  lemma {:induction false} EligibleAre(o: Options, container: string, entries: seq<Entry>)
    ensures forall e :: e in Eligible(o, container, entries) <==> e in entries && IsPlanned(o, container, e.name)
  {
    hide IsPlanned;
    if entries != [] {
      EligibleAre(o, container, entries[1..]);
      assert entries[0] in entries;
      forall e <- entries ensures e == entries[0] || e in entries[1..] {}
    }
  }

  /** Nothing is planned but the eligible entries, and all of them, in name order. */
  lemma PlannedAre(o: Options, container: string, entries: seq<Entry>)
    ensures forall e :: e in Planned(o, container, entries) <==> e in entries && IsPlanned(o, container, e.name)
    ensures InOrder(EntryBefore, Planned(o, container, entries))
  {
    EligibleAre(o, container, entries);
    hide IsPlanned, Less, Eligible;
    forall a, b | EntryBefore(a, b) ensures !EntryBefore(b, a) { LessIsAsymmetric(a.name, b.name); }
    Sorts(EntryBefore, Eligible(o, container, entries));
    SortKeeps(EntryBefore, Eligible(o, container, entries));
  }

  // ----- the places a plan covers -----

  /** A place inside a file: positions of entries, from the outermost archive inwards. Everything on the way is planned,
      and planned entries of ZIP formats are looked into. */
  predicate IsPlannedPlace(o: Options, path: string, node: Node, place: seq<nat>)
    decreases |place|
  {
    && node.Archive? && place != [] && place[0] < |node.entries|
    && var e := node.entries[place[0]];
    && IsPlanned(o, path, e.name)
    && (|place| > 1 ==>
          && IsZipLike(o.kindOf(Nested(path, e.name), e.node))
          && IsPlannedPlace(o, Nested(path, e.name), e.node, place[1..]))
  }

  /** What stands at a place, with its display path. */
  datatype Found = Found(path: string, node: Node)

  function At(path: string, node: Node, place: seq<nat>): Option<Found>
    decreases |place|
  {
    if place == [] then Some(Found(path, node))
    else if !node.Archive? || place[0] >= |node.entries| then None
    else var e := node.entries[place[0]]; At(Nested(path, e.name), e.node, place[1..])
  }

  /** A selected file with the path it is shown and written under. */
  datatype File = File(path: string, outputPath: string, node: Node)

  datatype Place = Place(file: File, steps: seq<nat>)

  /** A planned place, or the file itself. */
  predicate Covers(o: Options, p: Place, path: string, node: Node) {
    && At(p.file.path, p.file.node, p.steps) == Some(Found(path, node))
    && (p.steps != [] ==> IsPlannedPlace(o, p.file.path, p.file.node, p.steps))
  }

  lemma {:induction false} PlaceExtends(o: Options, path: string, node: Node, place: seq<nat>, j: nat)
    requires At(path, node, place).Some?
    requires var f := At(path, node, place).value;
             f.node.Archive? && j < |f.node.entries| && IsPlanned(o, f.path, f.node.entries[j].name)
             && (place != [] ==> IsPlannedPlace(o, path, node, place) && IsZipLike(o.kindOf(f.path, f.node)))
    ensures var f := At(path, node, place).value;
            var e := f.node.entries[j];
            At(path, node, place + [j]) == Some(Found(Nested(f.path, e.name), e.node))
    ensures IsPlannedPlace(o, path, node, place + [j])
    decreases |place|
  {
    hide IsPlanned, IsZipLike, Nested;
    if place == [] {
      assert [] + [j] == [j] && [j][1..] == [];
    } else {
      var e := node.entries[place[0]];
      assert (place + [j])[1..] == place[1..] + [j];
      if |place| == 1 { assert place[1..] == []; }
      PlaceExtends(o, Nested(path, e.name), e.node, place[1..], j);
    }
  }

  // ----- a plan -----

  /** The content a node was planned for, and where that stands. */
  datatype Origin = Origin(source: Node, place: Place)

  /** The state of a builder; the origins are remembered for the proofs only. */
  datatype Plan = Plan(nodes: seq<PlanNode>, edges: seq<Edge>, nodeIds: map<string, nat>, origins: seq<Origin>)

  /** An edge goes from an entry to the container whose path its path continues. */
  ghost predicate IsNesting(nodes: seq<PlanNode>, e: Edge) {
    && e.before < |nodes| && e.after < |nodes|
    && exists name: string :: nodes[e.before].path == Nested(nodes[e.after].path, name)
  }

  /** The output path continues that of the selected file as the path continues its path. */
  predicate Continues(f: File, path: string, outputPath: string) {
    f.path <= path && outputPath == f.outputPath + path[|f.path|..]
  }

  lemma NestedContinues(f: File, path: string, outputPath: string, name: string)
    requires Continues(f, path, outputPath)
    ensures Continues(f, Nested(path, name), Nested(outputPath, name))
  {
    var n := |f.path|;
    assert Nested(path, name)[..n] == path[..n];
    assert Nested(path, name)[n..] == path[n..] + "!" + name;
  }

  /** A node describes what stands at its place, in one of the selected files. */
  predicate Describes(o: Options, files: seq<File>, n: PlanNode, from: Origin) {
    && from.place.file in files && Covers(o, from.place, n.path, from.source)
    && n.kind == o.kindOf(n.path, from.source) && n.depth == |from.place.steps|
    && Continues(from.place.file, n.path, n.outputPath)
  }

  /** One node a path, known by its position, only planned places, and only nesting edges. */
  ghost predicate IsPlan(o: Options, files: seq<File>, p: Plan) {
    && |p.origins| == |p.nodes|
    && (forall path <- p.nodeIds :: p.nodeIds[path] < |p.nodes| && p.nodes[p.nodeIds[path]].path == path)
    && (forall i | 0 <= i < |p.nodes| :: p.nodes[i].path in p.nodeIds && p.nodeIds[p.nodes[i].path] == i)
    && (forall i | 0 <= i < |p.nodes| :: Describes(o, files, p.nodes[i], p.origins[i]))
    && (forall e <- p.edges :: IsNesting(p.nodes, e))
  }

  /** Nothing that was planned before changes. */
  ghost predicate Grows(p: Plan, q: Plan) {
    && p.nodes <= q.nodes && p.edges <= q.edges && p.origins <= q.origins
    && forall path <- p.nodeIds :: path in q.nodeIds && q.nodeIds[path] == p.nodeIds[path]
  }

  ghost predicate HasEdge(p: Plan, i: nat, name: string) {
    && i < |p.nodes|
    && exists e <- p.edges ::
       e.after == i && e.before < |p.nodes| && p.nodes[e.before].path == Nested(p.nodes[i].path, name)
  }

  /** An archive in which every file has a safe name. */
  predicate IsReadable(node: Node) {
    node.Archive? && forall e <- node.entries :: IsDir(e.name) || SafeName(e.name)
  }

  /** A container that was to be looked into and cannot be read. */
  predicate Stops(o: Options, p: Plan, i: nat) {
    && i < |p.nodes| == |p.origins|
    && o.recurse && IsZipLike(p.nodes[i].kind) && !IsReadable(p.origins[i].source)
  }

  predicate StopsBehind(o: Options, p: Plan, from: nat) {
    exists i | from <= i < |p.nodes| :: Stops(o, p, i)
  }

  /** Every container can be read, and each of its planned entries has its edge. */
  ghost predicate Complete(o: Options, p: Plan, i: nat) {
    && i < |p.nodes| == |p.origins|
    && var source := p.origins[i].source;
    o.recurse && IsZipLike(p.nodes[i].kind) ==>
      IsReadable(source)
      && forall e <- source.entries | IsPlanned(o, p.nodes[i].path, e.name) :: HasEdge(p, i, e.name)
  }

  ghost predicate CompleteBetween(o: Options, p: Plan, from: nat, to: nat) {
    forall i | from <= i < to :: Complete(o, p, i)
  }

  // ----- building one -----

  lemma GrowsOn(p: Plan, q: Plan, r: Plan)
    requires Grows(p, q) && Grows(q, r)
    ensures Grows(p, r)
  {
  }

  lemma PlanFacts(o: Options, files: seq<File>, p: Plan)
    requires IsPlan(o, files, p)
    ensures |p.origins| == |p.nodes|
    ensures forall path <- p.nodeIds :: p.nodeIds[path] < |p.nodes| && p.nodes[p.nodeIds[path]].path == path
    ensures forall i | 0 <= i < |p.nodes| :: Describes(o, files, p.nodes[i], p.origins[i])
  {
    hide Describes, IsNesting;
  }

  function Push(p: Plan, n: PlanNode, from: Origin): Plan {
    Plan(p.nodes + [n], p.edges, p.nodeIds[n.path := |p.nodes|], p.origins + [from])
  }

  lemma PushKeepsPlan(o: Options, files: seq<File>, p: Plan, n: PlanNode, from: Origin)
    requires IsPlan(o, files, p) && n.path !in p.nodeIds && Describes(o, files, n, from)
    ensures IsPlan(o, files, Push(p, n, from)) && Grows(p, Push(p, n, from))
  {
    hide Describes, Nested;
    forall e <- p.edges ensures IsNesting(p.nodes + [n], e) {
      var name: string :| p.nodes[e.before].path == Nested(p.nodes[e.after].path, name);
      NestingEdge(p.nodes + [n], e.before, e.after, name);
    }
  }

  lemma NestingEdge(nodes: seq<PlanNode>, before: nat, after: nat, name: string)
    requires before < |nodes| && after < |nodes| && nodes[before].path == Nested(nodes[after].path, name)
    ensures IsNesting(nodes, Edge(before, after))
  {
    hide Nested;
    var e := Edge(before, after);
    assert nodes[e.before].path == Nested(nodes[e.after].path, name);
  }

  function Link(p: Plan, e: Edge): Plan {
    Plan(p.nodes, p.edges + [e], p.nodeIds, p.origins)
  }

  lemma LinkKeepsPlan(o: Options, files: seq<File>, p: Plan, child: nat, id: nat, name: string)
    requires IsPlan(o, files, p) && child < |p.nodes| && id < |p.nodes|
    requires p.nodes[child].path == Nested(p.nodes[id].path, name)
    ensures var q := Link(p, Edge(child, id)); IsPlan(o, files, q) && Grows(p, q) && HasEdge(q, id, name)
  {
    hide Describes, Nested;
    NestingEdge(p.nodes, child, id, name);
    hide IsNesting;
    assert Edge(child, id) in Link(p, Edge(child, id)).edges;
  }

  lemma HasEdgeGrows(p: Plan, q: Plan, i: nat, name: string)
    requires Grows(p, q) && HasEdge(p, i, name)
    ensures HasEdge(q, i, name)
  {
    hide Nested;
    var e :| e in p.edges && e.after == i && e.before < |p.nodes|
        && p.nodes[e.before].path == Nested(p.nodes[i].path, name);
    assert e in q.edges;
  }

  lemma CompleteGrows(o: Options, p: Plan, q: Plan, from: nat, to: nat)
    requires Grows(p, q) && |q.nodes| == |q.origins| && CompleteBetween(o, p, from, to)
    ensures CompleteBetween(o, q, from, to)
  {
    hide IsPlanned, IsZipLike, HasEdge;
    forall i | from <= i < to ensures Complete(o, q, i) {
      assert Complete(o, p, i);
      var path := p.nodes[i].path;
      if o.recurse && IsZipLike(p.nodes[i].kind) {
        forall e <- p.origins[i].source.entries | IsPlanned(o, path, e.name) ensures HasEdge(q, i, e.name) {
          HasEdgeGrows(p, q, i, e.name);
        }
      }
    }
  }

  lemma CompleteUpTo(o: Options, p: Plan, from: nat, mid: nat, to: nat)
    requires CompleteBetween(o, p, from, mid) && CompleteBetween(o, p, mid, to)
    ensures CompleteBetween(o, p, from, to)
  {
    hide Complete;
  }

  lemma NothingComplete(o: Options, p: Plan, from: nat)
    ensures CompleteBetween(o, p, from, from)
  {
  }

  lemma LeafIsComplete(o: Options, p: Plan, id: nat)
    requires |p.nodes| == |p.origins| == id + 1 && !(o.recurse && IsZipLike(p.nodes[id].kind))
    ensures CompleteBetween(o, p, id, id + 1)
  {
  }

  /** The first `k` of these entries have their edges. */
  ghost predicate HasEdges(p: Plan, i: nat, planned: seq<Entry>, k: nat) {
    forall j | 0 <= j < k && j < |planned| :: HasEdge(p, i, planned[j].name)
  }

  lemma HasEdgesGrow(p: Plan, q: Plan, i: nat, planned: seq<Entry>, k: nat)
    requires Grows(p, q) && k < |planned| && HasEdges(p, i, planned, k) && HasEdge(q, i, planned[k].name)
    ensures HasEdges(q, i, planned, k + 1)
  {
    hide HasEdge, Grows;
    forall j | 0 <= j < k ensures HasEdge(q, i, planned[j].name) { HasEdgeGrows(p, q, i, planned[j].name); }
  }

  lemma NoEdgesYet(p: Plan, i: nat, planned: seq<Entry>)
    ensures HasEdges(p, i, planned, 0)
  {
  }

  lemma AllEdgesComplete(o: Options, p: Plan, id: nat, planned: seq<Entry>)
    requires id < |p.nodes| == |p.origins| && Inspect(o, p.nodes[id].path, p.origins[id].source) == Ok(planned)
    requires HasEdges(p, id, planned, |planned|) && CompleteBetween(o, p, id + 1, |p.nodes|)
    ensures CompleteBetween(o, p, id, |p.nodes|)
  {
    var source := p.origins[id].source;
    InspectIs(o, p.nodes[id].path, source);
    hide HasEdge, IsPlanned, Inspect, IsZipLike;
    forall e <- source.entries | IsPlanned(o, p.nodes[id].path, e.name) ensures HasEdge(p, id, e.name) {
      assert e in planned;
      var j :| 0 <= j < |planned| && planned[j] == e;
    }
    assert Complete(o, p, id);
  }

  /** A container is inspected exactly if it can be read, and contributes its planned entries. */
  lemma InspectIs(o: Options, container: string, node: Node)
    ensures Inspect(o, container, node).Ok? <==> IsReadable(node)
    ensures Inspect(o, container, node).Ok? ==>
              forall e :: e in Inspect(o, container, node).value
                          <==> e in node.entries && IsPlanned(o, container, e.name)
  {
    hide IsPlanned, SafeName, IsDir;
    if Inspect(o, container, node).Ok? {
      PlannedAre(o, container, node.entries);
      assert Inspect(o, container, node).value == Planned(o, container, node.entries);
    }
  }

  lemma CompleteDoesNotStop(o: Options, p: Plan, from: nat)
    requires CompleteBetween(o, p, from, |p.nodes|)
    ensures !StopsBehind(o, p, from)
  {
    hide IsReadable, HasEdge, IsPlanned, IsZipLike;
    forall i | from <= i < |p.nodes| ensures !Stops(o, p, i) { assert Complete(o, p, i); }
  }

  lemma StopsFurther(o: Options, p: Plan, from: nat, later: nat)
    requires StopsBehind(o, p, later) && from <= later
    ensures StopsBehind(o, p, from)
  {
    hide Stops;
  }

  lemma StopsHere(o: Options, p: Plan, i: nat)
    requires Stops(o, p, i)
    ensures StopsBehind(o, p, i)
  {
  }

  lemma ChildIsCovered(o: Options, files: seq<File>, p: Plan, id: nat, e: Entry) returns (place: Place)
    requires IsPlan(o, files, p) && id < |p.nodes| && id < |p.origins| && IsZipLike(p.nodes[id].kind)
    requires p.origins[id].source.Archive? && e in p.origins[id].source.entries
    requires IsPlanned(o, p.nodes[id].path, e.name)
    ensures place.file in files && |place.steps| == p.nodes[id].depth + 1
    ensures Continues(place.file, p.nodes[id].path, p.nodes[id].outputPath)
    ensures Covers(o, place, Nested(p.nodes[id].path, e.name), e.node)
  {
    PlanFacts(o, files, p);
    hide IsPlan, IsPlannedPlace, At, IsPlanned, IsZipLike, Nested;
    var Origin(source, from) := p.origins[id];
    assert Describes(o, files, p.nodes[id], p.origins[id]);
    var j :| 0 <= j < |source.entries| && source.entries[j] == e;
    place := Place(from.file, from.steps + [j]);
    PlaceExtends(o, from.file.path, from.file.node, from.steps, j);
  }

  lemma FileIsCovered(o: Options, f: File)
    ensures Covers(o, Place(f, []), f.path, f.node)
  {
  }

  /** The builder; `origins` remembers where each node comes from. */
  class PlanBuilder {
    var nodes: seq<PlanNode>
    var edges: seq<Edge>
    var nodeIds: map<string, nat>
    ghost var origins: seq<Origin>
    const o: Options
    ghost const files: seq<File>

    constructor (o: Options, ghost files: seq<File>)
      ensures this.o == o && this.files == files && nodes == [] && edges == [] && Valid()
    {
      this.o, this.files := o, files;
      nodes, edges, nodeIds, origins := [], [], map[], [];
    }

    ghost function Contents(): Plan
      reads this
    {
      Plan(nodes, edges, nodeIds, origins)
    }

    ghost predicate Valid()
      reads this
    {
      IsPlan(o, files, Contents())
    }

    /** `add_node_from_reader`: a path is planned once; a container brings its planned entries with it, each with an
        edge to it, and theirs. */
    method AddNode(path: string, outputPath: string, node: Node, depth: nat, ghost place: Place)
      returns (r: Result<nat>)
      requires Valid() && place.file in files && Covers(o, place, path, node) && depth == |place.steps|
      requires Continues(place.file, path, outputPath)
      modifies this
      ensures Valid() && Grows(old(Contents()), Contents())
      ensures path in old(nodeIds) ==> r == Ok(old(nodeIds)[path]) && Contents() == old(Contents())
      ensures r.Ok? ==> path in nodeIds && r.value < |nodes| && nodes[r.value].path == path
      ensures r.Ok? && path !in old(nodeIds) ==>
                && r.value == |old(nodes)| && r.value < |origins|
                && nodes[r.value] == PlanNode(path, outputPath, o.kindOf(path, node), depth)
                && origins[r.value] == Origin(node, place)
      ensures r.Ok? ==> CompleteBetween(o, Contents(), |old(nodes)|, |nodes|)
      ensures r.Err? ==> StopsBehind(o, Contents(), |old(nodes)|)
      decreases node, 2
    {
      PlanFacts(o, files, Contents());
      hide IsPlanned, IsZipLike, Inspect, Nested, CompleteBetween, StopsBehind, IsReadable, Covers, IsPlan, Grows;
      GrowsNot(Contents());
      NothingComplete(o, Contents(), |nodes|);
      if path in nodeIds { return Ok(nodeIds[path]); }
      var id, n := |nodes|, PlanNode(path, outputPath, o.kindOf(path, node), depth);
      ghost var before := Contents();
      PushKeepsPlan(o, files, Contents(), n, Origin(node, place));
      nodeIds := nodeIds[path := id];
      nodes := nodes + [n];
      origins := origins + [Origin(node, place)];
      assert Contents() == Push(before, n, Origin(node, place));
      if o.recurse && IsZipLike(n.kind) {
        ghost var pushed := Contents();
        var ok := AddChildren(id, node);
        GrowsOn(before, pushed, Contents());
        GrownAt(o, files, pushed, Contents(), id);
        if !ok { return Err; }
      } else {
        LeafIsComplete(o, Contents(), id);
      }
      return Ok(id);
    }

    /** The second half: the planned entries of container `id`, in order. */
    method AddChildren(id: nat, node: Node) returns (ok: bool)
      requires Valid() && id == |nodes| - 1 && id < |origins| && origins[id].source == node
      requires o.recurse && IsZipLike(nodes[id].kind)
      modifies this
      ensures Valid() && Grows(old(Contents()), Contents())
      ensures ok ==> CompleteBetween(o, Contents(), id, |nodes|)
      ensures !ok ==> StopsBehind(o, Contents(), id)
      decreases node, 1
    {
      hide IsPlanned, IsZipLike, Inspect, Nested, CompleteBetween, StopsBehind, IsReadable, HasEdges, IsPlan, Grows;
      GrowsNot(Contents());
      var nested := Inspect(o, nodes[id].path, node);
      if nested.Err? {
        InspectIs(o, nodes[id].path, node);
        PlanFacts(o, files, Contents());
        StopsHere(o, Contents(), id);
        return false;
      }
      ghost var before := Contents();
      NothingComplete(o, before, id + 1);
      NoEdgesYet(before, id, nested.value);
      for k := 0 to |nested.value|
        invariant Valid() && Grows(before, Contents()) && CompleteBetween(o, Contents(), id + 1, |nodes|)
        invariant HasEdges(Contents(), id, nested.value, k)
      {
        ok := AddChild(id, node, nested.value, k, before);
        if !ok {
          StopsFurther(o, Contents(), id, id + 1);
          return;
        }
      }
      GrownAt(o, files, before, Contents(), id);
      AllEdgesComplete(o, Contents(), id, nested.value);
      return true;
    }

    /** Its loop body: entry `k` of the planned ones, and its edge. */
    method AddChild(id: nat, node: Node, planned: seq<Entry>, k: nat, ghost before: Plan) returns (ok: bool)
      requires Valid() && Grows(before, Contents()) && id < |before.nodes| && id < |before.origins|
      requires before.origins[id].source == node && IsZipLike(before.nodes[id].kind)
      requires Inspect(o, before.nodes[id].path, node) == Ok(planned) && k < |planned|
      requires CompleteBetween(o, Contents(), id + 1, |nodes|) && HasEdges(Contents(), id, planned, k)
      modifies this
      ensures Valid() && Grows(before, Contents())
      ensures ok ==> CompleteBetween(o, Contents(), id + 1, |nodes|) && HasEdges(Contents(), id, planned, k + 1)
      ensures !ok ==> StopsBehind(o, Contents(), id + 1)
      decreases node, 0
    {
      InspectIs(o, before.nodes[id].path, node);
      GrownAt(o, files, before, Contents(), id);
      hide IsPlanned, IsZipLike, Inspect, Nested, CompleteBetween, StopsBehind, IsReadable, HasEdges, HasEdge, IsPlan;
      hide Covers, Grows;
      var e, container := planned[k], nodes[id];
      assert e in planned;
      ghost var first := Contents();
      ghost var place := ChildIsCovered(o, files, first, id, e);
      NestedContinues(place.file, container.path, container.outputPath, e.name);
      var child := AddNode(Nested(container.path, e.name), Nested(container.outputPath, e.name), e.node,
                           container.depth + 1, place);
      ghost var added := Contents();
      GrowsOn(before, first, added);
      if child.Err? {
        StopsFurther(o, Contents(), id + 1, |first.nodes|);
        return false;
      }
      GrownAt(o, files, first, added, id);
      LinkKeepsPlan(o, files, added, child.value, id, e.name);
      edges := edges + [Edge(child.value, id)];
      assert Contents() == Link(added, Edge(child.value, id));
      PlanFacts(o, files, Contents());
      GrowsOn(before, added, Contents());
      GrowsOn(first, added, Contents());
      HasEdgesGrow(first, Contents(), id, planned, k);
      CompleteGrows(o, first, Contents(), id + 1, |first.nodes|);
      CompleteGrows(o, added, Contents(), |first.nodes|, |nodes|);
      CompleteUpTo(o, Contents(), id + 1, |first.nodes|, |nodes|);
      return true;
    }

    /** `add_path`, for a selected file. */
    method AddPath(f: File) returns (ok: bool)
      requires Valid() && f in files && CompleteBetween(o, Contents(), 0, |nodes|)
      modifies this
      ensures Valid() && old(nodeIds).Keys <= nodeIds.Keys
      ensures ok ==> CompleteBetween(o, Contents(), 0, |nodes|) && f.path in nodeIds
      ensures !ok ==> StopsBehind(o, Contents(), 0)
    {
      FileIsCovered(o, f);
      hide IsPlan, Covers, CompleteBetween, StopsBehind, Grows;
      ghost var before := Contents();
      var added := AddNode(f.path, f.outputPath, f.node, 0, Place(f, []));
      GrownKeys(before, Contents());
      if added.Err? {
        StopsFurther(o, Contents(), 0, |before.nodes|);
        return false;
      }
      PlanFacts(o, files, Contents());
      CompleteGrows(o, before, Contents(), 0, |before.nodes|);
      CompleteUpTo(o, Contents(), 0, |before.nodes|, |nodes|);
      return true;
    }

    /** The loop of `build_code_plan` over the selected files: it ends in a complete plan unless it meets a container
        that cannot be read. */
    method AddAll(selected: seq<File>) returns (ok: bool)
      requires Valid() && nodes == [] && selected == files
      modifies this
      ensures Valid()
      ensures ok ==> CompleteBetween(o, Contents(), 0, |nodes|) && forall f <- selected :: f.path in nodeIds
      ensures ok <==> !StopsBehind(o, Contents(), 0)
    {
      NothingComplete(o, Contents(), 0);
      hide IsPlan, CompleteBetween, StopsBehind, Covers, Grows, Complete, Describes;
      for k := 0 to |selected|
        invariant Valid() && CompleteBetween(o, Contents(), 0, |nodes|)
        invariant forall j | 0 <= j < k :: selected[j].path in nodeIds
      {
        var added := AddPath(selected[k]);
        if !added { return false; }
      }
      CompleteDoesNotStop(o, Contents(), 0);
      return true;
    }
  }

  lemma GrowsNot(p: Plan)
    ensures Grows(p, p)
  {
  }

  lemma GrownKeys(p: Plan, q: Plan)
    requires Grows(p, q)
    ensures p.nodeIds.Keys <= q.nodeIds.Keys
  {
  }

  lemma GrownAt(o: Options, files: seq<File>, p: Plan, q: Plan, i: nat)
    requires Grows(p, q) && IsPlan(o, files, q) && i < |p.nodes| && i < |p.origins|
    ensures |p.nodes| <= |q.nodes| == |q.origins| && q.nodes[i] == p.nodes[i] && q.origins[i] == p.origins[i]
    ensures forall path <- p.nodeIds :: path in q.nodeIds
  {
  }

  // ----- the order of a plan -----

  /** A chain of edges, each from an entry to its container. */
  ghost predicate Chain(edges: seq<Edge>, w: seq<nat>) {
    w != [] && forall i | 0 <= i < |w| - 1 :: Edge(w[i], w[i + 1]) in edges
  }

  /** Going outwards shortens the path, so a plan has no cycle: signing longer paths first respects every edge. */
  lemma {:induction false} OutwardsIsShorter(nodes: seq<PlanNode>, edges: seq<Edge>, w: seq<nat>)
    requires (forall e <- edges :: IsNesting(nodes, e)) && Chain(edges, w) && |w| > 1
    ensures w[0] < |nodes| && w[|w| - 1] < |nodes|
    ensures |nodes[w[0]].path| > |nodes[w[|w| - 1]].path|
    ensures w[0] != w[|w| - 1]
  {
    assert Edge(w[0], w[0 + 1]) in edges;
    assert IsNesting(nodes, Edge(w[0], w[1]));
    if |w| > 2 {
      ChainOn(edges, w);
      OutwardsIsShorter(nodes, edges, w[1..]);
    }
  }

  lemma ChainOn(edges: seq<Edge>, w: seq<nat>)
    requires Chain(edges, w) && |w| > 1
    ensures Chain(edges, w[1..])
  {
    forall i | 0 <= i < |w| - 2
      ensures Edge(w[1..][i], w[1..][i + 1]) in edges
    {
      assert Edge(w[i + 1], w[(i + 1) + 1]) in edges;
    }
  }
}
