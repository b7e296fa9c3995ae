/** What a signing run does with the entries its plan lists. */
module PlanExecution {
  import opened Wrappers
  import opened Zip
  import opened CodePlan
  import P = PackageSigning
  import S = PackageSoundness
  import F = FormatTable

  /** Plan and run read names and exclusions alike. A planned entry has its format by name, wherever it stands. */
  ghost predicate Agree(o: Options, t: P.Tool) {
    && (forall name: string :: o.isKnown(name) <==> !t.detect(name).Unknown?)
    && (forall name: string, path: string :: o.excluded(name, path) == t.excluded(name, path))
    && (forall path: string, name: string, node | o.isKnown(name) ::
       o.kindOf(Nested(path, name), node) == t.detect(name))
  }

  // ----- one entry -----

  /** When the loop passes a planned entry, it pushes nothing for it exactly if it is a ZIP file. */
  lemma PlannedEntryExactly(o: Options, t: P.Tool, path: string, alg: P.VsixHash, publisher: Option<string>, all: Node,
                            k: nat)
    requires Agree(o, t) && all.Archive? && k < |all.entries| && IsPlanned(o, path, all.entries[k].name)
    requires P.UpdateAt(t, path, alg, publisher, all, k).Ok?
    ensures P.UpdateAt(t, path, alg, publisher, all, k).value == [] <==> t.detect(all.entries[k].name).ZipFile?
  {
    hide P.SignNuget, P.SignVsix, P.Prepare, SafeName, IsDir, Contains, P.Companion;
    assert path + "!" + all.entries[k].name == Nested(path, all.entries[k].name);
  }

  /** A planned ClickOnce manifest stops the run exactly if it is skipped as signed, or cannot be signed. */
  lemma ManifestFailsExactly(o: Options, t: P.Tool, path: string, alg: P.VsixHash, publisher: Option<string>,
                             all: Node, k: nat)
    requires Agree(o, t) && all.Archive? && k < |all.entries| && IsPlanned(o, path, all.entries[k].name)
    requires SafeName(all.entries[k].name) && P.IsClickOnce(t.detect(all.entries[k].name))
    ensures var e := all.entries[k];
            P.UpdateAt(t, path, alg, publisher, all, k).Err?
            <==> || (t.skipSigned && t.clickOnceSigned(e.node))
                 || t.leaf(t.detect(e.name), alg, Nested(path, e.name), e.node).Err?
  {
    hide P.SignNuget, P.SignVsix, P.Prepare, SafeName, IsDir, Contains;
    assert path + "!" + all.entries[k].name == Nested(path, all.entries[k].name);
  }

  /** One entry that fails fails the whole container. */
  lemma EntryFailsRun(t: P.Tool, path: string, alg: P.VsixHash, publisher: Option<string>, all: Node, k: nat)
    requires all.Archive? && k < |all.entries| && P.UpdateAt(t, path, alg, publisher, all, k).Err?
    ensures P.SignNested(t, path, alg, publisher, all).Err?
  {
    hide P.UpdateAt, Repack;
    if P.UpdatesFrom(t, path, alg, publisher, all, 0).Ok? {
      S.PushedIsCollected(t, path, alg, publisher, all, 0, k);
    }
  }

  // ----- places at any depth -----

  /** The run comes to this place and pushes an update for what stands there. */
  predicate Works(t: P.Tool, path: string, alg: P.VsixHash, publisher: Option<string>, node: Node, place: seq<nat>)
    decreases |place|
  {
    && node.Archive? && place != [] && place[0] < |node.entries|
    && var e, us := node.entries[place[0]], P.UpdateAt(t, path, alg, publisher, node, place[0]);
    && us.Ok? && us.value != []
    && (|place| > 1 ==>
          && S.IsOpened(t, path, e)
          && Works(t, Nested(path, e.name), S.InnerHash(t.detect(e.name), alg),
                   S.InnerPublisher(t.detect(e.name), publisher), e.node, place[1..]))
  }

  /** A ZIP file stands at the place or around it, or a package around it is skipped as signed. */
  predicate IsShielded(t: P.Tool, node: Node, place: seq<nat>)
    decreases |place|
  {
    && node.Archive? && place != [] && place[0] < |node.entries|
    && var e := node.entries[place[0]];
    || t.detect(e.name).ZipFile?
    || (|place| > 1
        && ((S.IsSkippable(t.detect(e.name)) && S.WasSkipped(t, t.detect(e.name), e.node))
            || IsShielded(t, e.node, place[1..])))
  }

  /** A run over a package signs what is in the package. */
  lemma OpenedRuns(t: P.Tool, path: string, alg: P.VsixHash, publisher: Option<string>, all: Node, k: nat)
    requires all.Archive? && k < |all.entries| && P.UpdateAt(t, path, alg, publisher, all, k).Ok?
    requires S.IsOpened(t, path, all.entries[k])
    ensures var e := all.entries[k];
            P.SignNested(t, Nested(path, e.name), S.InnerHash(t.detect(e.name), alg),
                         S.InnerPublisher(t.detect(e.name), publisher), e.node).Ok?
  {
    S.SelectedPushes(t, path, alg, publisher, all, k);
    var e := all.entries[k];
    if e.node.Archive? { S.SignatureDecision(t.detect(e.name).Vsix?, e.node.entries); }
    hide S.CarriesSignature, S.IsUnreadable;
    hide P.UpdateAt, P.SignNested, P.HasSignature, P.VsixPrepared, P.WithPublisher, P.NugetUnsigned, S.IsSelected;
    hide Contains;
    assert path + "!" + all.entries[k].name == Nested(path, all.entries[k].name);
  }

  lemma PlannedIsSelected(o: Options, t: P.Tool, path: string, e: Entry)
    requires Agree(o, t) && IsPlanned(o, path, e.name) && P.IsContainer(t.detect(e.name))
    ensures S.IsOpened(t, path, e) <==> !(S.IsSkippable(t.detect(e.name)) && S.WasSkipped(t, t.detect(e.name), e.node))
    ensures o.kindOf(Nested(path, e.name), e.node) == t.detect(e.name)
  {
    hide S.WasSkipped, IsDir, S.IsSkippable;
    assert path + "!" + e.name == Nested(path, e.name);
  }

  lemma PlannedKind(o: Options, t: P.Tool, path: string, e: Entry)
    requires Agree(o, t) && IsPlanned(o, path, e.name)
    ensures o.kindOf(Nested(path, e.name), e.node) == t.detect(e.name)
  {
    hide IsDir, Nested;
  }

  /** In a run that succeeds, a planned entry is worked on if and only if no ZIP file stands there or around it inside
      the container, and no package around it is skipped as signed. */
  lemma {:induction false} PlannedRunsExactly(o: Options, t: P.Tool, path: string, alg: P.VsixHash,
                                              publisher: Option<string>, node: Node, place: seq<nat>)
    requires Agree(o, t) && P.SignNested(t, path, alg, publisher, node).Ok? && IsPlannedPlace(o, path, node, place)
    ensures Works(t, path, alg, publisher, node, place) <==> !IsShielded(t, node, place)
    decreases |place|
  {
    var e := node.entries[place[0]];
    RunPasses(t, path, alg, publisher, node, place[0]);
    PlannedEntryExactly(o, t, path, alg, publisher, node, place[0]);
    PlannedKind(o, t, path, e);
    hide Agree, P.SignNested, P.UpdateAt, IsPlanned, S.IsSkippable, S.WasSkipped, P.IsContainer, S.IsOpened, Nested;
    if |place| > 1 && !t.detect(e.name).ZipFile? {
      PlannedIsSelected(o, t, path, e);
      if S.IsOpened(t, path, e) {
        OpenedRuns(t, path, alg, publisher, node, place[0]);
        PlannedRunsExactly(o, t, Nested(path, e.name), S.InnerHash(t.detect(e.name), alg),
                           S.InnerPublisher(t.detect(e.name), publisher), e.node, place[1..]);
      }
    }
  }

  lemma RunPasses(t: P.Tool, path: string, alg: P.VsixHash, publisher: Option<string>, node: Node, k: nat)
    requires P.SignNested(t, path, alg, publisher, node).Ok? && k < |node.entries|
    ensures P.UpdateAt(t, path, alg, publisher, node, k).Ok?
  {
    if P.UpdateAt(t, path, alg, publisher, node, k).Err? { EntryFailsRun(t, path, alg, publisher, node, k); }
  }

  /** The same of the nodes of a plan: of the nodes below a selected container, a run over it that succeeds leaves alone
      exactly the ZIP files, what is in them, and what is in packages skipped as signed. */
  lemma PlanRunsExactly(o: Options, t: P.Tool, alg: P.VsixHash, publisher: Option<string>, files: seq<File>, p: Plan,
                        i: nat)
    requires Agree(o, t) && IsPlan(o, files, p) && i < |p.nodes| && p.nodes[i].depth > 0
    requires i < |p.origins|
    requires var f := p.origins[i].place.file; P.SignNested(t, f.path, alg, publisher, f.node).Ok?
    ensures var f, steps := p.origins[i].place.file, p.origins[i].place.steps;
            && f in files && At(f.path, f.node, steps) == Some(Found(p.nodes[i].path, p.origins[i].source))
            && (Works(t, f.path, alg, publisher, f.node, steps) <==> !IsShielded(t, f.node, steps))
  {
    PlanFacts(o, files, p);
    hide IsPlan, Agree, P.SignNested, Works, IsShielded, At, IsPlannedPlace;
    assert Describes(o, files, p.nodes[i], p.origins[i]);
    var f := p.origins[i].place.file;
    PlannedRunsExactly(o, t, f.path, alg, publisher, f.node, p.origins[i].place.steps);
  }

  /** A ZIP file inside a container is none of the run's business, so it keeps its content. */
  lemma ZipIsBystander(t: P.Tool, path: string, kind: P.Kind, entries: seq<Entry>, name: string)
    requires P.PlainNames(t) && t.detect(name).ZipFile?
    ensures S.IsBystander(t, path, kind, entries, name)
  {
    S.OwnOfIsOwn(kind, name);
    hide P.IsOwn, S.IsOwnOf, P.Companion, IsDir;
    forall x <- entries | S.IsAppInstaller(t, path, x.name) ensures name != P.Companion(x.name) {
      assert t.detect(P.Companion(x.name)).Unknown?;
    }
  }

  // ----- the format table -----

  /** With the format table of the source, plan and run agree. */
  lemma TableAgrees(o: Options, t: P.Tool)
    requires forall name :: t.detect(name) == F.DetectFormat(name)
    requires forall name: string :: o.isKnown(name) <==> !F.DetectFormat(name).Unknown?
    requires forall path: string, node | !F.DetectFormat(path).Unknown? :: o.kindOf(path, node) == F.DetectFormat(path)
    requires forall name: string, path: string :: o.excluded(name, path) == t.excluded(name, path)
    ensures Agree(o, t)
  {
    hide F.DetectFormat;
    forall path: string, name: string, node | o.isKnown(name)
      ensures o.kindOf(Nested(path, name), node) == t.detect(name)
    {
      F.NestedFormat(path, name);
    }
  }

  /** The archive "a.zip" with the program "b.dll" in it, inside a container. */
  function ZipInside(program: Bytes): Node {
    Archive([Entry("a.zip", Archive([Entry("b.dll", Blob(program), Stored, 0)]), Stored, 0)])
  }

  /** The plan lists the program inside the ZIP file, and the run returns the container as it was. */
  lemma NestedZipIsLeftAlone(o: Options, t: P.Tool, path: string, alg: P.VsixHash, publisher: Option<string>,
                             program: Bytes)
    requires Agree(o, t) && (forall name :: t.detect(name) == F.DetectFormat(name))
    requires forall name: string, p: string :: !t.excluded(name, p)
    ensures var node := ZipInside(program);
            && IsPlannedPlace(o, path, node, [0, 0])
            && P.SignNested(t, path, alg, publisher, node) == Ok(node.entries)
            && !Works(t, path, alg, publisher, node, [0, 0])
  {
    F.SampleNames();
    SampleIsSafe();
    var node := ZipInside(program);
    hide F.DetectFormat, Repack;
    ZipPushesNothing(t, path, alg, publisher, node, 0);
    SamplePlace(o, t, path, program);
    hide P.UpdateAt, IsPlannedPlace, Nested;
    OnlyEntry(t, path, alg, publisher, node);
    hide P.UpdatesFrom;
  }

  lemma OnlyEntry(t: P.Tool, path: string, alg: P.VsixHash, publisher: Option<string>, all: Node)
    requires all.Archive? && |all.entries| == 1 && P.UpdateAt(t, path, alg, publisher, all, 0) == Ok([])
    ensures P.UpdatesFrom(t, path, alg, publisher, all, 0) == Ok([])
  {
    hide P.UpdateAt;
    var none: seq<Update> := [];
    assert none + none == none;
    assert P.UpdatesFrom(t, path, alg, publisher, all, 1) == Ok(none);
  }

  lemma SamplePlace(o: Options, t: P.Tool, path: string, program: Bytes)
    requires Agree(o, t) && t.detect("a.zip").ZipFile? && t.detect("b.dll").Pe?
    requires forall name: string, p: string :: !t.excluded(name, p)
    ensures IsPlannedPlace(o, path, ZipInside(program), [0, 0])
  {
    var node := ZipInside(program);
    var e := node.entries[0];
    hide Nested;
    assert IsPlanned(o, path, e.name) && IsPlanned(o, Nested(path, e.name), "b.dll");
    PlannedKind(o, t, path, e);
    hide Agree, IsPlanned;
    assert [0, 0][1..] == [0];
    assert IsPlannedPlace(o, Nested(path, e.name), e.node, [0]);
  }

  lemma ZipPushesNothing(t: P.Tool, path: string, alg: P.VsixHash, publisher: Option<string>, all: Node, k: nat)
    requires all.Archive? && k < |all.entries| && t.detect(all.entries[k].name).ZipFile?
    requires SafeName(all.entries[k].name)
    ensures P.UpdateAt(t, path, alg, publisher, all, k) == Ok([])
  {
    hide SafeName, IsDir, P.SignNuget, P.SignVsix, P.Prepare;
  }

  lemma SampleIsSafe()
    ensures SafeName("a.zip")
  {
    FlatIsSafe("a.zip");
  }
}
