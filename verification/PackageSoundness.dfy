/** What a signing run makes of a package, at every depth: each entry has its outcome in its place. */
module PackageSoundness {
  import opened Wrappers
  import opened Zip
  import opened PackageSigning
  import BlockMap

  // ----- sealed packages -----

  /** The author signature, which is not compressed, covers the package as it is, without the signature entry. */
  predicate NugetSealed(t: Tool, entries: seq<Entry>) {
    var s := ByName(entries, NUGET_SIGNATURE);
    && s.Some? && s.value.node.Blob? && s.value.compression == Stored
    && t.attested(s.value.node.bytes) == t.nugetContent(WithoutName(entries, NUGET_SIGNATURE))
  }

  /** The signature part covers the other parts as they are. */
  predicate VsixSealed(t: Tool, alg: VsixHash, entries: seq<Entry>) {
    var s := ByName(entries, VSIX_SIGNATURE);
    && s.Some? && s.value.node.Blob?
    && t.vsixInfo(alg, WithoutName(entries, VSIX_SIGNATURE)) == Ok(t.attested(s.value.node.bytes))
  }

  /** The block map, if there is one, is the one that rebuilding gives. */
  predicate MapIsCurrent(f: BlockMap.Format, entries: seq<Entry>) {
    Contains(entries, BlockMap.BLOCK_MAP) ==>
      && BlockMap.Rebuild(f, entries).Ok?
      && forall k | 0 <= k < |entries| ::
           entries[k].name == BlockMap.BLOCK_MAP && !Contains(entries[..k], BlockMap.BLOCK_MAP)
           ==> entries[k].node == Blob(f.render(BlockMap.Rebuild(f, entries).value))
  }

  // ----- which entry is treated how -----

  predicate IsNuget(kind: Kind) {
    kind.Nuget? || kind.Snupkg?
  }

  /** The run signs, or works on the inside of, the entry of this name. */
  predicate IsSelected(t: Tool, path: string, name: string) {
    !IsDir(name) && !t.excluded(name, path + "!" + name) && (IsContainer(t.detect(name)) || IsLeaf(t.detect(name)))
  }

  predicate IsAppInstaller(t: Tool, path: string, name: string) {
    !IsDir(name) && !t.excluded(name, path + "!" + name) && t.detect(name).AppInstaller?
  }

  // ----- which packages are signed already -----

  /** A file that makes its package a signed one: the author signature of a NuGet package; the signature origin of a
      VSIX, or anything below its signature folder. */
  predicate IsSignatureFile(vsix: bool, name: string) {
    && !IsDir(name) && SafeName(name)
    && (!vsix ==> name == NUGET_SIGNATURE)
    && (vsix ==> name == ORIGIN || SIGNATURES <= name)
  }

  /** There is such a file, and no file with an unsafe name in front of it. */
  predicate CarriesSignature(vsix: bool, entries: seq<Entry>) {
    exists k | 0 <= k < |entries| ::
      && IsSignatureFile(vsix, entries[k].name)
      && forall j | 0 <= j < k :: IsDir(entries[j].name) || SafeName(entries[j].name)
  }

  /** There is a file with an unsafe name, and none that makes the package a signed one in front of it. */
  predicate IsUnreadable(vsix: bool, entries: seq<Entry>) {
    exists k | 0 <= k < |entries| ::
      && !IsDir(entries[k].name) && !SafeName(entries[k].name)
      && forall j | 0 <= j < k :: !IsSignatureFile(vsix, entries[j].name)
  }

  /** What `package_has_signature` answers. */
  lemma {:induction false} SignatureDecision(vsix: bool, entries: seq<Entry>)
    ensures HasSignature(vsix, entries) == Ok(true) <==> CarriesSignature(vsix, entries)
    ensures HasSignature(vsix, entries) == Err <==> IsUnreadable(vsix, entries)
  {
    hide IsDir, SafeName, NUGET_SIGNATURE, ORIGIN, SIGNATURES;
    if entries != [] {
      var rest := entries[1..];
      SignatureDecision(vsix, rest);
      var name := entries[0].name;
      assert forall k | 0 <= k < |rest| :: rest[k] == entries[k + 1];
      if IsDir(name) || (SafeName(name) && !IsSignatureFile(vsix, name)) {
        DecisionGoesOn(vsix, entries);
      } else if !SafeName(name) {
        assert IsUnreadable(vsix, entries);
        assert !CarriesSignature(vsix, entries);
      } else {
        assert CarriesSignature(vsix, entries);
      }
    }
  }

  /** A first entry that decides nothing. */
  lemma DecisionGoesOn(vsix: bool, entries: seq<Entry>)
    requires entries != []
    requires var name := entries[0].name; IsDir(name) || (SafeName(name) && !IsSignatureFile(vsix, name))
    ensures CarriesSignature(vsix, entries) <==> CarriesSignature(vsix, entries[1..])
    ensures IsUnreadable(vsix, entries) <==> IsUnreadable(vsix, entries[1..])
  {
    hide IsDir, SafeName, NUGET_SIGNATURE, ORIGIN, SIGNATURES;
    assert !IsSignatureFile(vsix, entries[0].name);
    hide CarriesSignature, IsUnreadable, IsSignatureFile;
    SignatureGoesOn(vsix, entries);
    UnreadableGoesOn(vsix, entries);
  }

  lemma SignatureGoesOn(vsix: bool, entries: seq<Entry>)
    requires entries != [] && !IsSignatureFile(vsix, entries[0].name)
    requires IsDir(entries[0].name) || SafeName(entries[0].name)
    ensures CarriesSignature(vsix, entries) <==> CarriesSignature(vsix, entries[1..])
  {
    hide IsDir, SafeName, IsSignatureFile;
    var rest := entries[1..];
    if CarriesSignature(vsix, entries) {
      var k :| 0 <= k < |entries| && IsSignatureFile(vsix, entries[k].name)
               && forall j | 0 <= j < k :: IsDir(entries[j].name) || SafeName(entries[j].name);
      assert IsSignatureFile(vsix, rest[k - 1].name);
    }
    if CarriesSignature(vsix, rest) {
      var k :| 0 <= k < |rest| && IsSignatureFile(vsix, rest[k].name)
               && forall j | 0 <= j < k :: IsDir(rest[j].name) || SafeName(rest[j].name);
      forall j | 0 <= j < k + 1 ensures IsDir(entries[j].name) || SafeName(entries[j].name) {
        if j > 0 { assert rest[j - 1] == entries[j]; }
      }
      assert IsSignatureFile(vsix, entries[k + 1].name);
    }
  }

  lemma UnreadableGoesOn(vsix: bool, entries: seq<Entry>)
    requires entries != [] && !IsSignatureFile(vsix, entries[0].name)
    requires IsDir(entries[0].name) || SafeName(entries[0].name)
    ensures IsUnreadable(vsix, entries) <==> IsUnreadable(vsix, entries[1..])
  {
    hide IsDir, SafeName, IsSignatureFile;
    var rest := entries[1..];
    if IsUnreadable(vsix, entries) {
      var k :| 0 <= k < |entries| && !IsDir(entries[k].name) && !SafeName(entries[k].name)
               && forall j | 0 <= j < k :: !IsSignatureFile(vsix, entries[j].name);
      assert rest[k - 1] == entries[k];
    }
    if IsUnreadable(vsix, rest) {
      var k :| 0 <= k < |rest| && !IsDir(rest[k].name) && !SafeName(rest[k].name)
               && forall j | 0 <= j < k :: !IsSignatureFile(vsix, rest[j].name);
      forall j | 0 <= j < k + 1 ensures !IsSignatureFile(vsix, entries[j].name) {
        if j > 0 { assert rest[j - 1] == entries[j]; }
      }
      assert entries[k + 1] == rest[k];
    }
  }

  /** The run leaves the package as it is. */
  predicate WasSkipped(t: Tool, kind: Kind, node: Node) {
    t.skipSigned && node.Archive? && CarriesSignature(kind.Vsix?, node.entries)
  }

  /** Old signatures, which signing a package of this kind removes. */
  predicate IsDropped(kind: Kind, name: string) {
    (IsNuget(kind) && name == NUGET_SIGNATURE) || (kind.Vsix? && IsOpcSignature(name))
  }

  function Retained(kind: Kind, entries: seq<Entry>): seq<Entry> {
    if entries == [] then []
    else (if IsDropped(kind, entries[0].name) then [] else [entries[0]]) + Retained(kind, entries[1..])
  }

  /** Entries that belong to the package format, which writes them itself. */
  predicate IsOwnOf(kind: Kind, name: string) {
    || (kind.Vsix? && (name == CONTENT_TYPES || name == ROOT_RELS))
    || (IsMsixFamily(kind) && (name == APPX_MANIFEST || name == BlockMap.BUNDLE_MANIFEST || name == BlockMap.BLOCK_MAP))
  }

  predicate Same(e: Entry, o: Entry) {
    o.node == e.node && o.compression == e.compression
  }

  /** What becomes of entry `k` if it is such an entry: completed parts, new publishers, and a block map, of which
      `MapIsCurrent` says more. */
  predicate Rewrites(t: Tool, kind: Kind, publisher: Option<string>, kept: seq<Entry>, k: nat, o: Entry)
    requires k < |kept|
  {
    var e := kept[k];
    if kind.Vsix? then
      && o.compression == e.compression
      && (e.name == CONTENT_TYPES ==> t.patchTypes(Some(e.node)) == Ok(o.node))
      && (e.name == ROOT_RELS ==> t.patchRels(Some(e.node)) == Ok(o.node))
    else if e.name == APPX_MANIFEST && publisher.Some? then
      o.compression == e.compression && t.manifestPublisher(e.node, publisher.value) == Ok(o.node)
    else if e.name == BlockMap.BUNDLE_MANIFEST && publisher.Some? && !Contains(kept, APPX_MANIFEST)
            && !Contains(kept[..k], e.name) then
      var last := ByName(kept, e.name);
      last.Some? && t.bundlePublisher(last.value.node, publisher.value) == Ok(o.node)
    else (e.name == BlockMap.BLOCK_MAP && !Contains(kept[..k], e.name)) || Same(e, o)
  }

  /** What signing a package of this kind puts behind its entries. */
  predicate IsOwnNew(t: Tool, kind: Kind, o: Entry) {
    || (IsNuget(kind) && o.name == NUGET_SIGNATURE)
    || (kind.Vsix? && (o.name == VSIX_SIGNATURE
                       || (o.name == CONTENT_TYPES && t.patchTypes(None) == Ok(o.node))
                       || (o.name == ROOT_RELS && t.patchRels(None) == Ok(o.node))
                       || (o.name == ORIGIN && o.node == Blob([]))
                       || (o.name == ORIGIN_RELS && o.node == t.originRels)))
  }

  // ----- App Installer descriptors and their companions -----

  predicate Described(t: Tool, publisher: Option<string>, before: Node, after: Node) {
    if publisher.None? then after == before else t.appInstallerPublisher(before, publisher.value) == Ok(after)
  }

  /** The entry `c` is the companion signature over descriptor `x` as it is. */
  predicate SignsDescriptor(t: Tool, path: string, x: Entry, c: Entry) {
    && IsAppInstaller(t, path, x.name) && c.name == Companion(x.name)
    && c.node.Blob? && t.detached(path + "!" + x.name, x.node) == Ok(c.node.bytes)
  }

  predicate IsCompanion(t: Tool, path: string, out: seq<Entry>, c: Entry) {
    exists x <- out :: SignsDescriptor(t, path, x, c)
  }

  predicate HasCompanion(t: Tool, path: string, out: seq<Entry>, x: Entry) {
    exists c <- out :: SignsDescriptor(t, path, x, c)
  }

  // ----- the outcome of a run -----

  /** What became of a selected entry. A leaf is what its signer made of it. A package that was skipped as signed is as
      it was; any other is sealed over its final content, or holds a current block map, and its entries have their
      outcomes. */
  ghost predicate Sound(t: Tool, path: string, alg: VsixHash, publisher: Option<string>, kind: Kind, before: Node,
                        after: Node)
    decreases after, 1
  {
    if IsNuget(kind) then
      if WasSkipped(t, kind, before) then after == before
      else after.Archive? && NugetSealed(t, after.entries) && Inside(t, path, Sha256, None, kind, before, after)
    else if kind.Vsix? then
      if WasSkipped(t, kind, before) then after == before
      else after.Archive? && VsixSealed(t, alg, after.entries) && Inside(t, path, alg, None, kind, before, after)
    else if IsMsixFamily(kind) then
      after.Archive? && MapIsCurrent(t.format, after.entries) && Inside(t, path, alg, publisher, kind, before, after)
    else t.leaf(kind, alg, path, before) == Ok(after)
  }

  /** Behind the entries of the package, each in its place with its outcome, stands only what the run adds. */
  ghost predicate Inside(t: Tool, path: string, alg: VsixHash, publisher: Option<string>, kind: Kind, before: Node,
                         after: Node)
    decreases after, 0
  {
    && before.Archive? && after.Archive?
    && var kept, out := Retained(kind, before.entries), after.entries;
    && |kept| <= |out|
    && (forall k | 0 <= k < |kept| ::
          && out[k].name == kept[k].name
          && if IsOwnOf(kind, kept[k].name) then Rewrites(t, kind, publisher, kept, k, out[k])
             else Fate(t, path, alg, publisher, out, kept[k], out[k]))
    && (forall o <- out[|kept|..] :: IsOwnNew(t, kind, o) || IsCompanion(t, path, out, o))
  }

  /** A selected entry has a sound outcome, a descriptor its companion, and everything else is as it was, unless it is
      such a companion. */
  ghost predicate Fate(t: Tool, path: string, alg: VsixHash, publisher: Option<string>, out: seq<Entry>, e: Entry,
                       o: Entry)
    decreases o.node, 2
  {
    if IsSelected(t, path, e.name) then
      && o.compression == e.compression
      && Sound(t, path + "!" + e.name, alg, publisher, t.detect(e.name), e.node, o.node)
    else if IsAppInstaller(t, path, e.name) then
      && o.compression == e.compression
      && Described(t, publisher, e.node, o.node) && HasCompanion(t, path, out, o)
    else Same(e, o) || IsCompanion(t, path, out, o)
  }

  // ----- what the loop pushes -----

  lemma UpdateNames(t: Tool, path: string, alg: VsixHash, publisher: Option<string>, all: Node, k: nat)
    requires PlainNames(t) && all.Archive? && k < |all.entries| && UpdateAt(t, path, alg, publisher, all, k).Ok?
    ensures forall u <- UpdateAt(t, path, alg, publisher, all, k).value ::
              var name := all.entries[k].name;
              || (u.name == name && (IsSelected(t, path, name) || IsAppInstaller(t, path, name)))
              || (u.name == Companion(name) && IsAppInstaller(t, path, name))
    ensures IsSelected(t, path, all.entries[k].name)
            ==> |UpdateAt(t, path, alg, publisher, all, k).value| == 1
                && UpdateAt(t, path, alg, publisher, all, k).value[0].name == all.entries[k].name
                && UpdateAt(t, path, alg, publisher, all, k).value[0].compression == all.entries[k].compression
  {
    hide SignNuget, SignVsix, Prepare, SafeName, IsDir, Companion, Contains;
  }

  /** What signing makes of a selected entry, by format. */
  function SignedContent(t: Tool, path: string, alg: VsixHash, publisher: Option<string>, kind: Kind,
                         node: Node): Result<Node> {
    if IsNuget(kind) then SignNuget(t, path, node)
    else if kind.Vsix? then SignVsix(t, path, alg, node)
    else if IsMsixFamily(kind) then Prepare(t, path, alg, kind, publisher, node)
    else t.leaf(kind, alg, path, node)
  }

  lemma SelectedPushes(t: Tool, path: string, alg: VsixHash, publisher: Option<string>, all: Node, k: nat)
    requires all.Archive? && k < |all.entries| && UpdateAt(t, path, alg, publisher, all, k).Ok?
    requires IsSelected(t, path, all.entries[k].name)
    ensures var e := all.entries[k];
            var r := SignedContent(t, path + "!" + e.name, alg, publisher, t.detect(e.name), e.node);
            r.Ok? && UpdateAt(t, path, alg, publisher, all, k).value == [Update(e.name, r.value, e.compression)]
  {
    hide SignNuget, SignVsix, Prepare, SafeName, IsDir;
  }

  lemma ContentIsSound(t: Tool, path: string, alg: VsixHash, publisher: Option<string>, kind: Kind, node: Node)
    requires Lawful(t) && PlainNames(t) && SignedContent(t, path, alg, publisher, kind, node).Ok?
    ensures Sound(t, path, alg, publisher, kind, node, SignedContent(t, path, alg, publisher, kind, node).value)
    decreases node, 5
  {
    hide Inside, NugetSealed, VsixSealed, MapIsCurrent, Lawful, PlainNames, WasSkipped;
    if IsNuget(kind) {
      NugetIsSound(t, path, alg, publisher, kind, node);
    } else if kind.Vsix? {
      VsixIsSound(t, path, alg, publisher, node);
    } else if IsMsixFamily(kind) {
      PreparedIsSound(t, path, alg, publisher, kind, node);
    }
  }

  /** The one push of a selected entry is sound, given that its content is signed soundly. */
  lemma UpdateIsSound(t: Tool, path: string, alg: VsixHash, publisher: Option<string>, all: Node, k: nat)
    requires Lawful(t) && PlainNames(t) && all.Archive? && k < |all.entries|
    requires UpdateAt(t, path, alg, publisher, all, k).Ok? && IsSelected(t, path, all.entries[k].name)
    ensures |UpdateAt(t, path, alg, publisher, all, k).value| == 1
    ensures var e := all.entries[k];
            Sound(t, path + "!" + e.name, alg, publisher, t.detect(e.name), e.node,
                  UpdateAt(t, path, alg, publisher, all, k).value[0].node)
    decreases all, 1, 0
  {
    SelectedPushes(t, path, alg, publisher, all, k);
    hide UpdateAt, Sound, SignedContent, Lawful, PlainNames, IsSelected;
    var e := all.entries[k];
    ContentIsSound(t, path + "!" + e.name, alg, publisher, t.detect(e.name), e.node);
  }

  lemma {:induction false} PushedIsCollected(t: Tool, path: string, alg: VsixHash, publisher: Option<string>, all: Node,
                                             k: nat, j: nat)
    requires all.Archive? && k <= j < |all.entries| && UpdatesFrom(t, path, alg, publisher, all, k).Ok?
    ensures UpdateAt(t, path, alg, publisher, all, j).Ok?
    ensures forall u <- UpdateAt(t, path, alg, publisher, all, j).value ::
            u in UpdatesFrom(t, path, alg, publisher, all, k).value
    decreases |all.entries| - k
  {
    hide UpdateAt;
    if k < j { PushedIsCollected(t, path, alg, publisher, all, k + 1, j); }
  }

  /** And every update was pushed by some entry. */
  lemma {:induction false} CollectedWasPushed(t: Tool, path: string, alg: VsixHash, publisher: Option<string>,
                                              all: Node, k: nat, u: Update)
    returns (j: nat)
    requires all.Archive? && k <= |all.entries| && UpdatesFrom(t, path, alg, publisher, all, k).Ok?
    requires u in UpdatesFrom(t, path, alg, publisher, all, k).value
    ensures k <= j < |all.entries| && UpdateAt(t, path, alg, publisher, all, j).Ok?
    ensures u in UpdateAt(t, path, alg, publisher, all, j).value
    decreases |all.entries| - k
  {
    hide UpdateAt;
    if u in UpdateAt(t, path, alg, publisher, all, k).value {
      j := k;
    } else {
      j := CollectedWasPushed(t, path, alg, publisher, all, k + 1, u);
    }
  }

  lemma NameTwice(a: seq<Update>, b: seq<Update>, name: string)
    requires Pends(a, name) && Pends(b, name)
    ensures !NamesDiffer(a + b)
  {
    var i: nat :| i < |a| && a[i].name == name;
    var j: nat :| j < |b| && b[j].name == name;
    assert (a + b)[i].name == (a + b)[|a| + j].name;
  }

  lemma StillTwice(a: seq<Update>, b: seq<Update>)
    requires !NamesDiffer(b)
    ensures !NamesDiffer(a + b)
  {
    var i, j :| 0 <= i < j < |b| && b[i].name == b[j].name;
    assert (a + b)[|a| + i].name == (a + b)[|a| + j].name;
  }

  /** Two entries that push an update for one name. */
  lemma {:induction false} PushesCollide(t: Tool, path: string, alg: VsixHash, publisher: Option<string>, all: Node,
                                         k: nat, i: nat, j: nat, name: string)
    requires all.Archive? && k <= i < j < |all.entries| && UpdatesFrom(t, path, alg, publisher, all, k).Ok?
    requires UpdateAt(t, path, alg, publisher, all, i).Ok?
    requires Pends(UpdateAt(t, path, alg, publisher, all, i).value, name)
    requires UpdateAt(t, path, alg, publisher, all, j).Ok?
    requires Pends(UpdateAt(t, path, alg, publisher, all, j).value, name)
    ensures !NamesDiffer(UpdatesFrom(t, path, alg, publisher, all, k).value)
    decreases |all.entries| - k
  {
    hide UpdateAt, NamesDiffer;
    var us := UpdateAt(t, path, alg, publisher, all, k).value;
    var rest := UpdatesFrom(t, path, alg, publisher, all, k + 1).value;
    if k == i {
      PushedIsCollected(t, path, alg, publisher, all, k + 1, j);
      NameTwice(us, rest, name);
    } else {
      PushesCollide(t, path, alg, publisher, all, k + 1, i, j, name);
      StillTwice(us, rest);
    }
  }

  /** Entry `k` pushes `u` for itself, or a companion: no entry in front of it has its name. */
  lemma PusherIsFirst(t: Tool, path: string, alg: VsixHash, publisher: Option<string>, node: Node, k: nat,
                      updates: seq<Update>)
    requires PlainNames(t) && node.Archive? && k < |node.entries|
    requires UpdatesFrom(t, path, alg, publisher, node, 0) == Ok(updates)
    requires IsSelected(t, path, node.entries[k].name) || IsAppInstaller(t, path, node.entries[k].name)
    requires NamesDiffer(updates)
    ensures !Contains(node.entries[..k], node.entries[k].name)
  {
    hide NamesDiffer, UpdatesFrom, UpdateAt, PlainNames, IsSelected, IsAppInstaller, Contains;
    var name := node.entries[k].name;
    if Contains(node.entries[..k], name) {
      var i := FirstOf(node.entries[..k], name);
      var pushed := PushesName(t, path, alg, publisher, node, i);
      var again := PushesName(t, path, alg, publisher, node, k);
      PushesCollide(t, path, alg, publisher, node, 0, i, k, pushed);
    }
  }

  /** A name that every entry of this name pushes an update for. */
  lemma PushesName(t: Tool, path: string, alg: VsixHash, publisher: Option<string>, all: Node, k: nat)
    returns (pushed: string)
    requires PlainNames(t) && all.Archive? && k < |all.entries| && UpdatesFrom(t, path, alg, publisher, all, 0).Ok?
    requires IsSelected(t, path, all.entries[k].name) || IsAppInstaller(t, path, all.entries[k].name)
    ensures UpdateAt(t, path, alg, publisher, all, k).Ok?
    ensures Pends(UpdateAt(t, path, alg, publisher, all, k).value, pushed)
    ensures var name := all.entries[k].name; pushed == if IsSelected(t, path, name) then name else Companion(name)
  {
    PushedIsCollected(t, path, alg, publisher, all, 0, k);
    var name := all.entries[k].name;
    if IsSelected(t, path, name) {
      UpdateNames(t, path, alg, publisher, all, k);
      hide UpdateAt, UpdatesFrom, PlainNames, IsSelected;
      pushed := name;
      var us := UpdateAt(t, path, alg, publisher, all, k).value;
      assert us[0] in us;
    } else {
      var descriptor, p7 := AppInstallerPushes(t, path, alg, publisher, all, k);
      hide UpdateAt, UpdatesFrom, PlainNames, IsSelected, Companion;
      pushed := Companion(name);
      assert Update(pushed, Blob(p7), Stored) in UpdateAt(t, path, alg, publisher, all, k).value;
    }
  }

  /** What an App Installer entry pushes: its companion, made over the descriptor, and the descriptor if it changed. */
  lemma AppInstallerPushes(t: Tool, path: string, alg: VsixHash, publisher: Option<string>, all: Node, k: nat)
    returns (descriptor: Node, p7: Bytes)
    requires all.Archive? && k < |all.entries| && UpdateAt(t, path, alg, publisher, all, k).Ok?
    requires IsAppInstaller(t, path, all.entries[k].name)
    ensures t.detached(path + "!" + all.entries[k].name, descriptor) == Ok(p7)
    ensures Described(t, publisher, all.entries[k].node, descriptor)
    ensures var e := all.entries[k];
            UpdateAt(t, path, alg, publisher, all, k).value
            == (if publisher.Some? then [Update(e.name, descriptor, e.compression)] else [])
               + [Update(Companion(e.name), Blob(p7), Stored)]
  {
    hide SignNuget, SignVsix, Prepare, SafeName, IsDir, Companion, Contains;
    var e := all.entries[k];
    descriptor := if publisher.None? then e.node else t.appInstallerPublisher(e.node, publisher.value).value;
    p7 := t.detached(path + "!" + e.name, descriptor).value;
  }

  // ----- where the pushes land -----

  /** The archive as the loop leaves it: `updates` collected and repacked. */
  ghost predicate Repacked(t: Tool, path: string, alg: VsixHash, publisher: Option<string>, node: Node,
                           updates: seq<Update>, out: seq<Entry>)
  {
    && node.Archive?
    && UpdatesFrom(t, path, alg, publisher, node, 0) == Ok(updates)
    && Repack(node.entries, updates, t.now) == Ok(out)
  }

  /** The update that an entry pushes for itself is what stands in its place. */
  lemma PushLands(t: Tool, path: string, alg: VsixHash, publisher: Option<string>, node: Node, updates: seq<Update>,
                  out: seq<Entry>, k: nat, u: Update)
    requires PlainNames(t) && Repacked(t, path, alg, publisher, node, updates, out) && k < |node.entries|
    requires IsSelected(t, path, node.entries[k].name) || IsAppInstaller(t, path, node.entries[k].name)
    requires u in updates && u.name == node.entries[k].name
    ensures k < |out| && out[k] == Rewritten(u, t.now)
  {
    hide UpdatesFrom, Repack, PlainNames, IsSelected, IsAppInstaller, Find, Contains, NamesDiffer;
    RepackDoes(node.entries, updates, t.now);
    PusherIsFirst(t, path, alg, publisher, node, k, updates);
    assert out[k] == Outcome(node.entries, updates, t.now, k);
    FindIs(updates, u.name);
    OneOfAName(updates, u, Find(updates, u.name));
  }

  lemma SelectedLands(t: Tool, path: string, alg: VsixHash, publisher: Option<string>, node: Node, updates: seq<Update>,
                      out: seq<Entry>, k: nat)
    requires Lawful(t) && PlainNames(t) && Repacked(t, path, alg, publisher, node, updates, out) && k < |node.entries|
    requires IsSelected(t, path, node.entries[k].name)
    ensures k < |out| && out[k].name == node.entries[k].name
    ensures Fate(t, path, alg, publisher, out, node.entries[k], out[k])
    decreases node, 2, 0
  {
    PushedIsCollected(t, path, alg, publisher, node, 0, k);
    UpdateNames(t, path, alg, publisher, node, k);
    UpdateIsSound(t, path, alg, publisher, node, k);
    hide UpdatesFrom, UpdateAt, Repacked, PlainNames, Lawful, IsSelected, Sound;
    var us := UpdateAt(t, path, alg, publisher, node, k).value;
    assert us[0] in us && us[0] in updates;
    PushLands(t, path, alg, publisher, node, updates, out, k, us[0]);
  }

  /** Without a new publisher, nothing is pushed under an App Installer's own name. */
  lemma DescriptorUntouched(t: Tool, path: string, alg: VsixHash, all: Node, updates: seq<Update>, name: string)
    requires PlainNames(t) && all.Archive? && UpdatesFrom(t, path, alg, None, all, 0) == Ok(updates)
    requires IsAppInstaller(t, path, name)
    ensures !Pends(updates, name)
  {
    forall u <- updates ensures u.name != name {
      hide UpdateAt, UpdatesFrom;
      var j := CollectedWasPushed(t, path, alg, None, all, 0, u);
      UpdateNames(t, path, alg, None, all, j);
      var other := all.entries[j].name;
      assert t.detect(Companion(other)).Unknown?;
      if IsAppInstaller(t, path, other) {
        var _, p7 := AppInstallerPushes(t, path, alg, None, all, j);
        assert u.name == Companion(other);
      }
    }
  }

  /** The descriptor that stands in place of an App Installer entry, with the companion that it pushed. */
  lemma AppInstallerLands(t: Tool, path: string, alg: VsixHash, publisher: Option<string>, node: Node,
                          updates: seq<Update>, out: seq<Entry>, k: nat)
    requires PlainNames(t) && Repacked(t, path, alg, publisher, node, updates, out) && k < |node.entries|
    requires IsAppInstaller(t, path, node.entries[k].name)
    ensures k < |out| && out[k].name == node.entries[k].name && out[k].compression == node.entries[k].compression
    ensures Described(t, publisher, node.entries[k].node, out[k].node) && HasCompanion(t, path, out, out[k])
    ensures UpdateAt(t, path, alg, publisher, node, k).Ok?
    ensures forall u <- UpdateAt(t, path, alg, publisher, node, k).value ::
              u.name == Companion(node.entries[k].name) ==> SignsDescriptor(t, path, out[k], Rewritten(u, t.now))
  {
    PushedIsCollected(t, path, alg, publisher, node, 0, k);
    var descriptor, p7 := AppInstallerPushes(t, path, alg, publisher, node, k);
    var e := node.entries[k];
    if publisher.None? { DescriptorUntouched(t, path, alg, node, updates, e.name); }
    var us := UpdateAt(t, path, alg, publisher, node, k).value;
    var companion := Update(Companion(e.name), Blob(p7), Stored);
    assert companion in us;
    hide UpdateAt, UpdatesFrom, Repack, PlainNames, IsAppInstaller, Find, Contains;
    RepackDoes(node.entries, updates, t.now);
    UpdatesLand(node.entries, updates, t.now);
    if publisher.Some? {
      var u := Update(e.name, descriptor, e.compression);
      assert u in us;
      PushLands(t, path, alg, publisher, node, updates, out, k, u);
    } else {
      assert out[k] == Outcome(node.entries, updates, t.now, k);
    }
    assert SignsDescriptor(t, path, out[k], Rewritten(companion, t.now));
  }

  /** An update whose name is no selected entry's and no descriptor's is a companion. */
  lemma OtherUpdateIsCompanion(t: Tool, path: string, alg: VsixHash, publisher: Option<string>, node: Node,
                               updates: seq<Update>, out: seq<Entry>, u: Update)
    requires PlainNames(t) && Repacked(t, path, alg, publisher, node, updates, out) && u in updates
    requires Contains(node.entries, u.name) ==> !IsSelected(t, path, u.name) && !IsAppInstaller(t, path, u.name)
    ensures IsCompanion(t, path, out, Rewritten(u, t.now))
  {
    var j := CollectedWasPushed(t, path, alg, publisher, node, 0, u);
    UpdateNames(t, path, alg, publisher, node, j);
    assert node.entries[j] in node.entries;
    hide UpdateAt, UpdatesFrom, Repacked, PlainNames, IsSelected, IsAppInstaller, SignsDescriptor;
    AppInstallerLands(t, path, alg, publisher, node, updates, out, j);
  }

  lemma {:induction false} RetainedAll(kind: Kind, entries: seq<Entry>)
    requires forall e <- entries :: !IsDropped(kind, e.name)
    ensures Retained(kind, entries) == entries
  {
    hide IsDropped;
    if entries != [] {
      assert entries[0] in entries;
      forall e <- entries[1..] ensures e in entries {}
      RetainedAll(kind, entries[1..]);
    }
  }

  /** Signing the entries of a plain ZIP container gives each entry its outcome in its place. */
  lemma NestedIsInside(t: Tool, path: string, alg: VsixHash, publisher: Option<string>, node: Node)
    requires Lawful(t) && PlainNames(t) && SignNested(t, path, alg, publisher, node).Ok?
    ensures Inside(t, path, alg, publisher, ZipFile, node, Archive(SignNested(t, path, alg, publisher, node).value))
    decreases node, 3, 0
  {
    hide UpdatesFrom, Fate, Repack, Lawful, PlainNames, IsCompanion, Retained, Rewrites, IsOwnNew;
    var out, es := SignNested(t, path, alg, publisher, node).value, node.entries;
    RetainedAll(ZipFile, es);
    AddedAreCompanions(t, path, alg, publisher, node);
    forall k | 0 <= k < |es|
      ensures out[k].name == es[k].name && Fate(t, path, alg, publisher, out, es[k], out[k])
    {
      EntryLands(t, path, alg, publisher, node, k);
    }
  }

  lemma AddedAreCompanions(t: Tool, path: string, alg: VsixHash, publisher: Option<string>, node: Node)
    requires PlainNames(t) && SignNested(t, path, alg, publisher, node).Ok?
    ensures var out := SignNested(t, path, alg, publisher, node).value;
            |out| >= |node.entries| && forall o <- out[|node.entries|..] :: IsCompanion(t, path, out, o)
  {
    hide UpdatesFrom, Repack, PlainNames, IsCompanion, IsSelected, IsAppInstaller, Contains;
    var out, es := SignNested(t, path, alg, publisher, node).value, node.entries;
    var updates := UpdatesFrom(t, path, alg, publisher, node, 0).value;
    if updates != [] {
      RepackDoes(es, updates, t.now);
      forall o <- out[|es|..] ensures IsCompanion(t, path, out, o) {
        var u :| u in updates && o == Rewritten(u, t.now) && !Contains(es, u.name);
        OtherUpdateIsCompanion(t, path, alg, publisher, node, updates, out, u);
      }
    }
  }

  lemma EntryLands(t: Tool, path: string, alg: VsixHash, publisher: Option<string>, node: Node, k: nat)
    requires Lawful(t) && PlainNames(t) && SignNested(t, path, alg, publisher, node).Ok? && k < |node.entries|
    ensures var out := SignNested(t, path, alg, publisher, node).value;
            k < |out| && out[k].name == node.entries[k].name
                && Fate(t, path, alg, publisher, out, node.entries[k], out[k])
    decreases node, 2, 1
  {
    var out, e := SignNested(t, path, alg, publisher, node).value, node.entries[k];
    var updates := UpdatesFrom(t, path, alg, publisher, node, 0).value;
    assert e in node.entries;
    if IsSelected(t, path, e.name) || IsAppInstaller(t, path, e.name) {
      var pushed := PushesName(t, path, alg, publisher, node, k);
      PushedIsCollected(t, path, alg, publisher, node, 0, k);
    }
    hide UpdatesFrom, UpdateAt, Repack, Lawful, PlainNames, Sound, Find, Contains;
    if updates != [] {
      if IsSelected(t, path, e.name) {
        SelectedLands(t, path, alg, publisher, node, updates, out, k);
      } else if IsAppInstaller(t, path, e.name) {
        AppInstallerLands(t, path, alg, publisher, node, updates, out, k);
      } else {
        RepackDoes(node.entries, updates, t.now);
        assert out[k] == Outcome(node.entries, updates, t.now, k);
        if out[k] != e {
          FindIs(updates, e.name);
          OtherUpdateIsCompanion(t, path, alg, publisher, node, updates, out, Find(updates, e.name));
        }
      }
    }
  }

  // ----- what the package formats add to that -----

  /** The signed package against the one whose entries are signed: old signatures are gone, the format's own entries are
      rewritten, everything else is in its place as it was, and what is new stands behind. */
  predicate Rebuilt(t: Tool, kind: Kind, publisher: Option<string>, updated: seq<Entry>, final: seq<Entry>) {
    var kept := Retained(kind, updated);
    && |kept| <= |final|
    && (forall k | 0 <= k < |kept| ::
          && final[k].name == kept[k].name
          && if IsOwnOf(kind, kept[k].name) then Rewrites(t, kind, publisher, kept, k, final[k])
             else Same(kept[k], final[k]))
    && (forall o <- final[|kept|..] :: IsOwnNew(t, kind, o))
  }

  lemma {:induction false} RetainedAppend(kind: Kind, a: seq<Entry>, b: seq<Entry>)
    ensures Retained(kind, a + b) == Retained(kind, a) + Retained(kind, b)
  {
    hide IsDropped;
    if a == [] {
      assert a + b == b;
    } else {
      assert (a + b)[1..] == a[1..] + b;
      RetainedAppend(kind, a[1..], b);
    }
  }

  lemma {:induction false} RetainedAre(kind: Kind, entries: seq<Entry>)
    ensures forall e :: e in Retained(kind, entries) <==> e in entries && !IsDropped(kind, e.name)
  {
    hide IsDropped;
    if entries != [] {
      RetainedAre(kind, entries[1..]);
      assert entries[0] in entries;
      forall e <- entries ensures e == entries[0] || e in entries[1..] {}
    }
  }

  ghost predicate SameNamesAs(a: seq<Entry>, b: seq<Entry>) {
    |a| == |b| && forall k | 0 <= k < |a| :: a[k].name == b[k].name
  }

  lemma {:induction false} RetainedAlike(kind: Kind, a: seq<Entry>, b: seq<Entry>)
    requires SameNamesAs(a, b)
    ensures SameNamesAs(Retained(kind, a), Retained(kind, b))
  {
    hide IsDropped;
    if a != [] { RetainedAlike(kind, a[1..], b[1..]); }
  }

  lemma RetainedStep(kind: Kind, entries: seq<Entry>)
    requires entries != []
    ensures var rest := Retained(kind, entries[1..]);
            Retained(kind, entries) == if IsDropped(kind, entries[0].name) then rest else [entries[0]] + rest
  {
    hide IsDropped;
  }

  /** Retained entries of two archives with the same names stand at the same positions. */
  lemma {:induction false} RetainedFrom(kind: Kind, a: seq<Entry>, b: seq<Entry>, k: nat) returns (j: nat)
    requires SameNamesAs(a, b) && k < |Retained(kind, a)| && k < |Retained(kind, b)|
    ensures j < |a| && Retained(kind, a)[k] == a[j] && Retained(kind, b)[k] == b[j] && !IsDropped(kind, a[j].name)
    decreases |a|
  {
    NothingRetained(kind);
    hide Retained, IsDropped;
    RetainedStep(kind, a);
    RetainedStep(kind, b);
    if !IsDropped(kind, a[0].name) && k == 0 { return 0; }
    var i := RetainedFrom(kind, a[1..], b[1..], if IsDropped(kind, a[0].name) then k else k - 1);
    j := i + 1;
  }

  lemma NothingRetained(kind: Kind)
    ensures Retained(kind, []) == []
  {
  }

  // ----- companions stay companions -----

  predicate EndsIn(name: string, c: char) {
    name != "" && name[|name| - 1] == c
  }

  lemma OwnNamesEnd(name: string)
    requires IsOwn(name)
    ensures !EndsIn(name, '7')
  {
    OwnPartsEnd();
    OwnFilesEnd();
    hide NUGET_SIGNATURE, CONTENT_TYPES, ROOT_RELS, ORIGIN, ORIGIN_RELS, VSIX_SIGNATURE, APPX_MANIFEST;
    hide BlockMap.BUNDLE_MANIFEST, BlockMap.BLOCK_MAP;
  }

  lemma OwnFilesEnd()
    ensures EndsIn(NUGET_SIGNATURE, 's') && EndsIn(ROOT_RELS, 's') && EndsIn(CONTENT_TYPES, 'l')
    ensures EndsIn(APPX_MANIFEST, 'l') && EndsIn(BlockMap.BUNDLE_MANIFEST, 'l') && EndsIn(BlockMap.BLOCK_MAP, 'l')
  {
  }

  lemma OwnPartsEnd()
    ensures EndsIn(ORIGIN, 'r') && EndsIn(ORIGIN_RELS, 's') && EndsIn(VSIX_SIGNATURE, 's') && EndsIn(SIGNATURES, '/')
  {
    EndOfSum("package/services/digital-signature/", "origin.psdsor");
    EndOfSum("package/services/digital-signature/", "_rels/origin.psdsor.rels");
    EndOfSum("package/services/digital-signature/", "xml-signature/");
    EndOfSum(SIGNATURES, "psign-signature.psdsxs");
  }

  lemma EndOfSum(a: string, b: string)
    requires b != ""
    ensures EndsIn(a + b, b[|b| - 1])
  {
  }

  lemma CompanionIsNotOwn(name: string)
    ensures !IsOwn(Companion(name))
  {
    hide IsOwn;
    EndOfSum(name, ".p7");
    if IsOwn(Companion(name)) { OwnNamesEnd(Companion(name)); }
  }

  lemma SignaturesPrefix(name: string)
    ensures SIGNATURES <= Companion(name) <==> SIGNATURES <= name
  {
    OwnPartsEnd();
    hide SIGNATURES;
    var c := Companion(name);
    assert c[..|name|] == name;
    assert |name| < |SIGNATURES| <= |c| ==> c[|SIGNATURES| - 1] == ".p7"[|SIGNATURES| - 1 - |name|];
  }

  lemma OwnOfIsOwn(kind: Kind, name: string)
    ensures IsOwnOf(kind, name) ==> IsOwn(name)
  {
    hide CONTENT_TYPES, ROOT_RELS, APPX_MANIFEST, BlockMap.BUNDLE_MANIFEST, BlockMap.BLOCK_MAP;
  }

  lemma SignatureNamesAreOwn()
    ensures IsOwn(NUGET_SIGNATURE) && IsOwn(ORIGIN) && IsOwn(ORIGIN_RELS) && IsOwn(VSIX_SIGNATURE)
  {
    hide NUGET_SIGNATURE, ORIGIN, ORIGIN_RELS, VSIX_SIGNATURE;
  }

  lemma CompanionNames(t: Tool, kind: Kind, name: string)
    requires PlainNames(t) && t.detect(name).AppInstaller?
    ensures !IsOwnOf(kind, name) && !IsOwnOf(kind, Companion(name))
    ensures IsDropped(kind, Companion(name)) <==> IsDropped(kind, name)
  {
    hide IsOwn, Companion, NUGET_SIGNATURE, ORIGIN, ORIGIN_RELS, SIGNATURES, IsOwnOf;
    assert IsOwn(name) ==> t.detect(name).Unknown?;
    CompanionIsNotOwn(name);
    OwnOfIsOwn(kind, name);
    OwnOfIsOwn(kind, Companion(name));
    SignatureNamesAreOwn();
    SignaturesPrefix(name);
  }

  /** What is neither dropped nor rewritten is there as it was. */
  lemma StaysThere(t: Tool, kind: Kind, publisher: Option<string>, updated: seq<Entry>, final: seq<Entry>, e: Entry)
    returns (o: Entry)
    requires Rebuilt(t, kind, publisher, updated, final)
    requires e in updated && !IsDropped(kind, e.name) && !IsOwnOf(kind, e.name)
    ensures o in final && o.name == e.name && Same(e, o)
  {
    hide IsDropped, IsOwnOf, Rewrites, IsOwnNew;
    RetainedAre(kind, updated);
    var kept := Retained(kind, updated);
    var k :| 0 <= k < |kept| && kept[k] == e;
    o := final[k];
  }

  lemma CompanionStays(t: Tool, path: string, kind: Kind, publisher: Option<string>, updated: seq<Entry>,
                       final: seq<Entry>, c: Entry, o: Entry)
    requires PlainNames(t) && Rebuilt(t, kind, publisher, updated, final)
    requires IsCompanion(t, path, updated, c) && !IsDropped(kind, c.name) && o.name == c.name && o.node == c.node
    ensures !IsOwnOf(kind, c.name) && IsCompanion(t, path, final, o)
  {
    hide PlainNames, IsDropped, IsOwnOf, Rebuilt, Companion;
    var x :| x in updated && SignsDescriptor(t, path, x, c);
    CompanionNames(t, kind, x.name);
    var y := StaysThere(t, kind, publisher, updated, final, x);
    assert SignsDescriptor(t, path, y, o);
  }

  lemma CompanionIsKept(t: Tool, path: string, kind: Kind, publisher: Option<string>, updated: seq<Entry>,
                        final: seq<Entry>, x: Entry, y: Entry)
    requires PlainNames(t) && Rebuilt(t, kind, publisher, updated, final)
    requires HasCompanion(t, path, updated, x) && !IsDropped(kind, x.name) && y.name == x.name && y.node == x.node
    ensures HasCompanion(t, path, final, y)
  {
    hide PlainNames, IsDropped, IsOwnOf, Rebuilt, Companion;
    var c :| c in updated && SignsDescriptor(t, path, x, c);
    CompanionNames(t, kind, x.name);
    var o := StaysThere(t, kind, publisher, updated, final, c);
    assert SignsDescriptor(t, path, y, o);
  }

  lemma FateStays(t: Tool, path: string, alg: VsixHash, kind: Kind, publisher: Option<string>, nested: Option<string>,
                  updated: seq<Entry>, final: seq<Entry>, e: Entry, u: Entry, o: Entry)
    requires PlainNames(t) && Rebuilt(t, kind, publisher, updated, final)
    requires Fate(t, path, alg, nested, updated, e, u) && u.name == e.name && !IsDropped(kind, e.name)
    requires o.name == u.name && Same(u, o)
    ensures Fate(t, path, alg, nested, final, e, o)
  {
    hide PlainNames, IsDropped, IsOwnOf, Rebuilt, Companion, Sound, IsSelected, IsAppInstaller, IsCompanion;
    hide HasCompanion;
    if !IsSelected(t, path, e.name) {
      if IsAppInstaller(t, path, e.name) {
        CompanionIsKept(t, path, kind, publisher, updated, final, u, o);
      } else if IsCompanion(t, path, updated, u) {
        CompanionStays(t, path, kind, publisher, updated, final, u, o);
      }
    }
  }

  // ----- own entries -----

  /** The format's own entries are no companions and nothing the loop signs. */
  lemma OwnFate(t: Tool, path: string, alg: VsixHash, publisher: Option<string>, kind: Kind, out: seq<Entry>, e: Entry,
                u: Entry)
    requires PlainNames(t) && IsOwnOf(kind, e.name) && u.name == e.name && Fate(t, path, alg, publisher, out, e, u)
    ensures Same(e, u)
  {
    hide IsOwn, Companion, IsOwnOf, Sound;
    OwnOfIsOwn(kind, e.name);
    assert t.detect(e.name).Unknown?;
    if x :| x in out && SignsDescriptor(t, path, x, u) {
      CompanionIsNotOwn(x.name);
    }
  }

  lemma {:induction false} ByNameAppend(a: seq<Entry>, b: seq<Entry>, name: string)
    requires !Contains(b, name)
    ensures ByName(a + b, name) == ByName(a, name)
    decreases |b|
  {
    if b == [] {
      assert a + b == a;
    } else {
      assert b[|b| - 1] in b;
      forall e <- b[..|b| - 1] ensures e in b {}
      assert (a + b)[..|a + b| - 1] == a + b[..|b| - 1];
      ByNameAppend(a, b[..|b| - 1], name);
    }
  }

  lemma {:induction false} ByNameAlike(a: seq<Entry>, b: seq<Entry>, name: string)
    requires SameNamesAs(a, b) && forall k | 0 <= k < |a| && a[k].name == name :: a[k].node == b[k].node
    ensures ByName(a, name).Some? <==> ByName(b, name).Some?
    ensures ByName(a, name).Some? ==> ByName(a, name).value.node == ByName(b, name).value.node
  {
    if a != [] && a[|a| - 1].name != name { ByNameAlike(a[..|a| - 1], b[..|b| - 1], name); }
  }

  lemma ContainsAppend(a: seq<Entry>, b: seq<Entry>, name: string)
    requires !Contains(b, name)
    ensures Contains(a + b, name) <==> Contains(a, name)
  {
    forall e | e in a ensures e in a + b {}
    forall e | e in a + b ensures e in a || e in b {}
  }

  /** What an own entry becomes depends on own entries only. */
  lemma RewritesAlike(t: Tool, kind: Kind, publisher: Option<string>, kept: seq<Entry>, front: seq<Entry>,
                      added: seq<Entry>, k: nat, o: Entry)
    requires k < |kept| && SameNamesAs(kept, front) && IsOwnOf(kind, kept[k].name)
    requires forall i | 0 <= i < |kept| && IsOwnOf(kind, kept[i].name) :: Same(kept[i], front[i])
    requires forall e <- added :: !IsOwnOf(kind, e.name)
    requires Rewrites(t, kind, publisher, front + added, k, o)
    ensures Rewrites(t, kind, publisher, kept, k, o)
  {
    var name := kept[k].name;
    assert (front + added)[k] == front[k] && (front + added)[..k] == front[..k];
    if IsMsixFamily(kind) {
      OwnNamesOf(kind);
      hide APPX_MANIFEST, BlockMap.BUNDLE_MANIFEST, BlockMap.BLOCK_MAP, IsOwnOf, Contains, ByName, CONTENT_TYPES;
      hide ROOT_RELS;
      assert SameNamesAs(kept[..k], front[..k]);
      BlockMap.SameNames(kept[..k], front[..k], name);
      BlockMap.SameNames(kept, front, APPX_MANIFEST);
      NotAdded(kind, added, APPX_MANIFEST);
      NotAdded(kind, added, name);
      ContainsAppend(front, added, APPX_MANIFEST);
      ByNameAppend(front, added, name);
      ByNameAlike(kept, front, name);
    }
  }

  lemma NotAdded(kind: Kind, added: seq<Entry>, name: string)
    requires IsOwnOf(kind, name) && forall e <- added :: !IsOwnOf(kind, e.name)
    ensures !Contains(added, name)
  {
    hide IsOwnOf;
  }

  lemma OwnNamesOf(kind: Kind)
    requires IsMsixFamily(kind)
    ensures IsOwnOf(kind, APPX_MANIFEST)
    ensures APPX_MANIFEST != BlockMap.BUNDLE_MANIFEST && BlockMap.BLOCK_MAP != BlockMap.BUNDLE_MANIFEST
    ensures APPX_MANIFEST != BlockMap.BLOCK_MAP
  {
  }

  /** Each entry has its outcome in its place, and only companions stand behind. */
  ghost predicate Landed(t: Tool, path: string, alg: VsixHash, publisher: Option<string>, es: seq<Entry>,
                         out: seq<Entry>) {
    && |es| <= |out|
    && (forall k | 0 <= k < |es| :: out[k].name == es[k].name && Fate(t, path, alg, publisher, out, es[k], out[k]))
    && (forall o <- out[|es|..] :: IsCompanion(t, path, out, o))
  }

  lemma InsideIsLanded(t: Tool, path: string, alg: VsixHash, publisher: Option<string>, before: Node, out: seq<Entry>)
    requires Inside(t, path, alg, publisher, ZipFile, before, Archive(out))
    ensures before.Archive? && Landed(t, path, alg, publisher, before.entries, out)
  {
    RetainedAll(ZipFile, before.entries);
    hide Retained, Fate, IsCompanion, Rewrites;
  }

  lemma FinalAt(t: Tool, path: string, alg: VsixHash, kind: Kind, publisher: Option<string>, es: seq<Entry>,
                updated: seq<Entry>, final: seq<Entry>, k: nat)
    requires PlainNames(t) && Landed(t, path, alg, publisher, es, updated)
    requires Rebuilt(t, kind, publisher, updated, final)
    requires k < |Retained(kind, es)|
    ensures k < |final|
    ensures var e, o := Retained(kind, es)[k], final[k];
            && o.name == e.name
            && if IsOwnOf(kind, e.name) then Rewrites(t, kind, publisher, Retained(kind, es), k, o)
               else Fate(t, path, alg, publisher, final, e, o)
  {
    var front, added := updated[..|es|], updated[|es|..];
    assert updated == front + added;
    RetainedAppend(kind, front, added);
    hide Retained, IsDropped, IsOwnOf, Rewrites, IsOwnNew, PlainNames, Fate, IsCompanion;
    RetainedAlike(kind, es, front);
    var kept, now := Retained(kind, es), Retained(kind, updated);
    var j := RetainedFrom(kind, es, front, k);
    assert now[k] == updated[j];
    if IsOwnOf(kind, kept[k].name) {
      OwnPartsAlike(t, path, alg, kind, publisher, es, updated);
      RewritesAlike(t, kind, publisher, kept, Retained(kind, front), Retained(kind, added), k, final[k]);
    } else {
      FateStays(t, path, alg, kind, publisher, publisher, updated, final, es[j], updated[j], final[k]);
    }
  }

  lemma OwnPartsAlike(t: Tool, path: string, alg: VsixHash, kind: Kind, publisher: Option<string>, es: seq<Entry>,
                      updated: seq<Entry>)
    requires PlainNames(t) && Landed(t, path, alg, publisher, es, updated)
    ensures var kept, front := Retained(kind, es), Retained(kind, updated[..|es|]);
            && SameNamesAs(kept, front)
            && forall i | 0 <= i < |kept| && IsOwnOf(kind, kept[i].name) :: Same(kept[i], front[i])
    ensures forall e <- Retained(kind, updated[|es|..]) :: !IsOwnOf(kind, e.name)
  {
    hide Retained, IsDropped, IsOwnOf, PlainNames, Fate, Same;
    var kept, front := Retained(kind, es), Retained(kind, updated[..|es|]);
    RetainedAlike(kind, es, updated[..|es|]);
    forall i | 0 <= i < |kept| && IsOwnOf(kind, kept[i].name) ensures Same(kept[i], front[i]) {
      var j := RetainedFrom(kind, es, updated[..|es|], i);
      OwnFate(t, path, alg, publisher, kind, updated, es[j], updated[j]);
    }
    RetainedAre(kind, updated[|es|..]);
    forall e <- Retained(kind, updated[|es|..]) ensures !IsOwnOf(kind, e.name) {
      var x :| x in updated && SignsDescriptor(t, path, x, e);
      CompanionNames(t, kind, x.name);
    }
  }

  lemma NewInFinal(t: Tool, path: string, alg: VsixHash, kind: Kind, publisher: Option<string>, es: seq<Entry>,
                   updated: seq<Entry>, final: seq<Entry>, o: Entry)
    requires PlainNames(t) && Landed(t, path, alg, publisher, es, updated)
    requires Rebuilt(t, kind, publisher, updated, final)
    requires |Retained(kind, es)| <= |final| && o in final[|Retained(kind, es)|..]
    ensures IsOwnNew(t, kind, o) || IsCompanion(t, path, final, o)
  {
    hide Retained, IsOwnOf, Rewrites, IsOwnNew, PlainNames, Landed, IsCompanion, Same;
    var n, now := |Retained(kind, es)|, |Retained(kind, updated)|;
    var i :| 0 <= i < |final| - n && final[n..][i] == o;
    assert o == final[n + i];
    if n + i < now {
      AddedKept(t, path, alg, kind, publisher, es, updated, n + i);
      KeptCompanion(t, path, kind, publisher, updated, final, n + i);
    } else {
      assert final[now..][n + i - now] == o;
    }
  }

  lemma AddedKept(t: Tool, path: string, alg: VsixHash, kind: Kind, publisher: Option<string>, es: seq<Entry>,
                  updated: seq<Entry>, k: nat)
    requires Landed(t, path, alg, publisher, es, updated) && |Retained(kind, es)| <= k < |Retained(kind, updated)|
    ensures IsCompanion(t, path, updated, Retained(kind, updated)[k])
  {
    var front, added := updated[..|es|], updated[|es|..];
    assert updated == front + added;
    RetainedAppend(kind, front, added);
    hide Retained, IsDropped, Fate, IsCompanion;
    RetainedAlike(kind, es, front);
    RetainedAre(kind, added);
    assert Retained(kind, updated)[k] == Retained(kind, added)[k - |Retained(kind, es)|];
  }

  lemma KeptCompanion(t: Tool, path: string, kind: Kind, publisher: Option<string>, updated: seq<Entry>,
                      final: seq<Entry>, k: nat)
    requires PlainNames(t) && Rebuilt(t, kind, publisher, updated, final) && k < |Retained(kind, updated)|
    requires IsCompanion(t, path, updated, Retained(kind, updated)[k])
    ensures IsCompanion(t, path, final, final[k])
  {
    hide Retained, IsDropped, IsOwnOf, Rewrites, IsOwnNew, PlainNames, SignsDescriptor;
    RetainedAre(kind, updated);
    var c := Retained(kind, updated)[k];
    assert c in Retained(kind, updated);
    var x :| x in updated && SignsDescriptor(t, path, x, c);
    CompanionIsOrdinary(t, path, kind, x, c);
    CompanionStays(t, path, kind, publisher, updated, final, c, final[k]);
  }

  lemma CompanionIsOrdinary(t: Tool, path: string, kind: Kind, x: Entry, c: Entry)
    requires PlainNames(t) && SignsDescriptor(t, path, x, c)
    ensures !IsOwnOf(kind, c.name)
  {
    hide PlainNames, IsDropped, IsOwnOf, Companion;
    CompanionNames(t, kind, x.name);
  }

  /** Signing or preparing the package around its signed entries disturbs none of them. */
  lemma InsideOn(t: Tool, path: string, alg: VsixHash, kind: Kind, publisher: Option<string>, before: Node,
                 updated: seq<Entry>, final: seq<Entry>)
    requires PlainNames(t) && Inside(t, path, alg, publisher, ZipFile, before, Archive(updated))
    requires Rebuilt(t, kind, publisher, updated, final)
    ensures Inside(t, path, alg, publisher, kind, before, Archive(final))
  {
    InsideIsLanded(t, path, alg, publisher, before, updated);
    var es := before.entries;
    assert updated == updated[..|es|] + updated[|es|..];
    RetainedAppend(kind, updated[..|es|], updated[|es|..]);
    RetainedAlike(kind, es, updated[..|es|]);
    hide Retained, IsOwnOf, Rewrites, IsOwnNew, PlainNames, Fate, IsCompanion, Landed;
    var kept := Retained(kind, es);
    forall k | 0 <= k < |kept|
      ensures final[k].name == kept[k].name
      ensures if IsOwnOf(kind, kept[k].name) then Rewrites(t, kind, publisher, kept, k, final[k])
              else Fate(t, path, alg, publisher, final, kept[k], final[k])
    {
      FinalAt(t, path, alg, kind, publisher, es, updated, final, k);
    }
    forall o <- final[|kept|..] ensures IsOwnNew(t, kind, o) || IsCompanion(t, path, final, o) {
      NewInFinal(t, path, alg, kind, publisher, es, updated, final, o);
    }
  }

  // ----- NuGet packages -----

  lemma {:induction false} WithoutNameKeeps(entries: seq<Entry>, name: string)
    ensures forall e :: e in WithoutName(entries, name) <==> e in entries && e.name != name
  {
    if entries != [] {
      WithoutNameKeeps(entries[1..], name);
      assert entries[0] in entries;
      forall e <- entries ensures e == entries[0] || e in entries[1..] {}
    }
  }

  lemma {:induction false} WithoutAbsentName(entries: seq<Entry>, name: string)
    requires !Contains(entries, name)
    ensures WithoutName(entries, name) == entries
  {
    if entries != [] {
      assert entries[0] in entries;
      forall e <- entries[1..] ensures e in entries {}
      WithoutAbsentName(entries[1..], name);
    }
  }

  lemma {:induction false} WithoutLast(entries: seq<Entry>, last: Entry)
    requires !Contains(entries, last.name)
    ensures WithoutName(entries + [last], last.name) == entries && ByName(entries + [last], last.name) == Some(last)
  {
    WithoutAppend(entries, [last], last.name);
    WithoutAbsentName(entries, last.name);
    assert WithoutName([last], last.name) == [] by { assert [last][1..] == []; }
    assert entries + [] == entries;
  }

  lemma {:induction false} WithoutAppend(a: seq<Entry>, b: seq<Entry>, name: string)
    ensures WithoutName(a + b, name) == WithoutName(a, name) + WithoutName(b, name)
  {
    if a == [] {
      assert a + b == b;
    } else {
      assert (a + b)[1..] == a[1..] + b;
      WithoutAppend(a[1..], b, name);
    }
  }

  lemma EmbeddedIsSealed(t: Tool, path: string, updated: seq<Entry>, unsigned: seq<Entry>, signature: Bytes)
    requires Lawful(t) && NugetUnsigned(updated) == Ok(unsigned)
    requires t.signData(path, t.nugetContent(unsigned)) == Ok(signature) && EmbedNuget(unsigned, signature, t.now).Ok?
    ensures NugetSealed(t, EmbedNuget(unsigned, signature, t.now).value)
  {
    hide SafeNames, WithoutName, ByName, NUGET_SIGNATURE;
    WithoutNameKeeps(updated, NUGET_SIGNATURE);
    WithoutLast(unsigned, Entry(NUGET_SIGNATURE, Blob(signature), Stored, t.now));
  }

  lemma {:induction false} RetainedNuget(kind: Kind, entries: seq<Entry>)
    requires IsNuget(kind)
    ensures Retained(kind, entries) == WithoutName(entries, NUGET_SIGNATURE)
  {
    hide NUGET_SIGNATURE, IsOpcSignature;
    if entries != [] { RetainedNuget(kind, entries[1..]); }
  }

  lemma EmbeddedIsRebuilt(t: Tool, kind: Kind, updated: seq<Entry>, unsigned: seq<Entry>, signature: Bytes)
    requires IsNuget(kind) && NugetUnsigned(updated) == Ok(unsigned) && EmbedNuget(unsigned, signature, t.now).Ok?
    ensures Rebuilt(t, kind, None, updated, EmbedNuget(unsigned, signature, t.now).value)
  {
    hide NUGET_SIGNATURE, SafeNames, Contains, WithoutName, Retained;
    RetainedNuget(kind, updated);
    var final := EmbedNuget(unsigned, signature, t.now).value;
    assert forall o <- final[|unsigned|..] :: o.name == NUGET_SIGNATURE;
  }

  /** A package that is to be skipped as signed comes back as it is. */
  lemma NugetSkips(t: Tool, path: string, node: Node)
    requires SignNuget(t, path, node).Ok? || WasSkipped(t, Nuget, node)
    ensures node.Archive? && (WasSkipped(t, Nuget, node) ==> SignNuget(t, path, node) == Ok(node))
    ensures WasSkipped(t, Nuget, node) <==> t.skipSigned && HasSignature(false, node.entries) == Ok(true)
  {
    if node.Archive? { SignatureDecision(false, node.entries); }
    hide SignNested, HasSignature, NugetUnsigned, EmbedNuget, CarriesSignature, IsUnreadable, Contains;
  }

  lemma VsixSkips(t: Tool, path: string, alg: VsixHash, node: Node)
    requires SignVsix(t, path, alg, node).Ok? || WasSkipped(t, Vsix, node)
    ensures node.Archive? && (WasSkipped(t, Vsix, node) ==> SignVsix(t, path, alg, node) == Ok(node))
    ensures WasSkipped(t, Vsix, node) <==> t.skipSigned && HasSignature(true, node.entries) == Ok(true)
  {
    if node.Archive? { SignatureDecision(true, node.entries); }
    hide SignNested, HasSignature, VsixPrepared, EmbedVsix, CarriesSignature, IsUnreadable;
  }

  /** Inside-out signing, NuGet: the package is sealed over its final content, and so on inside. */
  lemma NugetIsSound(t: Tool, path: string, alg: VsixHash, publisher: Option<string>, kind: Kind, node: Node)
    requires Lawful(t) && PlainNames(t) && SignNuget(t, path, node).Ok? && IsNuget(kind)
    ensures Sound(t, path, alg, publisher, kind, node, SignNuget(t, path, node).value)
    decreases node, 4, 0
  {
    NugetSkips(t, path, node);
    hide SignNested, Inside, NugetSealed, Lawful, PlainNames, NugetUnsigned, EmbedNuget, HasSignature, Contains;
    hide Rebuilt, CarriesSignature;
    if !WasSkipped(t, kind, node) {
      NestedIsInside(t, path, Sha256, None, node);
      var updated := SignNested(t, path, Sha256, None, node).value;
      var unsigned := NugetUnsigned(updated).value;
      var signature := t.signData(path, t.nugetContent(unsigned)).value;
      EmbeddedIsSealed(t, path, updated, unsigned, signature);
      EmbeddedIsRebuilt(t, kind, updated, unsigned, signature);
      InsideOn(t, path, Sha256, kind, None, node, updated, EmbedNuget(unsigned, signature, t.now).value);
    }
  }

  // ----- VSIX packages -----

  lemma {:induction false} PartsAreTheSame(t: Tool, entries: seq<Entry>)
    requires VsixParts(t, entries, false).Ok?
    ensures VsixParts(t, entries, true) == VsixParts(t, entries, false)
  {
    hide SafeName, VsixPart, IsOpcSignature;
    if entries != [] { PartsAreTheSame(t, entries[1..]); }
  }

  lemma PreparedIsTheSame(t: Tool, entries: seq<Entry>, overwrite: bool)
    requires VsixPrepared(t, entries, overwrite).Ok?
    ensures VsixPrepared(t, entries, true) == VsixPrepared(t, entries, overwrite)
  {
    hide VsixParts, Missing;
    if !overwrite { PartsAreTheSame(t, entries); }
  }

  lemma {:induction false} PartsCome(t: Tool, entries: seq<Entry>, overwrite: bool)
    requires VsixParts(t, entries, overwrite).Ok?
    ensures forall o <- VsixParts(t, entries, overwrite).value ::
              && !IsOpcSignature(o.name)
              && exists e <- entries ::
                 e.name == o.name && (e.node == o.node || o.name == CONTENT_TYPES || o.name == ROOT_RELS)
  {
    hide SafeName, IsOpcSignature, CONTENT_TYPES, ROOT_RELS;
    if entries != [] {
      if IsOpcSignature(entries[0].name) {
        PartsCome(t, entries[1..], overwrite);
      } else {
        PartsCome(t, entries[1..], overwrite);
        assert entries[0] in entries;
      }
      forall e <- entries[1..] ensures e in entries {}
    }
  }

  lemma OwnPartNames()
    ensures VSIX_SIGNATURE != CONTENT_TYPES && VSIX_SIGNATURE != ROOT_RELS && VSIX_SIGNATURE != ORIGIN
    ensures VSIX_SIGNATURE != ORIGIN_RELS
    ensures IsOpcSignature(VSIX_SIGNATURE)
    ensures IsOwn(CONTENT_TYPES) && IsOwn(ROOT_RELS) && IsOwn(ORIGIN) && IsOwn(ORIGIN_RELS)
  {
    assert |VSIX_SIGNATURE| > |SIGNATURES| > |ORIGIN|;
    assert VSIX_SIGNATURE[35] == 'x' && ORIGIN_RELS[35] == '_';
  }

  /** The parts of a prepared VSIX: those of the package, and ones the run writes itself; none is the signature. */
  lemma PreparedComes(t: Tool, entries: seq<Entry>, overwrite: bool)
    requires VsixPrepared(t, entries, overwrite).Ok?
    ensures forall o <- VsixPrepared(t, entries, overwrite).value ::
              o.name != VSIX_SIGNATURE && (IsOwn(o.name) || exists e <- entries :: e.name == o.name && e.node == o.node)
  {
    OwnPartNames();
    PartsCome(t, entries, overwrite);
    hide VsixParts, IsOwn, IsOpcSignature, CONTENT_TYPES, ROOT_RELS, ORIGIN, ORIGIN_RELS, VSIX_SIGNATURE, Contains;
  }

  lemma VsixIsSealed(t: Tool, path: string, alg: VsixHash, updated: seq<Entry>, signature: Bytes)
    requires Lawful(t) && VsixPrepared(t, updated, true).Ok?
    requires t.vsixInfo(alg, VsixPrepared(t, updated, true).value).Ok?
    requires t.signInfo(path, t.vsixInfo(alg, VsixPrepared(t, updated, true).value).value) == Ok(signature)
    requires EmbedVsix(t, updated, signature).Ok?
    ensures VsixSealed(t, alg, EmbedVsix(t, updated, signature).value)
  {
    hide VsixPrepared, WithoutName, ByName, VSIX_SIGNATURE;
    PreparedIsTheSame(t, updated, t.overwrite);
    PreparedComes(t, updated, t.overwrite);
    var prepared := VsixPrepared(t, updated, t.overwrite).value;
    WithoutLast(prepared, Entry(VSIX_SIGNATURE, Blob(signature), Stored, t.now));
  }

  lemma {:induction false} PartsAre(t: Tool, entries: seq<Entry>, overwrite: bool)
    requires VsixParts(t, entries, overwrite).Ok?
    ensures var parts, kept := VsixParts(t, entries, overwrite).value, Retained(Vsix, entries);
            |parts| == |kept| && forall k | 0 <= k < |kept| :: VsixPart(t, kept[k]) == Ok(parts[k])
  {
    hide SafeName, VsixPart, IsOpcSignature;
    if entries != [] { PartsAre(t, entries[1..], overwrite); }
  }

  lemma PartIs(t: Tool, e: Entry)
    requires VsixPart(t, e).Ok?
    ensures var o := VsixPart(t, e).value;
            && o.name == e.name && o.compression == e.compression
            && (e.name == CONTENT_TYPES ==> t.patchTypes(Some(e.node)) == Ok(o.node))
            && (e.name == ROOT_RELS ==> t.patchRels(Some(e.node)) == Ok(o.node))
            && (e.name != CONTENT_TYPES && e.name != ROOT_RELS ==> o.node == e.node)
  {
    OwnFilesEnd();
    hide CONTENT_TYPES, ROOT_RELS;
  }

  lemma EmbeddedVsixIsRebuilt(t: Tool, updated: seq<Entry>, signature: Bytes)
    requires EmbedVsix(t, updated, signature).Ok?
    ensures Rebuilt(t, Vsix, None, updated, EmbedVsix(t, updated, signature).value)
  {
    var added := AddedAre(t, updated, signature);
    hide VsixParts, EmbedVsix, Retained, CONTENT_TYPES, ROOT_RELS, ORIGIN, ORIGIN_RELS, VSIX_SIGNATURE, IsOwnNew;
    PartsAre(t, updated, t.overwrite);
    var kept, parts := Retained(Vsix, updated), VsixParts(t, updated, t.overwrite).value;
    var final := parts + added;
    forall k | 0 <= k < |kept|
      ensures final[k].name == kept[k].name
      ensures if IsOwnOf(Vsix, kept[k].name) then Rewrites(t, Vsix, None, kept, k, final[k])
              else Same(kept[k], final[k])
    {
      PartIs(t, kept[k]);
      hide VsixPart;
      assert final[k] == parts[k];
    }
    assert final[|kept|..] == added;
  }

  /** What `write_signed_package` puts behind the copied parts. */
  lemma AddedAre(t: Tool, entries: seq<Entry>, signature: Bytes) returns (added: seq<Entry>)
    requires EmbedVsix(t, entries, signature).Ok?
    ensures VsixParts(t, entries, t.overwrite).Ok?
    ensures EmbedVsix(t, entries, signature).value == VsixParts(t, entries, t.overwrite).value + added
    ensures forall o <- added :: IsOwnNew(t, Vsix, o)
  {
    hide VsixParts, CONTENT_TYPES, ROOT_RELS, ORIGIN, ORIGIN_RELS, VSIX_SIGNATURE, Contains;
    var parts := VsixParts(t, entries, t.overwrite).value;
    var types := Missing(parts, CONTENT_TYPES, t.patchTypes(None), t.now).value;
    var rels := Missing(parts, ROOT_RELS, t.patchRels(None), t.now).value;
    var own := [Entry(ORIGIN, Blob([]), Stored, t.now), Entry(ORIGIN_RELS, t.originRels, Stored, t.now)];
    var last := [Entry(VSIX_SIGNATURE, Blob(signature), Stored, t.now)];
    added := types + rels + own + last;
    assert forall o <- types :: IsOwnNew(t, Vsix, o);
    assert forall o <- rels :: IsOwnNew(t, Vsix, o);
    assert parts + types + rels + own + last == parts + added;
  }

  /** Inside-out signing, VSIX. */
  lemma VsixIsSound(t: Tool, path: string, alg: VsixHash, publisher: Option<string>, node: Node)
    requires Lawful(t) && PlainNames(t) && SignVsix(t, path, alg, node).Ok?
    ensures Sound(t, path, alg, publisher, Vsix, node, SignVsix(t, path, alg, node).value)
    decreases node, 4, 0
  {
    VsixSkips(t, path, alg, node);
    hide SignNested, Inside, VsixSealed, Lawful, PlainNames, VsixPrepared, EmbedVsix, HasSignature, Rebuilt;
    hide CarriesSignature;
    if !WasSkipped(t, Vsix, node) {
      NestedIsInside(t, path, alg, None, node);
      var updated := SignNested(t, path, alg, None, node).value;
      var info := t.vsixInfo(alg, VsixPrepared(t, updated, true).value).value;
      var signature := t.signInfo(path, info).value;
      VsixIsSealed(t, path, alg, updated, signature);
      EmbeddedVsixIsRebuilt(t, updated, signature);
      InsideOn(t, path, alg, Vsix, None, node, updated, EmbedVsix(t, updated, signature).value);
    }
  }

  // ----- MSIX and AppX packages -----

  lemma {:induction false} ManifestNames(t: Tool, entries: seq<Entry>, publisher: string)
    requires ManifestUpdates(t, entries, publisher).Ok?
    ensures forall u <- ManifestUpdates(t, entries, publisher).value :: u.name == APPX_MANIFEST
  {
    hide SafeName, IsDir, APPX_MANIFEST;
    if entries != [] { ManifestNames(t, entries[1..], publisher); }
  }

  /** Every manifest pushes its update. */
  lemma {:induction false} ManifestPushes(t: Tool, entries: seq<Entry>, publisher: string, k: nat)
    requires ManifestUpdates(t, entries, publisher).Ok? && k < |entries| && entries[k].name == APPX_MANIFEST
    ensures t.manifestPublisher(entries[k].node, publisher).Ok?
    ensures Update(APPX_MANIFEST, t.manifestPublisher(entries[k].node, publisher).value, entries[k].compression)
            in ManifestUpdates(t, entries, publisher).value
  {
    OwnFilesEnd();
    hide SafeName, APPX_MANIFEST;
    if k > 0 { ManifestPushes(t, entries[1..], publisher, k - 1); }
  }

  lemma ManifestStep(t: Tool, entries: seq<Entry>, publisher: string)
    requires entries != [] && ManifestUpdates(t, entries, publisher).Ok?
    ensures ManifestUpdates(t, entries[1..], publisher).Ok?
    ensures |ManifestUpdates(t, entries, publisher).value|
            == |ManifestUpdates(t, entries[1..], publisher).value| + if entries[0].name == APPX_MANIFEST then 1 else 0
  {
    OwnFilesEnd();
    hide SafeName, APPX_MANIFEST;
  }

  lemma {:induction false} ManifestTwice(t: Tool, entries: seq<Entry>, publisher: string, i: nat, j: nat)
    requires ManifestUpdates(t, entries, publisher).Ok? && i < j < |entries|
    requires entries[i].name == APPX_MANIFEST && entries[j].name == APPX_MANIFEST
    ensures |ManifestUpdates(t, entries, publisher).value| > 1
  {
    hide ManifestUpdates, APPX_MANIFEST;
    ManifestStep(t, entries, publisher);
    if i > 0 {
      ManifestTwice(t, entries[1..], publisher, i - 1, j - 1);
    } else {
      ManifestPushes(t, entries[1..], publisher, j - 1);
    }
  }

  lemma ManifestsCollide(t: Tool, entries: seq<Entry>, publisher: string, i: nat, j: nat)
    requires ManifestUpdates(t, entries, publisher).Ok? && i < j < |entries|
    requires entries[i].name == APPX_MANIFEST && entries[j].name == APPX_MANIFEST
    ensures !NamesDiffer(ManifestUpdates(t, entries, publisher).value)
  {
    ManifestTwice(t, entries, publisher, i, j);
    ManifestNames(t, entries, publisher);
    hide ManifestUpdates, APPX_MANIFEST;
    var us := ManifestUpdates(t, entries, publisher).value;
    assert us[0] in us && us[1] in us;
  }

  /** Updates of one name that entries have are not added. */
  lemma NoneAdded(entries: seq<Entry>, updates: seq<Update>, now: int, name: string)
    requires Repack(entries, updates, now).Ok? && Contains(entries, name) && forall u <- updates :: u.name == name
    ensures var out := Repack(entries, updates, now).value;
            |out| == |entries| && forall k | 0 <= k < |out| :: out[k] == Outcome(entries, updates, now, k)
  {
    hide Repack, Contains;
    RepackDoes(entries, updates, now);
    BlockMap.EmptyOrSome(Repack(entries, updates, now).value[|entries|..]);
  }

  /** An update for each entry of the one name leaves the others alone. */
  lemma OthersStay(entries: seq<Entry>, updates: seq<Update>, now: int, name: string, k: nat)
    requires k < |entries| && (forall u <- updates :: u.name == name) && entries[k].name != name
    ensures Outcome(entries, updates, now, k) == entries[k]
  {
  }

  lemma ManifestDoes(t: Tool, kind: Kind, entries: seq<Entry>, publisher: string, k: nat)
    requires ManifestUpdates(t, entries, publisher).Ok? && Contains(entries, APPX_MANIFEST) && IsMsixFamily(kind)
    requires Repack(entries, ManifestUpdates(t, entries, publisher).value, t.now).Ok? && k < |entries|
    ensures var o := Outcome(entries, ManifestUpdates(t, entries, publisher).value, t.now, k);
            && o.name == entries[k].name
            && if entries[k].name == APPX_MANIFEST then Rewrites(t, kind, Some(publisher), entries, k, o)
               else Same(entries[k], o)
  {
    OwnNamesOf(kind);
    hide Repack, Contains, APPX_MANIFEST, BlockMap.BUNDLE_MANIFEST, BlockMap.BLOCK_MAP, ManifestUpdates, Find;
    hide NamesDiffer;
    var updates := ManifestUpdates(t, entries, publisher).value;
    ManifestNames(t, entries, publisher);
    RepackDoes(entries, updates, t.now);
    if entries[k].name == APPX_MANIFEST {
      ManifestPushes(t, entries, publisher, k);
      var u := Update(APPX_MANIFEST, t.manifestPublisher(entries[k].node, publisher).value, entries[k].compression);
      FindIs(updates, APPX_MANIFEST);
      OneOfAName(updates, u, Find(updates, APPX_MANIFEST));
      if Contains(entries[..k], APPX_MANIFEST) {
        var i := FirstOf(entries[..k], APPX_MANIFEST);
        ManifestsCollide(t, entries, publisher, i, k);
      }
    } else {
      OthersStay(entries, updates, t.now, APPX_MANIFEST, k);
    }
  }

  lemma BundleDoes(t: Tool, kind: Kind, entries: seq<Entry>, publisher: string, node: Node, k: nat)
    requires IsMsixFamily(kind) && k < |entries| && !Contains(entries, APPX_MANIFEST)
    requires ByName(entries, BlockMap.BUNDLE_MANIFEST).Some?
    requires t.bundlePublisher(ByName(entries, BlockMap.BUNDLE_MANIFEST).value.node, publisher) == Ok(node)
    ensures var o := Outcome(entries, [Update(BlockMap.BUNDLE_MANIFEST, node, Deflated)], t.now, k);
            && o.name == entries[k].name
            && if entries[k].name == BlockMap.BUNDLE_MANIFEST then Rewrites(t, kind, Some(publisher), entries, k, o)
               else Same(entries[k], o)
  {
    OwnNamesOf(kind);
    hide Contains, APPX_MANIFEST, BlockMap.BUNDLE_MANIFEST, BlockMap.BLOCK_MAP, ByName, Find;
    var u := Update(BlockMap.BUNDLE_MANIFEST, node, Deflated);
    var updates := [u];
    assert u in updates;
    if entries[k].name == BlockMap.BUNDLE_MANIFEST {
      FindIs(updates, BlockMap.BUNDLE_MANIFEST);
    } else {
      OthersStay(entries, updates, t.now, BlockMap.BUNDLE_MANIFEST, k);
    }
  }

  /** What the publisher step does to entry `k`: all own entries but block maps are rewritten as they should be. */
  predicate Published(t: Tool, kind: Kind, publisher: Option<string>, entries: seq<Entry>, k: nat, o: Entry)
    requires k < |entries|
  {
    && o.name == entries[k].name
    && if IsOwnOf(kind, o.name) && o.name != BlockMap.BLOCK_MAP then Rewrites(t, kind, publisher, entries, k, o)
       else Same(entries[k], o)
  }

  ghost predicate AllPublished(t: Tool, kind: Kind, publisher: Option<string>, entries: seq<Entry>, mid: seq<Entry>) {
    |mid| == |entries| && forall k | 0 <= k < |mid| :: Published(t, kind, publisher, entries, k, mid[k])
  }

  lemma ManifestPublished(t: Tool, kind: Kind, entries: seq<Entry>, publisher: string)
    requires IsMsixFamily(kind) && WithPublisher(t, kind, entries, Some(publisher)).Ok?
    requires Contains(entries, APPX_MANIFEST)
    ensures AllPublished(t, kind, Some(publisher), entries, WithPublisher(t, kind, entries, Some(publisher)).value)
  {
    OwnNamesOf(kind);
    hide Repack, Contains, APPX_MANIFEST, BlockMap.BUNDLE_MANIFEST, BlockMap.BLOCK_MAP, ManifestUpdates, ByName;
    hide Outcome;
    var updates := ManifestUpdates(t, entries, publisher).value;
    ManifestNames(t, entries, publisher);
    NoneAdded(entries, updates, t.now, APPX_MANIFEST);
    forall k | 0 <= k < |entries|
      ensures Published(t, kind, Some(publisher), entries, k, Outcome(entries, updates, t.now, k))
    {
      ManifestDoes(t, kind, entries, publisher, k);
    }
  }

  lemma BundleAt(t: Tool, kind: Kind, entries: seq<Entry>, publisher: string, node: Node, k: nat)
    requires IsMsixFamily(kind) && k < |entries| && !Contains(entries, APPX_MANIFEST)
    requires ByName(entries, BlockMap.BUNDLE_MANIFEST).Some?
    requires t.bundlePublisher(ByName(entries, BlockMap.BUNDLE_MANIFEST).value.node, publisher) == Ok(node)
    ensures Published(t, kind, Some(publisher), entries, k,
                      Outcome(entries, [Update(BlockMap.BUNDLE_MANIFEST, node, Deflated)], t.now, k))
  {
    OwnNamesOf(kind);
    NoManifest(entries, k);
    hide Contains, APPX_MANIFEST, BlockMap.BUNDLE_MANIFEST, BlockMap.BLOCK_MAP, ByName, Outcome;
    BundleDoes(t, kind, entries, publisher, node, k);
  }

  lemma BundlePublished(t: Tool, kind: Kind, entries: seq<Entry>, publisher: string)
    requires IsMsixFamily(kind) && WithPublisher(t, kind, entries, Some(publisher)).Ok?
    requires !Contains(entries, APPX_MANIFEST) && Contains(entries, BlockMap.BUNDLE_MANIFEST)
    ensures AllPublished(t, kind, Some(publisher), entries, WithPublisher(t, kind, entries, Some(publisher)).value)
  {
    OwnNamesOf(kind);
    hide IsMsixFamily, IsOwnOf, Rewrites, Same, Repack, Contains, APPX_MANIFEST, BlockMap.BUNDLE_MANIFEST;
    hide BlockMap.BLOCK_MAP, ManifestUpdates, ByName, Outcome;
    var node := t.bundlePublisher(ByName(entries, BlockMap.BUNDLE_MANIFEST).value.node, publisher).value;
    var updates := [Update(BlockMap.BUNDLE_MANIFEST, node, Deflated)];
    NoneAdded(entries, updates, t.now, BlockMap.BUNDLE_MANIFEST);
    forall k | 0 <= k < |entries|
      ensures Published(t, kind, Some(publisher), entries, k, Outcome(entries, updates, t.now, k))
    {
      BundleAt(t, kind, entries, publisher, node, k);
    }
  }

  lemma PublisherDoes(t: Tool, kind: Kind, entries: seq<Entry>, publisher: Option<string>)
    requires IsMsixFamily(kind) && WithPublisher(t, kind, entries, publisher).Ok?
    ensures AllPublished(t, kind, publisher, entries, WithPublisher(t, kind, entries, publisher).value)
  {
    if publisher.Some? && Contains(entries, APPX_MANIFEST) {
      ManifestPublished(t, kind, entries, publisher.value);
    } else if publisher.Some? && Contains(entries, BlockMap.BUNDLE_MANIFEST) {
      BundlePublished(t, kind, entries, publisher.value);
    } else {
      OwnNamesOf(kind);
      hide Contains, APPX_MANIFEST, BlockMap.BUNDLE_MANIFEST, BlockMap.BLOCK_MAP;
      forall k | 0 <= k < |entries| ensures Published(t, kind, publisher, entries, k, entries[k]) {
        NoManifest(entries, k);
      }
    }
  }

  lemma NoManifest(entries: seq<Entry>, k: nat)
    requires k < |entries|
    ensures !Contains(entries, APPX_MANIFEST) ==> entries[k].name != APPX_MANIFEST
    ensures !Contains(entries, BlockMap.BUNDLE_MANIFEST) ==> entries[k].name != BlockMap.BUNDLE_MANIFEST
  {
    assert entries[k] in entries;
  }

  lemma PreparedIsRebuilt(t: Tool, kind: Kind, publisher: Option<string>, nested: seq<Entry>)
    requires IsMsixFamily(kind) && WithPublisher(t, kind, nested, publisher).Ok?
    requires BlockMap.Refreshed(t.format, WithPublisher(t, kind, nested, publisher).value, t.now).Ok?
    ensures Rebuilt(t, kind, publisher, nested,
                    BlockMap.Refreshed(t.format, WithPublisher(t, kind, nested, publisher).value, t.now).value)
  {
    hide WithPublisher, Rebuilt, BlockMap.Refreshed, AllPublished;
    PublisherDoes(t, kind, nested, publisher);
    RefreshedIsRebuilt(t, kind, publisher, nested, WithPublisher(t, kind, nested, publisher).value);
  }

  lemma RefreshedIsRebuilt(t: Tool, kind: Kind, publisher: Option<string>, nested: seq<Entry>, mid: seq<Entry>)
    requires IsMsixFamily(kind) && AllPublished(t, kind, publisher, nested, mid)
    requires BlockMap.Refreshed(t.format, mid, t.now).Ok?
    ensures Rebuilt(t, kind, publisher, nested, BlockMap.Refreshed(t.format, mid, t.now).value)
  {
    hide Retained, Contains, BlockMap.Refreshed, Published, Rewrites, IsOwnOf, IsMsixFamily, IsOwnNew, Same;
    RetainedMsix(kind, nested);
    MapRefreshed(t, mid);
    var final := BlockMap.Refreshed(t.format, mid, t.now).value;
    forall k | 0 <= k < |nested|
      ensures final[k].name == nested[k].name
      ensures if IsOwnOf(kind, nested[k].name) then Rewrites(t, kind, publisher, nested, k, final[k])
              else Same(nested[k], final[k])
    {
      assert Published(t, kind, publisher, nested, k, mid[k]);
      PublishedStays(t, kind, publisher, nested, mid, k, final[k]);
    }
  }

  lemma RetainedMsix(kind: Kind, entries: seq<Entry>)
    requires IsMsixFamily(kind)
    ensures Retained(kind, entries) == entries
  {
    RetainedAll(kind, entries);
  }

  lemma MapRefreshed(t: Tool, mid: seq<Entry>)
    requires BlockMap.Refreshed(t.format, mid, t.now).Ok?
    ensures var final := BlockMap.Refreshed(t.format, mid, t.now).value;
            && |final| == |mid|
            && forall k | 0 <= k < |mid| ::
                 && final[k].name == mid[k].name
                 && (mid[k].name != BlockMap.BLOCK_MAP || Contains(mid[..k], BlockMap.BLOCK_MAP) ==> final[k] == mid[k])
  {
    hide Contains, BlockMap.BLOCK_MAP, BlockMap.Rebuild, Repack;
    if Contains(mid, BlockMap.BLOCK_MAP) {
      BlockMap.RefreshedEntries(t.format, mid, t.now);
    } else {
      forall k | 0 <= k < |mid| ensures mid[k] in mid {}
    }
  }

  lemma PublishedStays(t: Tool, kind: Kind, publisher: Option<string>, nested: seq<Entry>, mid: seq<Entry>, k: nat,
                       o: Entry)
    requires IsMsixFamily(kind) && AllPublished(t, kind, publisher, nested, mid) && k < |nested|
    requires Published(t, kind, publisher, nested, k, mid[k]) && o.name == mid[k].name
    requires mid[k].name != BlockMap.BLOCK_MAP || Contains(mid[..k], BlockMap.BLOCK_MAP) ==> o == mid[k]
    ensures o.name == nested[k].name
    ensures if IsOwnOf(kind, nested[k].name) then Rewrites(t, kind, publisher, nested, k, o) else Same(nested[k], o)
  {
    if nested[k].name == BlockMap.BLOCK_MAP {
      OwnNamesOf(kind);
      hide Contains, APPX_MANIFEST, BlockMap.BUNDLE_MANIFEST, BlockMap.BLOCK_MAP;
      forall i | 0 <= i < k ensures nested[..k][i].name == mid[..k][i].name {
        assert Published(t, kind, publisher, nested, i, mid[i]);
      }
      BlockMap.SameNames(nested[..k], mid[..k], BlockMap.BLOCK_MAP);
    }
  }

  /** Preparing an MSIX or AppX package: the publisher and the block map are rewritten, signed packages stay sealed, and
      the block map is current. */
  lemma PreparedIsSound(t: Tool, path: string, alg: VsixHash, publisher: Option<string>, kind: Kind, node: Node)
    requires Lawful(t) && PlainNames(t) && IsMsixFamily(kind) && Prepare(t, path, alg, kind, publisher, node).Ok?
    ensures Sound(t, path, alg, publisher, kind, node, Prepare(t, path, alg, kind, publisher, node).value)
    decreases node, 4, 0
  {
    hide SignNested, Inside, Lawful, PlainNames, WithPublisher, BlockMap.Refreshed, Contains, MapIsCurrent, Rebuilt;
    NestedIsInside(t, path, alg, publisher, node);
    var nested := SignNested(t, path, alg, publisher, node).value;
    PreparedIsRebuilt(t, kind, publisher, nested);
    InsideOn(t, path, alg, kind, publisher, node, nested, Prepare(t, path, alg, kind, publisher, node).value.entries);
    PreparedMapIsCurrent(t, path, alg, kind, publisher, node);
  }

  /** Rebuilding the block map from a prepared package gives the one it holds. */
  lemma PreparedMapIsCurrent(t: Tool, path: string, alg: VsixHash, kind: Kind, publisher: Option<string>, node: Node)
    requires Prepare(t, path, alg, kind, publisher, node).Ok?
    ensures Prepare(t, path, alg, kind, publisher, node).value.Archive?
    ensures MapIsCurrent(t.format, Prepare(t, path, alg, kind, publisher, node).value.entries)
  {
    hide SignNested, WithPublisher, BlockMap.Refreshed, BlockMap.Rebuild, Contains, BlockMap.BLOCK_MAP;
    var nested := SignNested(t, path, alg, publisher, node).value;
    var out := Prepare(t, path, alg, kind, publisher, node).value.entries;
    if Contains(out, BlockMap.BLOCK_MAP) {
      BlockMap.StoredMapIsCurrent(t.format, WithPublisher(t, kind, nested, publisher).value, t.now);
    }
  }

  // ----- a signed package is signed once -----

  lemma OneFile(entries: seq<Entry>, k: nat, vsix: bool)
    requires k < |entries| && IsSignatureFile(vsix, entries[k].name) && forall e <- entries[..k] :: SafeName(e.name)
    ensures CarriesSignature(vsix, entries)
  {
    hide IsSignatureFile, SafeName, IsDir;
    forall j | 0 <= j < k ensures SafeName(entries[j].name) { assert entries[..k][j] in entries[..k]; }
  }

  lemma SignatureNamesAreSafe()
    ensures IsSignatureFile(false, NUGET_SIGNATURE) && IsSignatureFile(true, ORIGIN)
    ensures SafeName(CONTENT_TYPES) && SafeName(ROOT_RELS)
  {
    FlatNamesAreSafe();
    RootRelsIsSafe();
    OriginIsSafe();
    OwnPartsEnd();
    OwnFilesEnd();
    hide SafeName, NUGET_SIGNATURE, ORIGIN, SIGNATURES, CONTENT_TYPES, ROOT_RELS;
  }

  lemma FlatNamesAreSafe()
    ensures SafeName(NUGET_SIGNATURE) && SafeName(CONTENT_TYPES)
  {
    hide SafeName;
    FlatIsSafe(NUGET_SIGNATURE);
    FlatIsSafe(CONTENT_TYPES);
  }

  lemma RootRelsIsSafe()
    ensures SafeName(ROOT_RELS)
  {
    hide SafeName;
    FlatIsSafe(".rels");
    BelowIsSafe("_rels", ".rels");
    assert "_rels" + "/" + ".rels" == ROOT_RELS;
  }

  lemma OriginIsSafe()
    ensures SafeName(ORIGIN)
  {
    hide SafeName;
    var file, below, services := "origin.psdsor", "digital-signature", "services";
    FlatIsSafe(file);
    BelowIsSafe(below, file);
    BelowIsSafe(services, below + "/" + file);
    BelowIsSafe("package", services + "/" + (below + "/" + file));
    OriginParts();
  }

  lemma OriginParts()
    ensures ORIGIN == "package" + "/" + ("services" + "/" + ("digital-signature" + "/" + "origin.psdsor"))
  {
    assert "package/services/digital-signature/" == "package" + "/" + ("services" + "/" + ("digital-signature" + "/"));
    assert "digital-signature" + "/" + "origin.psdsor" == "digital-signature/" + "origin.psdsor";
  }

  /** Signing what is signed, with any tool that skips signed packages, gives it back as it is. */
  lemma NugetSignsOnce(t: Tool, u: Tool, path: string, other: string, node: Node)
    requires SignNuget(t, path, node).Ok? && u.skipSigned
    ensures var out := SignNuget(t, path, node).value; SignNuget(u, other, out) == Ok(out)
  {
    NugetSkips(t, path, node);
    var out := SignNuget(t, path, node).value;
    if !WasSkipped(t, Nuget, node) {
      hide SignNested, HasSignature, CarriesSignature, Contains, NugetUnsigned, EmbedNuget, NUGET_SIGNATURE;
      var unsigned := NugetUnsigned(SignNested(t, path, Sha256, None, node).value).value;
      EmbeddedNugetCarriesSignature(unsigned, t.signData(path, t.nugetContent(unsigned)).value, t.now);
    }
    hide SignNuget, CarriesSignature, HasSignature;
    NugetSkips(u, other, out);
  }

  lemma EmbeddedNugetCarriesSignature(unsigned: seq<Entry>, signature: Bytes, now: int)
    requires EmbedNuget(unsigned, signature, now).Ok?
    ensures CarriesSignature(false, EmbedNuget(unsigned, signature, now).value)
  {
    SignatureNamesAreSafe();
    hide IsSignatureFile, CarriesSignature, Contains, SafeName, NUGET_SIGNATURE;
    var out := EmbedNuget(unsigned, signature, now).value;
    assert out[..|unsigned|] == unsigned;
    OneFile(out, |unsigned|, false);
  }

  lemma VsixSignsOnce(t: Tool, u: Tool, path: string, other: string, alg: VsixHash, b: VsixHash, node: Node)
    requires SignVsix(t, path, alg, node).Ok? && u.skipSigned
    ensures var out := SignVsix(t, path, alg, node).value; SignVsix(u, other, b, out) == Ok(out)
  {
    VsixSkips(t, path, alg, node);
    var out := SignVsix(t, path, alg, node).value;
    if !WasSkipped(t, Vsix, node) {
      var updated := SignNested(t, path, alg, None, node).value;
      var info := t.vsixInfo(alg, VsixPrepared(t, updated, true).value).value;
      EmbeddedCarriesSignature(t, updated, t.signInfo(path, info).value);
    }
    hide SignVsix, CarriesSignature;
    VsixSkips(u, other, b, out);
  }

  lemma EmbeddedCarriesSignature(t: Tool, updated: seq<Entry>, signature: Bytes)
    requires EmbedVsix(t, updated, signature).Ok?
    ensures CarriesSignature(true, EmbedVsix(t, updated, signature).value)
  {
    SignatureNamesAreSafe();
    hide VsixParts, CONTENT_TYPES, ROOT_RELS, ORIGIN, ORIGIN_RELS, VSIX_SIGNATURE, SafeName, IsSignatureFile;
    hide CarriesSignature, Contains;
    PartsAreSafe(t, updated, t.overwrite);
    var parts := VsixParts(t, updated, t.overwrite).value;
    var types := Missing(parts, CONTENT_TYPES, t.patchTypes(None), t.now).value;
    var rels := Missing(parts, ROOT_RELS, t.patchRels(None), t.now).value;
    var out := EmbedVsix(t, updated, signature).value;
    var front := parts + types + rels;
    assert out[..|front|] == front;
    OneFile(out, |front|, true);
  }

  lemma {:induction false} PartsAreSafe(t: Tool, entries: seq<Entry>, overwrite: bool)
    requires VsixParts(t, entries, overwrite).Ok?
    ensures forall o <- VsixParts(t, entries, overwrite).value :: SafeName(o.name)
  {
    hide SafeName, IsOpcSignature, CONTENT_TYPES, ROOT_RELS;
    if entries != [] { PartsAreSafe(t, entries[1..], overwrite); }
  }

  // ----- what this says of a file at any depth -----

  /** The entry at a place: positions among the entries that signing retains, from the outermost package inwards. */
  function Reach(t: Tool, kind: Kind, node: Node, place: seq<nat>): Option<Entry>
    decreases |place|
  {
    if !node.Archive? || place == [] || place[0] >= |Retained(kind, node.entries)| then None
    else
      var e := Retained(kind, node.entries)[place[0]];
      if |place| == 1 then Some(e) else Reach(t, t.detect(e.name), e.node, place[1..])
  }

  /** Packages that carry their own signature, for which they may be skipped. */
  predicate IsSkippable(kind: Kind) {
    IsNuget(kind) || kind.Vsix?
  }

  /** A package that the run opens and signs or prepares. */
  predicate IsOpened(t: Tool, path: string, e: Entry) {
    && IsSelected(t, path, e.name) && IsContainer(t.detect(e.name))
    && (IsSkippable(t.detect(e.name)) ==> !WasSkipped(t, t.detect(e.name), e.node))
  }

  lemma SelectedIsNotOwn(t: Tool, path: string, kind: Kind, name: string)
    requires PlainNames(t) && IsSelected(t, path, name)
    ensures !IsOwnOf(kind, name)
  {
    OwnOfIsOwn(kind, name);
    hide IsOwn, IsOwnOf, Companion;
  }

  /** The run has no business with this name: it is not selected, no descriptor or companion, and not an entry of the
      format itself. */
  predicate IsBystander(t: Tool, path: string, kind: Kind, entries: seq<Entry>, name: string) {
    && !IsSelected(t, path, name) && !IsAppInstaller(t, path, name) && !IsOwnOf(kind, name)
    && forall x <- entries | IsAppInstaller(t, path, x.name) :: name != Companion(x.name)
  }

  /** A bystander, a package skipped as signed, or something inside one, however deep. */
  predicate IsSpared(t: Tool, path: string, kind: Kind, node: Node, place: seq<nat>)
    decreases |place|
  {
    && node.Archive? && place != [] && place[0] < |Retained(kind, node.entries)|
    && var e := Retained(kind, node.entries)[place[0]];
    || IsBystander(t, path, kind, node.entries, e.name)
    || (IsSelected(t, path, e.name) && IsSkippable(t.detect(e.name)) && WasSkipped(t, t.detect(e.name), e.node))
    || (|place| > 1 && IsOpened(t, path, e) && IsSpared(t, path + "!" + e.name, t.detect(e.name), e.node, place[1..]))
  }

  /** A package that the run opens, in packages that it opens. */
  predicate AllOpened(t: Tool, path: string, kind: Kind, node: Node, place: seq<nat>)
    decreases |place|
  {
    && node.Archive? && place != [] && place[0] < |Retained(kind, node.entries)|
    && var e := Retained(kind, node.entries)[place[0]];
    && IsOpened(t, path, e)
    && (|place| > 1 ==> AllOpened(t, path + "!" + e.name, t.detect(e.name), e.node, place[1..]))
  }

  function InnerHash(kind: Kind, alg: VsixHash): VsixHash {
    if IsNuget(kind) then Sha256 else alg
  }

  function InnerPublisher(kind: Kind, publisher: Option<string>): Option<string> {
    if IsMsixFamily(kind) then publisher else None
  }

  /** The hash a VSIX at this place is signed with: the run's own, unless a NuGet package is around it. */
  function HashAt(t: Tool, kind: Kind, alg: VsixHash, node: Node, place: seq<nat>): VsixHash
    decreases |place|
  {
    if |place| <= 1 || !node.Archive? || place[0] >= |Retained(kind, node.entries)| then alg
    else
      var e := Retained(kind, node.entries)[place[0]];
      HashAt(t, t.detect(e.name), InnerHash(t.detect(e.name), alg), e.node, place[1..])
  }

  lemma RetainedIsKept(kind: Kind, es: seq<Entry>, front: seq<Entry>)
    requires SameNamesAs(Retained(kind, es), front)
    ensures Retained(kind, front) == front
  {
    hide Retained, IsDropped;
    RetainedAre(kind, es);
    forall e <- front ensures !IsDropped(kind, e.name) {
      var i :| 0 <= i < |front| && front[i] == e;
      assert Retained(kind, es)[i] in Retained(kind, es);
    }
    RetainedAll(kind, front);
  }

  lemma RetainedFront(kind: Kind, es: seq<Entry>, front: seq<Entry>, behind: seq<Entry>, k: nat)
    requires SameNamesAs(Retained(kind, es), front) && k < |front|
    ensures k < |Retained(kind, front + behind)| && Retained(kind, front + behind)[k] == front[k]
  {
    hide Retained;
    RetainedIsKept(kind, es, front);
    RetainedAppend(kind, front, behind);
  }

  lemma PrefixNames(a: seq<Entry>, out: seq<Entry>)
    requires |a| <= |out| && forall i | 0 <= i < |a| :: out[i].name == a[i].name
    ensures SameNamesAs(a, out[..|a|])
  {
  }

  /** The retained entries of a package are still the first ones after signing it. */
  lemma RetainedPrefix(kind: Kind, es: seq<Entry>, out: seq<Entry>, n: nat, k: nat)
    requires n == |Retained(kind, es)| && k < n <= |out|
    requires forall i | 0 <= i < n :: out[i].name == Retained(kind, es)[i].name
    ensures k < |Retained(kind, out)| && Retained(kind, out)[k] == out[k]
  {
    hide Retained;
    var front, behind := out[..n], out[n..];
    PrefixNames(Retained(kind, es), out);
    RetainedFront(kind, es, front, behind, k);
    hide SameNamesAs;
    assert front + behind == out;
  }

  /** What stands at a position after the run. */
  lemma ReachStep(t: Tool, path: string, alg: VsixHash, publisher: Option<string>, kind: Kind, before: Node,
                  after: Node, place: seq<nat>)
    requires Inside(t, path, alg, publisher, kind, before, after)
    requires place != [] && place[0] < |Retained(kind, before.entries)|
    ensures var e, o := Retained(kind, before.entries)[place[0]], after.entries[place[0]];
            && o.name == e.name
            && (!IsOwnOf(kind, e.name) ==> Fate(t, path, alg, publisher, after.entries, e, o))
            && Reach(t, kind, after, place)
               == if |place| == 1 then Some(o) else Reach(t, t.detect(o.name), o.node, place[1..])
  {
    hide Retained, Fate, Rewrites, IsOwnOf, IsOwnNew, IsCompanion;
    RetainedPrefix(kind, before.entries, after.entries, |Retained(kind, before.entries)|, place[0]);
  }

  /** Inside a package that the run opens, its entries have their outcomes. */
  lemma OpenedIsInside(t: Tool, path: string, alg: VsixHash, publisher: Option<string>, out: seq<Entry>, e: Entry,
                       o: Entry)
    requires IsOpened(t, path, e) && Fate(t, path, alg, publisher, out, e, o)
    ensures var kind := t.detect(e.name);
            && Inside(t, path + "!" + e.name, InnerHash(kind, alg), InnerPublisher(kind, publisher), kind, e.node,
               o.node)
            && (IsNuget(kind) ==> NugetSealed(t, o.node.entries))
            && (kind.Vsix? ==> VsixSealed(t, alg, o.node.entries))
            && (IsMsixFamily(kind) ==> MapIsCurrent(t.format, o.node.entries))
  {
    hide Inside, NugetSealed, VsixSealed, MapIsCurrent, WasSkipped;
  }

  /** A companion in the output signs a descriptor that the package held before. */
  lemma DescriptorWasThere(t: Tool, path: string, alg: VsixHash, publisher: Option<string>, kind: Kind, before: Node,
                           after: Node, x: Entry)
    requires PlainNames(t) && Inside(t, path, alg, publisher, kind, before, after)
    requires x in after.entries && IsAppInstaller(t, path, x.name)
    ensures Contains(before.entries, x.name)
  {
    hide Retained, IsOwn, IsOwnNew, IsOwnOf, Rewrites, Fate, Companion, IsDropped;
    var kept, out := Retained(kind, before.entries), after.entries;
    forall o <- out[|kept|..] ensures !IsAppInstaller(t, path, o.name) {
      OwnNewIsOwn(t, kind, o);
    }
    assert out == out[..|kept|] + out[|kept|..];
    assert x in out[..|kept|];
    var k :| 0 <= k < |kept| && out[k] == x;
    RetainedAre(kind, before.entries);
    assert kept[k] in kept;
  }

  lemma OwnNewIsOwn(t: Tool, kind: Kind, o: Entry)
    ensures IsOwnNew(t, kind, o) ==> IsOwn(o.name)
  {
    hide CONTENT_TYPES, ROOT_RELS, ORIGIN, ORIGIN_RELS, VSIX_SIGNATURE, NUGET_SIGNATURE;
  }

  lemma BystanderIsSame(t: Tool, path: string, alg: VsixHash, publisher: Option<string>, kind: Kind, before: Node,
                        after: Node, e: Entry, o: Entry)
    requires PlainNames(t) && Inside(t, path, alg, publisher, kind, before, after)
    requires IsBystander(t, path, kind, before.entries, e.name) && o.name == e.name
    requires Fate(t, path, alg, publisher, after.entries, e, o)
    ensures Same(e, o)
  {
    hide IsSelected, IsAppInstaller, IsOwnOf, Companion, Sound, Inside, Same, PlainNames;
    InsideIsArchive(t, path, alg, publisher, kind, before, after);
    if x :| x in after.entries && SignsDescriptor(t, path, x, o) {
      DescriptorWasThere(t, path, alg, publisher, kind, before, after, x);
    }
  }

  /** Whatever the run has no business with is where it was, with the content it had, at every depth. */
  lemma {:induction false} SparedStays(t: Tool, path: string, alg: VsixHash, publisher: Option<string>, kind: Kind,
                                       before: Node, after: Node, place: seq<nat>)
    requires PlainNames(t) && Inside(t, path, alg, publisher, kind, before, after)
    requires IsSpared(t, path, kind, before, place) && Reach(t, kind, before, place).Some?
    ensures var e, o := Reach(t, kind, before, place), Reach(t, kind, after, place);
            o.Some? && o.value.name == e.value.name && o.value.node == e.value.node
    decreases |place|
  {
    ReachStep(t, path, alg, publisher, kind, before, after, place);
    hide Inside, Retained, IsBystander, IsOwnOf, WasSkipped, Fate, IsSelected, InnerHash, InnerPublisher, PlainNames;
    var e, o := Retained(kind, before.entries)[place[0]], after.entries[place[0]];
    if IsBystander(t, path, kind, before.entries, e.name) {
      NotOwnIfBystander(t, path, kind, before.entries, e.name);
      BystanderIsSame(t, path, alg, publisher, kind, before, after, e, o);
      return;
    }
    SelectedIsNotOwn(t, path, kind, e.name);
    if |place| > 1 && IsOpened(t, path, e) && IsSpared(t, path + "!" + e.name, t.detect(e.name), e.node, place[1..]) {
      OpenedIsInside(t, path, alg, publisher, after.entries, e, o);
      SparedStays(t, path + "!" + e.name, InnerHash(t.detect(e.name), alg), InnerPublisher(t.detect(e.name), publisher),
                  t.detect(e.name), e.node, o.node, place[1..]);
    } else {
      SkippedIsSame(t, path, alg, publisher, after.entries, e, o);
    }
  }

  lemma NotOwnIfBystander(t: Tool, path: string, kind: Kind, entries: seq<Entry>, name: string)
    requires IsBystander(t, path, kind, entries, name)
    ensures !IsOwnOf(kind, name)
  {
    hide IsOwnOf, IsSelected, IsAppInstaller;
  }

  lemma SkippedIsSame(t: Tool, path: string, alg: VsixHash, publisher: Option<string>, out: seq<Entry>, e: Entry,
                      o: Entry)
    requires IsSelected(t, path, e.name) && IsSkippable(t.detect(e.name))
    requires WasSkipped(t, t.detect(e.name), e.node) && Fate(t, path, alg, publisher, out, e, o)
    ensures o.node == e.node
  {
    hide WasSkipped, Inside;
  }

  /** Every package that the run opens stands where it stood, at every depth: NuGet packages and VSIX under a signature
      over their final content, MSIX and AppX packages with the block map of it. */
  lemma {:induction false} OpenedIsSealed(t: Tool, path: string, alg: VsixHash, publisher: Option<string>, kind: Kind,
                                          before: Node, after: Node, place: seq<nat>)
    requires PlainNames(t) && Inside(t, path, alg, publisher, kind, before, after)
    requires AllOpened(t, path, kind, before, place)
    ensures var e, o := Reach(t, kind, before, place), Reach(t, kind, after, place);
            && e.Some? && o.Some? && o.value.name == e.value.name && o.value.node.Archive?
            && var inner := t.detect(e.value.name);
            && (IsNuget(inner) ==> NugetSealed(t, o.value.node.entries))
            && (inner.Vsix? ==> VsixSealed(t, HashAt(t, kind, alg, before, place), o.value.node.entries))
            && (IsMsixFamily(inner) ==> MapIsCurrent(t.format, o.value.node.entries))
    decreases |place|
  {
    ReachStep(t, path, alg, publisher, kind, before, after, place);
    hide Inside, Retained, IsOwnOf, WasSkipped, Fate, IsSelected, InnerHash, InnerPublisher, NugetSealed, VsixSealed;
    hide PlainNames, MapIsCurrent, IsMsixFamily;
    var e, o := Retained(kind, before.entries)[place[0]], after.entries[place[0]];
    SelectedIsNotOwn(t, path, kind, e.name);
    OpenedIsInside(t, path, alg, publisher, after.entries, e, o);
    if |place| > 1 {
      OpenedIsSealed(t, path + "!" + e.name, InnerHash(t.detect(e.name), alg),
                     InnerPublisher(t.detect(e.name), publisher),
                     t.detect(e.name), e.node, o.node, place[1..]);
    } else {
      InsideIsArchive(t, path + "!" + e.name, InnerHash(t.detect(e.name), alg),
                      InnerPublisher(t.detect(e.name), publisher), t.detect(e.name), e.node, o.node);
    }
  }

  lemma InsideIsArchive(t: Tool, path: string, alg: VsixHash, publisher: Option<string>, kind: Kind, before: Node,
                        after: Node)
    requires Inside(t, path, alg, publisher, kind, before, after)
    ensures before.Archive? && after.Archive?
  {
  }
}
