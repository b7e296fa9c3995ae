/** Which packages a signing run can sign: the exact condition, package by package. */
module PackageSuccess {
  import opened Wrappers
  import opened Zip
  import opened PackageSigning
  import opened PackageSoundness
  import BlockMap

  // ----- the entries of a package -----

  predicate IsWorkedOn(t: Tool, path: string, name: string) {
    IsSelected(t, path, name) || IsAppInstaller(t, path, name)
  }

  /** The descriptor is one, its publisher can be set if a publisher is given, it can be signed, and no old companion
      stands in the way. */
  ghost predicate CanBeDetached(t: Tool, path: string, publisher: Option<string>, entries: seq<Entry>, e: Entry) {
    && t.appInstallerValid(e.node)
    && (publisher.Some? ==> publisher.value != "" && t.appInstallerPublisher(e.node, publisher.value).Ok?)
    && (t.overwrite || !Contains(entries, Companion(e.name)))
    && exists node :: Described(t, publisher, e.node, node) && t.detached(path + "!" + e.name, node).Ok?
  }

  /** An entry does not stop the run: it is a directory, or its name is safe and it is excluded, of no format, or of one
      that can be signed here and was. */
  ghost predicate CanBeDone(t: Tool, path: string, alg: VsixHash, publisher: Option<string>, entries: seq<Entry>,
                            e: Entry)
  {
    var kind := t.detect(e.name);
    || IsDir(e.name)
    || (&& SafeName(e.name)
        && (|| t.excluded(e.name, path + "!" + e.name)
            || kind.Unknown? || kind.ZipFile?
            || (kind.AppInstaller? && CanBeDetached(t, path, publisher, entries, e))
            || (&& IsSelected(t, path, e.name)
                && !(IsClickOnce(kind) && t.skipSigned && t.clickOnceSigned(e.node))
                && SignedContent(t, path + "!" + e.name, alg, publisher, kind, e.node).Ok?)))
  }

  lemma UpdateSucceeds(t: Tool, path: string, alg: VsixHash, publisher: Option<string>, all: Node, k: nat)
    requires all.Archive? && k < |all.entries|
    ensures UpdateAt(t, path, alg, publisher, all, k).Ok?
            <==> CanBeDone(t, path, alg, publisher, all.entries, all.entries[k])
  {
    hide SignNuget, SignVsix, Prepare, SafeName, IsDir, Companion, Contains;
    var e := all.entries[k];
    if IsAppInstaller(t, path, e.name) {
      assert publisher.None? ==> Described(t, publisher, e.node, e.node);
    }
  }

  /** If the loop fails, some entry stopped it. */
  lemma {:induction false} Stopper(t: Tool, path: string, alg: VsixHash, publisher: Option<string>, all: Node, k: nat)
    returns (j: nat)
    requires all.Archive? && k <= |all.entries| && UpdatesFrom(t, path, alg, publisher, all, k).Err?
    ensures j < |all.entries| && UpdateAt(t, path, alg, publisher, all, j).Err?
    decreases |all.entries| - k
  {
    hide UpdateAt;
    if UpdateAt(t, path, alg, publisher, all, k).Err? {
      j := k;
    } else {
      j := Stopper(t, path, alg, publisher, all, k + 1);
    }
  }

  // ----- no two updates for one name -----

  /** Of the entries that the run works on, no two have one name. */
  predicate WorkedOnOnce(t: Tool, path: string, entries: seq<Entry>, k: nat) {
    forall i, j :: k <= i < j < |entries| && IsWorkedOn(t, path, entries[i].name) ==> entries[i].name != entries[j].name
  }

  lemma Apart(a: seq<Update>, b: seq<Update>)
    requires NamesDiffer(a) && NamesDiffer(b) && forall u <- a, v <- b :: u.name != v.name
    ensures NamesDiffer(a + b)
  {
    var all := a + b;
    forall i, j | 0 <= i < j < |all| ensures all[i].name != all[j].name {
      if i < |a| <= j {
        assert all[i] in a && all[j] in b;
      } else if j < |a| {
        assert all[i] == a[i] && all[j] == a[j];
      } else {
        assert all[i] == b[i - |a|] && all[j] == b[j - |a|];
      }
    }
  }

  lemma CompanionsDiffer(a: string, b: string)
    ensures Companion(a) == Companion(b) ==> a == b
    ensures Companion(a) != a
  {
    assert Companion(a)[..|a|] == a && |Companion(a)| == |a| + 3;
    assert Companion(b)[..|b|] == b && |Companion(b)| == |b| + 3;
  }

  lemma OwnUpdatesDiffer(t: Tool, path: string, alg: VsixHash, publisher: Option<string>, all: Node, k: nat)
    requires all.Archive? && k < |all.entries| && UpdateAt(t, path, alg, publisher, all, k).Ok?
    ensures NamesDiffer(UpdateAt(t, path, alg, publisher, all, k).value)
  {
    CompanionsDiffer(all.entries[k].name, all.entries[k].name);
    hide SignNuget, SignVsix, Prepare, SafeName, IsDir, Companion, Contains;
  }

  /** Two entries with different names push updates with different names. */
  lemma PushesDiffer(t: Tool, path: string, alg: VsixHash, publisher: Option<string>, all: Node, i: nat, j: nat,
                     u: Update, v: Update)
    requires PlainNames(t) && all.Archive? && i < |all.entries| && j < |all.entries|
    requires UpdateAt(t, path, alg, publisher, all, i).Ok? && u in UpdateAt(t, path, alg, publisher, all, i).value
    requires UpdateAt(t, path, alg, publisher, all, j).Ok? && v in UpdateAt(t, path, alg, publisher, all, j).value
    requires all.entries[i].name != all.entries[j].name
    ensures u.name != v.name
  {
    hide UpdateAt, Companion, IsDir, IsOwn;
    UpdateNames(t, path, alg, publisher, all, i);
    UpdateNames(t, path, alg, publisher, all, j);
    CompanionsDiffer(all.entries[i].name, all.entries[j].name);
    assert t.detect(Companion(all.entries[i].name)).Unknown? && t.detect(Companion(all.entries[j].name)).Unknown?;
    hide PlainNames;
    assert IsWorkedOn(t, path, u.name) ==> u.name == all.entries[i].name;
  }

  lemma {:induction false} UpdatesDiffer(t: Tool, path: string, alg: VsixHash, publisher: Option<string>, all: Node,
                                         k: nat)
    requires PlainNames(t) && all.Archive? && k <= |all.entries|
    requires UpdatesFrom(t, path, alg, publisher, all, k).Ok? && WorkedOnOnce(t, path, all.entries, k)
    ensures NamesDiffer(UpdatesFrom(t, path, alg, publisher, all, k).value)
    decreases |all.entries| - k
  {
    if k < |all.entries| {
      UpdatesDiffer(t, path, alg, publisher, all, k + 1);
      OwnUpdatesDiffer(t, path, alg, publisher, all, k);
      UpdateNames(t, path, alg, publisher, all, k);
      var us := UpdateAt(t, path, alg, publisher, all, k).value;
      var rest := UpdatesFrom(t, path, alg, publisher, all, k + 1).value;
      hide UpdateAt, UpdatesFrom, PlainNames, NamesDiffer, IsSelected, IsAppInstaller;
      forall u <- us, v <- rest ensures u.name != v.name {
        var j := CollectedWasPushed(t, path, alg, publisher, all, k + 1, v);
        PushesDiffer(t, path, alg, publisher, all, k, j, u, v);
      }
      Apart(us, rest);
    }
  }

  lemma DifferMeansOnce(t: Tool, path: string, alg: VsixHash, publisher: Option<string>, all: Node)
    requires PlainNames(t) && all.Archive? && UpdatesFrom(t, path, alg, publisher, all, 0).Ok?
    requires NamesDiffer(UpdatesFrom(t, path, alg, publisher, all, 0).value)
    ensures WorkedOnOnce(t, path, all.entries, 0)
  {
    hide NamesDiffer, UpdatesFrom, PlainNames, IsSelected, IsAppInstaller, Contains;
    forall i, j | 0 <= i < j < |all.entries| && IsWorkedOn(t, path, all.entries[i].name)
      ensures all.entries[i].name != all.entries[j].name
    {
      if all.entries[i].name == all.entries[j].name {
        PusherIsFirst(t, path, alg, publisher, all, j, UpdatesFrom(t, path, alg, publisher, all, 0).value);
        ContainsAt(all.entries[..j], i);
      }
    }
  }

  lemma ContainsAt(entries: seq<Entry>, i: nat)
    requires i < |entries|
    ensures Contains(entries, entries[i].name)
  {
    assert entries[i] in entries;
  }

  // ----- the names that are pushed -----

  /** A companion has a safe name if its descriptor has. */
  lemma CompanionIsSafe(name: string)
    requires SafeName(name) && !IsDir(name)
    ensures SafeName(Companion(name))
  {
    var c := Companion(name);
    SafeExactly(name);
    SafeExactly(c);
    hide SafeName;
    assert c[..|name|] == name && c[|name|..] == ".p7";
    forall i: nat, j: nat | IsPart(c, i, j) ensures c[i..j] != "." && c[i..j] != ".." {
      if j < |name| {
        assert IsPart(name, i, j) && c[i..j] == name[i..j];
      } else {
        assert j == |c|;
      }
    }
  }

  lemma PushedIsSafe(t: Tool, path: string, alg: VsixHash, publisher: Option<string>, all: Node, k: nat, u: Update)
    requires PlainNames(t) && all.Archive? && k < |all.entries| && UpdateAt(t, path, alg, publisher, all, k).Ok?
    requires u in UpdateAt(t, path, alg, publisher, all, k).value
    ensures SafeName(u.name)
  {
    UpdateNames(t, path, alg, publisher, all, k);
    UpdateSucceeds(t, path, alg, publisher, all, k);
    var name := all.entries[k].name;
    assert !IsDir(name) && SafeName(name);
    CompanionIsSafe(name);
    hide UpdateAt, SafeName, IsDir, Companion;
  }

  lemma PushesNothing(t: Tool, path: string, alg: VsixHash, publisher: Option<string>, all: Node)
    requires PlainNames(t) && all.Archive? && UpdatesFrom(t, path, alg, publisher, all, 0).Ok?
    ensures UpdatesFrom(t, path, alg, publisher, all, 0).value == []
            <==> forall k | 0 <= k < |all.entries| :: !IsWorkedOn(t, path, all.entries[k].name)
  {
    hide UpdatesFrom, UpdateAt, PlainNames, IsSelected, IsAppInstaller;
    var us := UpdatesFrom(t, path, alg, publisher, all, 0).value;
    if us == [] {
      forall k | 0 <= k < |all.entries| ensures !IsWorkedOn(t, path, all.entries[k].name) {
        if IsWorkedOn(t, path, all.entries[k].name) {
          var pushed := PushesName(t, path, alg, publisher, all, k);
          PushedIsCollected(t, path, alg, publisher, all, 0, k);
        }
      }
    } else {
      var k := CollectedWasPushed(t, path, alg, publisher, all, 0, us[0]);
      UpdateNames(t, path, alg, publisher, all, k);
      assert IsWorkedOn(t, path, all.entries[k].name);
    }
  }

  // ----- a package's entries -----

  /** Signing what is in a package succeeds exactly if no entry stops it and, when there is anything to work on, no two
      such entries have one name and every name in the package is safe. */
  lemma NestedSucceeds(t: Tool, path: string, alg: VsixHash, publisher: Option<string>, node: Node)
    requires PlainNames(t)
    ensures SignNested(t, path, alg, publisher, node).Ok?
            <==> && node.Archive?
                 && (forall e <- node.entries :: CanBeDone(t, path, alg, publisher, node.entries, e))
                 && ((exists e <- node.entries :: IsWorkedOn(t, path, e.name))
                     ==> WorkedOnOnce(t, path, node.entries, 0) && SafeNames(node.entries))
  {
    if node.Archive? {
      EntriesSucceed(t, path, alg, publisher, node);
      hide UpdatesFrom, Repack, PlainNames, CanBeDone, IsWorkedOn, WorkedOnOnce, SafeNames, NamesDiffer;
      var updates := UpdatesFrom(t, path, alg, publisher, node, 0);
      if updates.Ok? {
        PushesNothing(t, path, alg, publisher, node);
        assert (exists e <- node.entries :: IsWorkedOn(t, path, e.name)) <==> updates.value != [];
        RepackSucceeds(node.entries, updates.value, t.now);
        UpdatesAreSafe(t, path, alg, publisher, node);
        if NamesDiffer(updates.value) { DifferMeansOnce(t, path, alg, publisher, node); }
        if WorkedOnOnce(t, path, node.entries, 0) { UpdatesDiffer(t, path, alg, publisher, node, 0); }
      }
    }
  }

  lemma EntriesSucceed(t: Tool, path: string, alg: VsixHash, publisher: Option<string>, node: Node)
    requires node.Archive?
    ensures UpdatesFrom(t, path, alg, publisher, node, 0).Ok?
            <==> forall e <- node.entries :: CanBeDone(t, path, alg, publisher, node.entries, e)
  {
    hide UpdatesFrom, UpdateAt, CanBeDone;
    if UpdatesFrom(t, path, alg, publisher, node, 0).Ok? {
      forall e <- node.entries ensures CanBeDone(t, path, alg, publisher, node.entries, e) {
        var k :| 0 <= k < |node.entries| && node.entries[k] == e;
        PushedIsCollected(t, path, alg, publisher, node, 0, k);
        UpdateSucceeds(t, path, alg, publisher, node, k);
      }
    } else {
      var k := Stopper(t, path, alg, publisher, node, 0);
      UpdateSucceeds(t, path, alg, publisher, node, k);
      assert node.entries[k] in node.entries;
    }
  }

  lemma UpdatesAreSafe(t: Tool, path: string, alg: VsixHash, publisher: Option<string>, node: Node)
    requires PlainNames(t) && node.Archive? && UpdatesFrom(t, path, alg, publisher, node, 0).Ok?
    ensures forall u <- UpdatesFrom(t, path, alg, publisher, node, 0).value :: SafeName(u.name)
  {
    hide UpdatesFrom, UpdateAt, PlainNames, SafeName;
    forall u <- UpdatesFrom(t, path, alg, publisher, node, 0).value ensures SafeName(u.name) {
      var k := CollectedWasPushed(t, path, alg, publisher, node, 0, u);
      PushedIsSafe(t, path, alg, publisher, node, k, u);
    }
  }

  // ----- the names in a package whose entries are signed -----

  /** Nothing is renamed, and only companions are new. */
  lemma NestedNames(t: Tool, path: string, alg: VsixHash, publisher: Option<string>, node: Node)
    requires PlainNames(t) && SignNested(t, path, alg, publisher, node).Ok?
    ensures var es, out := node.entries, SignNested(t, path, alg, publisher, node).value;
            && |es| <= |out|
            && (forall k | 0 <= k < |es| :: out[k].name == es[k].name)
            && (forall o <- out[|es|..] :: NewCompanion(t, path, es, o.name))
            && (out != es ==> SafeNames(es))
  {
    hide UpdatesFrom, UpdateAt, Repack, PlainNames, IsSelected, IsAppInstaller, Companion, NamesDiffer, Find, SafeNames;
    hide Contains;
    var es := node.entries;
    var updates := UpdatesFrom(t, path, alg, publisher, node, 0).value;
    if updates != [] {
      RepackDoes(es, updates, t.now);
      RepackSucceeds(es, updates, t.now);
      var out := SignNested(t, path, alg, publisher, node).value;
      forall k | 0 <= k < |es| ensures out[k].name == es[k].name {
        assert out[k] == Outcome(es, updates, t.now, k);
        if Pends(updates, es[k].name) { FindIs(updates, es[k].name); }
      }
      forall o <- out[|es|..] ensures NewCompanion(t, path, es, o.name) {
        var u :| u in updates && o == Rewritten(u, t.now) && !Contains(es, u.name);
        AddedIsCompanion(t, path, alg, publisher, node, u);
      }
    }
  }

  predicate NewCompanion(t: Tool, path: string, entries: seq<Entry>, name: string) {
    exists e <- entries :: IsAppInstaller(t, path, e.name) && SafeName(e.name) && name == Companion(e.name)
  }

  lemma AddedIsCompanion(t: Tool, path: string, alg: VsixHash, publisher: Option<string>, node: Node, u: Update)
    requires PlainNames(t) && node.Archive? && UpdatesFrom(t, path, alg, publisher, node, 0).Ok?
    requires u in UpdatesFrom(t, path, alg, publisher, node, 0).value && !Contains(node.entries, u.name)
    ensures NewCompanion(t, path, node.entries, u.name)
  {
    var k := CollectedWasPushed(t, path, alg, publisher, node, 0, u);
    UpdateNames(t, path, alg, publisher, node, k);
    UpdateSucceeds(t, path, alg, publisher, node, k);
    hide UpdatesFrom, UpdateAt, PlainNames, Companion, SafeName, IsDir;
    assert node.entries[k] in node.entries;
  }

  /** So the signed package holds a file of the format, or an old signature, exactly if the package did. */
  lemma NestedHolds(t: Tool, path: string, alg: VsixHash, publisher: Option<string>, node: Node)
    requires PlainNames(t) && SignNested(t, path, alg, publisher, node).Ok?
    ensures var es, out := node.entries, SignNested(t, path, alg, publisher, node).value;
            && (forall name | IsOwn(name) :: Contains(out, name) <==> Contains(es, name))
            && (HoldsOpcSignature(out) <==> HoldsOpcSignature(es))
            && (SafeNames(out) <==> SafeNames(es))
  {
    NestedNames(t, path, alg, publisher, node);
    hide SignNested, PlainNames, IsOwn, SafeName, IsAppInstaller, Companion, IsOpcSignature;
    var es, out := node.entries, SignNested(t, path, alg, publisher, node).value;
    assert out == out[..|es|] + out[|es|..];
    forall o <- out[|es|..]
      ensures !IsOwn(o.name) && SafeName(o.name) && (IsOpcSignature(o.name) ==> HoldsOpcSignature(es))
    {
      var e :| e in es && IsAppInstaller(t, path, e.name) && SafeName(e.name) && o.name == Companion(e.name);
      CompanionOf(t, path, e.name);
    }
    forall k | 0 <= k < |es| ensures es[k] in es && out[k] in out {}
  }

  predicate HoldsOpcSignature(entries: seq<Entry>) {
    exists e <- entries :: IsOpcSignature(e.name)
  }

  lemma CompanionOf(t: Tool, path: string, name: string)
    requires PlainNames(t) && IsAppInstaller(t, path, name) && SafeName(name)
    ensures !IsOwn(Companion(name)) && SafeName(Companion(name))
    ensures IsOpcSignature(Companion(name)) ==> IsOpcSignature(name)
  {
    CompanionIsSafe(name);
    CompanionIsNotOwn(name);
    SignaturesPrefix(name);
    SignatureNamesAreOwn();
    hide SafeName, IsOwn, Companion, ORIGIN, ORIGIN_RELS, SIGNATURES, PlainNames;
  }

  // ----- NuGet packages -----

  /** The signer signs the package as it is without an old signature. */
  predicate NugetCanBeSealed(t: Tool, path: string, updated: seq<Entry>) {
    var signature := t.signData(path, t.nugetContent(WithoutName(updated, NUGET_SIGNATURE)));
    signature.Ok? && signature.value != []
  }

  /** Signing a NuGet package succeeds exactly if it is an archive and is skipped as signed, or its entries can be
      signed, every name in it is safe, a signature in it may be overwritten, and it can be sealed. */
  lemma NugetSucceeds(t: Tool, path: string, node: Node)
    requires PlainNames(t)
    ensures var nested := SignNested(t, path, Sha256, None, node);
            SignNuget(t, path, node).Ok?
            <==> || WasSkipped(t, Nuget, node)
                 || (&& nested.Ok? && SafeNames(node.entries)
                     && (t.overwrite || !Contains(node.entries, ".signature.p7s"))
                     && NugetCanBeSealed(t, path, nested.value))
  {
    if node.Archive? {
      SignatureDecision(false, node.entries);
      UnsafeIsNotSafe(false, node.entries);
      var nested := SignNested(t, path, Sha256, None, node);
      if nested.Ok? {
        NestedHolds(t, path, Sha256, None, node);
        SignatureNamesAreOwn();
        WithoutIsSafe(nested.value, NUGET_SIGNATURE);
      }
    }
    hide SignNested, HasSignature, SafeNames, Contains, PlainNames, IsOwn, WithoutName, CarriesSignature, IsUnreadable;
    hide HoldsOpcSignature;
  }

  lemma WithoutIsSafe(entries: seq<Entry>, name: string)
    ensures !Contains(WithoutName(entries, name), name)
    ensures SafeNames(entries) ==> SafeNames(WithoutName(entries, name))
  {
    hide SafeName;
    WithoutNameKeeps(entries, name);
  }

  lemma UnsafeIsNotSafe(vsix: bool, entries: seq<Entry>)
    ensures IsUnreadable(vsix, entries) ==> !SafeNames(entries)
  {
    hide SafeName, IsSignatureFile;
    forall k | 0 <= k < |entries| ensures entries[k] in entries {}
  }

  // ----- VSIX packages -----

  /** The content types and root relationships of the package can be completed, or new ones made. */
  predicate PartsCanBePatched(t: Tool, entries: seq<Entry>) {
    && (forall e <- entries :: e.name == "[Content_Types].xml" ==> t.patchTypes(Some(e.node)).Ok?)
    && (forall e <- entries :: e.name == "_rels/.rels" ==> t.patchRels(Some(e.node)).Ok?)
    && (!Contains(entries, "[Content_Types].xml") ==> t.patchTypes(None).Ok?)
    && (!Contains(entries, "_rels/.rels") ==> t.patchRels(None).Ok?)
  }

  lemma PartSucceeds(t: Tool, e: Entry)
    ensures VsixPart(t, e).Ok?
            <==> && (e.name == CONTENT_TYPES ==> t.patchTypes(Some(e.node)).Ok?)
                 && (e.name == ROOT_RELS ==> t.patchRels(Some(e.node)).Ok?)
  {
    OwnFilesEnd();
    TypesAreNotRels();
    hide CONTENT_TYPES, ROOT_RELS;
  }

  lemma TypesAreNotRels()
    ensures CONTENT_TYPES != ROOT_RELS && !IsOpcSignature(CONTENT_TYPES) && !IsOpcSignature(ROOT_RELS)
  {
    assert CONTENT_TYPES[0] == '[' && ROOT_RELS[0] == '_' && ORIGIN[0] == ORIGIN_RELS[0] == SIGNATURES[0] == 'p';
  }

  lemma {:induction false} PartsSucceed(t: Tool, entries: seq<Entry>, overwrite: bool)
    ensures VsixParts(t, entries, overwrite).Ok?
            <==> && SafeNames(entries) && (overwrite || !HoldsOpcSignature(entries))
                 && forall e <- entries | !IsOpcSignature(e.name) :: VsixPart(t, e).Ok?
  {
    hide SafeName, VsixPart, IsOpcSignature;
    if entries != [] {
      PartsSucceed(t, entries[1..], overwrite);
      assert entries[0] in entries;
      forall e <- entries[1..] ensures e in entries {}
      forall e <- entries ensures e == entries[0] || e in entries[1..] {}
    }
  }

  lemma PartsHold(t: Tool, entries: seq<Entry>, overwrite: bool, name: string)
    requires VsixParts(t, entries, overwrite).Ok? && !IsOpcSignature(name)
    ensures Contains(VsixParts(t, entries, overwrite).value, name) <==> Contains(entries, name)
  {
    PartsAre(t, entries, overwrite);
    RetainedAre(Vsix, entries);
    hide VsixParts, VsixPart, IsOpcSignature, Retained;
    var parts, kept := VsixParts(t, entries, overwrite).value, Retained(Vsix, entries);
    forall k | 0 <= k < |kept| ensures parts[k].name == kept[k].name && kept[k] in kept && parts[k] in parts {
      PartIs(t, kept[k]);
    }
    if Contains(entries, name) {
      var e :| e in entries && e.name == name;
      assert e in kept;
    }
  }

  /** The package can be prepared exactly if its parts can be completed and old signatures may go. */
  lemma PreparedSucceeds(t: Tool, entries: seq<Entry>, overwrite: bool)
    ensures VsixPrepared(t, entries, overwrite).Ok?
            <==> && SafeNames(entries) && (overwrite || !HoldsOpcSignature(entries)) && PartsCanBePatched(t, entries)
  {
    TypesAreNotRels();
    PartsSucceed(t, entries, overwrite);
    forall e <- entries | !IsOpcSignature(e.name)
      ensures VsixPart(t, e).Ok?
              <==> && (e.name == CONTENT_TYPES ==> t.patchTypes(Some(e.node)).Ok?)
                   && (e.name == ROOT_RELS ==> t.patchRels(Some(e.node)).Ok?)
    {
      PartSucceeds(t, e);
    }
    if VsixParts(t, entries, overwrite).Ok? {
      PartsHold(t, entries, overwrite, CONTENT_TYPES);
      PartsHold(t, entries, overwrite, ROOT_RELS);
    }
    hide VsixParts, VsixPart, Contains, SafeNames, HoldsOpcSignature, IsOpcSignature, CONTENT_TYPES, ROOT_RELS, ORIGIN;
    hide ORIGIN_RELS;
  }

  /** The hashes of the parts can be made and signed. */
  predicate VsixCanBeSealed(t: Tool, path: string, alg: VsixHash, updated: seq<Entry>) {
    && VsixPrepared(t, updated, true).Ok?
    && var info := t.vsixInfo(alg, VsixPrepared(t, updated, true).value);
    && info.Ok? && t.signInfo(path, info.value).Ok? && t.signInfo(path, info.value).value != []
  }

  /** Signing a VSIX succeeds exactly if it is an archive and is skipped as signed, or its entries can be signed, every
      name in it is safe, a signature in it may be overwritten, its parts can be completed, and it can be sealed. */
  lemma VsixSucceeds(t: Tool, path: string, alg: VsixHash, node: Node)
    requires PlainNames(t)
    ensures var nested := SignNested(t, path, alg, None, node);
            SignVsix(t, path, alg, node).Ok?
            <==> || WasSkipped(t, Vsix, node)
                 || (&& nested.Ok? && SafeNames(node.entries)
                     && (t.overwrite || !HoldsOpcSignature(node.entries))
                     && PartsCanBePatched(t, nested.value) && VsixCanBeSealed(t, path, alg, nested.value))
  {
    if node.Archive? {
      SignatureDecision(true, node.entries);
      UnsafeIsNotSafe(true, node.entries);
      var nested := SignNested(t, path, alg, None, node);
      if nested.Ok? {
        NestedHolds(t, path, alg, None, node);
        PreparedSucceeds(t, nested.value, true);
        PreparedSucceeds(t, nested.value, t.overwrite);
      }
    }
    hide SignNested, HasSignature, SafeNames, Contains, PlainNames, CarriesSignature, IsUnreadable, VsixPrepared;
    hide HoldsOpcSignature, PartsCanBePatched, VSIX_SIGNATURE;
  }

  // ----- MSIX and AppX packages -----

  predicate AtMostOne(entries: seq<Entry>, name: string) {
    forall i, j :: 0 <= i < j < |entries| && entries[i].name == name ==> entries[j].name != name
  }

  /** The publisher can be set: in the one manifest the package has, or in its bundle manifest; only uploads have
      neither. */
  predicate PublisherFits(t: Tool, kind: Kind, publisher: Option<string>, entries: seq<Entry>) {
    publisher.None?
    || (if Contains(entries, "AppxManifest.xml") then
          && publisher.value != "" && SafeNames(entries)
          && (forall e <- entries :: e.name == "AppxManifest.xml" ==> t.manifestPublisher(e.node, publisher.value).Ok?)
          && AtMostOne(entries, "AppxManifest.xml")
        else if Contains(entries, "AppxMetadata/AppxBundleManifest.xml") then
          && publisher.value != "" && SafeNames(entries)
          && var e := ByName(entries, "AppxMetadata/AppxBundleManifest.xml");
          e.Some? && t.bundlePublisher(e.value.node, publisher.value).Ok?
        else kind.AppxUpload? || kind.MsixUpload?)
  }

  lemma {:induction false} ManifestsSucceed(t: Tool, entries: seq<Entry>, publisher: string)
    ensures ManifestUpdates(t, entries, publisher).Ok?
            <==> && BlockMap.FileNamesSafe(entries)
                 && forall e <- entries :: e.name == APPX_MANIFEST ==> t.manifestPublisher(e.node, publisher).Ok?
  {
    OwnFilesEnd();
    hide SafeName, APPX_MANIFEST;
    if entries != [] {
      ManifestsSucceed(t, entries[1..], publisher);
      assert entries[0] in entries;
      forall e <- entries[1..] ensures e in entries {}
      forall e <- entries ensures e == entries[0] || e in entries[1..] {}
    }
  }

  lemma {:induction false} FewManifests(t: Tool, entries: seq<Entry>, publisher: string)
    requires ManifestUpdates(t, entries, publisher).Ok? && AtMostOne(entries, APPX_MANIFEST)
    ensures |ManifestUpdates(t, entries, publisher).value| <= 1
    ensures !Contains(entries, APPX_MANIFEST) ==> ManifestUpdates(t, entries, publisher).value == []
  {
    hide ManifestUpdates, APPX_MANIFEST;
    if entries == [] {
      NoManifests(t, publisher);
    } else {
      ManifestStep(t, entries, publisher);
      FewManifests(t, entries[1..], publisher);
      assert entries[0] in entries;
      forall e <- entries[1..] ensures e in entries {}
    }
  }

  lemma NoManifests(t: Tool, publisher: string)
    ensures ManifestUpdates(t, [], publisher) == Ok([])
  {
  }

  lemma OneManifest(t: Tool, entries: seq<Entry>, publisher: string)
    requires ManifestUpdates(t, entries, publisher).Ok? && Contains(entries, APPX_MANIFEST)
    ensures ManifestUpdates(t, entries, publisher).value != []
    ensures NamesDiffer(ManifestUpdates(t, entries, publisher).value)
            <==> AtMostOne(entries, APPX_MANIFEST)
  {
    hide ManifestUpdates, APPX_MANIFEST;
    var e :| e in entries && e.name == APPX_MANIFEST;
    var k :| 0 <= k < |entries| && entries[k] == e;
    ManifestPushes(t, entries, publisher, k);
    if i, j :| 0 <= i < j < |entries| && entries[i].name == APPX_MANIFEST && entries[j].name == APPX_MANIFEST {
      ManifestsCollide(t, entries, publisher, i, j);
    } else {
      FewManifests(t, entries, publisher);
    }
  }

  lemma ManifestFits(t: Tool, kind: Kind, publisher: string, entries: seq<Entry>)
    requires Contains(entries, APPX_MANIFEST)
    ensures WithPublisher(t, kind, entries, Some(publisher)).Ok? <==> PublisherFits(t, kind, Some(publisher), entries)
  {
    hide ManifestUpdates, Contains, ByName, Repack, SafeName, SafeNames, NamesDiffer, AtMostOne, BlockMap.FileNamesSafe;
    ManifestNamesAreSafe();
    ManifestsSucceed(t, entries, publisher);
    SafeFiles(entries);
    var updates := ManifestUpdates(t, entries, publisher);
    if updates.Ok? {
      ManifestNames(t, entries, publisher);
      OneManifest(t, entries, publisher);
      RepackSucceeds(entries, updates.value, t.now);
    }
  }

  lemma BundleFits(t: Tool, kind: Kind, publisher: string, entries: seq<Entry>)
    requires !Contains(entries, APPX_MANIFEST) && Contains(entries, BlockMap.BUNDLE_MANIFEST)
    ensures WithPublisher(t, kind, entries, Some(publisher)).Ok? <==> PublisherFits(t, kind, Some(publisher), entries)
  {
    ManifestNamesAreSafe();
    hide ManifestUpdates, Contains, ByName, Repack, SafeName, SafeNames, AtMostOne;
    var e := ByName(entries, BlockMap.BUNDLE_MANIFEST);
    if e.Some? && t.bundlePublisher(e.value.node, publisher).Ok? {
      var node := t.bundlePublisher(e.value.node, publisher).value;
      RepackSucceeds(entries, [Update(BlockMap.BUNDLE_MANIFEST, node, Deflated)], t.now);
    }
  }

  lemma PublisherSucceeds(t: Tool, kind: Kind, publisher: Option<string>, entries: seq<Entry>)
    requires IsMsixFamily(kind)
    ensures WithPublisher(t, kind, entries, publisher).Ok? <==> PublisherFits(t, kind, publisher, entries)
  {
    hide ManifestUpdates, Contains, ByName, Repack, SafeNames, AtMostOne;
    if publisher.Some? {
      if Contains(entries, APPX_MANIFEST) {
        ManifestFits(t, kind, publisher.value, entries);
      } else if Contains(entries, BlockMap.BUNDLE_MANIFEST) {
        BundleFits(t, kind, publisher.value, entries);
      }
    }
  }

  lemma SafeFiles(entries: seq<Entry>)
    ensures SafeNames(entries) ==> BlockMap.FileNamesSafe(entries)
  {
  }

  lemma ManifestNamesAreSafe()
    ensures SafeName(APPX_MANIFEST) && SafeName(BlockMap.BUNDLE_MANIFEST) && SafeName(BlockMap.BLOCK_MAP)
  {
    ManifestIsSafe();
    BundleManifestIsSafe();
    hide SafeName;
  }

  lemma ManifestIsSafe()
    ensures SafeName(APPX_MANIFEST) && SafeName(BlockMap.BLOCK_MAP)
  {
    FlatIsSafe(APPX_MANIFEST);
    FlatIsSafe(BlockMap.BLOCK_MAP);
    hide SafeName;
  }

  lemma BundleManifestIsSafe()
    ensures SafeName(BlockMap.BUNDLE_MANIFEST)
  {
    hide SafeName;
    var file := "AppxBundleManifest.xml";
    FlatIsSafe(file);
    BelowIsSafe("AppxMetadata", file);
    BundleManifestParts();
  }

  lemma BundleManifestParts()
    ensures BlockMap.BUNDLE_MANIFEST == "AppxMetadata" + "/" + "AppxBundleManifest.xml"
  {
  }

  lemma {:induction false} LastOf(entries: seq<Entry>, name: string)
    ensures ByName(entries, name).Some? <==> Contains(entries, name)
  {
    if entries != [] {
      var n := |entries| - 1;
      LastOf(entries[..n], name);
      assert entries[n] in entries;
      forall e <- entries[..n] ensures e in entries {}
      forall e <- entries ensures e == entries[n] || e in entries[..n] {}
    }
  }

  lemma RefreshedSucceeds(f: BlockMap.Format, entries: seq<Entry>, now: int)
    ensures BlockMap.Refreshed(f, entries, now).Ok? <==> (Contains(entries, BlockMap.BLOCK_MAP) ==> SafeNames(entries))
  {
    ManifestNamesAreSafe();
    SafeFiles(entries);
    LastOf(entries, BlockMap.BUNDLE_MANIFEST);
    hide Contains, ByName, Repack, SafeName, SafeNames, BlockMap.BLOCK_MAP, BlockMap.BUNDLE_MANIFEST, BlockMap.MapsOf;
    hide BlockMap.MapOf, BlockMap.FileNamesSafe;
    var maps := BlockMap.Rebuild(f, entries);
    if maps.Ok? {
      RepackSucceeds(entries, [Update(BlockMap.BLOCK_MAP, Blob(f.render(maps.value)), Stored)], now);
    }
  }

  /** An MSIX or AppX package can be prepared exactly if it is an archive without a signature, its entries can be
      signed, its publisher can be set, and a block map in it, which is made anew, stands among safe names. */
  lemma PrepareSucceeds(t: Tool, path: string, alg: VsixHash, kind: Kind, publisher: Option<string>, node: Node)
    requires PlainNames(t) && IsMsixFamily(kind)
    ensures var nested := SignNested(t, path, alg, publisher, node);
            Prepare(t, path, alg, kind, publisher, node).Ok?
            <==> && nested.Ok? && !Contains(node.entries, "AppxSignature.p7x")
                 && PublisherFits(t, kind, publisher, nested.value)
                 && (Contains(node.entries, "AppxBlockMap.xml") ==> SafeNames(node.entries))
  {
    assert SignNested(t, path, alg, publisher, node).Ok? ==> node.Archive?;
    hide SignNested, SafeNames, Contains, PlainNames, WithPublisher, BlockMap.Refreshed, PublisherFits, IsMsixFamily;
    hide AllPublished, HoldsOpcSignature;
    if node.Archive? {
      var nested := SignNested(t, path, alg, publisher, node);
      if nested.Ok? {
        NestedHolds(t, path, alg, publisher, node);
        PublisherSucceeds(t, kind, publisher, nested.value);
        var updated := WithPublisher(t, kind, nested.value, publisher);
        if updated.Ok? {
          RefreshedSucceeds(t.format, updated.value, t.now);
          PublisherDoes(t, kind, nested.value, publisher);
          PublishedNames(t, kind, publisher, nested.value, updated.value);
        }
      }
    }
  }

  lemma PublishedNames(t: Tool, kind: Kind, publisher: Option<string>, a: seq<Entry>, b: seq<Entry>)
    requires AllPublished(t, kind, publisher, a, b)
    ensures forall name :: Contains(a, name) <==> Contains(b, name)
    ensures SafeNames(a) <==> SafeNames(b)
  {
    assert forall k | 0 <= k < |a| :: Published(t, kind, publisher, a, k, b[k]);
    hide Rewrites, IsOwnOf, SafeName;
    forall k | 0 <= k < |a| ensures a[k].name == b[k].name && a[k] in a && b[k] in b {}
    hide Published;
    forall name ensures Contains(a, name) <==> Contains(b, name) { BlockMap.SameNames(a, b, name); }
    forall e <- a ensures exists k :: 0 <= k < |a| && a[k] == e && b[k].name == e.name {}
    forall e <- b ensures exists k :: 0 <= k < |b| && b[k] == e && a[k].name == e.name {}
  }
}
