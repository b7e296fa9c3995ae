/** Recursive package signing: the packages inside a package are signed first, then the package around them. */
module PackageSigning {
  import opened Wrappers
  import opened Zip
  import BlockMap

  // ----- formats and names -----

  /** `OtherSignable` stands for the formats that can be signed only outside a package. */
  datatype Kind =
    | Nuget | Snupkg | Vsix | AppInstaller | ClickOnceApplication | Vsto | Manifest | Deploy | Pe | Winmd
    | Msix | Appx | MsixBundle | AppxBundle | AppxUpload | MsixUpload | OtherSignable | ZipFile | Unknown

  datatype VsixHash = Sha256 | Sha384 | Sha512

  const NUGET_SIGNATURE := ".signature.p7s"
  const CONTENT_TYPES := "[Content_Types].xml"
  const ROOT_RELS := "_rels/.rels"
  const ORIGIN := "package/services/digital-signature/" + "origin.psdsor"
  const ORIGIN_RELS := "package/services/digital-signature/" + "_rels/origin.psdsor.rels"
  const SIGNATURES := "package/services/digital-signature/" + "xml-signature/"
  const VSIX_SIGNATURE := SIGNATURES + "psign-signature.psdsxs"
  const APPX_MANIFEST := "AppxManifest.xml"

  predicate IsOpcSignature(name: string) {
    name == ORIGIN || name == ORIGIN_RELS || SIGNATURES <= name
  }

  predicate IsMsixFamily(kind: Kind) {
    kind.Msix? || kind.Appx? || kind.MsixBundle? || kind.AppxBundle? || kind.AppxUpload? || kind.MsixUpload?
  }

  predicate IsClickOnce(kind: Kind) {
    kind.ClickOnceApplication? || kind.Vsto? || kind.Manifest?
  }

  /** What the run is given: options, the format table, and the signing and hashing operations, which this model does
      not look into. `attested` is the content a signature was made over. */
  datatype Tool = Tool(
    detect: string -> Kind,
    excluded: (string, string) -> bool,
    skipSigned: bool,
    overwrite: bool,
    now: int,
    signData: (string, Bytes) -> Result<Bytes>,
    signInfo: (string, Bytes) -> Result<Bytes>,
    attested: Bytes -> Bytes,
    nugetContent: seq<Entry> -> Bytes,
    vsixInfo: (VsixHash, seq<Entry>) -> Result<Bytes>,
    patchTypes: Option<Node> -> Result<Node>,
    patchRels: Option<Node> -> Result<Node>,
    originRels: Node,
    leaf: (Kind, VsixHash, string, Node) -> Result<Node>,
    clickOnceSigned: Node -> bool,
    appInstallerValid: Node -> bool,
    appInstallerPublisher: (Node, string) -> Result<Node>,
    detached: (string, Node) -> Result<Bytes>,
    manifestPublisher: (Node, string) -> Result<Node>,
    bundlePublisher: (Node, string) -> Result<Node>,
    format: BlockMap.Format)

  /** A signature covers what it was made over. */
  ghost predicate Lawful(t: Tool) {
    && (forall path, content :: t.signData(path, content).Ok? ==>
       t.attested(t.signData(path, content).value) == content)
    && (forall path, content :: t.signInfo(path, content).Ok? ==>
       t.attested(t.signInfo(path, content).value) == content)
  }

  predicate IsContainer(kind: Kind) {
    kind.Nuget? || kind.Snupkg? || kind.Vsix? || IsMsixFamily(kind)
  }

  /** Names the run writes itself. */
  predicate IsOwn(name: string) {
    || name == NUGET_SIGNATURE || name == CONTENT_TYPES || name == ROOT_RELS
    || name == ORIGIN || name == ORIGIN_RELS || name == VSIX_SIGNATURE
    || name == APPX_MANIFEST || name == BlockMap.BUNDLE_MANIFEST || name == BlockMap.BLOCK_MAP
  }

  function Companion(name: string): string {
    name + ".p7"
  }

  /** Files that are signed without looking inside. */
  predicate IsLeaf(kind: Kind) {
    IsClickOnce(kind) || kind.Deploy? || kind.Pe? || kind.Winmd?
  }

  /** The format table knows none of the names the run writes. */
  ghost predicate PlainNames(t: Tool) {
    && (forall name: string :: IsOwn(name) ==> t.detect(name).Unknown?)
    && (forall name: string :: t.detect(Companion(name)).Unknown?)
  }

  // ----- NuGet -----

  /** `package_has_signature`: the first signature entry decides, an unsafe name in front of it is an error. */
  function HasSignature(vsix: bool, entries: seq<Entry>): Result<bool> {
    if entries == [] then Ok(false)
    else
      var name := entries[0].name;
      if IsDir(name) then HasSignature(vsix, entries[1..])
      else if !SafeName(name) then Err
      else if (if vsix then name == ORIGIN || SIGNATURES <= name else name == NUGET_SIGNATURE) then Ok(true)
      else HasSignature(vsix, entries[1..])
  }

  function WithoutName(entries: seq<Entry>, name: string): seq<Entry> {
    if entries == [] then []
    else (if entries[0].name == name then [] else [entries[0]]) + WithoutName(entries[1..], name)
  }

  /** `canonical_unsigned_package_bytes`. */
  function NugetUnsigned(entries: seq<Entry>): Result<seq<Entry>> {
    if !SafeNames(entries) then Err else Ok(WithoutName(entries, NUGET_SIGNATURE))
  }

  /** `nuget::embed_signature` without overwriting. */
  function EmbedNuget(entries: seq<Entry>, signature: Bytes, now: int): Result<seq<Entry>> {
    if signature == [] || !SafeNames(entries) || Contains(entries, NUGET_SIGNATURE) then Err
    else Ok(entries + [Entry(NUGET_SIGNATURE, Blob(signature), Stored, now)])
  }

  // ----- VSIX -----

  /** One part, copied into a signed VSIX; the content types and the root relationships are completed. */
  function VsixPart(t: Tool, e: Entry): Result<Entry> {
    if IsDir(e.name) then Ok(Entry(e.name, e.node, e.compression, t.now))
    else
      var node := if e.name == CONTENT_TYPES then t.patchTypes(Some(e.node))
                  else if e.name == ROOT_RELS then t.patchRels(Some(e.node)) else Ok(e.node);
      match node case Err => Err case Ok(n) => Ok(Entry(e.name, n, e.compression, t.now))
  }

  /** The parts that are copied: all but old signature parts, which are an error unless they may be overwritten. */
  function VsixParts(t: Tool, entries: seq<Entry>, overwrite: bool): Result<seq<Entry>> {
    if entries == [] then Ok([])
    else if !SafeName(entries[0].name) then Err
    else if IsOpcSignature(entries[0].name) then if overwrite then VsixParts(t, entries[1..], overwrite) else Err
    else match (VsixPart(t, entries[0]), VsixParts(t, entries[1..], overwrite))
      case (Ok(part), Ok(rest)) => Ok([part] + rest)
      case _ => Err
  }

  /** The part that `write_signed_package` adds when the package has none of that name. */
  function Missing(entries: seq<Entry>, name: string, node: Result<Node>, now: int): Result<seq<Entry>> {
    if Contains(entries, name) then Ok([])
    else match node case Err => Err case Ok(n) => Ok([Entry(name, n, Stored, now)])
  }

  /** `write_signed_package` without the signature part. */
  function VsixPrepared(t: Tool, entries: seq<Entry>, overwrite: bool): Result<seq<Entry>> {
    match VsixParts(t, entries, overwrite)
    case Err => Err
    case Ok(parts) =>
      match (Missing(parts, CONTENT_TYPES, t.patchTypes(None), t.now),
             Missing(parts, ROOT_RELS, t.patchRels(None), t.now))
      case (Ok(types), Ok(rels)) =>
        Ok(parts + types + rels
           + [Entry(ORIGIN, Blob([]), Stored, t.now), Entry(ORIGIN_RELS, t.originRels, Stored, t.now)])
      case _ => Err
  }

  /** `vsix::embed_signature_xml`. */
  function EmbedVsix(t: Tool, entries: seq<Entry>, signature: Bytes): Result<seq<Entry>> {
    if signature == [] then Err
    else match VsixPrepared(t, entries, t.overwrite)
      case Err => Err
      case Ok(prepared) => Ok(prepared + [Entry(VSIX_SIGNATURE, Blob(signature), Stored, t.now)])
  }

  // ----- MSIX and AppX -----

  function ManifestUpdates(t: Tool, entries: seq<Entry>, publisher: string): Result<seq<Update>> {
    if entries == [] then Ok([])
    else
      var e := entries[0];
      match ManifestUpdates(t, entries[1..], publisher)
      case Err => Err
      case Ok(rest) =>
        if IsDir(e.name) then Ok(rest)
        else if !SafeName(e.name) then Err
        else if e.name != APPX_MANIFEST then Ok(rest)
        else match t.manifestPublisher(e.node, publisher)
          case Err => Err
          case Ok(node) => Ok([Update(e.name, node, e.compression)] + rest)
  }

  function RepackIfAny(entries: seq<Entry>, updates: Result<seq<Update>>, now: int): Result<seq<Entry>> {
    match updates case Err => Err case Ok(us) => if us == [] then Err else Repack(entries, us, now)
  }

  /** The publisher step of `prepare_msix_family_bytes`. */
  function WithPublisher(t: Tool, kind: Kind, entries: seq<Entry>, publisher: Option<string>): Result<seq<Entry>> {
    if publisher.None? then Ok(entries)
    else if Contains(entries, APPX_MANIFEST) then
      if publisher.value == "" then Err else RepackIfAny(entries, ManifestUpdates(t, entries, publisher.value), t.now)
    else if Contains(entries, BlockMap.BUNDLE_MANIFEST) then
      var e := ByName(entries, BlockMap.BUNDLE_MANIFEST);
      if publisher.value == "" || e.None? then Err
      else match t.bundlePublisher(e.value.node, publisher.value)
        case Err => Err
        case Ok(node) => Repack(entries, [Update(BlockMap.BUNDLE_MANIFEST, node, Deflated)], t.now)
    else if kind.Msix? || kind.Appx? || kind.MsixBundle? || kind.AppxBundle? then Err
    else Ok(entries)
  }

  // ----- the recursion -----

  function Archived(r: Result<seq<Entry>>): Result<Node> {
    match r case Err => Err case Ok(entries) => Ok(Archive(entries))
  }

  function One(name: string, node: Result<Node>, compression: Compression): Result<seq<Update>> {
    match node case Err => Err case Ok(n) => Ok([Update(name, n, compression)])
  }

  /** A nested App Installer: the descriptor, perhaps with a new publisher, and its companion signature. */
  function AppInstallerUpdates(t: Tool, path: string, publisher: Option<string>, all: seq<Entry>,
                               e: Entry): Result<seq<Update>> {
    if !t.appInstallerValid(e.node) then Err
    else
      var descriptor := if publisher.None? then Ok(e.node)
                        else if publisher.value == "" then Err else t.appInstallerPublisher(e.node, publisher.value);
      if descriptor.Err? || (!t.overwrite && Contains(all, Companion(e.name))) then Err
      else match t.detached(path, descriptor.value)
        case Err => Err
        case Ok(p7) =>
          Ok((if publisher.Some? then [Update(e.name, descriptor.value, e.compression)] else [])
             + [Update(Companion(e.name), Blob(p7), Stored)])
  }

  /** What the loop body of `sign_nested_package_entries` pushes for entry `k`. */
  function UpdateAt(t: Tool, path: string, alg: VsixHash, publisher: Option<string>, all: Node,
                    k: nat): Result<seq<Update>>
    requires all.Archive? && k < |all.entries|
    decreases all, 1, 0
  {
    var e := all.entries[k];
    var nested := path + "!" + e.name;
    if IsDir(e.name) then Ok([])
    else if !SafeName(e.name) then Err
    else if t.excluded(e.name, nested) then Ok([])
    else
      var kind := t.detect(e.name);
      if kind.Nuget? || kind.Snupkg? then One(e.name, SignNuget(t, nested, e.node), e.compression)
      else if kind.Vsix? then One(e.name, SignVsix(t, nested, alg, e.node), e.compression)
      else if kind.AppInstaller? then AppInstallerUpdates(t, nested, publisher, all.entries, e)
      else if IsClickOnce(kind) then
        if t.skipSigned && t.clickOnceSigned(e.node) then Err
        else One(e.name, t.leaf(kind, alg, nested, e.node), e.compression)
      else if kind.Deploy? || kind.Pe? || kind.Winmd? then One(e.name, t.leaf(kind, alg, nested, e.node), e.compression)
      else if IsMsixFamily(kind) then One(e.name, Prepare(t, nested, alg, kind, publisher, e.node), e.compression)
      else if kind.OtherSignable? then Err
      else Ok([])
  }

  function UpdatesFrom(t: Tool, path: string, alg: VsixHash, publisher: Option<string>, all: Node,
                       k: nat): Result<seq<Update>>
    requires all.Archive? && k <= |all.entries|
    decreases all, 2, |all.entries| - k
  {
    if k == |all.entries| then Ok([])
    else match (UpdateAt(t, path, alg, publisher, all, k), UpdatesFrom(t, path, alg, publisher, all, k + 1))
      case (Ok(us), Ok(rest)) => Ok(us + rest)
      case _ => Err
  }

  /** `sign_nested_package_entries`. */
  function SignNested(t: Tool, path: string, alg: VsixHash, publisher: Option<string>, node: Node): Result<seq<Entry>>
    decreases node, 3, 0
  {
    if !node.Archive? then Err
    else match UpdatesFrom(t, path, alg, publisher, node, 0)
      case Err => Err
      case Ok(updates) => if updates == [] then Ok(node.entries) else Repack(node.entries, updates, t.now)
  }

  /** `sign_nuget_bytes`. */
  function SignNuget(t: Tool, path: string, node: Node): Result<Node>
    decreases node, 4, 0
  {
    if !node.Archive? then Err
    else
      var signed := HasSignature(false, node.entries);
      if t.skipSigned && signed == Err then Err
      else if t.skipSigned && signed == Ok(true) then Ok(node)
      else match SignNested(t, path, Sha256, None, node)
        case Err => Err
        case Ok(updated) =>
          if !t.overwrite && Contains(updated, NUGET_SIGNATURE) then Err
          else match NugetUnsigned(updated)
            case Err => Err
            case Ok(unsigned) =>
              match t.signData(path, t.nugetContent(unsigned))
              case Err => Err
              case Ok(signature) => Archived(EmbedNuget(unsigned, signature, t.now))
  }

  /** `sign_vsix_bytes`. */
  function SignVsix(t: Tool, path: string, alg: VsixHash, node: Node): Result<Node>
    decreases node, 4, 0
  {
    if !node.Archive? then Err
    else
      var signed := HasSignature(true, node.entries);
      if t.skipSigned && signed == Err then Err
      else if t.skipSigned && signed == Ok(true) then Ok(node)
      else match SignNested(t, path, alg, None, node)
        case Err => Err
        case Ok(updated) =>
          match VsixPrepared(t, updated, true)
          case Err => Err
          case Ok(prepared) =>
            match t.vsixInfo(alg, prepared)
            case Err => Err
            case Ok(info) =>
              match t.signInfo(path, info)
              case Err => Err
              case Ok(signature) => Archived(EmbedVsix(t, updated, signature))
  }

  /** `prepare_msix_family_bytes`. */
  function Prepare(t: Tool, path: string, alg: VsixHash, kind: Kind, publisher: Option<string>,
                   node: Node): Result<Node>
    decreases node, 4, 0
  {
    if !node.Archive? || Contains(node.entries, BlockMap.APPX_SIGNATURE) then Err
    else match SignNested(t, path, alg, publisher, node)
      case Err => Err
      case Ok(nested) =>
        match WithPublisher(t, kind, nested, publisher)
        case Err => Err
        case Ok(updated) => Archived(BlockMap.Refreshed(t.format, updated, t.now))
  }

  // ----- the programs -----

  /** `package_has_signature`. */
  method PackageHasSignature(vsix: bool, entries: seq<Entry>) returns (r: Result<bool>)
    ensures r == HasSignature(vsix, entries)
  {
    hide SafeName, IsDir;
    assert entries[0..] == entries;
    for k := 0 to |entries|
      invariant HasSignature(vsix, entries) == HasSignature(vsix, entries[k..])
    {
      var name := entries[k].name;
      assert entries[k..][1..] == entries[k + 1..];
      if IsDir(name) { continue; }
      if !SafeName(name) { return Err; }
      if if vsix then name == ORIGIN || SIGNATURES <= name else name == NUGET_SIGNATURE { return Ok(true); }
    }
    assert entries[|entries|..] == [];
    return Ok(false);
  }

  /** The loop of `sign_nested_package_entries`, and the repacking behind it. */
  method SignNestedPackageEntries(t: Tool, path: string, alg: VsixHash, publisher: Option<string>, node: Node)
    returns (r: Result<seq<Entry>>)
    ensures r == SignNested(t, path, alg, publisher, node)
    decreases node, 3, 0
  {
    hide UpdateAt, Repack;
    if !node.Archive? { return Err; }
    var updates: seq<Update> := [];
    UpdatesLeft([], UpdatesFrom(t, path, alg, publisher, node, 0));
    for k := 0 to |node.entries|
      invariant UpdatesFrom(t, path, alg, publisher, node, 0)
                == Onto(updates, UpdatesFrom(t, path, alg, publisher, node, k))
    {
      var more := SignEntry(t, path, alg, publisher, node, k);
      if more.Err? { return Err; }
      ghost var rest := UpdatesFrom(t, path, alg, publisher, node, k + 1);
      OntoMore(updates, more.value, rest);
      updates := updates + more.value;
    }
    assert updates + [] == updates;
    if updates == [] { return Ok(node.entries); }
    r := RepackZip(node.entries, updates, t.now);
  }

  /** Its body: the update an entry gives rise to, by format. */
  method SignEntry(t: Tool, path: string, alg: VsixHash, publisher: Option<string>, all: Node, k: nat)
    returns (r: Result<seq<Update>>)
    requires all.Archive? && k < |all.entries|
    ensures r == UpdateAt(t, path, alg, publisher, all, k)
    decreases all, 1, 0
  {
    hide SignNuget, SignVsix, Prepare, SafeName, IsDir, AppInstallerUpdates;
    var e := all.entries[k];
    var nested := path + "!" + e.name;
    if IsDir(e.name) { return Ok([]); }
    if !SafeName(e.name) { return Err; }
    if t.excluded(e.name, nested) { return Ok([]); }
    match t.detect(e.name)
    case Nuget | Snupkg =>
      var signed := SignNugetBytes(t, nested, e.node);
      return One(e.name, signed, e.compression);
    case Vsix =>
      var signed := SignVsixBytes(t, nested, alg, e.node);
      return One(e.name, signed, e.compression);
    case AppInstaller => return AppInstallerUpdates(t, nested, publisher, all.entries, e);
    case ClickOnceApplication | Vsto | Manifest =>
      if t.skipSigned && t.clickOnceSigned(e.node) { return Err; }
      return One(e.name, t.leaf(t.detect(e.name), alg, nested, e.node), e.compression);
    case Deploy | Pe | Winmd => return One(e.name, t.leaf(t.detect(e.name), alg, nested, e.node), e.compression);
    case Msix | Appx | MsixBundle | AppxBundle | AppxUpload | MsixUpload =>
      var prepared := PrepareMsixFamilyBytes(t, nested, alg, t.detect(e.name), publisher, e.node);
      return One(e.name, prepared, e.compression);
    case OtherSignable => return Err;
    case ZipFile | Unknown => return Ok([]);
  }

  method SignNugetBytes(t: Tool, path: string, node: Node) returns (r: Result<Node>)
    ensures r == SignNuget(t, path, node)
    decreases node, 4, 0
  {
    hide SignNested, HasSignature, Contains, SafeNames, WithoutName, NUGET_SIGNATURE;
    if !node.Archive? { return Err; }
    if t.skipSigned {
      var signed := PackageHasSignature(false, node.entries);
      if signed.Err? { return Err; }
      if signed.value { return Ok(node); }
    }
    var updated := SignNestedPackageEntries(t, path, Sha256, None, node);
    if updated.Err? { return Err; }
    if !t.overwrite && Contains(updated.value, NUGET_SIGNATURE) { return Err; }
    var unsigned := NugetUnsigned(updated.value);
    if unsigned.Err? { return Err; }
    var signature := t.signData(path, t.nugetContent(unsigned.value));
    if signature.Err? { return Err; }
    return Archived(EmbedNuget(unsigned.value, signature.value, t.now));
  }

  method SignVsixBytes(t: Tool, path: string, alg: VsixHash, node: Node) returns (r: Result<Node>)
    ensures r == SignVsix(t, path, alg, node)
    decreases node, 4, 0
  {
    hide SignNested, HasSignature, VsixPrepared, EmbedVsix;
    if !node.Archive? { return Err; }
    if t.skipSigned {
      var signed := PackageHasSignature(true, node.entries);
      if signed.Err? { return Err; }
      if signed.value { return Ok(node); }
    }
    var updated := SignNestedPackageEntries(t, path, alg, None, node);
    if updated.Err? { return Err; }
    var prepared := VsixPrepared(t, updated.value, true);
    if prepared.Err? { return Err; }
    var info := t.vsixInfo(alg, prepared.value);
    if info.Err? { return Err; }
    var signature := t.signInfo(path, info.value);
    if signature.Err? { return Err; }
    return Archived(EmbedVsix(t, updated.value, signature.value));
  }

  method PrepareMsixFamilyBytes(t: Tool, path: string, alg: VsixHash, kind: Kind, publisher: Option<string>, node: Node)
    returns (r: Result<Node>)
    ensures r == Prepare(t, path, alg, kind, publisher, node)
    decreases node, 4, 0
  {
    hide SignNested, Contains, WithPublisher, BlockMap.Refreshed;
    if !node.Archive? || Contains(node.entries, BlockMap.APPX_SIGNATURE) { return Err; }
    var nested := SignNestedPackageEntries(t, path, alg, publisher, node);
    if nested.Err? { return Err; }
    var updated := WithPublisher(t, kind, nested.value, publisher);
    if updated.Err? { return Err; }
    return Archived(BlockMap.Refreshed(t.format, updated.value, t.now));
  }

  function Onto(updates: seq<Update>, r: Result<seq<Update>>): Result<seq<Update>> {
    match r case Err => Err case Ok(rest) => Ok(updates + rest)
  }

  lemma UpdatesLeft(updates: seq<Update>, r: Result<seq<Update>>)
    requires updates == []
    ensures Onto(updates, r) == r
  {
    if r.Ok? { assert [] + r.value == r.value; }
  }

  lemma OntoMore(updates: seq<Update>, more: seq<Update>, r: Result<seq<Update>>)
    ensures Onto(updates, Onto(more, r)) == Onto(updates + more, r)
  {
    if r.Ok? { assert updates + (more + r.value) == (updates + more) + r.value; }
  }
}
