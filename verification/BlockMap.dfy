/** The block map of an MSIX or AppX package: for each file its size and the hashes of its 64 KiB blocks. */
module BlockMap {
  import opened Wrappers
  import opened Sequences
  import opened Sorting
  import opened Zip

  const BLOCK: nat := 64 * 1024

  const BLOCK_MAP := "AppxBlockMap.xml"
  const CONTENT_TYPES := "[Content_Types].xml"
  const APPX_SIGNATURE := "AppxSignature.p7x"
  const BUNDLE_MANIFEST := "AppxMetadata/AppxBundleManifest.xml"

  /** Only bundle block maps write the size of a block. */
  datatype Block = Block(hash: Bytes, size: Option<nat>)
  datatype FileMap = FileMap(name: string, size: nat, blocks: seq<Block>)

  /** The hash, the bytes of an entry, and the text of a finished map. */
  datatype Format = Format(hash: Bytes -> Bytes, content: Node -> Bytes, render: seq<FileMap> -> Bytes)

  // ----- blocks -----

  /** `chunks(64 * 1024)`. */
  function Chunks(b: Bytes): seq<Bytes>
    decreases |b|
  {
    if b == [] then [] else if |b| <= BLOCK then [b] else [b[..BLOCK]] + Chunks(b[BLOCK..])
  }

  /** The blocks concatenate back to the file. */
  lemma {:induction false} ChunksJoin(b: Bytes)
    ensures Flatten(Chunks(b)) == b
    decreases |b|
  {
    if b != [] {
      if |b| <= BLOCK {
        FlattenSingle(b);
      } else {
        ChunksJoin(b[BLOCK..]);
        var head, tail := b[..BLOCK], Chunks(b[BLOCK..]);
        assert ([head] + tail)[1..] == tail;
        assert b == head + b[BLOCK..];
      }
    }
  }

  /** There are ceil(n / 65536) of them, all full but the last, and none empty. */
  lemma {:induction false} ChunkSizes(b: Bytes)
    ensures |Chunks(b)| == (|b| + BLOCK - 1) / BLOCK
    ensures forall i | 0 <= i < |Chunks(b)| ::
            1 <= |Chunks(b)[i]| <= BLOCK && (i + 1 < |Chunks(b)| ==> |Chunks(b)[i]| == BLOCK)
    decreases |b|
  {
    if |b| > BLOCK {
      ChunkSizes(b[BLOCK..]);
      assert (|b| + BLOCK - 1) / BLOCK == 1 + (|b| - BLOCK + BLOCK - 1) / BLOCK;
      var all: seq<Bytes>, tail: seq<Bytes> := Chunks(b), Chunks(b[BLOCK..]);
      forall i | 0 <= i < |all| ensures 1 <= |all[i]| <= BLOCK && (i + 1 < |all| ==> |all[i]| == BLOCK) {
        if i > 0 { assert all[i] == tail[i - 1]; }
      }
    }
  }

  function Blocks(f: Format, chunks: seq<Bytes>, sizes: bool): seq<Block> {
    seq(|chunks|, i requires 0 <= i < |chunks| => Block(f.hash(chunks[i]), if sizes then Some(|chunks[i]|) else None))
  }

  function MapOf(f: Format, name: string, content: Bytes, sizes: bool): FileMap {
    FileMap(name, |content|, Blocks(f, Chunks(content), sizes))
  }

  // ----- the map of a package -----

  datatype File = File(name: string, bytes: Bytes)

  predicate IsListed(name: string) {
    !IsDir(name) && name != CONTENT_TYPES && name != BLOCK_MAP && name != APPX_SIGNATURE
  }

  function Files(f: Format, entries: seq<Entry>): seq<File> {
    if entries == [] then []
    else
      var e := entries[0];
      (if IsListed(e.name) then [File(e.name, f.content(e.node))] else []) + Files(f, entries[1..])
  }

  predicate FileBefore(a: File, b: File) {
    Less(a.name, b.name)
  }

  function MapsOf(f: Format, files: seq<File>): seq<FileMap> {
    seq(|files|, i requires 0 <= i < |files| => MapOf(f, files[i].name, files[i].bytes, false))
  }

  predicate FileNamesSafe(entries: seq<Entry>) {
    forall e <- entries :: IsDir(e.name) || SafeName(e.name)
  }

  /** `build_msix_block_map_xml`. */
  function FlatMap(f: Format, entries: seq<Entry>): Result<seq<FileMap>> {
    if !FileNamesSafe(entries) then Err else Ok(MapsOf(f, Sort(FileBefore, Files(f, entries))))
  }

  /** `build_msix_bundle_block_map_xml`: the bundle manifest alone, with a backslash in its name. */
  function BundleMap(f: Format, entries: seq<Entry>): Result<seq<FileMap>> {
    match ByName(entries, BUNDLE_MANIFEST)
    case None => Err
    case Some(e) => Ok([MapOf(f, "AppxMetadata\\AppxBundleManifest.xml", f.content(e.node), true)])
  }

  /** The map a package of this layout should hold. */
  function Rebuild(f: Format, entries: seq<Entry>): Result<seq<FileMap>> {
    if Contains(entries, BUNDLE_MANIFEST) then BundleMap(f, entries) else FlatMap(f, entries)
  }

  method BuildFlatMap(f: Format, entries: seq<Entry>) returns (r: Result<seq<FileMap>>)
    ensures r == FlatMap(f, entries)
  {
    hide SafeName, Files, IsListed, Sort, MapOf;
    var files: seq<File> := [];
    NoFiles(f);
    assert entries[0..] == entries && entries[..0] == [] && [] + Files(f, entries) == Files(f, entries);
    for k := 0 to |entries|
      invariant FileNamesSafe(entries[..k])
      invariant Files(f, entries) == files + Files(f, entries[k..])
    {
      var e := entries[k];
      assert e in entries && entries[..k + 1] == entries[..k] + [e];
      FilesStep(f, entries[k..]);
      assert entries[k..][1..] == entries[k + 1..];
      ghost var rest := Files(f, entries[k + 1..]);
      DirIsNotListed(e.name);
      if IsDir(e.name) { assert [] + rest == rest; continue; }
      if !SafeName(e.name) { return Err; }
      if !IsListed(e.name) { assert [] + rest == rest; continue; }
      assert files + ([File(e.name, f.content(e.node))] + rest) == (files + [File(e.name, f.content(e.node))]) + rest;
      files := files + [File(e.name, f.content(e.node))];
    }
    assert entries[|entries|..] == [] && entries[..|entries|] == entries && files + [] == files;
    files := Sort(FileBefore, files);
    var maps: seq<FileMap> := [];
    for k := 0 to |files|
      invariant maps == MapsOf(f, files[..k])
    {
      maps := maps + [MapOf(f, files[k].name, files[k].bytes, false)];
    }
    assert files[..|files|] == files;
    return Ok(maps);
  }

  lemma NoFiles(f: Format)
    ensures Files(f, []) == [] && FileNamesSafe([])
  {
  }

  lemma FilesStep(f: Format, entries: seq<Entry>)
    requires entries != []
    ensures var own := if IsListed(entries[0].name) then [File(entries[0].name, f.content(entries[0].node))] else [];
            Files(f, entries) == own + Files(f, entries[1..])
  {
  }

  lemma DirIsNotListed(name: string)
    ensures IsDir(name) ==> !IsListed(name)
  {
  }

  // ----- the map is complete and in order -----

  /** Every listed file once, no other, in name order. */
  lemma SortedFiles(files: seq<File>)
    ensures InOrder(FileBefore, Sort(FileBefore, files)) && multiset(Sort(FileBefore, files)) == multiset(files)
  {
    hide Less;
    forall a, b | FileBefore(a, b) ensures !FileBefore(b, a) { LessIsAsymmetric(a.name, b.name); }
    Sorts(FileBefore, files);
  }

  /** What the map says of a file: its size, and block by block the hash of that piece, where the pieces concatenate to
      the bytes and are all full but the last. Bundle maps give the size of a piece too. */
  ghost predicate Maps(f: Format, m: FileMap, name: string, content: Bytes, chunks: seq<Bytes>, sizes: bool) {
    && m.name == name && m.size == |content|
    && Flatten(chunks) == content && |chunks| == (|content| + 65535) / 65536
    && (forall i | 0 <= i < |chunks| :: 1 <= |chunks[i]| <= 65536 && (i + 1 < |chunks| ==> |chunks[i]| == 65536))
    && |m.blocks| == |chunks|
    && forall i | 0 <= i < |chunks| ::
         m.blocks[i].hash == f.hash(chunks[i]) && m.blocks[i].size == if sizes then Some(|chunks[i]|) else None
  }

  lemma MapOfMaps(f: Format, name: string, content: Bytes, sizes: bool)
    ensures Maps(f, MapOf(f, name, content, sizes), name, content, Chunks(content), sizes)
  {
    ChunksJoin(content);
    ChunkSizes(content);
    hide Chunks, Flatten;
  }

  /** A file has one such map. */
  lemma {:induction false} SameChunks(a: seq<Bytes>, b: seq<Bytes>)
    requires Flatten(a) == Flatten(b) && |a| == |b|
    requires forall i | 0 <= i < |a| :: 1 <= |a[i]| <= BLOCK && (i + 1 < |a| ==> |a[i]| == BLOCK)
    requires forall i | 0 <= i < |b| :: 1 <= |b[i]| <= BLOCK && (i + 1 < |b| ==> |b[i]| == BLOCK)
    ensures a == b
  {
    if a != [] {
      if |a| == 1 {
        FlattenSingle(a[0]);
        FlattenSingle(b[0]);
        assert a == [a[0]] && b == [b[0]];
      } else {
        assert Flatten(a)[..BLOCK] == a[0] && Flatten(b)[..BLOCK] == b[0];
        assert Flatten(a)[BLOCK..] == Flatten(a[1..]) && Flatten(b)[BLOCK..] == Flatten(b[1..]);
        SameChunks(a[1..], b[1..]);
        assert a == [a[0]] + a[1..] && b == [b[0]] + b[1..];
      }
    }
  }

  lemma MapsIsMapOf(f: Format, m: FileMap, name: string, content: Bytes, chunks: seq<Bytes>, sizes: bool)
    requires Maps(f, m, name, content, chunks, sizes)
    ensures m == MapOf(f, name, content, sizes)
  {
    MapOfMaps(f, name, content, sizes);
    SameChunks(chunks, Chunks(content));
    hide Chunks, Flatten;
    assert m.blocks == Blocks(f, chunks, sizes);
  }

  /** Maps are of all files but those that belong to the package itself. */
  lemma ListedAre(name: string)
    ensures IsListed(name)
            <==> && !IsDir(name) && name != "[Content_Types].xml" && name != "AppxBlockMap.xml"
                 && name != "AppxSignature.p7x"
  {
  }

  /** Where the files of the package stand in it. */
  ghost predicate FilesAt(f: Format, entries: seq<Entry>, files: seq<File>, places: seq<nat>) {
    |places| == |files| && forall i | 0 <= i < |files| ::
      && places[i] < |entries| && IsListed(entries[places[i]].name)
      && files[i] == File(entries[places[i]].name, f.content(entries[places[i]].node))
  }

  predicate AreAscending(places: seq<nat>) {
    forall i, j | 0 <= i < j < |places| :: places[i] < places[j]
  }

  predicate AreAllListed(entries: seq<Entry>, places: seq<nat>) {
    forall k: nat | k < |entries| && IsListed(entries[k].name) :: k in places
  }

  function Moved(places: seq<nat>): seq<nat> {
    seq(|places|, i requires 0 <= i < |places| => places[i] + 1)
  }

  lemma {:induction false} FilesHavePlaces(f: Format, entries: seq<Entry>) returns (places: seq<nat>)
    ensures FilesAt(f, entries, Files(f, entries), places) && AreAscending(places) && AreAllListed(entries, places)
  {
    hide IsListed;
    if entries == [] {
      places := [];
    } else {
      hide FilesAt, AreAscending, AreAllListed, Moved, Files;
      var e, rest := entries[0], entries[1..];
      var inner := FilesHavePlaces(f, rest);
      assert [e] + rest == entries;
      FilesStep(f, entries);
      FilesMoved(f, e, rest, Files(f, rest), inner);
      places := Moved(inner);
      if IsListed(e.name) {
        FilesBehind(f, entries, Files(f, rest), Moved(inner));
        places := [0] + places;
        AllListed(e, rest, inner, places, 1);
      } else {
        assert [] + Files(f, rest) == Files(f, rest) && places[0..] == places;
        AllListed(e, rest, inner, places, 0);
      }
    }
  }

  lemma FilesMoved(f: Format, e: Entry, rest: seq<Entry>, files: seq<File>, inner: seq<nat>)
    requires FilesAt(f, rest, files, inner) && AreAscending(inner)
    ensures FilesAt(f, [e] + rest, files, Moved(inner)) && AreAscending(Moved(inner))
    ensures 0 !in Moved(inner)
  {
    hide IsListed;
    assert forall i | 0 <= i < |inner| :: ([e] + rest)[Moved(inner)[i]] == rest[inner[i]];
  }

  lemma FilesBehind(f: Format, entries: seq<Entry>, files: seq<File>, places: seq<nat>)
    requires FilesAt(f, entries, files, places) && AreAscending(places) && 0 !in places
    requires entries != [] && IsListed(entries[0].name)
    ensures FilesAt(f, entries, [File(entries[0].name, f.content(entries[0].node))] + files, [0] + places)
    ensures AreAscending([0] + places)
  {
    hide IsListed;
    assert forall i | 0 <= i < |places| :: places[i] in places;
  }

  lemma AllListed(e: Entry, rest: seq<Entry>, inner: seq<nat>, places: seq<nat>, n: nat)
    requires AreAllListed(rest, inner) && n <= |places| && places[n..] == Moved(inner)
    requires IsListed(e.name) ==> n > 0 && places[0] == 0
    ensures AreAllListed([e] + rest, places)
  {
    hide IsListed;
    var entries := [e] + rest;
    forall k: nat | k < |entries| && IsListed(entries[k].name) ensures k in places {
      if k > 0 {
        var was: nat := k - 1;
        assert rest[was] == entries[k] && was in inner;
        var i :| 0 <= i < |inner| && inner[i] == was;
        assert places[n + i] == places[n..][i] == k;
      }
    }
  }

  /** The names are in order, and entries of one name in the order of the archive. */
  predicate InNameOrder(entries: seq<Entry>, places: seq<nat>)
    requires forall i | 0 <= i < |places| :: places[i] < |entries|
  {
    forall i | 0 < i < |places| ::
      var (a, b) := (entries[places[i - 1]].name, entries[places[i]].name);
      Less(a, b) || (a == b && places[i - 1] < places[i])
  }

  lemma SortedHavePlaces(f: Format, entries: seq<Entry>) returns (places: seq<nat>)
    ensures FilesAt(f, entries, Sort(FileBefore, Files(f, entries)), places)
    ensures AreAllListed(entries, places) && InNameOrder(entries, places)
  {
    hide IsListed, Sort, Files, Less, AreAllListed;
    var files := Files(f, entries);
    var at := FilesHavePlaces(f, entries);
    var sorted := Sort(FileBefore, files);
    var order := SortsStably(FileBefore, files);
    SameSize(files, sorted, order);
    places := seq(|order|, i requires 0 <= i < |order| => at[order[i]]);
    assert forall i | 0 <= i < |sorted| :: sorted[i] == files[order[i]];
    ListedStill(files, sorted, entries, at, order, places);
    forall i | 0 < i < |places|
      ensures var (a, b) := (entries[places[i - 1]].name, entries[places[i]].name);
              Less(a, b) || (a == b && places[i - 1] < places[i])
    {
      var (a, b) := (sorted[i - 1].name, sorted[i].name);
      assert FileBefore(sorted[i - 1], sorted[i]) == Less(a, b) && FileBefore(sorted[i], sorted[i - 1]) == Less(b, a);
      if a != b { LessIsTotal(a, b); }
    }
  }

  lemma ListedStill(files: seq<File>, sorted: seq<File>, entries: seq<Entry>, at: seq<nat>, order: seq<nat>,
                    places: seq<nat>)
    requires AreAllListed(entries, at) && Places(files, sorted, order) && |at| == |files| && |places| == |order|
    requires forall i | 0 <= i < |order| :: order[i] < |at| && places[i] == at[order[i]]
    ensures AreAllListed(entries, places)
  {
    hide IsListed;
    forall k: nat | k < |entries| && IsListed(entries[k].name) ensures k in places {
      var i: nat :| i < |at| && at[i] == k;
      assert i in order;
      var j :| 0 <= j < |order| && order[j] == i;
      assert places[j] == k;
    }
  }

  /** The entry is listed, and this is its map. */
  ghost predicate MapsEntry(f: Format, m: FileMap, e: Entry) {
    IsListed(e.name) && exists chunks :: Maps(f, m, e.name, f.content(e.node), chunks, false)
  }

  /** A flat map has one map for each file that the package lists, in name order. */
  lemma FlatMapLists(f: Format, entries: seq<Entry>) returns (places: seq<nat>)
    requires FlatMap(f, entries).Ok?
    ensures var maps := FlatMap(f, entries).value;
            && |places| == |maps|
            && forall i | 0 <= i < |maps| :: places[i] < |entries| && MapsEntry(f, maps[i], entries[places[i]])
    ensures (forall k: nat | k < |entries| && IsListed(entries[k].name) :: k in places) && InNameOrder(entries, places)
  {
    hide IsListed, Sort, Files, MapOf, Maps, InNameOrder;
    places := SortedHavePlaces(f, entries);
    var sorted, maps := Sort(FileBefore, Files(f, entries)), FlatMap(f, entries).value;
    forall i | 0 <= i < |maps| ensures MapsEntry(f, maps[i], entries[places[i]]) {
      assert maps[i] == MapOf(f, sorted[i].name, sorted[i].bytes, false);
      MapOfMaps(f, sorted[i].name, sorted[i].bytes, false);
    }
  }

  /** The map of a bundle is that of its manifest alone. */
  lemma BundleMapLists(f: Format, entries: seq<Entry>, maps: seq<FileMap>)
    ensures BundleMap(f, entries) == Ok(maps)
            <==> && ByName(entries, BUNDLE_MANIFEST).Some? && |maps| == 1
                 && var content := f.content(ByName(entries, BUNDLE_MANIFEST).value.node);
                    exists chunks :: Maps(f, maps[0], "AppxMetadata\\AppxBundleManifest.xml", content, chunks, true)
  {
    hide MapOf, Maps, ByName, BUNDLE_MANIFEST;
    var e := ByName(entries, BUNDLE_MANIFEST);
    if e.Some? && |maps| == 1 {
      var name, content := "AppxMetadata\\AppxBundleManifest.xml", f.content(e.value.node);
      MapOfMaps(f, name, content, true);
      forall chunks | Maps(f, maps[0], name, content, chunks, true) ensures maps == [MapOf(f, name, content, true)] {
        MapsIsMapOf(f, maps[0], name, content, chunks, true);
      }
    }
  }

  // ----- the stored map -----

  /** The last step of `prepare_msix_family_bytes`. */
  function Refreshed(f: Format, entries: seq<Entry>, now: int): Result<seq<Entry>> {
    if !Contains(entries, BLOCK_MAP) then Ok(entries)
    else match Rebuild(f, entries)
      case Err => Err
      case Ok(maps) => Repack(entries, [Update(BLOCK_MAP, Blob(f.render(maps)), Stored)], now)
  }

  /** The same entries, apart from what block maps hold. */
  predicate SameButMap(a: seq<Entry>, b: seq<Entry>) {
    |a| == |b| && forall k | 0 <= k < |a| :: a[k].name == b[k].name && (a[k].name != BLOCK_MAP ==> a[k] == b[k])
  }

  lemma RefreshedEntries(f: Format, entries: seq<Entry>, now: int)
    requires Contains(entries, BLOCK_MAP) && Refreshed(f, entries, now).Ok?
    ensures var out, maps := Refreshed(f, entries, now).value, Rebuild(f, entries);
            && maps.Ok? && SameButMap(entries, out)
            && (forall k | 0 <= k < |out| :: out[k].name == BLOCK_MAP && !Contains(out[..k], BLOCK_MAP)
                  ==> out[k].node == Blob(f.render(maps.value)))
            && forall k | 0 <= k < |out| :: Contains(entries[..k], BLOCK_MAP) ==> out[k] == entries[k]
  {
    hide Rebuild, Repack, Contains, Find, BLOCK_MAP;
    var u := Update(BLOCK_MAP, Blob(f.render(Rebuild(f, entries).value)), Stored);
    var updates := [u];
    var out := Repack(entries, updates, now).value;
    RepackDoes(entries, updates, now);
    assert u in updates && forall v <- updates :: v == u;
    EmptyOrSome(out[|entries|..]);
    assert |out| == |entries|;
    forall k | 0 <= k < |entries|
      ensures out[k].name == entries[k].name && (entries[k].name != BLOCK_MAP ==> out[k] == entries[k])
      ensures entries[k].name == BLOCK_MAP && !Contains(entries[..k], BLOCK_MAP) ==> out[k].node == u.node
      ensures Contains(entries[..k], BLOCK_MAP) ==> out[k] == entries[k]
    {
      assert out[k] == Outcome(entries, updates, now, k);
      if Pends(updates, entries[k].name) { FindIs(updates, entries[k].name); }
    }
    forall k | 0 <= k < |out| ensures Contains(out[..k], BLOCK_MAP) == Contains(entries[..k], BLOCK_MAP) {
      SameNames(entries[..k], out[..k], BLOCK_MAP);
    }
  }

  lemma EmptyOrSome(entries: seq<Entry>)
    ensures entries == [] || exists e :: e in entries
  {
    if entries != [] { assert entries[0] in entries; }
  }

  lemma SameNames(a: seq<Entry>, b: seq<Entry>, name: string)
    requires |a| == |b| && forall k | 0 <= k < |a| :: a[k].name == b[k].name
    ensures Contains(a, name) == Contains(b, name)
  {
    forall e <- a | e.name == name ensures Contains(b, name) {
      var k :| 0 <= k < |a| && a[k] == e;
      assert b[k] in b;
    }
    forall e <- b | e.name == name ensures Contains(a, name) {
      var k :| 0 <= k < |b| && b[k] == e;
      assert a[k] in a;
    }
  }

  lemma {:induction false} SameFiles(f: Format, a: seq<Entry>, b: seq<Entry>)
    requires SameButMap(a, b)
    ensures Files(f, a) == Files(f, b)
  {
    hide BLOCK_MAP;
    if a != [] {
      assert !IsListed(BLOCK_MAP);
      hide IsListed;
      SameFiles(f, a[1..], b[1..]);
    }
  }

  lemma {:induction false} SameByName(a: seq<Entry>, b: seq<Entry>, name: string)
    requires SameButMap(a, b) && name != BLOCK_MAP
    ensures ByName(a, name) == ByName(b, name)
  {
    hide BLOCK_MAP;
    if a != [] { SameByName(a[..|a| - 1], b[..|b| - 1], name); }
  }

  lemma SameSafety(a: seq<Entry>, b: seq<Entry>)
    requires SameButMap(a, b)
    ensures FileNamesSafe(a) == FileNamesSafe(b)
  {
    hide BLOCK_MAP, SafeName, IsDir;
    forall k | 0 <= k < |a| ensures a[k] in a && b[k] in b && a[k].name == b[k].name {}
    forall e <- a ensures exists k :: 0 <= k < |a| && a[k] == e && b[k].name == e.name {}
    forall e <- b ensures exists k :: 0 <= k < |b| && b[k] == e && a[k].name == e.name {}
  }

  lemma ManifestIsNotTheMap()
    ensures BUNDLE_MANIFEST != BLOCK_MAP
  {
  }

  lemma SameMap(f: Format, a: seq<Entry>, b: seq<Entry>)
    requires SameButMap(a, b)
    ensures Rebuild(f, a) == Rebuild(f, b)
  {
    ManifestIsNotTheMap();
    hide BLOCK_MAP, BUNDLE_MANIFEST, Files, ByName, Contains, FileNamesSafe, MapOf, Sort;
    SameNames(a, b, BUNDLE_MANIFEST);
    SameByName(a, b, BUNDLE_MANIFEST);
    SameFiles(f, a, b);
    SameSafety(a, b);
  }

  /** Rebuilding the map from the finished package gives the map it holds, in both layouts. */
  lemma StoredMapIsCurrent(f: Format, entries: seq<Entry>, now: int)
    requires Refreshed(f, entries, now).Ok? && Contains(Refreshed(f, entries, now).value, BLOCK_MAP)
    ensures var out := Refreshed(f, entries, now).value;
            && Rebuild(f, out).Ok?
            && forall k | 0 <= k < |out| :: out[k].name == BLOCK_MAP && !Contains(out[..k], BLOCK_MAP)
                 ==> out[k].node == Blob(f.render(Rebuild(f, out).value))
  {
    hide Rebuild, Repack, Contains, BLOCK_MAP;
    RefreshedEntries(f, entries, now);
    SameMap(f, entries, Refreshed(f, entries, now).value);
  }
}
