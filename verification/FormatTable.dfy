/** What the run makes of an entry's name. */
module FormatTable {
  import opened Wrappers
  import opened Zip
  import BlockMap
  import P = PackageSigning

  function LastIndexOf(s: string, c: char): (r: Option<nat>)
    ensures r.Some? ==> r.value < |s| && s[r.value] == c && c !in s[r.value + 1..]
    ensures r.None? ==> c !in s
  {
    if s == "" then None
    else if s[|s| - 1] == c then Some(|s| - 1)
    else LastIndexOf(s[..|s| - 1], c)
  }

  function FileName(path: string): string {
    match LastIndexOf(path, '/') case None => path case Some(k) => path[k + 1..]
  }

  /** `Path::extension`: what follows the last dot, unless the file name starts with it. */
  function Extension(path: string): string {
    var file := FileName(path);
    match LastIndexOf(file, '.') case None => "" case Some(k) => if k == 0 then "" else file[k + 1..]
  }

  function LowerChar(c: char): char {
    if 'A' <= c <= 'Z' then ((c as int) + 32) as char else c
  }

  function Lower(s: string): string {
    if s == "" then "" else [LowerChar(s[0])] + Lower(s[1..])
  }

  function KindOf(ext: string): P.Kind {
    if ext in {"exe", "dll", "sys", "ocx", "efi", "scr", "cpl", "mui"} then P.Pe
    else if ext == "winmd" then P.Winmd
    else if ext in {"cab", "msi", "msp", "mst", "cat"} then P.OtherSignable
    else if ext in {"ps1", "psd1", "psm1", "ps1xml", "psc1", "cdxml", "mof"} then P.OtherSignable
    else if ext in {"js", "vbs", "wsf", "jse", "vbe", "wsc"} then P.OtherSignable
    else if ext == "msix" then P.Msix
    else if ext == "appx" then P.Appx
    else if ext == "msixbundle" then P.MsixBundle
    else if ext == "appxbundle" then P.AppxBundle
    else if ext == "appxupload" then P.AppxUpload
    else if ext == "msixupload" then P.MsixUpload
    else if ext in {"eappx", "emsix", "eappxbundle", "emsixbundle"} then P.OtherSignable
    else if ext == "nupkg" then P.Nuget
    else if ext == "snupkg" then P.Snupkg
    else if ext == "vsix" then P.Vsix
    else if ext == "application" then P.ClickOnceApplication
    else if ext == "vsto" then P.Vsto
    else if ext == "manifest" then P.Manifest
    else if ext == "deploy" then P.Deploy
    else if ext == "appinstaller" then P.AppInstaller
    else if ext == "zip" then P.ZipFile
    else P.Unknown
  }

  /** `detect_format` without a look at the bytes. */
  function DetectFormat(name: string): P.Kind {
    KindOf(Lower(Extension(name)))
  }

  // ----- the names the run writes are of no known format -----

  lemma {:induction false} LastIndexIs(a: string, c: char, b: string)
    requires c !in b
    ensures LastIndexOf(a + [c] + b, c) == Some(|a|)
  {
    var s := a + [c] + b;
    if b != "" {
      assert s[..|s| - 1] == a + [c] + b[..|b| - 1];
      assert s[|s| - 1] == b[|b| - 1] && b[|b| - 1] in b;
      LastIndexIs(a, c, b[..|b| - 1]);
    }
  }

  lemma {:induction false} LastIndexNone(s: string, c: char)
    requires c !in s
    ensures LastIndexOf(s, c) == None
  {
    if s != "" {
      assert s[|s| - 1] in s;
      LastIndexNone(s[..|s| - 1], c);
    }
  }

  /** A file name with an extension, in a directory or not. */
  lemma ExtensionIs(dir: string, stem: string, ext: string)
    requires dir == "" || dir[|dir| - 1] == '/'
    requires stem != "" && '/' !in stem && '.' !in ext && '/' !in ext
    ensures Extension(dir + stem + "." + ext) == ext
  {
    var file := stem + "." + ext;
    var name := dir + stem + "." + ext;
    if dir == "" {
      assert name == file;
      LastIndexNone(file, '/');
    } else {
      assert name == dir[..|dir| - 1] + ['/'] + file;
      LastIndexIs(dir[..|dir| - 1], '/', file);
      assert name[|dir|..] == file;
    }
    assert file == stem + ['.'] + ext;
    LastIndexIs(stem, '.', ext);
    assert file[|stem| + 1..] == ext;
  }

  /** The extensions of the names the run writes. */
  predicate IsOwnExtension(ext: string) {
    ext == "" || ext == "xml" || ext == "rels" || ext == "p7s" || ext == "p7" || ext == "psdsor" || ext == "psdsxs"
  }

  lemma OwnIsUnknown(ext: string)
    requires IsOwnExtension(ext)
    ensures KindOf(ext) == P.Unknown
  {
  }

  predicate IsLower(s: string) {
    forall c <- s :: !('A' <= c <= 'Z')
  }

  lemma {:induction false} LowerKeeps(s: string)
    requires IsLower(s)
    ensures Lower(s) == s
  {
    if s != "" {
      assert s[0] in s;
      forall c <- s[1..] ensures c in s {}
      LowerKeeps(s[1..]);
      assert s == [s[0]] + s[1..];
    }
  }

  /** The name is of no known format. */
  predicate IsPlain(name: string) {
    DetectFormat(name) == P.Unknown
  }

  lemma PlainFile(name: string, dir: string, stem: string, ext: string)
    requires name == dir + stem + "." + ext
    requires dir == "" || dir[|dir| - 1] == '/'
    requires stem != "" && '/' !in stem && '.' !in ext && '/' !in ext && IsLower(ext) && IsOwnExtension(ext)
    ensures IsPlain(name)
  {
    hide KindOf, IsOwnExtension, IsLower, Extension;
    ExtensionIs(dir, stem, ext);
    LowerKeeps(ext);
    OwnIsUnknown(ext);
  }

  /** A file name that is all extension has none. */
  lemma PlainDotFile(name: string, dir: string, rest: string)
    requires name == dir + "." + rest && '.' !in rest && '/' !in rest
    requires dir == "" || dir[|dir| - 1] == '/'
    ensures IsPlain(name)
  {
    var file := "." + rest;
    if dir == "" {
      LastIndexNone(file, '/');
      assert name == file;
    } else {
      assert name == dir[..|dir| - 1] + ['/'] + file;
      LastIndexIs(dir[..|dir| - 1], '/', file);
    }
    assert FileName(name) == file;
    assert file == "" + ['.'] + rest;
    LastIndexIs("", '.', rest);
    hide FileName, LastIndexOf;
    OwnIsUnknown("");
  }

  lemma PlainXml()
    ensures IsPlain(P.CONTENT_TYPES) && IsPlain(P.APPX_MANIFEST) && IsPlain(BlockMap.BLOCK_MAP)
  {
    hide IsPlain;
    PlainFile(P.CONTENT_TYPES, "", "[Content_Types]", "xml");
    PlainFile(P.APPX_MANIFEST, "", "AppxManifest", "xml");
    PlainFile(BlockMap.BLOCK_MAP, "", "AppxBlockMap", "xml");
  }

  lemma PlainSmall()
    ensures IsPlain(P.NUGET_SIGNATURE) && IsPlain(P.ROOT_RELS)
  {
    hide IsPlain;
    PlainFile(P.NUGET_SIGNATURE, "", ".signature", "p7s");
    PlainDotFile(P.ROOT_RELS, "_rels/", "rels");
  }

  lemma PlainBundle()
    ensures IsPlain(BlockMap.BUNDLE_MANIFEST)
  {
    hide IsPlain;
    PlainFile(BlockMap.BUNDLE_MANIFEST, "AppxMetadata/", "AppxBundleManifest", "xml");
  }

  lemma PlainParts()
    ensures IsPlain(P.ORIGIN) && IsPlain(P.ORIGIN_RELS) && IsPlain(P.VSIX_SIGNATURE)
  {
    hide IsPlain;
    var base := "package/services/digital-signature/";
    PlainFile(P.ORIGIN, base, "origin", "psdsor");
    PlainFile(P.ORIGIN_RELS, base + "_rels/", "origin.psdsor", "rels");
    PlainFile(P.VSIX_SIGNATURE, base + "xml-signature/", "psign-signature", "psdsxs");
  }

  lemma PlainOwn(name: string)
    requires P.IsOwn(name)
    ensures IsPlain(name)
  {
    PlainXml();
    PlainSmall();
    PlainBundle();
    PlainParts();
    hide IsPlain;
  }

  lemma Directory(name: string)
    ensures var file := FileName(name);
            |file| <= |name| && '/' !in file
            && var dir := name[..|name| - |file|]; name == dir + file && (dir == "" || dir[|dir| - 1] == '/')
  {
    hide LastIndexOf;
    match LastIndexOf(name, '/')
    case None => assert name[..0] + name == name;
    case Some(k) => assert name[..k + 1] + name[k + 1..] == name;
  }

  lemma PlainCompanion(name: string)
    ensures IsPlain(P.Companion(name))
  {
    Directory(name);
    hide IsPlain, FileName;
    var stem := FileName(name);
    var dir := name[..|name| - |stem|];
    if stem == "" {
      assert name + ".p7" == dir + "." + "p7";
      PlainDotFile(name + ".p7", dir, "p7");
    } else {
      assert name + ".p7" == dir + stem + "." + "p7";
      PlainFile(name + ".p7", dir, stem, "p7");
    }
  }

  /** With the format table of the source, what package signing assumes of names holds. */
  lemma TableIsPlain(t: P.Tool)
    requires forall name :: t.detect(name) == DetectFormat(name)
    ensures P.PlainNames(t)
  {
    hide P.IsOwn, P.Companion, DetectFormat;
    forall name: string | P.IsOwn(name) ensures t.detect(name).Unknown? { PlainOwn(name); }
    forall name: string ensures t.detect(P.Companion(name)).Unknown? { PlainCompanion(name); }
  }

  // ----- the extension decides -----

  /** The same character, or the two cases of one ASCII letter. */
  predicate SameLetter(a: char, b: char) {
    || a == b
    || ('A' <= a <= 'Z' && b as int == a as int + 32)
    || ('A' <= b <= 'Z' && a as int == b as int + 32)
  }

  lemma LowerIsSame(a: char, b: char)
    ensures LowerChar(a) == LowerChar(b) <==> SameLetter(a, b)
  {
  }

  predicate IgnoringCase(a: string, b: string) {
    |a| == |b| && forall i | 0 <= i < |a| :: SameLetter(a[i], b[i])
  }

  lemma {:induction false} LowerIgnores(a: string, b: string)
    ensures Lower(a) == Lower(b) <==> IgnoringCase(a, b)
  {
    hide LowerChar, SameLetter;
    if a != "" && b != "" {
      LowerIgnores(a[1..], b[1..]);
      LowerIsSame(a[0], b[0]);
      if IgnoringCase(a, b) {
        forall i | 0 <= i < |a| - 1 ensures SameLetter(a[1..][i], b[1..][i]) {
          assert a[1..][i] == a[i + 1] && b[1..][i] == b[i + 1];
        }
      }
      if Lower(a) == Lower(b) {
        assert LowerChar(a[0]) == Lower(a)[0] && Lower(a)[1..] == Lower(a[1..]) && Lower(b)[1..] == Lower(b[1..]);
        forall i | 0 <= i < |a| ensures SameLetter(a[i], b[i]) {
          if i > 0 { assert a[1..][i - 1] == a[i] && b[1..][i - 1] == b[i]; }
        }
      }
    }
  }

  /** A file has the format of its extension in any case, wherever it is and whatever its name is otherwise. */
  lemma ExtensionDecides(dir: string, stem: string, ext: string, known: string)
    requires dir == "" || dir[|dir| - 1] == '/'
    requires stem != "" && '/' !in stem && '.' !in ext && '/' !in ext
    requires IsLower(known) && IgnoringCase(ext, known)
    ensures DetectFormat(dir + stem + "." + ext) == KindOf(known)
  {
    hide KindOf, Extension, IgnoringCase, IsLower;
    ExtensionIs(dir, stem, ext);
    LowerIgnores(ext, known);
    LowerKeeps(known);
  }

  /** The packages, App Installers and ZIP files, by extension. */
  lemma PackageExtensions(ext: string)
    ensures (KindOf(ext) == P.Nuget <==> ext == "nupkg") && (KindOf(ext) == P.Snupkg <==> ext == "snupkg")
    ensures (KindOf(ext) == P.Vsix <==> ext == "vsix") && (KindOf(ext) == P.AppInstaller <==> ext == "appinstaller")
    ensures (KindOf(ext) == P.Msix <==> ext == "msix") && (KindOf(ext) == P.Appx <==> ext == "appx")
    ensures KindOf(ext) == P.MsixBundle <==> ext == "msixbundle"
    ensures KindOf(ext) == P.AppxBundle <==> ext == "appxbundle"
    ensures KindOf(ext) == P.MsixUpload <==> ext == "msixupload"
    ensures KindOf(ext) == P.AppxUpload <==> ext == "appxupload"
    ensures KindOf(ext) == P.ZipFile <==> ext == "zip"
  {
  }

  // ----- names inside containers -----

  lemma DotSplits(file: string, k: nat)
    requires k < |file| && file[k] == '.' && '/' !in file
    ensures file == file[..k] + "." + file[k + 1..] && '/' !in file[..k] && '/' !in file[k + 1..]
  {
  }

  lemma ExtensionAt(name: string) returns (k: nat)
    requires Extension(name) != ""
    ensures var file := FileName(name);
            0 < k < |file| && file[k] == '.' && Extension(name) == file[k + 1..] && '.' !in Extension(name)
  {
    hide FileName;
    k := LastIndexOf(FileName(name), '.').value;
  }

  /** A name with an extension, taken apart. */
  lemma ExtensionSplits(name: string) returns (dir: string, stem: string)
    requires Extension(name) != ""
    ensures name == dir + stem + "." + Extension(name) && (dir == "" || dir[|dir| - 1] == '/')
    ensures stem != "" && '/' !in stem && '.' !in Extension(name) && '/' !in Extension(name)
  {
    Directory(name);
    hide Extension, FileName;
    var file := FileName(name);
    var k := ExtensionAt(name);
    DotSplits(file, k);
    dir, stem := name[..|name| - |file|], file[..k];
    assert dir + (stem + "." + Extension(name)) == dir + stem + "." + Extension(name);
  }

  lemma Regroup(container: string, dir: string, stem: string, ext: string)
    ensures container + "!" + (dir + stem + "." + ext) == (container + "!" + dir) + stem + "." + ext
  {
  }

  lemma RegroupFile(around: string, file: string, stem: string, ext: string)
    ensures (around + file) + "!" + ("" + stem + "." + ext) == around + (file + "!" + stem) + "." + ext
  {
  }

  lemma NestedExtension(container: string, name: string)
    requires Extension(name) != ""
    ensures Extension(container + "!" + name) == Extension(name)
  {
    var dir, stem := ExtensionSplits(name);
    Directory(container);
    hide Extension, FileName;
    var ext, file := Extension(name), FileName(container);
    var around := container[..|container| - |file|];
    Regroup(container, dir, stem, ext);
    RegroupFile(around, file, stem, ext);
    if dir != "" {
      ExtensionIs(container + "!" + dir, stem, ext);
    } else {
      ExtensionIs(around, file + "!" + stem, ext);
    }
  }

  /** An entry of known format has it under its display path too. */
  lemma NestedFormat(container: string, name: string)
    requires DetectFormat(name) != P.Unknown
    ensures DetectFormat(container + "!" + name) == DetectFormat(name)
  {
    hide Extension, KindOf;
    OwnIsUnknown("");
    if Extension(name) != "" { NestedExtension(container, name); }
  }

  lemma SampleKinds()
    ensures KindOf("zip") == P.ZipFile && KindOf("dll") == P.Pe && IsLower("zip") && IsLower("dll")
  {
  }

  lemma SampleNames()
    ensures DetectFormat("a.zip") == P.ZipFile && DetectFormat("b.dll") == P.Pe
  {
    SampleKinds();
    hide Extension, KindOf, Lower, IsLower;
    ExtensionIs("", "a", "zip");
    ExtensionIs("", "b", "dll");
    assert "" + "a" + "." + "zip" == "a.zip" && "" + "b" + "." + "dll" == "b.dll";
    LowerKeeps("zip");
    LowerKeeps("dll");
  }
}
