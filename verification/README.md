# A model of psign

psign signs, unsigns, verifies and prepares Authenticode material without Windows. This project models the algorithms
in it that carry invariants, as Dafny methods proved against specifications, and proves what those specifications
promise.

- `Zip`, `BlockMap`, `PackageSigning`, `PackageSoundness`, `PackageSuccess`, `FormatTable`, `CodePlan`,
  `PlanExecution`: signing packages inside packages. An archive is a finite tree; the run signs children before parents
  and repacks every container around them. Proved: at every depth, each entry stands in its place with its outcome,
  every signed package is sealed over its final content, everything else is as it was, and stored block maps are
  current; it is said exactly which packages can be signed, and which count as signed already; plans are complete and
  acyclic, and it is said exactly which planned entries a run works on.
- `Text`, `XmlScan`, `ClickOnce`, `XmlAttributes`, `Base64`: manifests changed as text. The scanner does not parse XML;
  the theorems say exactly when inserting a signature and stripping it are inverse, and what attribute rewriting keeps.
- `GlobMatch`, `BraceExpansion`, `BraceGrammar`, `Decimal`: the pattern language, a memoised matcher against a
  declarative language and a self-rewriting expansion against a grammar with a denotation.
- `DerLength`, `DerTlv`, `TimestampEcho`, `Pkcs7Wrapper`, `WinCertificate`, `OidArcs`, `ArtifactIdentity`: the DER
  readers and writers, with their bounds.
- `AuthRootCache`: a step machine of concurrent processes, files and a clock; the program is shown to be a run of it.
- `SignBatch`: the parallel signing batch, every schedule against the sequential run.
- `ResponseFiles`, `ScriptEncoding`, `ScriptSignature`, `DependencyGraph`: include expansion, script signature blocks
  in four encodings, and the import worklist.
- `Wrappers`, `Sequences`, `Sorting`: what the others share.

`dafny verify dfyconfig.toml` checks everything. A method stands for a loop of the source and ensures that it computes
a function; the lemmas are about that function.

## Where code and expectation differ

- `**/` matches any prefix, where globs usually mean whole directories; `GlobMatch.AnchoredExactly` says for which
  patterns there is no difference.
- The timestamp server writes lengths modulo 2^24 (`DerLength.ServerRoundTripLimit`, `TimestampEcho.EchoExactly`,
  `TimestampEcho.LargeRequestIsLost`).
- Splitting a certificate trust list panics on a child that announces too much (`DerTlv.ChildrenPanicsExactly`).
- A tag that is open at the root's last close tag swallows an inserted signature (`ClickOnce.RoundTripExactly`,
  `ClickOnce.OpenTagSwallows`).
- In a response file neither quotes nor a doubled `@` keep `@name` from being included
  (`ResponseFiles.ListedReadsBack`); the module comment of the source mentions doubling for command lines only.
- A script whose content ends in CR loses it when the block was appended behind a bare LF
  (`ScriptSignature.UnsignsBehindLf`).
- A cache stamp ahead of the clock counts as fresh, until max_age behind the stamp (`AuthRootCache.StampAhead`);
  reachable states have none as long as the clock does not go back.
- The nested signing loop has no arm for ZIP files and none for ClickOnce manifests that are skipped as signed; the
  first are left alone, although the planner looks into them, and the second are an error. `PlanExecution` says exactly
  what a run does with the entries a plan lists, and exhibits a program that is planned and not signed.

## Model

| member | source | states |
|---|---|---|
| PackageSigning.SignNestedPackageEntries | src/code.rs:845-1047 | The loop over the entries, and the repacking behind it, compute `SignNested`; every error return included. |
| PackageSigning.SignEntry | src/code.rs:861-1036 | The arms of its match, with the calls back into the package signers, compute `UpdateAt`. |
| PackageSigning.SignNugetBytes | src/code.rs:595-649 | Skipping, nested signing, canonicalising, signing and embedding compute `SignNuget`. |
| PackageSigning.SignVsixBytes | src/code.rs:653-703 | The same for VSIX computes `SignVsix`. |
| PackageSigning.PrepareMsixFamilyBytes | src/code.rs:1197-1257 | Nested signing, publisher and block map compute `Prepare`. |
| PackageSigning.PackageHasSignature | src/code.rs:1653-1676 | The loop over the entries computes `HasSignature`, of which `PackageSoundness.SignatureDecision` says what it answers. |
| PackageSoundness.SignatureDecision | src/code.rs:1653-1676 | A package counts as signed exactly if a signature file stands in it with no unsafe file name in front; it is an error exactly if an unsafe name comes first. |
| PackageSoundness.NugetSignsOnce | src/code.rs:609-611 | Signing a signed NuGet package again, with any tool that skips signed packages, gives it back as it is. |
| PackageSoundness.VsixSignsOnce | src/code.rs:669-671 | The same for VSIX. |
| PackageSuccess.NestedSucceeds | src/code.rs:845-1047 | Signing what is in a package succeeds if and only if no entry stops it and, when there is anything to work on, no two such entries have one name and every name in the package is safe. |
| PackageSuccess.NugetSucceeds | src/code.rs:595-649 | Signing a NuGet package succeeds if and only if it is skipped as signed, or its entries can be signed, its names are safe, an old signature may be overwritten, and the signer signs it. |
| PackageSuccess.VsixSucceeds | src/code.rs:653-703 | The same for VSIX, whose content types and root relationships must be completable. |
| PackageSuccess.PrepareSucceeds | src/code.rs:1197-1257 | An MSIX or AppX package can be prepared if and only if it holds no AppxSignature.p7x, its entries can be signed, its publisher can be set (one manifest, or a bundle manifest, or an upload with neither), and names are safe where it holds a block map. |
| PackageSoundness.NugetIsSound | src/code.rs:595-649 | Inside-out signing, NuGet: a package is left as it was exactly if it is skipped as signed; any other carries a signature over exactly its final content, every entry it held but an old signature stands in its place under its name with its outcome, and behind them stand only the signature and companions. The same holds of every package inside, at every depth; leaves are what their signer made of them, everything else is as it was. |
| PackageSoundness.VsixIsSound | src/code.rs:653-703 | The same for VSIX, whose content types and root relationships are the completed ones; packages nested in a VSIX use its hash, packages nested in a NuGet package SHA-256. |
| PackageSoundness.PreparedIsSound | src/code.rs:1197-1257 | The same inside MSIX and AppX packages: manifests carry the new publisher, the block map is the one that rebuilding gives, no other entry is disturbed. |
| PackageSoundness.NestedIsInside | src/code.rs:845-1047 | The same for a plain ZIP container: each entry stands in its place with its outcome, and only companion signatures are new. |
| PackageSoundness.OpenedIsSealed | src/code.rs:595-1257 | Spelled out for a place at any depth: every package that the run opens is still there, under a signature over its final content, or with the block map of it. |
| PackageSoundness.SparedStays | src/code.rs:845-1047 | Spelled out for a place at any depth: what the run has no business with (directories, excluded names, other formats, packages skipped as signed and what is in them) is where it was with the content it had. |
| PackageSoundness.AppInstallerLands | src/code.rs:920-962 | Every App Installer entry is in its place with its new publisher, if any, and the companion signature that is in the archive was made over exactly that descriptor. |
| PackageSoundness.InsideOn | src/code.rs:595-1257 | Signing or preparing a package around its signed entries keeps all their outcomes: what it rewrites are its own entries. |
| PackageSoundness.EmbeddedIsSealed | crates/psign-opc-sign/src/nuget.rs:490-548 | The author signature appended by `embed_signature` is over the package without that entry, which is the canonical unsigned package. |
| PackageSoundness.VsixIsSealed | crates/psign-opc-sign/src/vsix.rs:844-930 | The signature part covers the other parts as embedding writes them, although they are prepared twice, with and without permission to overwrite. |
| PackageSoundness.PreparedMapIsCurrent | src/code.rs:1240-1256 | For every prepared package that holds AppxBlockMap.xml, rebuilding the block map from the output gives the stored one, in flat and bundle layout. |
| FormatTable.TableIsPlain | src/code.rs:3208-3257 | With the real format table, the names the run writes itself and all `.p7` companions are of no known format, which is what the results on sealing need of the table. |
| FormatTable.NestedFormat | src/code.rs:3208-3257 | An entry of known format has the same format under its display path, for every container path. |
| FormatTable.ExtensionDecides | src/code.rs:3208-3266 | A file has the format of its extension in any case, wherever it is and whatever else its name is. |
| FormatTable.PackageExtensions | src/code.rs:3232-3257 | Which extensions are packages, App Installers and ZIP files, each if and only if. |
| CodePlan.PlanBuilder.AddNode | src/code.rs:3018-3074 | A path is planned once, for what stands at a planned place of a selected file; a container gets an edge from each of its planned entries, and so do the containers in it; nothing planned before changes; its output path continues that of the file as its path does; it fails only at a container that cannot be read. |
| CodePlan.PlanBuilder.AddChildren | src/code.rs:3048-3071 | The loop over the inspected entries adds every one of them with its edge. |
| CodePlan.PlanBuilder.AddChild | src/code.rs:3063-3071 | Its body: one entry with its own children, and its edge. |
| CodePlan.PlanBuilder.AddAll | src/code.rs:187-189 | A whole plan has a node for every selected file, one per path, and is complete; planning fails if and only if it meets a container that is no archive or holds an unsafe file name. |
| CodePlan.PlannedAre | src/code.rs:3088-3129 | Inspection keeps exactly the entries that are no directories, not excluded and of a known format, in name order. |
| PlanExecution.PlannedEntryExactly | src/code.rs:882-1035 | When the loop passes a planned entry, it pushes nothing for it if and only if it is a ZIP file. |
| PlanExecution.ManifestFailsExactly | src/code.rs:963-977 | A planned ClickOnce manifest stops the run if and only if it is skipped as signed or cannot be signed. |
| PlanExecution.PlannedRunsExactly | src/code.rs:845-1047 | In a run that succeeds, a planned place at any depth is worked on if and only if no ZIP file stands there or around it inside the container and no package around it is skipped as signed. |
| PlanExecution.PlanRunsExactly | src/code.rs:3018-3074 | The same of the nodes of a plan: a run leaves alone exactly the nested ZIP files, what is in them, and what is in packages skipped as signed. |
| PlanExecution.NestedZipIsLeftAlone | src/code.rs:1028-1035 | A concrete container, a ZIP file with a program in it: the plan lists the program and the run returns the container as it was. |
| PlanExecution.ZipIsBystander | src/code.rs:1034 | A ZIP file inside a container is none of the run's business, so by `PackageSoundness.SparedStays` it keeps its content. |
| PlanExecution.TableAgrees | src/code.rs:3208-3257 | With the real format table, plan and run read the same formats, which is what these results need. |
| CodePlan.OutwardsIsShorter | src/code.rs:3053-3071 | Edges lead from longer paths to shorter ones, so a plan has no cycle and children come before containers. |
| Zip.RepackZip | src/code.rs:3156-3206 | Draining the pending-update map while writing computes `Repack`: rewritten entries in place, the rest copied, unclaimed updates behind them in name order, two updates for one name or an unsafe name refused. |
| Zip.CollectUpdates | src/code.rs:3168-3173 | Filling the ordered map refuses duplicates and unsafe names. |
| Zip.RepackDoes | src/code.rs:3156-3206 | Position by position: every entry keeps place and name, is rewritten exactly if an update has its name and no earlier entry does, and exactly the updates that met no entry are added. |
| Zip.UpdatesLand | src/code.rs:3156-3206 | No update is lost: each is an entry of the result. |
| Zip.AddedInOrder | src/code.rs:3156-3206 | What is added stands in name order, each name once. |
| Zip.RepackSucceeds | src/code.rs:3156-3206 | Repacking succeeds if and only if every name is safe and no two updates are for one name. |
| Zip.SafeExactly | src/code.rs:3368-3376 | A name is safe if and only if it is relative, without a backslash and without a part that is "." or "..". |
| BlockMap.BuildFlatMap | src/code.rs:1412-1456 | The loop that lists, sorts and hashes the files computes `FlatMap`. |
| BlockMap.FlatMapLists | src/code.rs:1412-1456 | A flat map has one map for each file the package lists, in name order and in archive order where names agree; each has the size of that file and, block by block, the hash of one of the ceil(n/65536) pieces that concatenate to its bytes. |
| BlockMap.BundleMapLists | src/code.rs:1344-1371 | A bundle map is the one map of the bundle manifest, under a name with a backslash, with hash and size of each piece of that file. |
| BlockMap.ListedAre | src/code.rs:1412-1430 | Listed are all files but the content types, the block map and the signature. |
| BlockMap.ChunksJoin | src/code.rs:1364-1371 | The 64 KiB pieces concatenate back to the file. |
| BlockMap.ChunkSizes | src/code.rs:1364-1371 | There are ceil(n/65536) pieces, all full but the last, none empty. |
| BlockMap.SortedFiles | src/code.rs:1431 | Sorting keeps the files and puts them in name order. |
| BlockMap.StoredMapIsCurrent | src/code.rs:1327-1342 | Storing a map does not change what the map is computed from. |
| ClickOnce.UnsignedText | src/code.rs:733-741 | Cutting the first Signature element out computes `Unsigned`. |
| ClickOnce.RoundTripExactly | src/code.rs:733-785 | Stripping after inserting gives back the digested text if and only if no scanned tag is still open at the last close tag of the root (the text holding no Signature tag). |
| ClickOnce.OpenTagSwallows | src/code.rs:733-785 | The manifest `<r><a</r>` does not survive. |
| ClickOnce.ResigningReplaces | src/code.rs:705-785 | Signing a signed manifest again, with any key and algorithm, digests the same text and gives the result of signing the original. |
| ClickOnce.SignedOver | src/code.rs:705-785 | A signed manifest is the unsigned text with a signature at its insertion point; its digest is over that text and its value was made over the SignedInfo with that digest. |
| ClickOnce.SignsExactly | src/code.rs:705-785 | Signing succeeds if and only if the old signature can be cut out, the rest has a root element that is closed, and the signer signs. |
| ClickOnce.UnsignedFails | src/code.rs:733-741 | Cutting fails if and only if a tag in front of the Signature tag is never closed, or nothing closes that element. |
| ClickOnce.SignedHoldsDigest | src/code.rs:705-785 | Cutting the signature out of a signed manifest leaves the text whose digest stands in the signature as DigestValue, if no tag swallows the signature. |
| ClickOnce.SignatureHolds | src/code.rs:758-769 | The signature element holds the very SignedInfo that was signed, the signature value and the certificate. |
| ClickOnce.SignedInfoHolds | src/code.rs:743-756 | SignedInfo names the signature method and the digest method by their URIs. |
| ClickOnce.UrisName | src/code.rs:787-801 | Both URIs end in the name of the hash that is used. |
| ClickOnce.SignatureIsElement | src/code.rs:743-769 | Every signature the tool writes is a Signature element whose first close tag is its own last one. |
| Base64.EncodedComesBack | src/code.rs:749 | Bytes come back from their Base64. |
| Base64.AlphabetIs | src/code.rs:749 | The alphabet of section 4 of RFC 4648. |
| Base64.DecodedComesBack | src/portable_remove.rs:139-141 | The strict decoder accepts no text but the encoding of what it decodes to. |
| XmlScan.FindStartTag | src/code.rs:1550-1589 | The cursor loop finds the tag the recursive scan describes, from any position. |
| XmlScan.FoundExactly | src/code.rs:1550-1589 | The scan finds a tag if and only if the text in front of it is made of pieces without a `<`, of starts of end tags, declarations and instructions, and of start tags with another local name. |
| XmlScan.UnclosedExactly | src/code.rs:1565-1568 | It is an error if and only if such pieces lead to a start tag that is never closed. |
| XmlScan.NoTagExactly | src/code.rs:1550-1589 | It finds nothing if and only if the text is such pieces, and perhaps a `<` at its end. |
| XmlScan.TagNameIs | src/code.rs:1570-1574 | The name of a tag ends at the first white space, `>` or `/`. |
| XmlScan.LocalNameIs | src/code.rs:1575-1578 | The local name is what follows the last colon. |
| XmlScan.FindRoot | src/code.rs:1608-1646 | The cursor loop computes `Root`. |
| XmlScan.RootExactly | src/code.rs:1608-1646 | The search finds a name if and only if the text is pieces without a `<`, declarations and comments up to their first `>`, and then a start tag with that name. |
| XmlAttributes.UpdateAttr | src/code.rs:1485-1504 | The rewriting loop computes `Update`. |
| XmlAttributes.EscapeIsPerCharacter | src/code.rs:1535-1541 | Four replacements in a row are one per-character map. |
| XmlAttributes.EscapeRoundTrip | src/code.rs:1535-1541 | Escaping can be undone and leaves no raw quote or angle bracket. |
| XmlAttributes.RewrittenTag | src/code.rs:1506-1533 | A rewritten tag is still one tag, carries the value, and is left alone by a second rewriting. |
| XmlAttributes.RewritesOnlyTheTags | src/code.rs:1485-1504 | The result is the text with each scanned tag rewritten and every gap untouched; failure exactly when a tag or a quote is not closed. |
| XmlAttributes.CutJoins | src/code.rs:1485-1504 | Tags and gaps put together are the text. |
| XmlAttributes.EveryTagCarriesTheValue | src/code.rs:1485-1533 | Every start tag of the local name that a scan of the result finds carries the value. |
| XmlAttributes.UpdateIsIdempotent | src/code.rs:1485-1533 | A second application changes nothing, for every text. |
| XmlAttributes.RescanMeetsTheSameTags | src/code.rs:1485-1589 | If no tag name holds a quote, rescanning meets the rewritten tags one for one with the same text between. |
| GlobMatch.GlobMatchInner | src/code.rs:3507-3541 | The memoised recursion returns the meaning of its state, every memo entry agrees with the meaning of its own state, and only states at or beyond the current one are added. |
| GlobMatch.Match | src/code.rs:3500-3505 | The matcher accepts exactly the texts that split into one piece per token, and evaluates at most (p+1)(t+1) states. |
| GlobMatch.MatchesExactly | src/code.rs:3507-3541 | The recursion decides the declarative language, for every pattern and text. |
| GlobMatch.DoubleStar | src/code.rs:3520-3525 | The arm for `**` returns the meaning of its state. |
| GlobMatch.AnchoredExactly | src/code.rs:3521-3525 | `**/` in front of a pattern keeps to whole directories, on every text, if and only if the first character of that pattern other than `?` is a star. |
| GlobMatch.MatchedInsideAName | src/code.rs:3521-3525 | For every other pattern, a text that is matched although no whole directories stand in front. |
| GlobMatch.DoubleStarSlashInsideAName | src/code.rs:3521-3525 | The input `**/b` on `ab`. |
| GlobMatch.DoubleStarSlashIsDoubleStar | src/code.rs:3521-3525 | `**/` is as permissive as `**` without the slash. |
| BraceExpansion.FindFirstBrace | src/code.rs:3415-3448 | The depth and escape loop finds the outermost first group. |
| BraceExpansion.BraceChoices | src/code.rs:3450-3498 | Range or comma list, as the specification `Choices` says. |
| BraceExpansion.ExpandBraces | src/code.rs:3398-3413 | The self-rewriting expansion computes `Expand` and terminates on every string: each call has fewer opening braces. |
| BraceExpansion.ExpandsExactly | src/code.rs:3398-3448 | A backslash-free pattern expands if and only if its braces balance, and no brace is left in any word. |
| BraceExpansion.Homomorphism | src/code.rs:3398-3413 | Expanding x + y is the ordered product of the two expansions. |
| BraceExpansion.EscapedStays | src/code.rs:3398-3448 | Text with its braces and backslashes escaped, in front of any pattern, stands unchanged in front of every word; the pattern fails with it exactly if it fails alone. |
| BraceExpansion.EscapedIsLiteral | src/code.rs:3398-3448 | Escaped text alone expands to itself. |
| BraceGrammar.ExpandsToDenotation | src/code.rs:3398-3498 | Every balanced backslash-free pattern is a word of the grammar and expands to exactly the words it denotes, in left-to-right choice order. |
| BraceGrammar.RangeEnumerates | src/code.rs:3450-3476 | A range lists its numbers one by one in its direction; each word reads back as its number and is zero-padded to the longer bound. |
| DerLength.ReadLen | src/bin/psign-server.rs:1775-1791 | The reader returns the number the octets spell and the position behind them, for at most three octets. |
| DerLength.ParseDefiniteLength | src/win/verify_detached.rs:70-84 | The four-octet reader, which the source has three times. |
| DerLength.EncodeDefiniteLength | src/win/verify_detached.rs:23-37 | The pushing-and-reversing writer produces the minimal definite form of section 8.1.3 of X.690. |
| DerLength.WritersAgree | src/bin/psign-server.rs:1793-1803 | The two writers emit the same octets if and only if n is below 2^24. |
| DerLength.GeneralRoundTripLimit | src/win/verify_detached.rs:23-37 | Readers of four octets recover n and the header size if and only if n is below 2^32, in any surroundings. |
| DerLength.ServerRoundTripLimit | src/bin/psign-server.rs:1775-1803 | The server reads its own length back modulo 2^24, so it recovers n if and only if n is below 2^24. |
| DerLength.WrittenLengthIsMinimal | src/win/verify_detached.rs:23-37 | No accepted field for a length is shorter than the written one, and only the written one is as short (section 10.1 of X.690). |
| DerTlv.CollectChildren | crates/psign-authenticode-trust/src/authroot_ctl.rs:134-143 | The loop computes `Children`; slicing past the end is a panic, not an error. |
| DerTlv.ParseSubjectList | crates/psign-authenticode-trust/src/authroot_ctl.rs:87-104 | The loop computes `SubjectList`. |
| DerTlv.ChildrenExactly | crates/psign-authenticode-trust/src/authroot_ctl.rs:134-143 | Children are returned if and only if the content is the concatenation of well-formed TLVs, and are those TLVs. |
| DerTlv.ChildrenPanicsExactly | crates/psign-authenticode-trust/src/authroot_ctl.rs:134-143 | It panics exactly when, behind well-formed children, a readable header announces more than is left. |
| DerTlv.SubjectListRoundTrip | crates/psign-authenticode-trust/src/authroot_ctl.rs:87-104 | An encoded subject list gives back its 20-byte identifiers in order, whatever attributes and trailing octets there are. |
| DerTlv.SubjectListExactly | crates/psign-authenticode-trust/src/authroot_ctl.rs:87-104 | A subject list is read as these identifiers if and only if it begins with a SEQUENCE of TLVs whose elements say them, in order: no SEQUENCE, or no 20-octet OCTET STRING in front, says nothing. |
| TimestampEcho.ReadTlv | src/bin/psign-server.rs:1757-1773 | The cursor returns the TLV at its position and moves behind it. |
| TimestampEcho.ParseTimestampRequest | src/bin/psign-server.rs:1647-1683 | The cursor loop always advances, to the end or to an error, and computes `Request`. |
| TimestampEcho.AcceptedExactly | src/bin/psign-server.rs:1647-1683 | A request is accepted if and only if it has the shape of section 2.4.1 of RFC 3161, and is read as its parts say. |
| TimestampEcho.DerBuffer.PushLen | src/bin/psign-server.rs:1793-1803 | Appends exactly the length octets. |
| TimestampEcho.DerBuffer.PushTlv | src/bin/psign-server.rs:1805-1809 | Appends exactly one TLV. |
| TimestampEcho.DerBuffer.PushIntegerU64 | src/bin/psign-server.rs:1855-1874 | Appends the value as INTEGER. |
| TimestampEcho.IntegerContents | src/bin/psign-server.rs:1855-1874 | Filling nine octets from the end gives the contents octets of the value. |
| TimestampEcho.IntegerIsMinimal | src/bin/psign-server.rs:1855-1874 | The INTEGER spells the value, is non-negative and minimal (section 8.3.2 of X.690). |
| TimestampEcho.BuildTstInfo | src/bin/psign-server.rs:1685-1702 | The pushes build `TstInfo`. |
| TimestampEcho.PolicyIs | src/bin/psign-server.rs:40 | The policy octets are the encoding of 1.3.6.1.4.1.311.97.99.1. |
| TimestampEcho.EchoExactly | src/bin/psign-server.rs:1647-1702 | For every accepted request, re-reading the built TSTInfo yields the same algorithm, hashed message and nonce, the serial and the time, if and only if the body is below 2^24 octets. |
| TimestampEcho.LargeRequestIsLost | src/bin/psign-server.rs:1685-1702 | There are accepted requests on the other side of that bound. |
| Pkcs7Wrapper.WrapSignedData | src/win/verify_detached.rs:41-56 | The pushes build the ContentInfo of section 3 of RFC 5652. |
| Pkcs7Wrapper.SignedDataOidIs | src/win/verify_detached.rs:18-21 | The octets are the encoding of 1.2.840.113549.1.7.2. |
| Pkcs7Wrapper.NormalizedTwice | src/win/verify_detached.rs:86-95 | Normalising twice is normalising once, for every blob. |
| Pkcs7Wrapper.WrapsExactly | src/win/verify_detached.rs:41-68 | Opening the wrapper returns the SignedData if and only if it is shorter than 2^32 - 17 octets. |
| Pkcs7Wrapper.BareSignedDataSurvives | src/win/verify_detached.rs:58-95 | A bare SignedData comes back unchanged from the normalised blob; everything else is left as it is. |
| WinCertificate.Repack | src/win/remove_unauth.rs:404-419 | Padding and patching in place builds `Repacked`. |
| WinCertificate.FindPkcs7 | src/win/remove_unauth.rs:350-369 | The probing loop returns the accepted SEQUENCE at the lowest offset below 4096, or nothing if there is none. |
| WinCertificate.RepackRoundTrip | src/win/remove_unauth.rs:383-419 | Re-parsing a repacked entry returns revision, type and PKCS#7 if and only if the aligned size fits 32 bits; the length field is then the buffer size, a multiple of 8. |
| WinCertificate.RepackedIs | src/win/remove_unauth.rs:404-419 | Octet by octet: little-endian length, revision and type, the message, and zeros up to the next multiple of 8. |
| WinCertificate.ParsedExactly | src/win/remove_unauth.rs:383-402 | An entry is parsed if and only if it says its own length; it is then of another type, or its message is the first one below offset 4096 that the probe accepts. |
| WinCertificate.CandidateExactly | src/win/remove_unauth.rs:350-369 | A candidate is a SEQUENCE that stands at the offset. |
| WinCertificate.SignedMessage.StripChain | src/win/remove_unauth.rs:223-265 | Fails exactly when a signer has no certificate, changing nothing; otherwise leaves the first match of every signer. |
| WinCertificate.SignedMessage.KeepIndices | src/win/remove_unauth.rs:230-248 | The nested loops collect the first match of each signer. |
| WinCertificate.SignedMessage.DeleteUnkept | src/win/remove_unauth.rs:250-263 | Deleting from the highest index down leaves exactly the kept certificates. |
| WinCertificate.KeptIsFilter | src/win/remove_unauth.rs:250-263 | What is left is the kept indices in ascending order and nothing else. |
| WinCertificate.StrippedBag | src/win/remove_unauth.rs:223-265 | Every signer still finds its certificate, and every certificate left is some signer's. |
| OidArcs.DecodeOidArcs | crates/psign-authenticode-trust/src/artifact_signing.rs:187-218 | The loop over a 64-bit accumulator computes `DecodedOid`; its guard rules overflow out. |
| OidArcs.DecodesExactly | crates/psign-authenticode-trust/src/artifact_signing.rs:187-218 | Octets decode to arcs if and only if they are the encoding of section 8.19 of X.690 of those arcs, all subidentifiers below 2^64. |
| OidArcs.DecodingIsInjective | crates/psign-authenticode-trust/src/artifact_signing.rs:187-218 | Two octet strings decode alike only if they are the same. |
| ArtifactIdentity.DecodeEkuArcs | crates/psign-authenticode-trust/src/artifact_signing.rs:155-185 | The extension must be one SEQUENCE and nothing behind it, and a run of OBJECT IDENTIFIERs inside; one bad OID rejects it. |
| ArtifactIdentity.ExtensionReadsBack | crates/psign-authenticode-trust/src/artifact_signing.rs:155-185 | The DER of any list of OIDs decodes to their arcs in order. |
| ArtifactIdentity.IdentityFromExtensions | crates/psign-authenticode-trust/src/artifact_signing.rs:244-296 | The flag-and-compare loop returns what the set of EKUs means: conflict, none, or the one identity with its two flags. |
| ArtifactIdentity.IdentityExactly | crates/psign-authenticode-trust/src/artifact_signing.rs:228-242 | An EKU is an identity of a kind if and only if it is the Artifact Signing prefix, the arcs of that kind and a non-empty id, which for public trust does not begin with 1. |
| ArtifactIdentity.OrderDoesNotMatter | crates/psign-authenticode-trust/src/artifact_signing.rs:244-296 | The result depends only on which EKUs occur. |
| ArtifactIdentity.DottedIsInjective | crates/psign-authenticode-trust/src/artifact_signing.rs:220-226 | Dotted text determines the arcs, so comparing text compares identities. |
| ArtifactIdentity.PublisherDeterminesEku | crates/psign-authenticode-trust/src/artifact_signing.rs:228-296 | Kind and publisher id agree if and only if the encoded identity EKUs do. |
| AuthRootCache.CacheSafety | crates/psign-authenticode-trust/src/authroot_cache.rs:90-140 | Over all runs of any number of processes from an empty cache, with failures and stops between any two file operations: a present cab is one whole non-empty fetch; a cab accepted as fresh is no older than the refresh that stamped the metadata, and the stamp is at most max_age old. |
| AuthRootCache.NextKeepsInv | crates/psign-authenticode-trust/src/authroot_cache.rs:90-241 | Every step of every process, every tick and every stop keeps the invariant behind that. |
| AuthRootCache.FailedFetchesChangeNothing | crates/psign-authenticode-trust/src/authroot_cache.rs:105-133 | As long as fetches fail or are empty, no file changes, whatever the processes do. |
| AuthRootCache.CacheDir.GetOrDownload | crates/psign-authenticode-trust/src/authroot_cache.rs:90-140 | The program is a run of the step machine to its end and reports that end; its answer is determined by freshness, fetch and file operations; no file changes when the fetch fails. |
| AuthRootCache.CacheDir.IsStale | crates/psign-authenticode-trust/src/authroot_cache.rs:171-186 | Not stale exactly when there is a cab and readable metadata with a stamp at most max_age old or ahead of the clock. |
| AuthRootCache.FreshExactly | crates/psign-authenticode-trust/src/authroot_cache.rs:171-204 | A cab is used as it is if and only if it can be read and its metadata hold a stamp, the Unix one or else the UTC one, that the clock has not passed by more than max_age. |
| AuthRootCache.RefreshedIsFresh | crates/psign-authenticode-trust/src/authroot_cache.rs:171-241 | The stamp of a refresh keeps the next call from fetching until max_age has passed, counted from the whole second of the refresh. |
| AuthRootCache.StampAhead | crates/psign-authenticode-trust/src/authroot_cache.rs:171-186 | A stamp ahead of the clock is fresh, and stays so until max_age behind the stamp. |
| AuthRootCache.CacheDir.ReplaceFile | crates/psign-authenticode-trust/src/authroot_cache.rs:252-269 | Done exactly when the rename, or removing and renaming again, works; otherwise the old cab is there or no cab is. |
| AuthRootCache.CacheDir.CacheCabBytes | crates/psign-authenticode-trust/src/authroot_cache.rs:206-241 | Temporary file, replacement, then the stamp, read from the clock after the cab is in place. |
| SignBatch.ParallelIsSequential | src/portable_sign.rs:96-151 | For targets that pass the check for duplicates and whose temporary and companion files are apart, every interleaving of the file operations and every order of returned rows: files, ordered rows and the report over them are those of the sequential batch. |
| SignBatch.AnyScheduleIsSequential | src/portable_sign.rs:683-718 | Every complete schedule of write, copy and remove steps ends in the state of signing one target after the other. |
| SignBatch.SharedTargetLosesASignature | src/portable_sign.rs:329-335 | Why identities must differ: two operations on one target, interleaved, lose a signature that the sequential run keeps. |
| SignBatch.DistinctIsDisjoint | src/portable_sign.rs:329-335 | What that check buys: no file belongs to two targets. |
| SignBatch.HasDuplicates | src/portable_sign.rs:329-335 | True exactly when two targets have one identity. |
| SignBatch.Disk.SignOne | src/portable_sign.rs:683-718 | Temporary output, copies and removals have the outcome of the steps taken alone. |
| SignBatch.SigningOne | src/portable_sign.rs:683-718 | A target that is skipped counts as signed and one that is refused as failed, and no file changes; otherwise the target is replaced exactly by an output that passed its check and could be copied, no temporary file stays, a companion that cannot be copied fails the target although its new content stands, and nothing else changes. |
| SignBatch.SignedExactly | src/portable_sign.rs:582-718 | A row says signed if and only if the target was skipped, or its output passed its check and every copy worked. |
| SignBatch.RunKeeps | src/portable_sign.rs:683-718 | At every moment of every schedule, a file that was there is there, unless it has the name of a temporary output. |
| SignBatch.SignInOrder | src/portable_sign.rs:117-125 | The sequential loop over the disk computes `SignFrom` and returns its rows in order. |
| SignBatch.MakeReport | src/portable_sign.rs:127-150 | From rows in any order: sorted, joined, counted, or the error of the lowest index. |
| SignBatch.SortedRows | src/portable_sign.rs:127-128 | Sorting any permutation of the rows by index gives target order. |
| SignBatch.ExitCodeSays | src/portable_sign.rs:1458-1479 | Exit code 0 if every target succeeded; otherwise 1, or in the other style 0x20000001 if some target succeeded and 0xA0000002 as a signed number if none did. |
| SignBatch.AbortsExactly | src/portable_sign.rs:127-145 | The batch ends in an error if and only if it does not go on behind errors and a target failed, and that error is that of the first such target. |
| SignBatch.TextTells | src/portable_sign.rs:131-145 | The text of a report says of each target in turn what its row says, each from a new line on. |
| ResponseFiles.AppendResponseLine | src/response_argv.rs:107-119 | One line: nothing, an include, or an argument. |
| ResponseFiles.PlainLine | src/response_argv.rs:97-119 | A line without quotes stands for its text without the white space around it, or for an include. |
| ResponseFiles.QuotedLineAround | src/response_argv.rs:97-119 | White space around a quoted line does not count. |
| ResponseFiles.ReadFlatArgs | src/response_argv.rs:121-141 | Reading terminates for every file map and computes `ReadFlat`. |
| ResponseFiles.ReadsExactly | src/response_argv.rs:107-141 | Reading succeeds with these arguments if and only if the includes unfold, at most 8 deep, into readable files whose lines in order are the arguments. |
| ResponseFiles.FailsExactly | src/response_argv.rs:107-141 | Reading fails if and only if a chain of includes leads below the depth limit or to a missing or too long file. |
| ResponseFiles.CycleFails | src/response_argv.rs:121-127 | A reachable cycle of includes is an error. |
| ResponseFiles.ParseMultiCommandBlocks | src/response_argv.rs:144-169 | The block loop computes `ParseBlocks`. |
| ResponseFiles.ParsedBlocks | src/response_argv.rs:144-169 | Splitting into blocks succeeds if and only if the flat reading gives an argument; no block is empty and they concatenate to the flat reading. |
| ResponseFiles.ListedReadsBack | src/response_argv.rs:97-119 | Quoted arguments read back if and only if none is '@' followed by something: neither quoting nor doubling protects it inside a file. |
| ResponseFiles.ExpandInvocations | src/response_argv.rs:181-215 | Single `@file` or splicing, as `Expand` says. |
| ResponseFiles.SingleFileExpands | src/response_argv.rs:181-194 | A command line that is one include expands if and only if the file reads flat to some argument; each invocation is then the program and some arguments, and all arguments in a row are the flat reading. |
| ResponseFiles.ScriptExpands | src/response_argv.rs:144-194 | A file that lists commands with blank lines between them gives one invocation for each, in order. |
| ResponseFiles.TwoCommandsExpand | src/response_argv.rs:144-194 | For two commands with one blank line between them: exactly two invocations. |
| ResponseFiles.UnreadableFileFails | src/response_argv.rs:181-187 | An include that cannot be read is an error. |
| ResponseFiles.TailExpands | src/response_argv.rs:196-215 | Any other command line gives one invocation: the program and what its arguments stand for. |
| ResponseFiles.SplicesExactly | src/response_argv.rs:196-215 | Splicing puts in a row, in order, what each argument stands for: the rest of a doubled '@', the flat reading of an include, or itself. |
| ResponseFiles.ProtectedTailExpands | src/response_argv.rs:195-213 | On the command line doubling a leading '@' passes any argument list through. |
| ScriptSignature.RemoveBlock | src/portable_remove.rs:76-117 | The index arithmetic computes `Removed`. |
| ScriptSignature.IsSignatureBlock | src/portable_remove.rs:119-142 | The line loop computes `IsBlock`. |
| ScriptSignature.RemovesExactly | src/portable_remove.rs:76-142 | A script is changed if and only if it is head, begin marker, valid body, end marker and white space, and then to the head and tail without the line breaks at the block. |
| ScriptSignature.MarkersAre | src/portable_remove.rs:81-90 | The begin and end markers of each comment style. |
| ScriptSignature.CommentsAreBlock | src/portable_remove.rs:119-142 | Base64 cut into comment lines is a valid block if and only if it decodes, so the encoding of any bytes is. |
| ScriptSignature.UnsignsExactly | src/portable_remove.rs:76-117 | A block appended behind CR LF comes off without a trace, whatever the content, markers included. |
| ScriptSignature.UnsignsBehindLf | src/portable_remove.rs:100-105 | Behind LF exactly the contents that do not end in CR come back. |
| ScriptSignature.UnsignsWithoutBreak | src/portable_remove.rs:100-105 | With nothing between, exactly the contents that do not end in LF come back. |
| ScriptSignature.RewrittenIsPrefix | src/portable_remove.rs:64-74 | In all four encodings the file written back is a byte prefix of the signed file. |
| ScriptSignature.RewrittenReadsBack | src/portable_remove.rs:64-74 | The file written back decodes to the unsigned text in its encoding, except an unmarked UTF-8 file that would begin with the mark character. |
| ScriptEncoding.DecodedEncodesBack | src/portable_remove.rs:151-218 | Encoding what was decoded gives the same bytes, for every decodable file. |
| ScriptEncoding.EncodedDecodes | src/portable_remove.rs:151-218 | Decoding what was encoded gives text and encoding, if and only if the mark is not mistaken. |
| ScriptEncoding.Utf8Canonical | src/portable_remove.rs:157-171 | The strict UTF-8 decoder accepts one byte string per text. |
| ScriptEncoding.Utf16Canonical | src/portable_remove.rs:190-208 | The same for UTF-16 with paired surrogates. |
| ScriptEncoding.EncodeUtf16 | src/portable_remove.rs:210-226 | The word loop writes mark and text. |
| DependencyGraph.Explore | src/bin/depgraph.rs:107-146 | The worklist stops on every import graph, succeeds if and only if everything reachable can be read, and then names each reachable binary once and nothing else, with edges that stay inside. |
| DependencyGraph.ClosedHoldsReachable | src/bin/depgraph.rs:107-146 | A closed set that holds the root holds everything reachable. |

## Left out

- Hashing, RSA, CMS, certificate probing, timestamping and the ZIP byte format are parameters or are absent; a
  signature is known only by the content it was made over, with the signing time of a VSIX fixed.
- ZIP bytes: an archive is its entry tree, so two byte strings with the same entries are one value. Directory entries
  are copied with whatever content they have, and entries looked up by name are the last of that name.
- `PackageSigning` takes the exclusion patterns, XML part completion and leaf signers (PE, ClickOnce, `.deploy`) as
  parameters.
- `FormatTable` reads an extension as Rust does for paths without a trailing slash; the look at the first bytes of `.app`
  files is a parameter of `CodePlan`.
- Error texts: an error is one value, except where the batch reports it.
- Offsets in text count characters, not UTF-8 bytes; text is a sequence of Unicode scalar values.
- `ArtifactIdentity.DecodeEkuArcs`: takes the library's header reader as a parameter; `ExtensionReadsBack` assumes of it
  that it finds the headers of DER values up to some length. Finding the EKU extensions of a certificate is not part of
  this model.
- `DerLength.EncodeDefiniteLength`: takes lengths below 2^64 only, as `usize` does.
- `Pkcs7Wrapper.NormalizedTwice`: assumes what every slice satisfies, a length below `isize::MAX` (with room for two
  headers).
- `AuthRootCache.CacheSafety`: two processes that write the metadata at the same moment do so one after the other.
- `SignBatch.ParallelIsSequential`: assumes that no temporary or companion file of a target belongs to another target;
  the source checks the targets themselves and derives the temporary names from a hash of the path. What a signer
  answers depends on the target's content only.
- `PackageSoundness.NugetIsSound`: assumes that the format table knows none of the names the run writes itself, which
  `FormatTable.TableIsPlain` proves of the real table, and that a signature covers what it was made over.
- `PackageSuccess.NestedSucceeds`: assumes the same of the format table.
- The library sort is modelled as insertion sort; the final sort of the dependency report is not modelled.
- `ResponseFiles` starts at decoded text; the decoding of the bytes is that of scripts with one more fallback.
- `XmlAttributes` covers the local-name rewriting; the variant that searches for `<Identity` literally is a parameter of
  `PackageSigning`.
- Selecting the input files, option checking, providers, HTTP and the Windows calls are not part of this model: they
  list cases or call out.
