/** The durable Artifact Signing identity read from a certificate's extended key usages. */
module ArtifactIdentity {
  import opened Wrappers
  import opened Decimal
  import opened DerLength
  import opened DerTlv
  import opened OidArcs

  datatype Kind = PublicTrust | PublicTrustTest | PrivateTrust | PrivateTrustCiPolicy

  datatype Identity = Identity(kind: Kind, publisherId: string, identityEku: string,
                               hasPublicTrustMarker: bool, hasCodeSigningEku: bool)

  /** `Ok(None)`, `Ok(Some(..))` or an error. */
  datatype Outcome = NoIdentity | Found(identity: Identity) | Rejected

  const ARTIFACT_SIGNING: seq<nat> := [1, 3, 6, 1, 4, 1, 311, 97]
  const CODE_SIGNING: seq<nat> := [1, 3, 6, 1, 5, 5, 7, 3, 3]
  const MARKER: seq<nat> := [1, 3, 6, 1, 4, 1, 311, 97, 1, 0]

  /** `dotted`. */
  function Dotted(arcs: seq<nat>): string {
    if arcs == [] then ""
    else if |arcs| == 1 then Digits(arcs[0])
    else Digits(arcs[0]) + "." + Dotted(arcs[1..])
  }

  /** `classify_identity_suffix`: the arcs that follow the Artifact Signing prefix. */
  function Classify(rest: seq<nat>): Option<(Kind, seq<nat>)> {
    var (kind, id) :=
      if [1, 2] <= rest then (PublicTrustTest, rest[2..])
      else if [1, 3, 1] <= rest then (PrivateTrust, rest[3..])
      else if [1, 4, 1] <= rest then (PrivateTrustCiPolicy, rest[3..])
      else if [1] <= rest then (PublicTrust, [])
      else (PublicTrust, rest);
    if id == [] then None else Some((kind, id))
  }

  /** The kind and id of an identity EKU; none for every other EKU, the marker included. */
  function IdentityParts(arcs: seq<nat>): Option<(Kind, seq<nat>)> {
    if ARTIFACT_SIGNING <= arcs then Classify(arcs[8..]) else None
  }

  predicate IsIdentity(arcs: seq<nat>) {
    IdentityParts(arcs).Some?
  }

  function IdentityOf(arcs: seq<nat>, marker: bool, codeSigning: bool): Identity
    requires IsIdentity(arcs)
  {
    var (kind, id) := IdentityParts(arcs).value;
    Identity(kind, Dotted(id), Dotted(arcs), marker, codeSigning)
  }

  /** What a certificate with these EKUs, in whatever order, means. */
  predicate Describes(ekus: seq<seq<nat>>, r: Outcome) {
    match r
    case Rejected => exists x, y :: x in ekus && y in ekus && IsIdentity(x) && IsIdentity(y) && x != y
    case NoIdentity => forall x <- ekus :: !IsIdentity(x)
    case Found(identity) =>
      exists x <- ekus :: && IsIdentity(x) && (forall y <- ekus :: IsIdentity(y) ==> y == x)
                          && identity == IdentityOf(x, [1, 3, 6, 1, 4, 1, 311, 97, 1, 0] in ekus,
                              [1, 3, 6, 1, 5, 5, 7, 3, 3] in ekus)
  }

  // ----- the extension as DER -----

  /** A tag, where its contents start, and how many octets they take. */
  datatype Header = Header(tag: byte, start: nat, length: nat)

  /** `Header::decode` of the library; nothing for octets it refuses. */
  type HeaderReader = seq<byte> -> Option<Header>

  /** The contents octets, if the whole input is one value with that tag. */
  function WholeContents(read: HeaderReader, der: seq<byte>, tag: byte): Option<seq<byte>> {
    match read(der)
    case None => None
    case Some(h) => if h.tag != tag || h.start + h.length != |der| then None else Some(der[h.start..])
  }

  /** The contents octets of one OBJECT IDENTIFIER after the other, to the end. */
  function OidContents(read: HeaderReader, body: seq<byte>): Option<seq<seq<byte>>>
    decreases |body|
  {
    if body == [] then Some([])
    else match read(body)
      case None => None
      case Some(h) =>
        if h.tag != OBJECT_IDENTIFIER || h.start == 0 || h.start + h.length > |body| then None
        else match OidContents(read, body[h.start + h.length..])
          case None => None
          case Some(rest) => Some([body[h.start..h.start + h.length]] + rest)
  }

  /** The arcs of every EKU, if the extension is a SEQUENCE of decodable OIDs and nothing else. */
  function DecodedExtension(read: HeaderReader, der: seq<byte>): Option<seq<seq<nat>>> {
    match WholeContents(read, der, SEQUENCE)
    case None => None
    case Some(body) => match OidContents(read, body) case None => None case Some(oids) => DecodedAll(oids)
  }

  /** All EKUs of all extensions, if every one of them can be decoded. */
  function AllEkus(read: HeaderReader, extensions: seq<seq<byte>>): Option<seq<seq<nat>>> {
    if extensions == [] then Some([])
    else
      var n := |extensions| - 1;
      match (AllEkus(read, extensions[..n]), DecodedExtension(read, extensions[n]))
      case (Some(front), Some(last)) => Some(front + last)
      case _ => None
  }

  function DecodedAll(oids: seq<seq<byte>>): Option<seq<seq<nat>>> {
    if oids == [] then Some([])
    else match (DecodedAll(oids[..|oids| - 1]), DecodedOid(oids[|oids| - 1]))
      case (Some(front), Some(last)) => Some(front + [last])
      case _ => None
  }

  function Behind(done: seq<seq<byte>>, rest: Option<seq<seq<byte>>>): Option<seq<seq<byte>>> {
    match rest case None => None case Some(r) => Some(done + r)
  }

  /** `decode_eku_arcs`: the outer SEQUENCE, then one OID after the other. */
  method DecodeEkuArcs(read: HeaderReader, der: seq<byte>) returns (r: Option<seq<seq<nat>>>)
    ensures r == DecodedExtension(read, der)
  {
    hide OidContents, DecodedOid;
    var body := WholeContents(read, der, SEQUENCE);
    if body.None? { return None; }
    var entries, out: seq<seq<nat>> := body.value, [];
    ghost var done: seq<seq<byte>> := [];
    NothingDone(read, entries);
    while entries != []
      invariant OidContents(read, body.value) == Behind(done, OidContents(read, entries))
      invariant DecodedAll(done) == Some(out)
      decreases |entries|
    {
      OidContentsStep(read, entries);
      var header := read(entries);
      if header.None? || header.value.tag != OBJECT_IDENTIFIER || header.value.start == 0 { return None; }
      var end := header.value.start + header.value.length;
      if end > |entries| { return None; }
      var value := entries[header.value.start..end];
      BehindOne(done, value, OidContents(read, entries[end..]));
      var arcs := DecodeOidArcs(value);
      assert (done + [value])[..|done|] == done;
      if arcs.None? {
        ghost var all := OidContents(read, body.value);
        if all.Some? {
          assert all.value[..|done| + 1] == done + [value];
          DecodedAllStops(all.value, |done| + 1);
        }
        return None;
      }
      entries, out, done := entries[end..], out + [arcs.value], done + [value];
    }
    NothingLeft(read, done);
    return Some(out);
  }

  lemma OidContentsStep(read: HeaderReader, body: seq<byte>)
    requires body != []
    ensures OidContents(read, body)
            == match read(body)
               case None => None
               case Some(h) =>
                 if h.tag != OBJECT_IDENTIFIER || h.start == 0 || h.start + h.length > |body| then None
                 else Behind([body[h.start..h.start + h.length]], OidContents(read, body[h.start + h.length..]))
  {
  }

  lemma NothingDone(read: HeaderReader, body: seq<byte>)
    ensures OidContents(read, body) == Behind([], OidContents(read, body)) && DecodedAll([]) == Some([])
  {
    var r := OidContents(read, body);
    if r.Some? { assert [] + r.value == r.value; }
  }

  lemma NothingLeft(read: HeaderReader, done: seq<seq<byte>>)
    ensures Behind(done, OidContents(read, [])) == Some(done)
  {
    assert done + [] == done;
  }

  lemma BehindOne(done: seq<seq<byte>>, value: seq<byte>, rest: Option<seq<seq<byte>>>)
    ensures Behind(done, Behind([value], rest)) == Behind(done + [value], rest)
  {
    if rest.Some? { assert done + ([value] + rest.value) == (done + [value]) + rest.value; }
  }

  lemma {:induction false} DecodedAllStops(oids: seq<seq<byte>>, k: nat)
    requires k <= |oids| && DecodedAll(oids[..k]).None?
    ensures DecodedAll(oids).None?
  {
    if k == |oids| {
      assert oids[..k] == oids;
    } else {
      assert oids[..|oids| - 1][..k] == oids[..k];
      DecodedAllStops(oids[..|oids| - 1], k);
    }
  }

  lemma {:induction false} AllEkusStops(read: HeaderReader, extensions: seq<seq<byte>>, k: nat)
    requires k <= |extensions| && AllEkus(read, extensions[..k]).None?
    ensures AllEkus(read, extensions).None?
  {
    if k == |extensions| {
      assert extensions[..k] == extensions;
    } else {
      assert extensions[..|extensions| - 1][..k] == extensions[..k];
      AllEkusStops(read, extensions[..|extensions| - 1], k);
    }
  }

  lemma {:induction false} AllEkusGrows(read: HeaderReader, extensions: seq<seq<byte>>, k: nat)
    requires k <= |extensions| && AllEkus(read, extensions).Some?
    ensures AllEkus(read, extensions[..k]).Some?
    ensures AllEkus(read, extensions[..k]).value <= AllEkus(read, extensions).value
  {
    if k == |extensions| {
      assert extensions[..k] == extensions;
    } else {
      assert extensions[..|extensions| - 1][..k] == extensions[..k];
      AllEkusGrows(read, extensions[..|extensions| - 1], k);
    }
  }

  /** What the loop knows after some EKUs: the identity met so far, without its two flags. */
  predicate Progress(ekus: seq<seq<nat>>, identity: Option<Identity>, marker: bool, codeSigning: bool) {
    && marker == (MARKER in ekus)
    && codeSigning == (CODE_SIGNING in ekus)
    && match identity
       case None => forall x <- ekus :: !IsIdentity(x)
       case Some(id) => exists x <- ekus :: && IsIdentity(x) && (forall y <- ekus :: IsIdentity(y) ==> y == x)
                                            && id == IdentityOf(x, false, false)
  }

  /** The body of the inner loop for one EKU; identities are compared by their dotted text, as in the source. */
  method Visit(ghost ekus: seq<seq<nat>>, arcs: seq<nat>, identity: Option<Identity>, marker: bool, codeSigning: bool)
    returns (ok: bool, identity': Option<Identity>, marker': bool, codeSigning': bool)
    requires Progress(ekus, identity, marker, codeSigning)
    ensures ok ==> Progress(ekus + [arcs], identity', marker', codeSigning')
    ensures !ok ==> IsIdentity(arcs) && exists x <- ekus :: IsIdentity(x) && x != arcs
  {
    ok, identity', marker', codeSigning' := true, identity, marker, codeSigning;
    VisitFacts(ekus, arcs);
    if arcs == CODE_SIGNING {
      codeSigning' := true;
      return;
    }
    if !(ARTIFACT_SIGNING <= arcs) { return; }
    var rest := arcs[8..];
    if rest == [1, 0] {
      assert arcs == MARKER;
      marker' := true;
      return;
    }
    assert arcs != MARKER;
    var classified := Classify(rest);
    if classified.None? { return; }
    var found := Identity(classified.value.0, Dotted(classified.value.1), Dotted(arcs), false, false);
    if identity.Some? {
      ghost var x :| x in ekus && IsIdentity(x) && identity.value == IdentityOf(x, false, false);
      if identity.value.identityEku != found.identityEku {
        ok := false;
      } else {
        DottedIsInjective(x, arcs);
        assert x in ekus + [arcs];
      }
      return;
    }
    identity' := Some(found);
    assert arcs in ekus + [arcs];
  }

  lemma VisitFacts(ekus: seq<seq<nat>>, arcs: seq<nat>)
    ensures forall x :: x in ekus + [arcs] <==> x in ekus || x == arcs
    ensures !IsIdentity(CODE_SIGNING) && !IsIdentity(MARKER)
    ensures IsIdentity(arcs) ==> arcs != []
  {
    assert CODE_SIGNING[4] != ARTIFACT_SIGNING[4];
    assert MARKER[8..] == [1, 0];
  }

  /** `artifact_signing_identity_from_certificate`, given its EKU extensions. */
  method IdentityFromExtensions(read: HeaderReader, extensions: seq<seq<byte>>) returns (r: Outcome)
    ensures match AllEkus(read, extensions) case None => r == Rejected case Some(ekus) => Describes(ekus, r)
  {
    hide IsIdentity, IdentityOf, DecodedExtension, Progress, Describes;
    var identity: Option<Identity>, marker, codeSigning := None, false, false;
    ProgressStarts();
    ghost var seen: seq<seq<nat>> := [];
    for i := 0 to |extensions|
      invariant AllEkus(read, extensions[..i]) == Some(seen)
      invariant Progress(seen, identity, marker, codeSigning)
    {
      assert extensions[..i + 1][..i] == extensions[..i];
      var ekus := DecodeEkuArcs(read, extensions[i]);
      if ekus.None? {
        AllEkusStops(read, extensions, i + 1);
        return Rejected;
      }
      assert seen + ekus.value[..0] == seen;
      for j := 0 to |ekus.value|
        invariant Progress(seen + ekus.value[..j], identity, marker, codeSigning)
      {
        var ok;
        ghost var before := seen + ekus.value[..j];
        ok, identity, marker, codeSigning := Visit(before, ekus.value[j], identity, marker, codeSigning);
        assert before + [ekus.value[j]] == seen + ekus.value[..j + 1];
        if !ok {
          ConflictStays(read, extensions, i + 1, before, ekus.value[j]);
          return Rejected;
        }
      }
      assert ekus.value[..|ekus.value|] == ekus.value;
      seen := seen + ekus.value;
    }
    assert extensions[..|extensions|] == extensions;
    ProgressDescribes(seen, identity, marker, codeSigning);
    if identity.None? { return NoIdentity; }
    return Found(identity.value.(hasPublicTrustMarker := marker, hasCodeSigningEku := codeSigning));
  }

  lemma ProgressStarts()
    ensures Progress([], None, false, false)
  {
  }

  lemma ProgressDescribes(ekus: seq<seq<nat>>, identity: Option<Identity>, marker: bool, codeSigning: bool)
    requires Progress(ekus, identity, marker, codeSigning)
    ensures Describes(ekus, match identity
                            case None => NoIdentity
                            case Some(id) => Found(id.(hasPublicTrustMarker := marker,
                                hasCodeSigningEku := codeSigning)))
  {
  }

  lemma ConflictStays(read: HeaderReader, extensions: seq<seq<byte>>, k: nat, before: seq<seq<nat>>, arcs: seq<nat>)
    requires k <= |extensions| && AllEkus(read, extensions[..k]).Some?
    requires before + [arcs] <= AllEkus(read, extensions[..k]).value
    requires IsIdentity(arcs) && exists x <- before :: IsIdentity(x) && x != arcs
    ensures AllEkus(read, extensions).Some? ==> Describes(AllEkus(read, extensions).value, Rejected)
  {
    if AllEkus(read, extensions).Some? {
      AllEkusGrows(read, extensions, k);
      var all := AllEkus(read, extensions).value;
      assert before + [arcs] <= all;
      var x :| x in before && IsIdentity(x) && x != arcs;
      var i :| 0 <= i < |before| && before[i] == x;
      assert all[i] == x && all[|before|] == arcs;
    }
  }

  // ----- the extension read back -----

  /** The reader finds the header of every value in DER up to its own limit on lengths, whatever stands behind. */
  ghost predicate ReadsDer(read: HeaderReader, limit: nat) {
    forall tag: byte, body: seq<byte>, rest: seq<byte> | |body| <= limit && |body| < USIZE_LIMIT ::
      read(Tlv(tag, body) + rest) == Some(Header(tag, |Tlv(tag, body)| - |body|, |body|))
  }

  /** Arcs that can be encoded, in no more octets than that. */
  ghost predicate Encodable(ekus: seq<seq<nat>>, limit: nat) {
    forall arcs <- ekus :: ValidArcs(arcs) && |EncodeOid(arcs)| <= limit && |EncodeOid(arcs)| < USIZE_LIMIT
  }

  ghost function EncodedOids(ekus: seq<seq<nat>>, limit: nat): seq<byte>
    requires Encodable(ekus, limit)
  {
    if ekus == [] then [] else Tlv(OBJECT_IDENTIFIER, EncodeOid(ekus[0])) + EncodedOids(ekus[1..], limit)
  }

  lemma {:induction false} OidsReadBack(read: HeaderReader, ekus: seq<seq<nat>>, limit: nat)
    returns (oids: seq<seq<byte>>)
    requires ReadsDer(read, limit) && Encodable(ekus, limit)
    ensures OidContents(read, EncodedOids(ekus, limit)) == Some(oids)
    ensures |oids| == |ekus| && forall i | 0 <= i < |ekus| :: DecodedOid(oids[i]) == Some(ekus[i])
  {
    hide DecodedOid, EncodeOid, ValidArcs, Tlv;
    if ekus == [] {
      oids := [];
    } else {
      var first, rest := EncodeOid(ekus[0]), EncodedOids(ekus[1..], limit);
      DecodesExactly(first, ekus[0]);
      TlvParts(OBJECT_IDENTIFIER, first, rest);
      var behind := OidsReadBack(read, ekus[1..], limit);
      oids := [first] + behind;
    }
  }

  lemma TlvParts(tag: byte, body: seq<byte>, rest: seq<byte>)
    requires |body| < USIZE_LIMIT
    ensures var t := Tlv(tag, body);
            && |t| > |body| && (t + rest)[|t| - |body|..|t|] == body && (t + rest)[|t|..] == rest
  {
  }

  lemma {:induction false} AllDecoded(oids: seq<seq<byte>>, ekus: seq<seq<nat>>)
    requires |oids| == |ekus| && forall i | 0 <= i < |ekus| :: DecodedOid(oids[i]) == Some(ekus[i])
    ensures DecodedAll(oids) == Some(ekus)
  {
    hide DecodedOid;
    if oids != [] {
      var n := |oids| - 1;
      AllDecoded(oids[..n], ekus[..n]);
      assert ekus == ekus[..n] + [ekus[n]];
    }
  }

  /** An extension that is the DER of a list of OIDs gives back their arcs in order. */
  lemma ExtensionReadsBack(read: HeaderReader, ekus: seq<seq<nat>>, limit: nat)
    requires ReadsDer(read, limit) && Encodable(ekus, limit)
    requires |EncodedOids(ekus, limit)| <= limit && |EncodedOids(ekus, limit)| < USIZE_LIMIT
    ensures DecodedExtension(read, Tlv(SEQUENCE, EncodedOids(ekus, limit))) == Some(ekus)
  {
    hide DecodedOid, EncodeOid, ValidArcs, Tlv, OidContents, EncodedOids;
    var body := EncodedOids(ekus, limit);
    var oids := OidsReadBack(read, ekus, limit);
    AllDecoded(oids, ekus);
    TlvParts(SEQUENCE, body, []);
    assert Tlv(SEQUENCE, body) + [] == Tlv(SEQUENCE, body);
  }

  // ----- what the result means -----

  /** The result depends only on which EKUs occur: not on their order, on repetitions, or on how they are spread over
      extensions. */
  lemma OrderDoesNotMatter(e1: seq<seq<nat>>, e2: seq<seq<nat>>, r1: Outcome, r2: Outcome)
    requires forall x :: x in e1 <==> x in e2
    requires Describes(e1, r1) && Describes(e2, r2)
    ensures r1 == r2
  {
    if r1.Found? && r2.Found? {
      var x :| x in e1 && IsIdentity(x) && (forall y <- e1 :: IsIdentity(y) ==> y == x)
               && r1.identity == IdentityOf(x, MARKER in e1, CODE_SIGNING in e1);
      var y :| y in e2 && IsIdentity(y) && (forall z <- e2 :: IsIdentity(z) ==> z == y)
               && r2.identity == IdentityOf(y, MARKER in e2, CODE_SIGNING in e2);
      assert x == y;
    }
  }

  /** The arcs that mark a kind behind the Artifact Signing prefix; identities for public trust have none. */
  function KindArcs(kind: Kind): seq<nat> {
    match kind
    case PublicTrust => []
    case PublicTrustTest => [1, 2]
    case PrivateTrust => [1, 3, 1]
    case PrivateTrustCiPolicy => [1, 4, 1]
  }

  /** An EKU is an identity of a kind exactly if it is the prefix, the arcs of the kind and a non-empty id, which for
      public trust does not begin with 1. */
  lemma IdentityExactly(arcs: seq<nat>, kind: Kind, id: seq<nat>)
    ensures IdentityParts(arcs) == Some((kind, id))
            <==> && arcs == [1, 3, 6, 1, 4, 1, 311, 97] + KindArcs(kind) + id
                 && id != [] && (kind.PublicTrust? ==> id[0] != 1)
  {
    if ARTIFACT_SIGNING <= arcs {
      var rest := arcs[8..];
      assert arcs == ARTIFACT_SIGNING + rest;
      RestExactly(rest, kind, id);
      if rest == KindArcs(kind) + id { assert arcs == ARTIFACT_SIGNING + KindArcs(kind) + id; }
      if arcs == ARTIFACT_SIGNING + KindArcs(kind) + id { assert rest == KindArcs(kind) + id; }
    }
    assert arcs == ARTIFACT_SIGNING + KindArcs(kind) + id ==> arcs[..8] == ARTIFACT_SIGNING;
  }

  lemma RestExactly(rest: seq<nat>, kind: Kind, id: seq<nat>)
    ensures Classify(rest) == Some((kind, id))
            <==> rest == KindArcs(kind) + id && id != [] && (kind.PublicTrust? ==> id[0] != 1)
  {
    var marks := KindArcs(kind);
    if Classify(rest) == Some((kind, id)) {
      assert marks <= rest && id == rest[|marks|..];
      assert kind.PublicTrust? ==> !([1] <= rest);
    }
    if rest == marks + id && id != [] {
      assert rest[..|marks|] == marks && rest[|marks|..] == id;
      match kind
      case PublicTrust => assert rest[0] == id[0];
      case PublicTrustTest => assert rest[0] == 1 && rest[1] == 2;
      case PrivateTrust => assert rest[0] == 1 && rest[1] == 3 && rest[2] == 1;
      case PrivateTrustCiPolicy => assert rest[0] == 1 && rest[1] == 4 && rest[2] == 1;
    }
  }

  predicate DotFree(s: string) {
    '.' !in s
  }

  lemma DigitsDotFree(n: nat)
    ensures DotFree(Digits(n)) && Digits(n) != ""
  {
    NumberOfDigits(n);
  }

  lemma DotAt(p: string, q: string)
    requires DotFree(p)
    ensures (p + "." + q)[|p|] == '.' && forall i :: 0 <= i < |p| ==> (p + "." + q)[i] != '.'
  {
  }

  lemma FirstDot(p: string, q: string, p': string, q': string)
    requires DotFree(p) && DotFree(p')
    requires p + "." + q == p' + "." + q'
    ensures p == p' && q == q'
  {
    var s := p + "." + q;
    DotAt(p, q);
    DotAt(p', q');
    assert |p| == |p'|;
    assert p == s[..|p|] && p' == s[..|p'|];
    assert q == s[|p| + 1..] && q' == s[|p'| + 1..];
  }

  lemma DotMeansMany(arcs: seq<nat>)
    requires arcs != []
    ensures '.' in Dotted(arcs) <==> |arcs| > 1
  {
    DigitsDotFree(arcs[0]);
    if |arcs| > 1 { assert Dotted(arcs)[|Digits(arcs[0])|] == '.'; }
  }

  lemma {:induction false} DottedIsInjective(a: seq<nat>, b: seq<nat>)
    requires a != [] && b != []
    requires Dotted(a) == Dotted(b)
    ensures a == b
  {
    DigitsDotFree(a[0]);
    DigitsDotFree(b[0]);
    DotMeansMany(a);
    DotMeansMany(b);
    if |a| == 1 {
      NumberOfDigits(a[0]);
      NumberOfDigits(b[0]);
    } else {
      FirstDot(Digits(a[0]), Dotted(a[1..]), Digits(b[0]), Dotted(b[1..]));
      NumberOfDigits(a[0]);
      NumberOfDigits(b[0]);
      DottedIsInjective(a[1..], b[1..]);
      assert a == [a[0]] + a[1..] && b == [b[0]] + b[1..];
    }
  }

  /** Kind and publisher ID together determine the identity EKU, down to its encoded octets. */
  lemma PublisherDeterminesEku(v1: seq<byte>, v2: seq<byte>)
    requires DecodedOid(v1).Some? && IsIdentity(DecodedOid(v1).value)
    requires DecodedOid(v2).Some? && IsIdentity(DecodedOid(v2).value)
    ensures var i1 := IdentityOf(DecodedOid(v1).value, false, false);
            var i2 := IdentityOf(DecodedOid(v2).value, false, false);
            i1.kind == i2.kind && i1.publisherId == i2.publisherId <==> v1 == v2
  {
    var a1, a2 := DecodedOid(v1).value, DecodedOid(v2).value;
    var (k1, id1) := IdentityParts(a1).value;
    var (k2, id2) := IdentityParts(a2).value;
    if k1 == k2 && Dotted(id1) == Dotted(id2) {
      DottedIsInjective(id1, id2);
      SamePartsSameArcs(a1, a2);
      DecodingIsInjective(v1, v2);
    }
  }

  lemma SamePartsSameArcs(a1: seq<nat>, a2: seq<nat>)
    requires IsIdentity(a1) && IdentityParts(a1) == IdentityParts(a2)
    ensures a1 == a2
  {
    var r1, r2 := a1[8..], a2[8..];
    assert a1 == ARTIFACT_SIGNING + r1 && a2 == ARTIFACT_SIGNING + r2;
    var (kind, id) := Classify(r1).value;
    match kind
    case PublicTrust => assert r1 == id == r2;
    case PublicTrustTest => assert r1 == [1, 2] + id == r2;
    case PrivateTrust => assert r1 == [1, 3, 1] + id == r2;
    case PrivateTrustCiPolicy => assert r1 == [1, 4, 1] + id == r2;
  }
}
