/** Normalising a detached `.p7` blob: a bare CMS SignedData is wrapped as ContentInfo (section 3 of RFC 5652). */
module Pkcs7Wrapper {
  import opened Wrappers
  import opened DerLength
  import opened DerTlv
  import opened OidArcs

  /** OBJECT IDENTIFIER 1.2.840.113549.1.7.2, with tag and length. */
  const SIGNED_DATA_OID: seq<byte> := [0x06, 0x09, 0x2A, 0x86, 0x48, 0x86, 0xF7, 0x0D, 0x01, 0x07, 0x02]

  const SIGNED_DATA_ARCS: seq<nat> := [1, 2, 840, 113549, 1, 7, 2]

  /** id-signedData of section 5.1 of RFC 5652, as a TLV. */
  lemma SignedDataOidIs()
    ensures ValidArcs(SIGNED_DATA_ARCS)
    ensures SIGNED_DATA_OID == [OBJECT_IDENTIFIER, 9] + EncodeOid(SIGNED_DATA_ARCS)
  {
    hide EncodedSubs;
    var front: seq<byte>, back: seq<byte>, none: seq<nat> := [42], [1, 7, 2], [];
    var us: seq<nat>, rsa: seq<nat> := [840], [113549];
    OctetsEncode(front, us + (rsa + back));
    LargeArcs();
    OneEncodes(840, rsa + back);
    OneEncodes(113549, back);
    OctetsEncode(back, none);
    NothingEncodes();
    assert back + none == back && back + [] == back;
    assert [42] + SIGNED_DATA_ARCS[2..] == front + (us + (rsa + back));
  }

  lemma LargeArcs()
    ensures Subidentifier(840) == [0x86, 0x48] && Subidentifier(113549) == [0x86, 0xF7, 0x0D]
  {
    assert Continued(6) == [0x86];
    assert Continued(887) == Continued(6) + [0xF7];
  }
  const EXPLICIT_0: byte := 0xA0
  /** A slice never exceeds `isize::MAX` octets. */
  const SLICE_LIMIT: int := 0x8000_0000_0000_0000 - 0x100

  /** `pkcs7_content_info_signed_data`. */
  function ContentInfo(signedData: seq<byte>): seq<byte>
    requires |signedData| < SLICE_LIMIT
  {
    ExplicitSize(signedData);
    Tlv(SEQUENCE, SIGNED_DATA_OID + Tlv(EXPLICIT_0, signedData))
  }

  /** `detached_pkcs7_blob_for_verify`: the first octet inside the outer SEQUENCE decides. */
  function Normalized(blob: seq<byte>): seq<byte>
    requires |blob| < SLICE_LIMIT
  {
    match SequencePayload(blob)
    case None => blob
    case Some(inner) =>
      if inner == [] || inner[0] != 0x02 then blob else ContentInfo(blob)
  }

  /** Reading a ContentInfo: open the SEQUENCE, skip the SignedData OID, open the [0] wrapper. */
  function SignedDataOf(contentInfo: seq<byte>): Option<seq<byte>> {
    match SequencePayload(contentInfo)
    case None => None
    case Some(payload) =>
      if !(SIGNED_DATA_OID <= payload) then None
      else
        var rest := payload[|SIGNED_DATA_OID|..];
        if rest == [] || rest[0] != EXPLICIT_0 then None
        else match LengthAt(rest, 1, 4)
          case None => None
          case Some((start, len)) => if start + len != |rest| then None else Some(rest[start..])
  }

  method WrapSignedData(signedData: seq<byte>) returns (out: seq<byte>)
    requires |signedData| < SLICE_LIMIT
    ensures out == ContentInfo(signedData)
  {
    var explicit: seq<byte> := [EXPLICIT_0];
    var len := EncodeDefiniteLength(|signedData|);
    explicit := explicit + len;
    explicit := explicit + signedData;
    ExplicitSize(signedData);
    out := [SEQUENCE];
    len := EncodeDefiniteLength(|SIGNED_DATA_OID| + |explicit|);
    out := out + len;
    out := out + SIGNED_DATA_OID;
    out := out + explicit;
    assert out == ContentInfo(signedData);
  }

  /** The wrapper adds one tag and the length field. */
  lemma ExplicitSize(signedData: seq<byte>)
    requires |signedData| < SLICE_LIMIT
    ensures |Tlv(EXPLICIT_0, signedData)| <= |signedData| + 10
    ensures |Tlv(EXPLICIT_0, signedData)| == 1 + |DefiniteLength(|signedData|)| + |signedData|
  {
    OctetsFit(|signedData|, 8);
  }

  lemma InnerSize(signedData: seq<byte>)
    requires |signedData| < SLICE_LIMIT
    ensures var inner := SIGNED_DATA_OID + Tlv(EXPLICIT_0, signedData);
            |inner| < 0x1_0000_0000 <==> |signedData| < 0x1_0000_0000 - 17
  {
    var n := |signedData|;
    PowersOf256();
    OctetCount(n, 4);
    if n >= 0x1_0000_0000 - 0x100 { OctetCount(n, 3); }
  }

  lemma TlvHeader(tag: byte, body: seq<byte>)
    requires |body| < USIZE_LIMIT
    ensures LengthAt(Tlv(tag, body), 1, 4)
            == if |body| < 0x1_0000_0000 then Some((|Tlv(tag, body)| - |body|, |body|)) else None
  {
    if |body| < 0x1_0000_0000 {
      TlvIsWellFormed(tag, body);
    } else {
      GeneralRoundTripLimit(|body|, [], []);
      DefiniteLengthRoundTrip(|body|, 4);
      assert Tlv(tag, body)[1] == DefiniteLength(|body|)[0];
    }
  }

  lemma PayloadOfTlv(body: seq<byte>)
    requires |body| < USIZE_LIMIT
    ensures SequencePayload(Tlv(SEQUENCE, body)) == if |body| < 0x1_0000_0000 then Some(body) else None
  {
    hide LengthAt, DefiniteLength;
    TlvHeader(SEQUENCE, body);
    var t := Tlv(SEQUENCE, body);
    assert t[|t| - |body|..|t|] == body;
  }

  /** Normalising twice is normalising once, for every blob. */
  lemma NormalizedTwice(blob: seq<byte>)
    requires |blob| < SLICE_LIMIT - 0x100
    ensures |Normalized(blob)| < SLICE_LIMIT
    ensures Normalized(Normalized(blob)) == Normalized(blob)
  {
    hide LengthAt, Tlv;
    ExplicitSize(blob);
    var inner := SIGNED_DATA_OID + Tlv(EXPLICIT_0, blob);
    PayloadOfTlv(inner);
    OctetsFit(|inner|, 8);
    OctetsFit(|blob|, 8);
    assert |Tlv(SEQUENCE, inner)| <= |blob| + 40 by { TlvSize(SEQUENCE, inner); }
    assert inner[0] == 0x06;
  }

  lemma TlvSize(tag: byte, body: seq<byte>)
    requires |body| < USIZE_LIMIT
    ensures |Tlv(tag, body)| <= |body| + 10
  {
    OctetsFit(|body|, 8);
  }

  /** Wrapping loses nothing exactly up to the reader's 2^32 bound on the outer SEQUENCE. */
  lemma WrapsExactly(signedData: seq<byte>)
    requires |signedData| < SLICE_LIMIT
    ensures SignedDataOf(ContentInfo(signedData)) == Some(signedData) <==> |signedData| < 0x1_0000_0000 - 17
  {
    hide LengthAt, DefiniteLength;
    ExplicitSize(signedData);
    var explicit := Tlv(EXPLICIT_0, signedData);
    var inner := SIGNED_DATA_OID + explicit;
    InnerSize(signedData);
    PayloadOfTlv(inner);
    assert inner[|SIGNED_DATA_OID|..] == explicit;
    TlvHeader(EXPLICIT_0, signedData);
    assert explicit[|explicit| - |signedData|..] == signedData;
  }

  /** A bare SignedData (a SEQUENCE starting with the version INTEGER) comes back unchanged from the
      normalised blob; a blob that is not one is returned as it is. */
  lemma BareSignedDataSurvives(blob: seq<byte>)
    requires |blob| < 0x1_0000_0000 - 17
    ensures var bare := SequencePayload(blob).Some? && [0x02] <= SequencePayload(blob).value;
            if bare then SignedDataOf(Normalized(blob)) == Some(blob) else Normalized(blob) == blob
  {
    hide LengthAt, Tlv, SignedDataOf;
    WrapsExactly(blob);
    if SequencePayload(blob).Some? {
      var inner := SequencePayload(blob).value;
      if inner != [] { assert [0x02] <= inner <==> inner[0] == 0x02; }
    }
  }
}
