/** The timestamp server's view of RFC 3161: what it accepts as a TimeStampReq (section 2.4.1) and
    how the TSTInfo it builds (section 2.4.2) echoes the request. */
module TimestampEcho {
  import opened Wrappers
  import opened Sequences
  import opened DerLength
  import opened DerTlv
  import opened OidArcs

  const INTEGER: byte := 0x02
  const BOOLEAN: byte := 0x01
  const GENERALIZED_TIME: byte := 0x18
  const EXTENSIONS: byte := 0xa0

  const VERSION_1: seq<byte> := [0x02, 0x01, 0x01]

  /** 1.3.6.1.4.1.311.97.99.1 */
  const DEFAULT_POLICY: seq<byte> := [0x06, 0x0a, 0x2b, 0x06, 0x01, 0x04, 0x01, 0x82, 0x37, 0x61, 0x63, 0x01]

  datatype TimestampRequest =
    TimestampRequest(digestAlgTlv: seq<byte>, hashedMessage: seq<byte>, nonceTlv: Option<seq<byte>>)

  // ----- reading TLVs with a cursor -----

  /** `read_tlv`: the TLV at `pos` and the position after it. */
  function TlvAt(input: seq<byte>, pos: nat): Option<(seq<byte>, nat)> {
    if pos >= |input| then None
    else match LengthAt(input, pos + 1, 3)
      case None => None
      case Some((start, len)) => if start + len > |input| then None else Some((input[pos..start + len], start + len))
  }

  /** `expect_tlv`: the body, if the whole input is one TLV with that tag. */
  function ExpectTlv(input: seq<byte>, tag: byte): Option<seq<byte>> {
    if input == [] || input[0] != tag then None
    else match LengthAt(input, 1, 3)
      case None => None
      case Some((start, len)) => if start + len != |input| then None else Some(input[start..])
  }

  method ReadTlv(input: seq<byte>, pos: nat) returns (r: Option<(seq<byte>, nat)>)
    ensures r == TlvAt(input, pos)
  {
    if pos >= |input| { return None; }
    var header := ReadLen(input, pos + 1);
    if header.None? { return None; }
    var end := header.value.0 + header.value.1;
    if end > |input| { return None; }
    return Some((input[pos..end], end));
  }

  // ----- the request -----

  /** The loop over version-dependent optional fields: the last INTEGER wins as nonce. */
  function OptionalFields(outer: seq<byte>, pos: nat, nonce: Option<seq<byte>>): Option<Option<seq<byte>>>
    decreases |outer| - pos
  {
    if pos >= |outer| then Some(nonce)
    else match TlvAt(outer, pos)
      case None => None
      case Some((tlv, next)) =>
        if tlv[0] == INTEGER then OptionalFields(outer, next, Some(tlv))
        else if tlv[0] in {BOOLEAN, OBJECT_IDENTIFIER, EXTENSIONS} then OptionalFields(outer, next, nonce)
        else None
  }

  function Imprint(imprint: seq<byte>): Option<(seq<byte>, seq<byte>)> {
    match TlvAt(imprint, 0)
    case None => None
    case Some((alg, q)) =>
      match TlvAt(imprint, q)
      case None => None
      case Some((hashedTlv, end)) =>
        if end != |imprint| then None
        else match ExpectTlv(hashedTlv, OCTET_STRING) case None => None case Some(hashed) => Some((alg, hashed))
  }

  /** `parse_timestamp_request_der`. */
  function Request(input: seq<byte>): Option<TimestampRequest> {
    match ExpectTlv(input, SEQUENCE)
    case None => None
    case Some(outer) =>
      match TlvAt(outer, 0)
      case None => None
      case Some((version, p)) =>
        if version != VERSION_1 then None
        else match TlvAt(outer, p)
          case None => None
          case Some((imprintTlv, q)) =>
            match ExpectTlv(imprintTlv, SEQUENCE)
            case None => None
            case Some(body) =>
              match (Imprint(body), OptionalFields(outer, q, None))
              case (Some((alg, hashed)), Some(nonce)) => Some(TimestampRequest(alg, hashed, nonce))
              case _ => None
  }

  method ParseTimestampRequest(input: seq<byte>) returns (r: Option<TimestampRequest>)
    ensures r == Request(input)
  {
    var outer := ExpectTlv(input, SEQUENCE);
    if outer.None? { return None; }
    var version := ReadTlv(outer.value, 0);
    if version.None? || version.value.0 != VERSION_1 { return None; }
    var imprintTlv := ReadTlv(outer.value, version.value.1);
    if imprintTlv.None? { return None; }
    var pos := imprintTlv.value.1;
    var body := ExpectTlv(imprintTlv.value.0, SEQUENCE);
    if body.None? { return None; }
    var imprint := Imprint(body.value);
    if imprint.None? { return None; }
    var nonce := None;
    while pos < |outer.value|
      invariant OptionalFields(outer.value, imprintTlv.value.1, None) == OptionalFields(outer.value, pos, nonce)
      decreases |outer.value| - pos
    {
      var field := ReadTlv(outer.value, pos);
      if field.None? { return None; }
      var tag := field.value.0[0];
      if tag == INTEGER {
        nonce := Some(field.value.0);
      } else if tag !in {BOOLEAN, OBJECT_IDENTIFIER, EXTENSIONS} {
        return None;
      }
      pos := field.value.1;
    }
    return Some(TimestampRequest(imprint.value.0, imprint.value.1, nonce));
  }

  // ----- the TSTInfo -----

  function ServerTlv(tag: byte, body: seq<byte>): seq<byte> {
    [tag] + ThreeOctetLength(|body|) + body
  }

  /** The contents octets `push_integer_u64` writes. */
  function IntegerOctets(value: nat): seq<byte> {
    if value == 0 then [0]
    else if Octets(value)[0] >= 0x80 then [0] + Octets(value)
    else Octets(value)
  }

  predicate ValidGenTime(t: seq<byte>) {
    |t| == 15 && t[14] == 0x5a && forall i :: 0 <= i < 14 ==> 0x30 <= t[i] <= 0x39
  }

  function TstImprint(req: TimestampRequest): seq<byte> {
    req.digestAlgTlv + ServerTlv(OCTET_STRING, req.hashedMessage)
  }

  function TstBody(req: TimestampRequest, serial: nat, genTime: seq<byte>): seq<byte> {
    ServerTlv(INTEGER, IntegerOctets(1)) + DEFAULT_POLICY + ServerTlv(SEQUENCE, TstImprint(req))
    + ServerTlv(INTEGER, IntegerOctets(serial)) + ServerTlv(GENERALIZED_TIME, genTime)
    + if req.nonceTlv.Some? then req.nonceTlv.value else []
  }

  /** `build_tst_info`. */
  function TstInfo(req: TimestampRequest, serial: nat, genTime: seq<byte>): Option<seq<byte>> {
    if ValidGenTime(genTime) then Some(ServerTlv(SEQUENCE, TstBody(req, serial, genTime))) else None
  }

  /** The `Vec<u8>` the `push_*` functions append to. */
  class DerBuffer {
    var bytes: seq<byte>

    constructor ()
      ensures bytes == []
    {
      bytes := [];
    }

    method PushLen(len: nat)
      modifies this
      ensures bytes == old(bytes) + ThreeOctetLength(len)
    {
      if len < 0x80 {
        bytes := bytes + [len];
      } else if len <= 0xff {
        bytes := bytes + [0x81, len];
      } else if len <= 0xffff {
        bytes := bytes + [0x82, len / 0x100, len % 0x100];
      } else {
        bytes := bytes + [0x83, len / 0x1_0000 % 0x100, len / 0x100 % 0x100, len % 0x100];
      }
    }

    method PushTlv(tag: byte, body: seq<byte>)
      modifies this
      ensures bytes == old(bytes) + ServerTlv(tag, body)
    {
      bytes := bytes + [tag];
      PushLen(|body|);
      bytes := bytes + body;
      assert bytes == old(bytes) + ServerTlv(tag, body);
    }

    method PushIntegerU64(value: nat)
      requires value < USIZE_LIMIT
      modifies this
      ensures bytes == old(bytes) + ServerTlv(INTEGER, IntegerOctets(value))
    {
      var contents := IntegerContents(value);
      PushTlv(INTEGER, contents);
    }
  }

  /** The first half of `push_integer_u64`: fills a nine-octet buffer from its end. */
  method IntegerContents(value: nat) returns (contents: seq<byte>)
    requires value < USIZE_LIMIT
    ensures contents == IntegerOctets(value)
  {
    hide Octets;
    OctetsOfZero();
    var tmp := new byte[9];
    var n, pos: nat := value, 9;
    if n == 0 {
      pos := pos - 1;
      tmp[pos] := 0;
      return tmp[pos..];
    }
    OctetsFit(value, 8);
    OctetsStep(value, []);
    ghost var tail: seq<byte> := [];
    while n != 0
      invariant pos == 9 - |tail| && tmp[pos..] == tail
      invariant Octets(n) + tail == Octets(value)
    {
      OctetsStep(n, tail);
      assert |Octets(n)| + |tail| <= 8;
      tail := [n % 256] + tail;
      pos := pos - 1;
      tmp[pos] := n % 256;
      n := n / 256;
    }
    assert [] + tail == tail;
    if tmp[pos] >= 0x80 {
      pos := pos - 1;
      tmp[pos] := 0;
      assert tmp[pos..] == [0] + tail;
    }
    return tmp[pos..];
  }

  lemma OctetsOfZero()
    ensures Octets(0) == []
  {
  }

  lemma LastOctet(n: nat)
    requires n > 0
    ensures Octets(n) == Octets(n / 256) + [n % 256]
  {
  }

  lemma OctetsStep(n: nat, tail: seq<byte>)
    requires n > 0
    ensures |Octets(n)| > 0
    ensures Octets(n) + tail == Octets(n / 256) + ([n % 256] + tail)
  {
    LastOctet(n);
    hide Octets;
    TailJoins(Octets(n / 256), [n % 256], tail);
  }

  lemma TailJoins(a: seq<byte>, b: seq<byte>, c: seq<byte>)
    ensures (a + b) + c == a + (b + c)
  {
  }

  method BuildTstInfo(req: TimestampRequest, serial: nat, genTime: seq<byte>) returns (r: Option<seq<byte>>)
    requires serial < USIZE_LIMIT
    ensures r == TstInfo(req, serial, genTime)
  {
    hide ServerTlv, IntegerOctets;
    var imprint := new DerBuffer();
    imprint.bytes := imprint.bytes + req.digestAlgTlv;
    imprint.PushTlv(OCTET_STRING, req.hashedMessage);
    assert imprint.bytes == TstImprint(req);
    var body := new DerBuffer();
    body.PushIntegerU64(1);
    assert body.bytes == ServerTlv(INTEGER, IntegerOctets(1));
    body.bytes := body.bytes + DEFAULT_POLICY;
    body.PushTlv(SEQUENCE, imprint.bytes);
    body.PushIntegerU64(serial);
    if !ValidGenTime(genTime) { return None; }
    body.PushTlv(GENERALIZED_TIME, genTime);
    body.bytes := body.bytes + if req.nonceTlv.Some? then req.nonceTlv.value else [];
    var out := new DerBuffer();
    out.PushTlv(SEQUENCE, body.bytes);
    assert out.bytes == ServerTlv(SEQUENCE, TstBody(req, serial, genTime));
    return Some(out.bytes);
  }

  // ----- re-reading a TSTInfo with the same cursor -----

  datatype TstView = TstView(version: seq<byte>, policy: seq<byte>, digestAlgTlv: seq<byte>, hashedMessage: seq<byte>,
                             serial: seq<byte>, genTime: seq<byte>, nonceTlv: Option<seq<byte>>)

  function ReadTstInfo(der: seq<byte>): Option<TstView> {
    match ExpectTlv(der, SEQUENCE)
    case None => None
    case Some(body) =>
      match TlvAt(body, 0) case None => None case Some((version, p1)) =>
      match TlvAt(body, p1) case None => None case Some((policy, p2)) =>
      match TlvAt(body, p2) case None => None case Some((imprintTlv, p3)) =>
      match TlvAt(body, p3) case None => None case Some((serialTlv, p4)) =>
      match TlvAt(body, p4) case None => None case Some((timeTlv, p5)) =>
      match (ExpectTlv(imprintTlv, SEQUENCE), ExpectTlv(serialTlv, INTEGER), ExpectTlv(timeTlv, GENERALIZED_TIME))
      case (Some(imprint), Some(serial), Some(time)) =>
        (match (Imprint(imprint), OptionalFields(body, p5, None))
         case (Some((alg, hashed)), Some(nonce)) => Some(TstView(version, policy, alg, hashed, serial, time, nonce))
         case _ => None)
      case _ => None
  }

  // ----- laws of the cursor -----

  lemma TlvAtFinds(pre: seq<byte>, t: seq<byte>, post: seq<byte>)
    requires IsTlv(t, 3)
    ensures TlvAt(pre + t + post, |pre|) == Some((t, |pre| + |t|))
  {
    var all := pre + t + post;
    var (start, len) := LengthAt(t, 1, 3).value;
    assert all[|pre| + 1] == t[1];
    if t[1] >= 0x80 { assert all[|pre| + 2..|pre| + start] == t[2..start]; }
    assert all[|pre|..|pre| + |t|] == t;
  }

  lemma TlvAtIsTlv(input: seq<byte>, pos: nat)
    requires TlvAt(input, pos).Some?
    ensures var (t, end) := TlvAt(input, pos).value;
            pos < end <= |input| && t == input[pos..end] && IsTlv(t, 3)
  {
    var (start, len) := LengthAt(input, pos + 1, 3).value;
    var t := input[pos..start + len];
    assert t[1] == input[pos + 1];
    if input[pos + 1] >= 0x80 { assert t[2..start - pos] == input[pos + 2..start]; }
  }

  lemma ServerTlvReads(tag: byte, body: seq<byte>)
    ensures ExpectTlv(ServerTlv(tag, body), tag) == if |body| < 0x100_0000 then Some(body) else None
    ensures |body| < 0x100_0000 ==> IsTlv(ServerTlv(tag, body), 3)
  {
    ServerRoundTripLimit(|body|, [tag], body);
    var t := ServerTlv(tag, body);
    assert t[|t| - |body|..] == body;
  }

  lemma ExpectIsTlv(input: seq<byte>, tag: byte)
    ensures ExpectTlv(input, tag).Some? <==> IsTlv(input, 3) && input[0] == tag
    ensures ExpectTlv(input, tag).Some? ==> ExpectTlv(input, tag).value == Body(input, 3)
  {
  }

  predicate OptionalField(t: seq<byte>) {
    IsTlv(t, 3) && t[0] in {INTEGER, BOOLEAN, OBJECT_IDENTIFIER, EXTENSIONS}
  }

  /** The nonce the request carries: its last INTEGER field, if any. */
  function LastInteger(fields: seq<seq<byte>>, otherwise: Option<seq<byte>>): Option<seq<byte>> {
    if fields == [] then otherwise
    else if fields[0] != [] && fields[0][0] == INTEGER then LastInteger(fields[1..], Some(fields[0]))
    else LastInteger(fields[1..], otherwise)
  }

  lemma {:induction false} OptionalFieldsOf(pre: seq<byte>, fields: seq<seq<byte>>, nonce: Option<seq<byte>>)
    requires forall f <- fields :: OptionalField(f)
    ensures OptionalFields(pre + Flatten(fields), |pre|, nonce) == Some(LastInteger(fields, nonce))
    decreases |fields|
  {
    hide TlvAt, LengthAt;
    if fields != [] {
      var f, rest := fields[0], fields[1..];
      assert OptionalField(f);
      TlvAtFinds(pre, f, Flatten(rest));
      assert pre + Flatten(fields) == pre + f + Flatten(rest);
      assert (pre + f) + Flatten(rest) == pre + Flatten(fields);
      OptionalFieldsOf(pre + f, rest, if f[0] == INTEGER then Some(f) else nonce);
    }
  }

  /** Conversely the loop succeeds only on a concatenation of optional fields. */
  lemma {:induction false} OptionalFieldsSplit(outer: seq<byte>, pos: nat, nonce: Option<seq<byte>>)
    returns (fields: seq<seq<byte>>)
    requires pos <= |outer| && OptionalFields(outer, pos, nonce).Some?
    ensures forall f <- fields :: OptionalField(f)
    ensures outer[pos..] == Flatten(fields)
    ensures OptionalFields(outer, pos, nonce) == Some(LastInteger(fields, nonce))
    decreases |outer| - pos
  {
    if pos == |outer| {
      fields := [];
    } else {
      TlvAtIsTlv(outer, pos);
      var (t, next) := TlvAt(outer, pos).value;
      var rest := OptionalFieldsSplit(outer, next, if t[0] == INTEGER then Some(t) else nonce);
      fields := [t] + rest;
      assert fields[1..] == rest;
      assert outer[pos..] == t + outer[next..];
    }
  }

  // ----- what is accepted -----

  /** The pieces of a well-formed request, section 2.4.1: version 1, a MessageImprint of one algorithm TLV
      and one OCTET STRING, and any number of optional fields. */
  datatype RequestParts = RequestParts(imprintTlv: seq<byte>, hashedTlv: seq<byte>, fields: seq<seq<byte>>)

  predicate IsInteger(field: seq<byte>) {
    field != [] && field[0] == INTEGER
  }

  /** The last INTEGER field, if there is one. */
  predicate IsNonce(fields: seq<seq<byte>>, nonce: Option<seq<byte>>) {
    match nonce
    case None => forall f <- fields :: !IsInteger(f)
    case Some(t) =>
      exists k | 0 <= k < |fields| ::
        fields[k] == t && IsInteger(t) && forall j | k < j < |fields| :: !IsInteger(fields[j])
  }

  lemma {:induction false} NonceIsLast(fields: seq<seq<byte>>, otherwise: Option<seq<byte>>,
                                       nonce: Option<seq<byte>>)
    requires IsNonce(fields, nonce)
    ensures LastInteger(fields, otherwise) == if nonce.None? then otherwise else nonce
  {
    hide IsInteger;
    if fields != [] {
      var n := |fields| - 1;
      LastIntegerAdds(fields, otherwise);
      assert fields[n] in fields;
      if nonce.Some? {
        var k :| 0 <= k < |fields| && fields[k] == nonce.value && IsInteger(fields[k])
                 && forall j | k < j < |fields| :: !IsInteger(fields[j]);
        if k < n { assert fields[..n][k] == nonce.value; }
      }
      if !IsInteger(fields[n]) { NonceIsLast(fields[..n], otherwise, nonce); }
    }
  }

  lemma {:induction false} LastIsNonce(fields: seq<seq<byte>>)
    ensures IsNonce(fields, LastInteger(fields, None))
  {
    hide IsInteger, LastInteger;
    if fields == [] {
      NoneLast();
    } else {
      var n := |fields| - 1;
      LastIntegerAdds(fields, None);
      if !IsInteger(fields[n]) {
        LastIsNonce(fields[..n]);
        var nonce := LastInteger(fields[..n], None);
        if nonce.None? {
          assert forall f <- fields :: f in fields[..n] || f == fields[n];
        } else {
          var k :| 0 <= k < n && fields[..n][k] == nonce.value && IsInteger(nonce.value)
                   && forall j | k < j < n :: !IsInteger(fields[..n][j]);
          assert fields[k] == nonce.value;
          forall j | k < j < |fields| ensures !IsInteger(fields[j]) {
            if j < n { assert fields[..n][j] == fields[j]; }
          }
        }
      }
    }
  }

  lemma NoneLast()
    ensures LastInteger([], None) == None
  {
  }

  lemma {:induction false} LastIntegerAdds(fields: seq<seq<byte>>, otherwise: Option<seq<byte>>)
    requires fields != []
    ensures var n := |fields| - 1;
            LastInteger(fields, otherwise)
            == if IsInteger(fields[n]) then Some(fields[n]) else LastInteger(fields[..n], otherwise)
  {
    var n := |fields| - 1;
    if n > 0 {
      assert fields[1..][..n - 1] == fields[..n][1..];
      LastIntegerAdds(fields[1..], if IsInteger(fields[0]) then Some(fields[0]) else otherwise);
    }
  }

  predicate HasParts(input: seq<byte>, req: TimestampRequest, parts: RequestParts) {
    && IsTlv(input, 3) && input[0] == SEQUENCE
    && Body(input, 3) == VERSION_1 + parts.imprintTlv + Flatten(parts.fields)
    && IsTlv(parts.imprintTlv, 3) && parts.imprintTlv[0] == SEQUENCE
    && Body(parts.imprintTlv, 3) == req.digestAlgTlv + parts.hashedTlv
    && IsTlv(req.digestAlgTlv, 3)
    && IsTlv(parts.hashedTlv, 3) && parts.hashedTlv[0] == OCTET_STRING && Body(parts.hashedTlv, 3) == req.hashedMessage
    && (forall f <- parts.fields :: OptionalField(f))
    && IsNonce(parts.fields, req.nonceTlv)
  }

  lemma ImprintOf(alg: seq<byte>, hashedTlv: seq<byte>)
    requires IsTlv(alg, 3) && IsTlv(hashedTlv, 3) && hashedTlv[0] == OCTET_STRING
    ensures Imprint(alg + hashedTlv) == Some((alg, Body(hashedTlv, 3)))
  {
    hide TlvAt, IsTlv, ExpectTlv, Body, LengthAt;
    TlvAtFinds([], alg, hashedTlv);
    assert [] + alg + hashedTlv == alg + hashedTlv;
    TlvAtFinds(alg, hashedTlv, []);
    assert alg + hashedTlv + [] == alg + hashedTlv;
    ExpectIsTlv(hashedTlv, OCTET_STRING);
  }

  lemma RequestOf(input: seq<byte>, req: TimestampRequest, parts: RequestParts)
    requires HasParts(input, req, parts)
    ensures Request(input) == Some(req)
  {
    hide TlvAt, IsTlv, ExpectTlv, Body, Imprint, OptionalFields, OptionalField, LastInteger, IsNonce, LengthAt, Flatten;
    var outer := Body(input, 3);
    ExpectIsTlv(input, SEQUENCE);
    ExpectIsTlv(parts.imprintTlv, SEQUENCE);
    var tail := Flatten(parts.fields);
    assert IsTlv(VERSION_1, 3) by { VersionIsTlv(); }
    TlvAtFinds([], VERSION_1, parts.imprintTlv + tail);
    assert [] + VERSION_1 + (parts.imprintTlv + tail) == outer;
    TlvAtFinds(VERSION_1, parts.imprintTlv, tail);
    ImprintOf(req.digestAlgTlv, parts.hashedTlv);
    OptionalFieldsOf(VERSION_1 + parts.imprintTlv, parts.fields, None);
    NonceIsLast(parts.fields, None, req.nonceTlv);
  }

  const POLICY_ARCS: seq<nat> := [1, 3, 6, 1, 4, 1, 311, 97, 99, 1]

  /** The policy in every token is that OID. */
  lemma PolicyIs()
    ensures ValidArcs(POLICY_ARCS) && DEFAULT_POLICY == [OBJECT_IDENTIFIER, 10] + EncodeOid(POLICY_ARCS)
  {
    hide EncodedSubs;
    var front: seq<byte>, back: seq<byte>, none: seq<nat> := [43, 6, 1, 4, 1], [97, 99, 1], [];
    var root: seq<nat> := [311];
    OctetsEncode(front, root + back);
    PolicyRoot();
    OneEncodes(311, back);
    OctetsEncode(back, none);
    assert EncodedSubs(none) == [] by { NothingEncodes(); }
    assert back + none == back && back + [] == back;
    assert [43] + POLICY_ARCS[2..] == front + (root + back);
  }

  lemma PolicyRoot()
    ensures Subidentifier(311) == [130, 55]
  {
    assert Continued(2) == [130];
  }

  lemma VersionIsTlv()
    ensures IsTlv(VERSION_1, 3) && IsTlv(DEFAULT_POLICY, 3)
  {
  }

  lemma RequestSplit(input: seq<byte>) returns (parts: RequestParts)
    requires Request(input).Some?
    ensures HasParts(input, Request(input).value, parts)
  {
    hide TlvAt, IsTlv, ExpectTlv, Body, OptionalFields, OptionalField, LastInteger, IsNonce, LengthAt, Flatten;
    ExpectIsTlv(input, SEQUENCE);
    var outer := Body(input, 3);
    TlvAtIsTlv(outer, 0);
    var (_, p) := TlvAt(outer, 0).value;
    TlvAtIsTlv(outer, p);
    var (imprintTlv, q) := TlvAt(outer, p).value;
    ExpectIsTlv(imprintTlv, SEQUENCE);
    var body := Body(imprintTlv, 3);
    TlvAtIsTlv(body, 0);
    var (alg, i) := TlvAt(body, 0).value;
    TlvAtIsTlv(body, i);
    var (hashedTlv, _) := TlvAt(body, i).value;
    ExpectIsTlv(hashedTlv, OCTET_STRING);
    assert body == alg + hashedTlv;
    var fields := OptionalFieldsSplit(outer, q, None);
    assert outer == VERSION_1 + imprintTlv + outer[q..];
    LastIsNonce(fields);
    parts := RequestParts(imprintTlv, hashedTlv, fields);
  }

  /** The server accepts exactly the well-formed requests, and reads them as their parts say. */
  lemma AcceptedExactly(input: seq<byte>, req: TimestampRequest)
    ensures Request(input) == Some(req) <==> exists parts :: HasParts(input, req, parts)
  {
    if Request(input) == Some(req) {
      var parts := RequestSplit(input);
      assert HasParts(input, req, parts);
    }
    forall parts | HasParts(input, req, parts) ensures Request(input) == Some(req) {
      RequestOf(input, req, parts);
    }
  }

  // ----- the echo -----

  /** The serial is a minimal non-negative INTEGER, section 8.3.2 of X.690. */
  lemma IntegerIsMinimal(value: nat)
    ensures BigEndian(IntegerOctets(value)) == value
    ensures IntegerOctets(value)[0] < 0x80
    ensures |IntegerOctets(value)| > 1 ==> IntegerOctets(value)[0] != 0 || IntegerOctets(value)[1] >= 0x80
  {
    BigEndianOctets(value);
    LeadingOctetNonZero(value);
    LeadingZero(Octets(value));
    assert [0][..0] == [];
  }

  lemma {:induction false} LeadingOctetNonZero(n: nat)
    ensures n > 0 ==> Octets(n) != [] && Octets(n)[0] != 0
  {
    if n > 0 { LeadingOctetNonZero(n / 256); }
  }

  lemma {:induction false} LeadingZero(octets: seq<byte>)
    ensures BigEndian([0] + octets) == BigEndian(octets)
  {
    if octets == [] {
      assert [0] + octets == [0] && [0][..0] == [];
    } else {
      LeadingZero(octets[..|octets| - 1]);
      assert ([0] + octets)[..|octets|] == [0] + octets[..|octets| - 1];
    }
  }

  lemma VersionOctets()
    ensures ServerTlv(INTEGER, IntegerOctets(1)) == VERSION_1
  {
    OctetsUnfold(1);
  }

  function Echo(req: TimestampRequest, serial: nat, genTime: seq<byte>): TstView {
    TstView(VERSION_1, DEFAULT_POLICY, req.digestAlgTlv, req.hashedMessage, IntegerOctets(serial), genTime,
        req.nonceTlv)
  }

  /** For every accepted request and every valid time, re-reading the TSTInfo with the server's own cursor
      gives back the algorithm, the hashed message, the nonce, the serial and the time exactly when
      the body stays below 2^24 octets, the limit of the server's length writer. */
  lemma EchoExactly(input: seq<byte>, serial: nat, genTime: seq<byte>)
    requires Request(input).Some?
    requires serial < USIZE_LIMIT && ValidGenTime(genTime)
    ensures var req := Request(input).value;
            && TstInfo(req, serial, genTime).Some?
            && (ReadTstInfo(TstInfo(req, serial, genTime).value) == Some(Echo(req, serial, genTime))
                <==> |TstBody(req, serial, genTime)| < 0x100_0000)
  {
    var req := Request(input).value;
    var parts := RequestSplit(input);
    var body := TstBody(req, serial, genTime);
    ServerTlvReads(SEQUENCE, body);
    if |body| < 0x100_0000 {
      NonceIsField(parts.fields, req.nonceTlv);
      TstBodyReads(req, serial, genTime);
    }
  }

  /** A request around an octet string. */
  lemma RequestAround(alg: seq<byte>, message: seq<byte>) returns (input: seq<byte>)
    requires IsTlv(alg, 3) && |alg| + |message| + 18 <= 0x100_0000
    ensures Request(input) == Some(TimestampRequest(alg, message, None))
  {
    hide ServerTlv, IsTlv, ExpectTlv, Body, Request, OptionalField;
    var hashedTlv := ServerTlv(OCTET_STRING, message);
    var imprintTlv := ServerTlv(SEQUENCE, alg + hashedTlv);
    var outer := VERSION_1 + imprintTlv;
    TlvSize(OCTET_STRING, message);
    TlvSize(SEQUENCE, alg + hashedTlv);
    input := ServerTlv(SEQUENCE, outer);
    ServerTlvIs(OCTET_STRING, message);
    ServerTlvIs(SEQUENCE, alg + hashedTlv);
    ServerTlvIs(SEQUENCE, outer);
    var fields: seq<seq<byte>> := [];
    assert outer == VERSION_1 + imprintTlv + Flatten(fields);
    RequestOf(input, TimestampRequest(alg, message, None), RequestParts(imprintTlv, hashedTlv, fields));
  }

  lemma TlvSize(tag: byte, body: seq<byte>)
    ensures |body| + 2 <= |ServerTlv(tag, body)| <= |body| + 5
    ensures |body| > 0xffff ==> |ServerTlv(tag, body)| == |body| + 5
  {
  }

  lemma ServerTlvIs(tag: byte, body: seq<byte>)
    requires |body| < 0x100_0000
    ensures IsTlv(ServerTlv(tag, body), 3) && ServerTlv(tag, body)[0] == tag && Body(ServerTlv(tag, body), 3) == body
  {
    ServerTlvReads(tag, body);
    ExpectIsTlv(ServerTlv(tag, body), tag);
  }

  /** There are such requests: a hashed message of almost 2^24 octets is accepted, and its TSTInfo does not read
      back. */
  lemma LargeRequestIsLost(serial: nat, genTime: seq<byte>) returns (input: seq<byte>)
    requires serial < USIZE_LIMIT && ValidGenTime(genTime)
    ensures Request(input).Some?
    ensures var req := Request(input).value;
            && TstInfo(req, serial, genTime).Some?
            && ReadTstInfo(TstInfo(req, serial, genTime).value) != Some(Echo(req, serial, genTime))
  {
    var alg: seq<byte>, message: seq<byte> := [0x30, 0x00], seq(0x100_0000 - 20, _ => 0);
    assert IsTlv(alg, 3);
    hide ServerTlv, IsTlv, ExpectTlv, Body, Request, ReadTstInfo, IntegerOctets, Echo;
    input := RequestAround(alg, message);
    var req := Request(input).value;
    TlvSize(OCTET_STRING, message);
    TlvSize(SEQUENCE, TstImprint(req));
    TlvSize(INTEGER, IntegerOctets(1));
    TlvSize(INTEGER, IntegerOctets(serial));
    TlvSize(GENERALIZED_TIME, genTime);
    assert |TstBody(req, serial, genTime)| >= 0x100_0000;
    EchoExactly(input, serial, genTime);
  }

  lemma NonceIsField(fields: seq<seq<byte>>, nonce: Option<seq<byte>>)
    requires (forall f <- fields :: OptionalField(f)) && IsNonce(fields, nonce)
    ensures nonce.Some? ==> IsTlv(nonce.value, 3) && nonce.value[0] == INTEGER
  {
    if nonce.Some? { assert nonce.value in fields && OptionalField(nonce.value); }
  }

  lemma TstBodyReads(req: TimestampRequest, serial: nat, genTime: seq<byte>)
    requires IsTlv(req.digestAlgTlv, 3)
    requires req.nonceTlv.Some? ==> IsTlv(req.nonceTlv.value, 3) && req.nonceTlv.value[0] == INTEGER
    requires serial < USIZE_LIMIT && ValidGenTime(genTime)
    requires |TstBody(req, serial, genTime)| < 0x100_0000
    ensures ReadTstInfo(ServerTlv(SEQUENCE, TstBody(req, serial, genTime))) == Some(Echo(req, serial, genTime))
  {
    hide ServerTlv, IntegerOctets, TlvAt, IsTlv, ExpectTlv, Body, Imprint, OptionalFields, OptionalField, LengthAt;
    hide Flatten;
    var body := TstBody(req, serial, genTime);
    ServerTlvReads(SEQUENCE, body);
    var version := ServerTlv(INTEGER, IntegerOctets(1));
    VersionOctets();
    VersionIsTlv();
    var hashedTlv := ServerTlv(OCTET_STRING, req.hashedMessage);
    var imprintTlv := ServerTlv(SEQUENCE, TstImprint(req));
    var serialTlv := ServerTlv(INTEGER, IntegerOctets(serial));
    var timeTlv := ServerTlv(GENERALIZED_TIME, genTime);
    var nonce := if req.nonceTlv.Some? then req.nonceTlv.value else [];
    var fields := NonceFields(req.nonceTlv);
    PiecesAreShort(req, serial, genTime);
    ServerTlvReads(OCTET_STRING, req.hashedMessage);
    ServerTlvReads(SEQUENCE, TstImprint(req));
    ServerTlvReads(INTEGER, IntegerOctets(serial));
    ServerTlvReads(GENERALIZED_TIME, genTime);
    ImprintOf(req.digestAlgTlv, hashedTlv);
    ExpectIsTlv(hashedTlv, OCTET_STRING);
    CursorFinds(version, DEFAULT_POLICY, imprintTlv, serialTlv, timeTlv, nonce);
    OptionalFieldsOf(version + DEFAULT_POLICY + imprintTlv + serialTlv + timeTlv, fields, None);
  }

  lemma PiecesAreShort(req: TimestampRequest, serial: nat, genTime: seq<byte>)
    ensures |req.hashedMessage| < |TstBody(req, serial, genTime)|
    ensures |TstImprint(req)| < |TstBody(req, serial, genTime)|
    ensures |IntegerOctets(serial)| < |TstBody(req, serial, genTime)|
    ensures forall tag, body :: ServerTlv(tag, body)[0] == tag
  {
    hide IntegerOctets, ThreeOctetLength;
  }

  lemma NonceFields(nonce: Option<seq<byte>>) returns (fields: seq<seq<byte>>)
    requires nonce.Some? ==> IsTlv(nonce.value, 3) && nonce.value[0] == INTEGER
    ensures forall f <- fields :: OptionalField(f)
    ensures Flatten(fields) == if nonce.Some? then nonce.value else []
    ensures LastInteger(fields, None) == nonce
  {
    if nonce.Some? {
      fields := [nonce.value];
      FlattenSingle(nonce.value);
      assert fields[1..] == [];
    } else {
      fields := [];
    }
  }

  lemma CursorFinds(a: seq<byte>, b: seq<byte>, c: seq<byte>, d: seq<byte>, e: seq<byte>, tail: seq<byte>)
    requires IsTlv(a, 3) && IsTlv(b, 3) && IsTlv(c, 3) && IsTlv(d, 3) && IsTlv(e, 3)
    ensures var all := a + b + c + d + e + tail;
            && TlvAt(all, 0) == Some((a, |a|))
            && TlvAt(all, |a|) == Some((b, |a + b|))
            && TlvAt(all, |a + b|) == Some((c, |a + b + c|))
            && TlvAt(all, |a + b + c|) == Some((d, |a + b + c + d|))
            && TlvAt(all, |a + b + c + d|) == Some((e, |a + b + c + d + e|))
  {
    hide TlvAt, IsTlv;
    var all := a + b + c + d + e + tail;
    TlvAtFinds([], a, b + c + d + e + tail);
    assert [] + a + (b + c + d + e + tail) == all;
    TlvAtFinds(a, b, c + d + e + tail);
    assert a + b + (c + d + e + tail) == all;
    TlvAtFinds(a + b, c, d + e + tail);
    assert a + b + c + (d + e + tail) == all;
    TlvAtFinds(a + b + c, d, e + tail);
    assert a + b + c + d + (e + tail) == all;
    TlvAtFinds(a + b + c + d, e, tail);
  }
}
