/** Enveloped ClickOnce signatures (section 6.6.4 of XML Signature Syntax and Processing), spliced into
    and cut out of the manifest text. */
module ClickOnce {
  import opened Wrappers
  import opened Text
  import opened XmlScan
  import opened Base64
  import opened Sequences

  const W3: string := "http://www.w3.org/"
  const SIGNATURE: string := "Signature"
  const CLOSE_SIGNATURE: string := "</Signature>"

  function Closing(name: string): string {
    "</" + name + ">"
  }

  // ----- cutting a signature out and splicing one in -----

  /** `unsigned_clickonce_manifest_text`: drops the first element with local name Signature. */
  function Unsigned(text: string): Result<string> {
    match Scan(text, SIGNATURE)
    case NoTag => Ok(text)
    case Unclosed => Err
    case Found(start, end, name) =>
      match Find(text, Closing(name), end + 1)
      case None => Err
      case Some(close) => ScanBounds(text, SIGNATURE); Ok(text[..start] + text[close + |Closing(name)|..])
  }

  /** Where a signature goes: the last close tag of the root element. */
  function InsertionPoint(text: string): Option<nat> {
    match Root(text) case None => None case Some(name) => RFind(text, Closing(name))
  }

  /** `insert_clickonce_signature_xml`. */
  function Insert(text: string, signature: string): Result<string> {
    match InsertionPoint(text) case None => Err case Some(k) => Ok(text[..k] + signature + text[k..])
  }

  method UnsignedText(text: string) returns (r: Result<string>)
    ensures r == Unsigned(text)
  {
    hide Scan, Find, Closing, LocalName;
    var tag := FindStartTag(text, SIGNATURE, 0);
    assert text[0..] == text;
    SkipTwice(0, 0, Scan(text, SIGNATURE));
    if tag.NoTag? { return Ok(text); }
    if tag.Unclosed? { return Err; }
    var close := Find(text, Closing(tag.name), tag.end + 1);
    if close.None? { return Err; }
    ScanBounds(text, SIGNATURE);
    var out := text[..tag.start];
    out := out + text[close.value + |Closing(tag.name)|..];
    return Ok(out);
  }

  // ----- the signature element -----

  datatype Algorithm = Sha256 | Sha384 | Sha512

  function SignatureUri(a: Algorithm): string {
    match a
    case Sha256 => W3 + "2001/04/xmldsig-more#rsa-sha256"
    case Sha384 => W3 + "2001/04/xmldsig-more#rsa-sha384"
    case Sha512 => W3 + "2001/04/xmldsig-more#rsa-sha512"
  }

  function DigestUri(a: Algorithm): string {
    match a
    case Sha256 => W3 + "2001/04/xmlenc#sha256"
    case Sha384 => W3 + "2001/04/xmldsig-more#sha384"
    case Sha512 => W3 + "2001/04/xmlenc#sha512"
  }

  /** A start tag followed by text. */
  function Open(name: string, text: string): string {
    "<" + name + ">" + text
  }

  function Empty(name: string, attribute: string, value: string): string {
    "<" + name + (" " + attribute + "=\"" + value + "\"/>")
  }

  /** The start tag: the XML Signature namespace as default. */
  const OPEN_SIGNATURE: string := "<Signature" + NAMESPACE + ">"

  /** `clickonce_manifest_signed_info_xml`, cut before every '<'. */
  function SignedInfo(a: Algorithm, digest: seq<byte>): seq<string> {
    [ Open("SignedInfo", ""),
      Empty("CanonicalizationMethod", "Algorithm", W3 + "2001/10/xml-exc-c14n#"),
      Empty("SignatureMethod", "Algorithm", SignatureUri(a)),
      "<Reference" + " URI=\"\">",
      Open("Transforms", ""),
      Empty("Transform", "Algorithm", W3 + "2000/09/xmldsig#enveloped-signature"),
      Closing("Transforms"),
      Empty("DigestMethod", "Algorithm", DigestUri(a)),
      Open("DigestValue", Encode(digest)),
      Closing("DigestValue"),
      Closing("Reference"),
      Closing("SignedInfo") ]
  }

  /** The rest of `clickonce_manifest_signature_xml` before its close tag. */
  function SignatureTail(value: seq<byte>, certificate: seq<byte>): seq<string> {
    [ Open("SignatureValue", Encode(value)),
      Closing("SignatureValue"),
      Open("KeyInfo", ""),
      Open("X509Data", ""),
      Open("X509Certificate", Encode(certificate)),
      Closing("X509Certificate"),
      Closing("X509Data"),
      Closing("KeyInfo") ]
  }

  function SignatureXml(a: Algorithm, digest: seq<byte>, value: seq<byte>, certificate: seq<byte>): string {
    OPEN_SIGNATURE + Flatten(SignedInfo(a, digest) + SignatureTail(value, certificate)) + CLOSE_SIGNATURE
  }

  // ----- signing a manifest -----

  /** Digest and signing key are parameters; the digest is over the text's UTF-8 octets. */
  datatype Signer = Signer(digest: (Algorithm, string) -> seq<byte>,
                           sign: (Algorithm, string) -> Result<(seq<byte>, seq<byte>)>)

  /** `sign_clickonce_manifest_bytes` without timestamping. */
  function SignManifest(text: string, a: Algorithm, signer: Signer): Result<string> {
    match Unsigned(text)
    case Err => Err
    case Ok(unsigned) =>
      var digest := signer.digest(a, unsigned);
      match signer.sign(a, Flatten(SignedInfo(a, digest)))
      case Err => Err
      case Ok((value, certificate)) => Insert(unsigned, SignatureXml(a, digest, value, certificate))
  }

  // ----- the close tag of the signature is the first one after its start tag -----

  /** A piece of markup with '<' only in front that is not itself a Signature close tag. */
  predicate Segment(s: string) {
    s != "" && s[0] == '<' && '<' !in s[1..] && !(CLOSE_SIGNATURE <= s)
  }

  lemma {:induction false} NoCloseInside(segments: seq<string>, rest: string, k: nat)
    requires forall s <- segments :: Segment(s)
    requires rest != "" && rest[0] == '<'
    requires k < |Flatten(segments)|
    ensures !OccursAt(Flatten(segments) + rest, CLOSE_SIGNATURE, k)
  {
    var s, others := segments[0], Flatten(segments[1..]);
    assert Segment(s) && forall t <- segments[1..] :: Segment(t);
    var text := Flatten(segments) + rest;
    assert text == s + (others + rest);
    if k >= |s| {
      NoCloseInside(segments[1..], rest, k - |s|);
      if k + |CLOSE_SIGNATURE| <= |text| {
        assert (others + rest)[k - |s|..k - |s| + |CLOSE_SIGNATURE|] == text[k..k + |CLOSE_SIGNATURE|];
      }
    } else if k > 0 {
      assert text[k] == s[1..][k - 1] != '<';
      if k + |CLOSE_SIGNATURE| <= |text| { assert text[k..k + |CLOSE_SIGNATURE|][0] == text[k]; }
    } else {
      SegmentsStart(segments[1..], rest);
      NoCloseAtStart(s, others + rest);
    }
  }

  lemma SegmentsStart(segments: seq<string>, rest: string)
    requires forall s <- segments :: Segment(s)
    requires rest != "" && rest[0] == '<'
    ensures var text := Flatten(segments) + rest; text != "" && text[0] == '<'
  {
    if segments != [] { assert Segment(segments[0]); }
  }

  lemma NoCloseAtStart(s: string, rest: string)
    requires Segment(s) && rest != "" && rest[0] == '<'
    ensures !OccursAt(s + rest, CLOSE_SIGNATURE, 0)
  {
    var text := s + rest;
    if |s| >= |CLOSE_SIGNATURE| {
      assert text[0..|CLOSE_SIGNATURE|] == s[..|CLOSE_SIGNATURE|];
    } else {
      CloseHasOneBracket(|s|);
      if |CLOSE_SIGNATURE| <= |text| { assert text[0..|CLOSE_SIGNATURE|][|s|] == text[|s|] == '<'; }
    }
  }

  lemma CloseHasOneBracket(i: nat)
    requires 0 < i < |CLOSE_SIGNATURE|
    ensures CLOSE_SIGNATURE[i] != '<'
  {
  }

  // ----- every piece of the signature is a segment -----

  /** No angle bracket and no slash. */
  predicate NameText(s: string) {
    forall c <- s :: c != '<' && c != '>' && c != '/'
  }

  predicate ElementName(name: string) {
    name != "" && NameText(name) && name != SIGNATURE
  }

  lemma OpenIsSegment(name: string, text: string)
    requires ElementName(name) && '<' !in text
    ensures Segment(Open(name, text))
  {
    var s := Open(name, text);
    assert '<' !in name && name[0] in name;
    assert s[1..] == name + ">" + text;
    CloseShape();
    assert s[1] == name[0];
  }

  lemma EmptyIsSegment(name: string, attribute: string, value: string)
    requires ElementName(name) && '<' !in attribute && '<' !in value
    ensures Segment(Empty(name, attribute, value))
  {
    var s := Empty(name, attribute, value);
    assert '<' !in name && name[0] in name;
    var more := " " + attribute + "=\"" + value + "\"/>";
    assert s[1..] == name + more;
    CloseShape();
    assert s[1] == name[0];
  }

  lemma ClosingIsSegment(name: string)
    requires ElementName(name)
    ensures Segment(Closing(name))
  {
    var s := Closing(name);
    assert s[1..] == "/" + name + ">";
    if CLOSE_SIGNATURE <= s { SameName(name); }
  }

  lemma SameName(name: string)
    requires '>' !in name && Closing(SIGNATURE) <= Closing(name)
    ensures name == SIGNATURE
  {
    var a, b := Closing(SIGNATURE), Closing(name);
    assert b[|a| - 1] == '>';
    assert forall i :: 0 <= i < |name| ==> b[i + 2] == name[i];
    assert |a| == |b|;
    assert a[2..|a| - 1] == SIGNATURE && b[2..|b| - 1] == name;
  }

  lemma CloseShape()
    ensures |CLOSE_SIGNATURE| == 12 && CLOSE_SIGNATURE[1] == '/' && CLOSE_SIGNATURE == Closing(SIGNATURE)
  {
  }

  lemma TailNames()
    ensures ElementName("SignatureValue") && ElementName("KeyInfo") && ElementName("X509Data")
    ensures ElementName("X509Certificate")
  {
  }

  lemma InfoNames()
    ensures ElementName("SignedInfo") && ElementName("Transforms") && ElementName("DigestValue")
    ensures ElementName("Reference")
  {
  }

  lemma MethodNames()
    ensures ElementName("CanonicalizationMethod") && ElementName("SignatureMethod")
    ensures ElementName("Transform") && ElementName("DigestMethod")
    ensures '<' !in "Algorithm"
  {
  }

  lemma W3HasNoBracket()
    ensures '<' !in W3
  {
  }

  lemma UrisHaveNoBracket(a: Algorithm)
    ensures '<' !in SignatureUri(a) && '<' !in DigestUri(a)
  {
    W3HasNoBracket();
    assert '<' !in "2001/04/xmldsig-more#rsa-sha256";
    assert '<' !in "2001/04/xmldsig-more#rsa-sha384";
    assert '<' !in "2001/04/xmldsig-more#rsa-sha512";
    assert '<' !in "2001/04/xmlenc#sha256";
    assert '<' !in "2001/04/xmldsig-more#sha384";
    assert '<' !in "2001/04/xmlenc#sha512";
    hide W3;
  }

  lemma FixedUrisHaveNoBracket()
    ensures '<' !in W3 + "2001/10/xml-exc-c14n#"
    ensures '<' !in W3 + "2000/09/xmldsig#enveloped-signature"
  {
    W3HasNoBracket();
    assert '<' !in "2001/10/xml-exc-c14n#";
    assert '<' !in "2000/09/xmldsig#enveloped-signature";
    hide W3;
  }

  lemma ReferenceIsSegment()
    ensures Segment("<Reference" + " URI=\"\">")
  {
    var s := "<Reference" + " URI=\"\">";
    CloseShape();
    assert s[1] == 'R';
    assert s[1..] == "Reference" + " URI=\"\">";
  }

  lemma EncodedHasNoBracket(bytes: seq<byte>)
    ensures '<' !in Encode(bytes) && '<' !in ""
  {
    EncodedAlphabet(bytes);
  }

  lemma TailSegments(value: seq<byte>, certificate: seq<byte>)
    ensures forall s <- SignatureTail(value, certificate) :: Segment(s)
  {
    hide Segment, ElementName, Open, Closing, Encode;
    TailNames();
    EncodedHasNoBracket(value);
    EncodedHasNoBracket(certificate);
    OpenIsSegment("SignatureValue", Encode(value));
    ClosingIsSegment("SignatureValue");
    OpenIsSegment("KeyInfo", "");
    ClosingIsSegment("KeyInfo");
    OpenIsSegment("X509Data", "");
    ClosingIsSegment("X509Data");
    OpenIsSegment("X509Certificate", Encode(certificate));
    ClosingIsSegment("X509Certificate");
  }

  lemma InfoSegments(a: Algorithm, digest: seq<byte>)
    ensures forall s <- SignedInfo(a, digest) :: Segment(s)
  {
    hide Segment, ElementName, Open, Closing, Empty, Encode, SignatureUri, DigestUri;
    InfoNames();
    MethodNames();
    EncodedHasNoBracket(digest);
    UrisHaveNoBracket(a);
    FixedUrisHaveNoBracket();
    ReferenceIsSegment();
    OpenIsSegment("SignedInfo", "");
    ClosingIsSegment("SignedInfo");
    OpenIsSegment("Transforms", "");
    ClosingIsSegment("Transforms");
    OpenIsSegment("DigestValue", Encode(digest));
    ClosingIsSegment("DigestValue");
    ClosingIsSegment("Reference");
    EmptyIsSegment("CanonicalizationMethod", "Algorithm", W3 + "2001/10/xml-exc-c14n#");
    EmptyIsSegment("SignatureMethod", "Algorithm", SignatureUri(a));
    EmptyIsSegment("Transform", "Algorithm", W3 + "2000/09/xmldsig#enveloped-signature");
    EmptyIsSegment("DigestMethod", "Algorithm", DigestUri(a));
  }

  // ----- the scanner before, at and after the splice -----

  /** Scanning a text that goes on with '<' after `p` leaves no start tag of `p` open: every one has its '>' in `p`. */
  predicate Lands(p: string) {
    if p == "" then true
    else if p[0] != '<' then Lands(p[1..])
    else if |p| == 1 then false
    else if NotAStartTag(p[1]) then Lands(p[1..])
    else match IndexOf(p, '>') case None => false case Some(e) => Lands(p[e + 1..])
  }

  /** If the prefix lands and holds no tag of that name, the scan goes on behind it, whatever follows. */
  lemma {:induction false} LandingScan(p: string, x: string, y: string, local: string)
    requires Lands(p) && x != "" && x[0] == '<' && y != "" && y[0] == '<'
    requires !Scan(p + x, local).Found?
    ensures Scan(p + y, local) == Skip(|p|, Scan(y, local))
  {
    hide Scan, TagName, LocalName, IndexOf;
    if p == "" {
      assert p + y == y;
      SkipTwice(0, 0, Scan(y, local));
    } else if p[0] != '<' || NotAStartTag(p[1]) {
      PlainStep(p, x, local);
      PlainStep(p, y, local);
      LandingScan(p[1..], x, y, local);
      SkipTwice(1, |p| - 1, Scan(y, local));
    } else {
      var e := IndexOf(p, '>').value;
      TagStep(p, x, local, e);
      TagStep(p, y, local, e);
      LandingScan(p[e + 1..], x, y, local);
      SkipTwice(e + 1, |p| - e - 1, Scan(y, local));
    }
  }

  /** What the splice needs to know of an inserted text: it starts like a start tag and its first '>' comes later. */
  predicate StartsTag(y: string, g: nat) {
    && IndexOf(y, '>') == Some(g) && g > 1 && y[0] == '<' && !NotAStartTag(y[1])
    && '<' in TagName(y[..g + 1]) && ':' !in TagName(y[..g + 1])
  }

  /** If the prefix leaves a tag open, that tag swallows the start of the inserted text: the scan finds
      nothing up to and just behind the splice. */
  lemma {:induction false} SwallowingScan(p: string, x: string, y: string, local: string, g: nat)
    requires !Lands(p) && x != "" && x[0] == '<' && '>' in x && '<' !in local
    requires StartsTag(y, g) && !Scan(p + x, local).Found?
    ensures Scan(p + y, local).Found? ==> Scan(p + y, local).start > |p| + 1
  {
    hide Scan, TagName, LocalName, IndexOf;
    if p[0] != '<' || (|p| > 1 && NotAStartTag(p[1])) {
      PlainStep(p, x, local);
      PlainStep(p, y, local);
      SwallowingScan(p[1..], x, y, local, g);
    } else {
      match IndexOf(p, '>')
      case Some(e) =>
        TagStep(p, x, local, e);
        TagStep(p, y, local, e);
        SwallowingScan(p[e + 1..], x, y, local, g);
      case None =>
        var f := IndexOf(x, '>').value;
        OpenStep(p, x, local, f);
        OpenStep(p, y, local, g);
        SwallowedName(p[1..], x[..f + 1], y[..g + 1], local);
    }
  }

  /** The swallowing tag does not have the name looked for. */
  lemma SwallowedName(p: string, x: string, y: string, local: string)
    requires '<' !in local && '<' in TagName(y) && ':' !in TagName(y)
    requires LocalName(TagName(p + x)) != local
    ensures LocalName(TagName(p + y)) != local
  {
    if exists c <- p :: EndsName(c) {
      TagNameEnds(p, x);
      TagNameEnds(p, y);
    } else {
      TagNameGoesOn(p, y);
      LocalNameKeeps(p, TagName(y), '<');
    }
  }

  /** A text the scanner takes as one element: a start tag, then no close tag before the one at the end. */
  predicate Element(text: string, open: string, close: string) {
    && |open| + |close| <= |text|
    && open <= text
    && Find(text, close, |open|) == Some(|text| - |close|)
  }

  predicate SignatureElement(signature: string) {
    Element(signature, OPEN_SIGNATURE, CLOSE_SIGNATURE)
  }

  /** A complete start tag without prefix or inner '>'. */
  predicate OpeningTag(open: string, local: string) {
    && |open| > 2 && open[0] == '<' && open[1] != '/' && !NotAStartTag(open[1])
    && IndexOf(open, '>') == Some(|open| - 1)
    && TagName(open[1..]) == local && LocalName(local) == local && '<' !in local
    && TagName(open) == "<" + local && ':' !in "<" + local
  }

  const NAMESPACE: string := " xmlns=\"" + W3 + "2000/09/xmldsig#\""

  lemma NamespaceText()
    ensures '>' !in NAMESPACE && NAMESPACE != "" && NAMESPACE[0] == ' '
  {
    assert '>' !in " xmlns=\"";
    assert '>' !in W3;
    assert '>' !in "2000/09/xmldsig#\"";
    hide W3;
  }

  lemma SignatureNameText()
    ensures (forall c <- SIGNATURE :: !EndsName(c)) && '>' !in SIGNATURE && ':' !in SIGNATURE && '<' !in SIGNATURE
    ensures SIGNATURE != "" && !NotAStartTag(SIGNATURE[0])
    ensures OPEN_SIGNATURE == "<" + SIGNATURE + NAMESPACE + ">"
    ensures Closing(SIGNATURE) == CLOSE_SIGNATURE && CLOSE_SIGNATURE[0] == '<'
  {
    assert "<Signature" == "<" + SIGNATURE;
    hide NAMESPACE;
  }

  lemma SignatureTag()
    ensures OpeningTag(OPEN_SIGNATURE, SIGNATURE)
    ensures Closing(SIGNATURE) == CLOSE_SIGNATURE && CLOSE_SIGNATURE != "" && CLOSE_SIGNATURE[0] == '<'
  {
    SignatureNameText();
    NamespaceText();
    hide NAMESPACE, OPEN_SIGNATURE, SIGNATURE, CLOSE_SIGNATURE, OpeningTag;
    IsOpeningTag(SIGNATURE, NAMESPACE);
  }

  lemma IsOpeningTag(local: string, attributes: string)
    requires (forall c <- local :: !EndsName(c)) && '>' !in local && ':' !in local && '<' !in local
    requires local != "" && !NotAStartTag(local[0])
    requires '>' !in attributes && attributes != "" && attributes[0] == ' '
    ensures OpeningTag("<" + local + attributes + ">", local)
  {
    var open, before, tail := "<" + local + attributes + ">", "<" + local + attributes, attributes + ">";
    assert open[..|before|] == before;
    IndexOfIs(open, '>', |before|);
    assert open[1..] == local + tail;
    assert open == ("<" + local) + tail;
    assert TagName(tail) == "" by { assert tail[0] == ' '; }
    hide TagName, IndexOf;
    TagNameGoesOn(local, tail);
    assert local + "" == local;
    TagNameGoesOn("<" + local, tail);
    assert ("<" + local) + "" == "<" + local;
    assert IndexOf(local, ':') == None;
  }

  /** Every signature this tool makes is such an element. */
  lemma SignatureIsElement(a: Algorithm, digest: seq<byte>, value: seq<byte>, certificate: seq<byte>)
    ensures SignatureElement(SignatureXml(a, digest, value, certificate))
  {
    hide Segment, SignedInfo, SignatureTail, OPEN_SIGNATURE, CLOSE_SIGNATURE, Element, Flatten;
    InfoSegments(a, digest);
    TailSegments(value, certificate);
    SignatureTag();
    ElementOf(SignedInfo(a, digest) + SignatureTail(value, certificate));
  }

  lemma ElementOf(segments: seq<string>)
    requires forall s <- segments :: Segment(s)
    requires CLOSE_SIGNATURE != "" && CLOSE_SIGNATURE[0] == '<'
    ensures Element(OPEN_SIGNATURE + Flatten(segments) + CLOSE_SIGNATURE, OPEN_SIGNATURE, CLOSE_SIGNATURE)
  {
    hide OPEN_SIGNATURE, CLOSE_SIGNATURE, Segment, Flatten, Find;
    var inner := Flatten(segments);
    var signature := OPEN_SIGNATURE + inner + CLOSE_SIGNATURE;
    var at := |OPEN_SIGNATURE| + |inner|;
    assert signature[at..at + |CLOSE_SIGNATURE|] == CLOSE_SIGNATURE;
    forall k | |OPEN_SIGNATURE| <= k < at ensures !OccursAt(signature, CLOSE_SIGNATURE, k) {
      NoCloseInside(segments, CLOSE_SIGNATURE, k - |OPEN_SIGNATURE|);
      OccursShift(OPEN_SIGNATURE, inner + CLOSE_SIGNATURE, "", CLOSE_SIGNATURE, k - |OPEN_SIGNATURE|);
      assert OPEN_SIGNATURE + (inner + CLOSE_SIGNATURE) + "" == signature;
    }
    FindIs(signature, CLOSE_SIGNATURE, |OPEN_SIGNATURE|, at);
  }

  lemma OccursShift(pre: string, s: string, post: string, needle: string, k: nat)
    requires k + |needle| <= |s|
    ensures OccursAt(pre + s + post, needle, |pre| + k) <==> OccursAt(s, needle, k)
  {
    assert (pre + s + post)[|pre| + k..|pre| + k + |needle|] == s[k..k + |needle|];
  }

  /** Scanned where it stands, the element is found as a whole and cut out as a whole. */
  lemma ElementIsFound(element: string, x: string, open: string, close: string, local: string)
    requires Element(element, open, close) && OpeningTag(open, local)
    ensures Scan(element + x, local) == Found(0, |open| - 1, local)
  {
    hide Scan, TagName, LocalName, IndexOf, Find;
    var rest := element[|open|..];
    assert open + (rest + x) == element + x;
    assert open[1..|open| - 1 + 1] == open[1..];
    TagStep(open, rest + x, local, |open| - 1);
  }

  lemma ElementIsClosed(p: string, element: string, x: string, open: string, close: string)
    requires Element(element, open, close)
    ensures Find(p + element + x, close, |p| + |open|) == Some(|p| + |element| - |close|)
  {
    hide Find, OccursAt;
    var whole, at := p + element + x, |element| - |close|;
    OccursShift(p, element, x, close, at);
    forall k | |p| + |open| <= k < |p| + at ensures !OccursAt(whole, close, k) {
      OccursShift(p, element, x, close, k - |p|);
    }
    FindIs(whole, close, |p| + |open|, |p| + at);
  }

  lemma ElementStartsTag(element: string, x: string, open: string, close: string, local: string)
    requires Element(element, open, close) && OpeningTag(open, local)
    ensures StartsTag(element + x, |open| - 1)
  {
    hide TagName, IndexOf, Find, LocalName;
    var rest := element[|open|..] + x;
    assert element + x == open + rest;
    IndexInPrefix(open, rest, '>');
    assert (element + x)[..|open|] == open;
    assert ("<" + local)[0] == '<';
  }

  /** What the insertion point looks like. */
  lemma InsertionPointIs(text: string)
    requires InsertionPoint(text).Some?
    ensures var k := InsertionPoint(text).value;
            k + 2 < |text| && text[k] == '<' && text[k + 1] == '/' && '>' in text[k..]
  {
    hide Root;
    var k, close := InsertionPoint(text).value, Closing(Root(text).value);
    var found := text[k..k + |close|];
    assert found[0] == text[k] && found[1] == text[k + 1] && found[|close| - 1] == text[k + |close| - 1];
    assert text[k..][|close| - 1] == text[k + |close| - 1];
  }

  /** Stripping a signed manifest gives back the digested text exactly when no scanned tag of that text is still open
      at the root's last close tag; the text itself holds no Signature tag. */
  lemma RoundTripExactly(text: string, signature: string)
    requires InsertionPoint(text).Some? && !Scan(text, SIGNATURE).Found?
    requires SignatureElement(signature)
    ensures Insert(text, signature).Ok?
    ensures Unsigned(Insert(text, signature).value) == Ok(text) <==> Lands(text[..InsertionPoint(text).value])
  {
    InsertionPointIs(text);
    hide Scan, InsertionPoint, SignatureElement, Lands, Unsigned;
    var k := InsertionPoint(text).value;
    assert text == text[..k] + text[k..];
    if Lands(text[..k]) {
      LandedSplice(text[..k], text[k..], signature);
    } else {
      SwallowedSplice(text[..k], text[k..], signature);
    }
  }

  const OPEN_TAG_INSIDE: string := "<r><a</r>"

  /** A manifest of which it is not true: the tag inside is open at the root's last close tag. */
  lemma OpenTagSwallows(signature: string)
    requires SignatureElement(signature)
    ensures Insert(OPEN_TAG_INSIDE, signature).Ok?
    ensures Unsigned(Insert(OPEN_TAG_INSIDE, signature).value) != Ok(OPEN_TAG_INSIDE)
  {
    OpenTagInside();
    hide Scan, InsertionPoint, SignatureElement, Lands, Unsigned, SIGNATURE;
    RoundTripExactly(OPEN_TAG_INSIDE, signature);
  }

  lemma OpenTagInside()
    ensures InsertionPoint(OPEN_TAG_INSIDE) == Some(5) && !Scan(OPEN_TAG_INSIDE, SIGNATURE).Found?
    ensures !Lands(OPEN_TAG_INSIDE[..5])
  {
    OpenTagRoot();
    OpenTagScan();
    OpenTagLands();
    hide Root, Scan, Lands;
    var text := OPEN_TAG_INSIDE;
    assert Closing("r") == "</r>";
    assert text[5..5 + 4] == "</r>";
    RFindIs(text, "</r>", 5);
  }

  lemma OpenTagRoot()
    ensures Root(OPEN_TAG_INSIDE) == Some("r")
  {
    var text := OPEN_TAG_INSIDE;
    assert text[..2] == "<r";
    IndexOfIs(text, '>', 2);
    assert text[1..3] == "r>";
    NameOfR();
    hide IndexOf, TagName;
  }

  lemma NameOfR()
    ensures TagName("r>") == "r"
  {
    assert "r>"[1..] == ">";
    assert TagName(">") == "";
  }

  lemma OpenTagNames()
    ensures TagName("a</r>") == "a<" && LocalName("r") == "r" && LocalName("a<") == "a<"
    ensures SIGNATURE != "r" && SIGNATURE != "a<"
  {
    assert "a</r>"[1..] == "</r>" && "</r>"[1..] == "/r>";
    assert TagName("/r>") == "";
  }

  lemma OpenTagScan()
    ensures !Scan(OPEN_TAG_INSIDE, SIGNATURE).Found?
  {
    NameOfR();
    OpenTagNames();
    hide TagName, LocalName, SIGNATURE, IndexOf;
    var text, rest := OPEN_TAG_INSIDE, "<a</r>";
    IndexOfIs(text, '>', 2);
    assert text[1..3] == "r>" && text[3..] == rest;
    LastTagScan(rest);
  }

  lemma LastTagScan(rest: string)
    requires rest == "<a</r>" && TagName("a</r>") == "a<" && LocalName("a<") != SIGNATURE
    ensures !Scan(rest, SIGNATURE).Found?
  {
    hide TagName, LocalName, SIGNATURE, IndexOf;
    IndexOfIs(rest, '>', 5);
    assert rest[1..6] == "a</r>" && rest[6..] == "";
    assert Scan("", SIGNATURE) == NoTag;
  }

  lemma OpenTagLands()
    ensures !Lands(OPEN_TAG_INSIDE[..5])
  {
    var p := "<r><a";
    assert OPEN_TAG_INSIDE[..5] == p;
    IndexOfIs(p, '>', 2);
    assert p[3..] == "<a";
    assert IndexOf("<a", '>') == None;
    hide IndexOf;
    assert !Lands("<a");
  }

  lemma LandedSplice(p: string, x: string, signature: string)
    requires Lands(p) && x != "" && x[0] == '<' && !Scan(p + x, SIGNATURE).Found?
    requires SignatureElement(signature)
    ensures Unsigned(p + signature + x) == Ok(p + x)
  {
    SignatureTag();
    hide Scan, Find, Lands, SIGNATURE, OPEN_SIGNATURE, CLOSE_SIGNATURE, Closing, Element, OpeningTag;
    var signed := p + signature + x;
    assert signed == p + (signature + x);
    ElementHead(signature);
    LandingScan(p, x, signature + x, SIGNATURE);
    ElementIsFound(signature, x, OPEN_SIGNATURE, CLOSE_SIGNATURE, SIGNATURE);
    ElementIsClosed(p, signature, x, OPEN_SIGNATURE, CLOSE_SIGNATURE);
    assert signed[..|p|] == p && signed[|p| + |signature|..] == x;
  }

  lemma ElementHead(signature: string)
    requires SignatureElement(signature)
    ensures |signature| > 2 && signature[0] == '<' && signature[1] != '/'
  {
    SignatureTag();
    hide OPEN_SIGNATURE, CLOSE_SIGNATURE, SIGNATURE, Find, TagName, LocalName, IndexOf;
  }

  lemma SwallowedSplice(p: string, x: string, signature: string)
    requires !Lands(p) && |x| > 1 && x[0] == '<' && x[1] == '/' && '>' in x && !Scan(p + x, SIGNATURE).Found?
    requires SignatureElement(signature)
    ensures Unsigned(p + signature + x) != Ok(p + x)
  {
    SignatureTag();
    ElementHead(signature);
    assert '<' !in SIGNATURE;
    hide Scan, Find, Lands, SIGNATURE, OPEN_SIGNATURE, CLOSE_SIGNATURE, Closing, Element, OpeningTag, Unsigned;
    hide StartsTag;
    var signed := p + signature + x;
    assert signed == p + (signature + x);
    ElementStartsTag(signature, x, OPEN_SIGNATURE, CLOSE_SIGNATURE, SIGNATURE);
    SwallowingScan(p, x, signature + x, SIGNATURE, |OPEN_SIGNATURE| - 1);
    assert signed[|p| + 1] == signature[1] && (p + x)[|p| + 1] == x[1];
    UnsignedDiffers(p + x, signed, |p|);
  }

  /** A cut that starts behind the splice keeps the first characters of the signature. */
  lemma UnsignedDiffers(text: string, signed: string, k: nat)
    requires k + 1 < |text| < |signed| && text[k + 1] != signed[k + 1]
    requires Scan(signed, SIGNATURE).Found? ==> Scan(signed, SIGNATURE).start > k + 1
    ensures Unsigned(signed) != Ok(text)
  {
    ScanBounds(signed, SIGNATURE);
    hide Scan, Find, SIGNATURE, Closing;
    var result := Unsigned(signed);
    if Scan(signed, SIGNATURE).Found? && result.Ok? {
      assert result.value[k + 1] == signed[k + 1];
    }
  }

  lemma InsertLonger(text: string, signature: string)
    requires Insert(text, signature).Ok?
    ensures |Insert(text, signature).value| == |text| + |signature|
  {
    hide Root;
  }

  /** Signing a manifest again, with any key and algorithm, replaces the signature and digests the same text. */
  lemma ResigningReplaces(text: string, a: Algorithm, signer: Signer, b: Algorithm, other: Signer)
    requires Unsigned(text).Ok? && !Scan(Unsigned(text).value, SIGNATURE).Found?
    requires SignManifest(text, a, signer).Ok?
    requires Lands(Unsigned(text).value[..InsertionPoint(Unsigned(text).value).value])
    ensures var signed := SignManifest(text, a, signer).value;
            && Unsigned(signed) == Unsigned(text)
            && SignManifest(signed, b, other) == SignManifest(text, b, other)
            && Scan(signed, SIGNATURE).Found?
  {
    hide Scan, SIGNATURE, SignatureXml, InsertionPoint, SignatureElement, SignedInfo, Lands;
    var unsigned := Unsigned(text).value;
    var digest := signer.digest(a, unsigned);
    var (value, certificate) := signer.sign(a, Flatten(SignedInfo(a, digest))).value;
    var signature := SignatureXml(a, digest, value, certificate);
    SignatureIsElement(a, digest, value, certificate);
    RoundTripExactly(unsigned, signature);
    var signed := SignManifest(text, a, signer).value;
    assert |signature| > 0 by { ElementHead(signature); }
    InsertLonger(unsigned, signature);
  }

  // ----- what is signed -----

  /** A signed manifest is the unsigned text with a signature at its insertion point, whose digest is over that text and
      whose value was made over the SignedInfo with that digest. */
  lemma SignedOver(text: string, a: Algorithm, signer: Signer)
    returns (digest: seq<byte>, value: seq<byte>, certificate: seq<byte>)
    requires SignManifest(text, a, signer).Ok?
    ensures Unsigned(text).Ok? && InsertionPoint(Unsigned(text).value).Some?
    ensures digest == signer.digest(a, Unsigned(text).value)
    ensures signer.sign(a, Flatten(SignedInfo(a, digest))) == Ok((value, certificate))
    ensures var unsigned, k := Unsigned(text).value, InsertionPoint(Unsigned(text).value).value;
            && k <= |unsigned|
            && SignManifest(text, a, signer).value
               == unsigned[..k] + SignatureXml(a, digest, value, certificate) + unsigned[k..]
  {
    hide SignatureXml, SignedInfo, Unsigned, Root;
    var unsigned := Unsigned(text).value;
    digest := signer.digest(a, unsigned);
    var made := signer.sign(a, Flatten(SignedInfo(a, digest))).value;
    value, certificate := made.0, made.1;
  }

  predicate Occurs(s: string, needle: string) {
    exists k: nat | k <= |s| :: OccursAt(s, needle, k)
  }

  lemma OccursInside(pre: string, needle: string, post: string)
    ensures Occurs(pre + needle + post, needle)
  {
    assert OccursAt(pre + needle + post, needle, |pre|);
  }

  lemma OccursAround(pre: string, s: string, post: string, needle: string)
    requires Occurs(s, needle)
    ensures Occurs(pre + s + post, needle)
  {
    var k: nat :| k <= |s| && OccursAt(s, needle, k);
    OccursShift(pre, s, post, needle, k);
  }

  /** Neighbouring pieces stand side by side. */
  lemma {:induction false} NeighboursOccur(parts: seq<string>, i: nat)
    requires i + 1 < |parts|
    ensures Occurs(Flatten(parts), parts[i] + parts[i + 1])
  {
    var rest := parts[1..];
    if i == 0 {
      var pair, behind := parts[0] + parts[1], Flatten(rest[1..]);
      assert Flatten(parts) == "" + pair + behind;
      hide Flatten;
      OccursInside("", pair, behind);
    } else {
      NeighboursOccur(rest, i - 1);
      var pair := parts[i] + parts[i + 1];
      assert Flatten(parts) == parts[0] + Flatten(rest) + "";
      hide Flatten, Occurs;
      OccursAround(parts[0], Flatten(rest), "", pair);
    }
  }

  /** The digest stands in the SignedInfo, and so in the signature. */
  lemma DigestOccurs(a: Algorithm, digest: seq<byte>, value: seq<byte>, certificate: seq<byte>)
    ensures Occurs(SignatureXml(a, digest, value, certificate), "<DigestValue>" + Encode(digest) + "</DigestValue>")
  {
    hide Encode, OPEN_SIGNATURE, CLOSE_SIGNATURE;
    DigestPieces(a, digest);
    var parts := SignedInfo(a, digest) + SignatureTail(value, certificate);
    assert |SignedInfo(a, digest)| == 12;
    hide SignedInfo, SignatureTail;
    NeighboursOccur(parts, 8);
    OccursAround(OPEN_SIGNATURE, Flatten(parts), CLOSE_SIGNATURE, parts[8] + parts[9]);
  }

  lemma DigestPieces(a: Algorithm, digest: seq<byte>)
    ensures |SignedInfo(a, digest)| == 12
    ensures SignedInfo(a, digest)[8] + SignedInfo(a, digest)[9] == "<DigestValue>" + Encode(digest) + "</DigestValue>"
  {
    hide Encode, SignatureUri, DigestUri;
    assert "<" + "DigestValue" + ">" == "<DigestValue>";
    assert "</" + "DigestValue" + ">" == "</DigestValue>";
  }

  /** What a verifier finds: cutting the signature out of a signed manifest leaves the text whose digest the signature
      holds, if no tag of that text swallows the signature. */
  lemma SignedHoldsDigest(text: string, a: Algorithm, signer: Signer)
    requires SignManifest(text, a, signer).Ok? && !Scan(Unsigned(text).value, SIGNATURE).Found?
    requires Lands(Unsigned(text).value[..InsertionPoint(Unsigned(text).value).value])
    ensures var signed := SignManifest(text, a, signer).value;
            && Unsigned(signed).Ok?
            && Occurs(signed, "<DigestValue>" + Encode(signer.digest(a, Unsigned(signed).value)) + "</DigestValue>")
  {
    hide Scan, SIGNATURE, SignatureXml, SignedInfo, Encode, Lands, InsertionPoint, Unsigned, SignManifest, Occurs;
    var digest, value, certificate := SignedOver(text, a, signer);
    var unsigned, k := Unsigned(text).value, InsertionPoint(Unsigned(text).value).value;
    ResigningReplaces(text, a, signer, a, signer);
    DigestOccurs(a, digest, value, certificate);
    OccursAround(unsigned[..k], SignatureXml(a, digest, value, certificate), unsigned[k..],
                 "<DigestValue>" + Encode(digest) + "</DigestValue>");
  }

  // ----- when a manifest can be signed -----

  /** Cutting fails exactly if a tag is not closed on the way to a Signature tag, or nothing closes that element. */
  lemma UnsignedFails(text: string)
    ensures Unsigned(text) == Err
            <==> || Scan(text, "Signature").Unclosed?
                 || (&& Scan(text, "Signature").Found?
                     && var Found(_, end, name) := Scan(text, "Signature");
                        forall k :: end < k ==> !OccursAt(text, "</" + name + ">", k))
  {
    hide Scan, Find;
  }

  /** Signing succeeds exactly if the signature can be cut out, the rest has a root element that is closed, and the
      signer signs. */
  lemma SignsExactly(text: string, a: Algorithm, signer: Signer)
    ensures SignManifest(text, a, signer).Ok?
            <==> && Unsigned(text).Ok?
                 && var unsigned := Unsigned(text).value;
                    && (exists name, k :: Root(unsigned) == Some(name) && OccursAt(unsigned, "</" + name + ">", k))
                    && signer.sign(a, Flatten(SignedInfo(a, signer.digest(a, unsigned)))).Ok?
  {
    hide Unsigned, Root, RFind, SignedInfo, Flatten, SignatureXml;
    if Unsigned(text).Ok? {
      var unsigned := Unsigned(text).value;
      if Root(unsigned).Some? {
        var r := RFind(unsigned, Closing(Root(unsigned).value));
      }
    }
  }

  // ----- what else the signature holds -----

  /** The signature holds the very text that was signed, the signature value and the certificate. */
  lemma SignatureHolds(a: Algorithm, digest: seq<byte>, value: seq<byte>, certificate: seq<byte>)
    ensures var xml := SignatureXml(a, digest, value, certificate);
            && Occurs(xml, Flatten(SignedInfo(a, digest)))
            && Occurs(xml, "<SignatureValue>" + Encode(value) + "</SignatureValue>")
            && Occurs(xml, "<X509Certificate>" + Encode(certificate) + "</X509Certificate>")
  {
    TailPieces(value, certificate);
    hide Encode, OPEN_SIGNATURE, CLOSE_SIGNATURE, SignedInfo, SignatureTail;
    var info, tail := SignedInfo(a, digest), SignatureTail(value, certificate);
    FlattenAppend(info, tail);
    NeighboursOccur(tail, 0);
    NeighboursOccur(tail, 4);
    hide Occurs;
    var front := OPEN_SIGNATURE + Flatten(info);
    assert SignatureXml(a, digest, value, certificate) == front + Flatten(tail) + CLOSE_SIGNATURE;
    OccursAround(front, Flatten(tail), CLOSE_SIGNATURE, tail[0] + tail[1]);
    OccursAround(front, Flatten(tail), CLOSE_SIGNATURE, tail[4] + tail[5]);
    assert SignatureXml(a, digest, value, certificate)
           == OPEN_SIGNATURE + Flatten(info) + (Flatten(tail) + CLOSE_SIGNATURE);
    OccursInside(OPEN_SIGNATURE, Flatten(info), Flatten(tail) + CLOSE_SIGNATURE);
  }

  lemma TailPieces(value: seq<byte>, certificate: seq<byte>)
    ensures var tail := SignatureTail(value, certificate);
            && |tail| == 8
            && tail[0] + tail[1] == "<SignatureValue>" + Encode(value) + "</SignatureValue>"
            && tail[4] + tail[5] == "<X509Certificate>" + Encode(certificate) + "</X509Certificate>"
  {
    hide Encode;
    assert "<" + "SignatureValue" + ">" == "<SignatureValue>";
    assert "</" + "SignatureValue" + ">" == "</SignatureValue>";
    assert "<" + "X509Certificate" + ">" == "<X509Certificate>";
    assert "</" + "X509Certificate" + ">" == "</X509Certificate>";
  }

  /** The name of the hash. */
  function HashName(a: Algorithm): string {
    match a case Sha256 => "sha256" case Sha384 => "sha384" case Sha512 => "sha512"
  }

  predicate EndsWith(s: string, suffix: string) {
    |suffix| <= |s| && s[|s| - |suffix|..] == suffix
  }

  /** Both URIs end in the name of the hash that is used. */
  lemma UrisName(a: Algorithm)
    ensures EndsWith(SignatureUri(a), HashName(a)) && EndsWith(DigestUri(a), HashName(a))
  {
    SignatureUriNames(a);
    DigestUriNames(a);
    hide SignatureUri, DigestUri, EndsWith;
  }

  lemma SignatureUriNames(a: Algorithm)
    ensures EndsWith(SignatureUri(a), HashName(a))
  {
    hide W3;
    match a
    case Sha256 => EndOf(W3, "2001/04/xmldsig-more#rsa-sha256", "sha256");
    case Sha384 => EndOf(W3, "2001/04/xmldsig-more#rsa-sha384", "sha384");
    case Sha512 => EndOf(W3, "2001/04/xmldsig-more#rsa-sha512", "sha512");
  }

  lemma DigestUriNames(a: Algorithm)
    ensures EndsWith(DigestUri(a), HashName(a))
  {
    hide W3;
    match a
    case Sha256 => EndOf(W3, "2001/04/xmlenc#sha256", "sha256");
    case Sha384 => EndOf(W3, "2001/04/xmldsig-more#sha384", "sha384");
    case Sha512 => EndOf(W3, "2001/04/xmlenc#sha512", "sha512");
  }

  lemma EndOf(front: string, s: string, end: string)
    requires EndsWith(s, end)
    ensures EndsWith(front + s, end)
  {
    assert (front + s)[|front| + |s| - |end|..] == s[|s| - |end|..];
  }

  lemma {:induction false} PieceOccurs(parts: seq<string>, i: nat)
    requires i < |parts|
    ensures Occurs(Flatten(parts), parts[i])
  {
    var front, behind := Flatten(parts[..i]), Flatten(parts[i + 1..]);
    FlattenAppend(parts[..i], [parts[i]] + parts[i + 1..]);
    FlattenAppend([parts[i]], parts[i + 1..]);
    FlattenSingle(parts[i]);
    assert parts[..i] + ([parts[i]] + parts[i + 1..]) == parts;
    hide Flatten;
    assert Flatten(parts) == front + parts[i] + behind;
    OccursInside(front, parts[i], behind);
  }

  /** And SignedInfo holds both. */
  lemma SignedInfoHolds(a: Algorithm, digest: seq<byte>)
    ensures Occurs(Flatten(SignedInfo(a, digest)), "<SignatureMethod Algorithm=\"" + SignatureUri(a) + "\"/>")
    ensures Occurs(Flatten(SignedInfo(a, digest)), "<DigestMethod Algorithm=\"" + DigestUri(a) + "\"/>")
  {
    hide SignatureUri, DigestUri, Encode;
    DigestPieces(a, digest);
    AlgorithmIs("SignatureMethod", SignatureUri(a));
    AlgorithmIs("DigestMethod", DigestUri(a));
    assert "<" + "SignatureMethod" == "<SignatureMethod" && "<" + "DigestMethod" == "<DigestMethod";
    var parts := SignedInfo(a, digest);
    assert parts[2] == "<SignatureMethod" + (" Algorithm=\"" + SignatureUri(a) + "\"/>");
    assert parts[7] == "<DigestMethod" + (" Algorithm=\"" + DigestUri(a) + "\"/>");
    hide SignedInfo, Empty, Flatten, Occurs;
    PieceOccurs(parts, 2);
    PieceOccurs(parts, 7);
    Joined("<SignatureMethod", " Algorithm=\"", SignatureUri(a));
    Joined("<DigestMethod", " Algorithm=\"", DigestUri(a));
    assert "<SignatureMethod" + " Algorithm=\"" == "<SignatureMethod Algorithm=\"";
    assert "<DigestMethod" + " Algorithm=\"" == "<DigestMethod Algorithm=\"";
  }

  lemma AlgorithmIs(name: string, uri: string)
    ensures Empty(name, "Algorithm", uri) == "<" + name + (" Algorithm=\"" + uri + "\"/>")
  {
    assert " " + "Algorithm" + "=\"" == " Algorithm=\"";
  }

  lemma Joined(a: string, b: string, c: string)
    ensures a + (b + c + "\"/>") == a + b + c + "\"/>"
  {
  }
}
