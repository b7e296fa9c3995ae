/** TLV walking over certificate trust list content: splitting a SEQUENCE body into its children
    and pulling the SHA-1 subject identifiers out of a subject list. */
module DerTlv {
  import opened Wrappers
  import opened Sequences
  import opened DerLength

  const SEQUENCE: byte := 0x30
  const OBJECT_IDENTIFIER: byte := 0x06
  const OCTET_STRING: byte := 0x04

  /** Slicing past the end panics in the source, which is neither a value nor an error. */
  datatype Outcome<+T> = Parsed(value: T) | Malformed | Panic

  // ----- what a TLV is -----

  /** One tag octet, a length field with at most `maxOctets` octets, and exactly the announced body. */
  predicate IsTlv(t: seq<byte>, maxOctets: nat) {
    |t| > 0 && match LengthAt(t, 1, maxOctets) case None => false case Some((start, len)) => start + len == |t|
  }

  function Body(t: seq<byte>, maxOctets: nat): seq<byte>
    requires IsTlv(t, maxOctets)
  {
    t[LengthAt(t, 1, maxOctets).value.0..]
  }

  predicate AllTlvs(ts: seq<seq<byte>>) {
    forall t <- ts :: IsTlv(t, 4)
  }

  /** The TLV the general writer makes. */
  function Tlv(tag: byte, body: seq<byte>): seq<byte>
    requires |body| < USIZE_LIMIT
  {
    [tag] + DefiniteLength(|body|) + body
  }

  // ----- the parsers -----

  /** `tlv_collect_children`. */
  function Children(content: seq<byte>): Outcome<seq<seq<byte>>> {
    if content == [] then Parsed([])
    else match LengthAt(content, 1, 4)
      case None => Malformed
      case Some((start, len)) =>
        if start + len > |content| then Panic
        else Prepend([content[..start + len]], Children(content[start + len..]))
  }

  /** `tlv_sequence_payload`: trailing octets after the SEQUENCE are ignored. */
  function SequencePayload(input: seq<byte>): Option<seq<byte>> {
    if input == [] || input[0] != SEQUENCE then None
    else match LengthAt(input, 1, 4)
      case None => None
      case Some((start, len)) => if start + len > |input| then None else Some(input[start..start + len])
  }

  /** `tlv_octet_string_fixed` with length 20. */
  function Sha1OctetString(input: seq<byte>): Option<seq<byte>> {
    if input == [] || input[0] != OCTET_STRING then None
    else match LengthAt(input, 1, 4)
      case None => None
      case Some((start, len)) => if len != 20 || |input| < start + len then None else Some(input[start..start + 20])
  }

  /** What one element of a subject list contributes. */
  function Subject(el: seq<byte>): Outcome<seq<seq<byte>>> {
    if el == [] || el[0] != SEQUENCE then Parsed([])
    else match SequencePayload(el)
      case None => Malformed
      case Some(inner) =>
        match Children(inner)
        case Malformed => Malformed
        case Panic => Panic
        case Parsed(parts) =>
          if parts == [] then Parsed([])
          else match Sha1OctetString(parts[0]) case None => Parsed([]) case Some(id) => Parsed([id])
  }

  function Subjects(els: seq<seq<byte>>): Outcome<seq<seq<byte>>> {
    if els == [] then Parsed([])
    else match Subjects(els[..|els| - 1])
      case Parsed(front) =>
        (match Subject(els[|els| - 1])
         case Parsed(last) => Parsed(front + last)
         case other => other)
      case other => other
  }

  /** `parse_subject_list`. */
  function SubjectList(input: seq<byte>): Outcome<seq<seq<byte>>> {
    match SequencePayload(input)
    case None => Malformed
    case Some(content) => match Children(content) case Parsed(els) => Subjects(els) case other => other
  }

  /** The loop of `tlv_collect_children`. */
  method CollectChildren(content: seq<byte>) returns (r: Outcome<seq<seq<byte>>>)
    ensures r == Children(content)
  {
    hide LengthAt, Children;
    var i: nat, v := 0, [];
    assert content[0..] == content;
    PrependNothing(Children(content));
    while i < |content|
      invariant 0 <= i <= |content|
      invariant Children(content) == Prepend(v, Children(content[i..]))
    {
      var header := ParseDefiniteLength(content[i + 1..]);
      ChildrenFrom(content, i);
      if header.None? { return Malformed; }
      var total := 1 + header.value.1 + header.value.0;
      if i + total > |content| { return Panic; }
      PrependTwice(v, content[i..i + total], Children(content[i + total..]));
      v := v + [content[i..i + total]];
      i := i + total;
    }
    assert content[i..] == [] && v + [] == v;
    assert Children([]) == Parsed([]) by { NoChildren(); }
    return Parsed(v);
  }

  lemma NoChildren()
    ensures Children([]) == Parsed([])
  {
  }

  lemma ChildrenFrom(content: seq<byte>, i: nat)
    requires i < |content|
    ensures Children(content[i..])
            == match LengthAt(content[i + 1..], 0, 4)
               case None => Malformed
               case Some((hdr, len)) =>
                 if i + 1 + hdr + len > |content| then Panic
                 else Prepend([content[i..i + 1 + hdr + len]], Children(content[i + 1 + hdr + len..]))
  {
    hide LengthAt;
    var rest := content[i..];
    assert rest[1..] == content[i + 1..];
    LengthAtShift(rest, 4);
    if LengthAt(rest, 1, 4).Some? {
      var (start, len) := LengthAt(rest, 1, 4).value;
      if i + start + len <= |content| {
        assert rest[..start + len] == content[i..i + start + len];
        assert rest[start + len..] == content[i + start + len..];
      }
    }
  }

  lemma PrependTwice<T>(v: seq<T>, x: T, o: Outcome<seq<T>>)
    ensures Prepend(v, Prepend([x], o)) == Prepend(v + [x], o)
  {
    if o.Parsed? { assert v + ([x] + o.value) == (v + [x]) + o.value; }
  }

  function Prepend<T>(v: seq<T>, o: Outcome<seq<T>>): Outcome<seq<T>> {
    match o case Parsed(rest) => Parsed(v + rest) case other => other
  }

  lemma PrependNothing<T>(o: Outcome<seq<T>>)
    ensures Prepend([], o) == o
  {
    if o.Parsed? { assert [] + o.value == o.value; }
  }

  /** The loop of `parse_subject_list`. */
  method ParseSubjectList(input: seq<byte>) returns (r: Outcome<seq<seq<byte>>>)
    ensures r == SubjectList(input)
  {
    var content := SequencePayload(input);
    if content.None? { return Malformed; }
    var els := CollectChildren(content.value);
    if !els.Parsed? { return els; }
    var thumbs := [];
    for i := 0 to |els.value|
      invariant Subjects(els.value[..i]) == Parsed(thumbs)
    {
      var el := els.value[i];
      assert els.value[..i + 1][..i] == els.value[..i];
      SubjectsStop(els.value, i + 1);
      assert thumbs + [] == thumbs;
      if el == [] || el[0] != SEQUENCE { continue; }
      var inner := SequencePayload(el);
      if inner.None? { return Malformed; }
      var parts := CollectChildren(inner.value);
      if !parts.Parsed? { return parts; }
      if parts.value != [] {
        var id := Sha1OctetString(parts.value[0]);
        if id.Some? { thumbs := thumbs + [id.value]; }
      }
    }
    assert els.value[..|els.value|] == els.value;
    return Parsed(thumbs);
  }

  /** Once a prefix fails, the whole list fails the same way. */
  lemma {:induction false} SubjectsStop(els: seq<seq<byte>>, k: nat)
    requires k <= |els|
    ensures !Subjects(els[..k]).Parsed? ==> Subjects(els) == Subjects(els[..k])
  {
    if k == |els| {
      assert els[..k] == els;
    } else {
      SubjectsStop(els[..|els| - 1], k);
      assert els[..|els| - 1][..k] == els[..k];
    }
  }

  lemma LengthAtShift(t: seq<byte>, maxOctets: nat)
    requires t != []
    ensures LengthAt(t, 1, maxOctets)
            == match LengthAt(t[1..], 0, maxOctets) case None => None case Some((s, l)) => Some((s + 1, l))
  {
    if |t| > 1 && t[1] >= 0x80 {
      var n := t[1] % 0x80;
      if 2 + n <= |t| { assert t[1..][1..1 + n] == t[2..2 + n]; }
    }
  }

  // ----- laws -----

  /** A TLV keeps its extent when other octets follow it. */
  lemma TlvExtent(t: seq<byte>, rest: seq<byte>, maxOctets: nat)
    requires IsTlv(t, maxOctets)
    ensures LengthAt(t + rest, 1, maxOctets) == LengthAt(t, 1, maxOctets)
  {
    var (start, _) := LengthAt(t, 1, maxOctets).value;
    if t[1] >= 0x80 { assert (t + rest)[2..start] == t[2..start]; }
  }

  lemma TlvIsWellFormed(tag: byte, body: seq<byte>)
    requires |body| < 0x1_0000_0000
    ensures IsTlv(Tlv(tag, body), 4) && Body(Tlv(tag, body), 4) == body
    ensures LengthAt(Tlv(tag, body), 1, 4) == Some((|Tlv(tag, body)| - |body|, |body|))
  {
    GeneralRoundTripLimit(|body|, [tag], body);
  }

  /** Splitting is exact in both directions: the children are returned if and only if the content is
      the concatenation of well-formed TLVs, and then they are those TLVs in order. */
  lemma {:induction false} ChildrenExactly(content: seq<byte>, ts: seq<seq<byte>>)
    ensures Children(content) == Parsed(ts) <==> AllTlvs(ts) && Flatten(ts) == content
  {
    if content == [] {
      if ts != [] && AllTlvs(ts) { assert IsTlv(ts[0], 4); }
    } else {
      if AllTlvs(ts) && Flatten(ts) == content {
        assert ts != [];
        var t, rest := ts[0], Flatten(ts[1..]);
        TlvExtent(t, rest, 4);
        assert content[..|t|] == t && content[|t|..] == rest;
        assert AllTlvs(ts[1..]);
        ChildrenExactly(content[|t|..], ts[1..]);
        assert ts == [ts[0]] + ts[1..];
      }
      if Children(content) == Parsed(ts) {
        var (start, len) := LengthAt(content, 1, 4).value;
        ChildrenExactly(content[start + len..], ts[1..]);
        PrefixIsTlv(content, start, len);
        assert content == content[..start + len] + content[start + len..];
        assert forall t <- ts :: t == ts[0] || t in ts[1..];
      }
    }
  }

  lemma PrefixIsTlv(content: seq<byte>, start: nat, len: nat)
    requires LengthAt(content, 1, 4) == Some((start, len)) && start + len <= |content|
    ensures IsTlv(content[..start + len], 4)
  {
    var t := content[..start + len];
    if content[1] >= 0x80 { assert t[2..start] == content[2..start]; }
  }

  /** Splitting panics exactly when, after some well-formed children, a readable header announces
      more octets than are left. */
  lemma {:induction false} ChildrenPanicsExactly(content: seq<byte>)
    ensures Children(content).Panic? <==>
            exists ts: seq<seq<byte>>, rest: seq<byte> :: AllTlvs(ts) && content == Flatten(ts) + rest && Overruns(rest)
  {
    if content != [] && LengthAt(content, 1, 4).Some? {
      var (start, len) := LengthAt(content, 1, 4).value;
      if start + len > |content| {
        assert content == Flatten<byte>([]) + content && Overruns(content) && AllTlvs([]);
      } else {
        var t, tail := content[..start + len], content[start + len..];
        PrefixIsTlv(content, start, len);
        ChildrenPanicsExactly(tail);
        if Children(content).Panic? {
          var ts: seq<seq<byte>>, rest: seq<byte> :| AllTlvs(ts) && tail == Flatten(ts) + rest && Overruns(rest);
          assert ([t] + ts)[1..] == ts;
          assert content == Flatten([t] + ts) + rest;
          assert AllTlvs([t] + ts);
        }
      }
    }
    forall ts: seq<seq<byte>>, rest: seq<byte> | AllTlvs(ts) && content == Flatten(ts) + rest && Overruns(rest)
      ensures Children(content).Panic?
    {
      OverrunPanics(ts, rest);
    }
  }

  predicate Overruns(rest: seq<byte>) {
    rest != [] && match LengthAt(rest, 1, 4) case None => false case Some((start, len)) => start + len > |rest|
  }

  lemma {:induction false} OverrunPanics(ts: seq<seq<byte>>, rest: seq<byte>)
    requires AllTlvs(ts) && Overruns(rest)
    ensures Children(Flatten(ts) + rest).Panic?
  {
    if ts == [] {
      assert Flatten(ts) + rest == rest;
    } else {
      var tail := Flatten(ts[1..]) + rest;
      assert Flatten(ts) + rest == ts[0] + tail;
      TlvExtent(ts[0], tail, 4);
      assert (ts[0] + tail)[|ts[0]|..] == tail;
      assert AllTlvs(ts[1..]);
      OverrunPanics(ts[1..], rest);
    }
  }

  // ----- subject lists -----

  /** A trusted subject: its SHA-1 identifier and any attribute TLVs that follow it. */
  datatype TrustedSubject = TrustedSubject(id: seq<byte>, attributes: seq<seq<byte>>) {
    predicate Valid() {
      |id| == 20 && AllTlvs(attributes) && |Flatten(attributes)| < 0x8000_0000
    }
  }

  function EncodeSubject(s: TrustedSubject): seq<byte>
    requires s.Valid()
  {
    Tlv(SEQUENCE, Tlv(OCTET_STRING, s.id) + Flatten(s.attributes))
  }

  function EncodeSubjects(ss: seq<TrustedSubject>): seq<seq<byte>>
    requires forall s <- ss :: s.Valid()
  {
    seq(|ss|, i requires 0 <= i < |ss| => EncodeSubject(ss[i]))
  }

  function Ids(ss: seq<TrustedSubject>): seq<seq<byte>> {
    seq(|ss|, i requires 0 <= i < |ss| => ss[i].id)
  }

  lemma EncodedSubject(s: TrustedSubject)
    requires s.Valid()
    ensures IsTlv(EncodeSubject(s), 4)
    ensures Subject(EncodeSubject(s)) == Parsed([s.id])
  {
    hide LengthAt, Children, DefiniteLength;
    var head := Tlv(OCTET_STRING, s.id);
    TlvIsWellFormed(OCTET_STRING, s.id);
    assert Sha1OctetString(head) == Some(s.id) by { Sha1Reads(s.id); }
    var inner := head + Flatten(s.attributes);
    assert |head| <= 30 by { Sha1Size(s.id); }
    TlvIsWellFormed(SEQUENCE, inner);
    var parts := [head] + s.attributes;
    assert parts[1..] == s.attributes;
    assert AllTlvs(parts) by { assert forall p <- parts :: p == head || p in s.attributes; }
    ChildrenExactly(inner, parts);
    var whole := EncodeSubject(s);
    assert whole == Tlv(SEQUENCE, inner);
    var (start, len) := LengthAt(whole, 1, 4).value;
    assert whole[start..start + len] == inner;
  }

  lemma Sha1Size(id: seq<byte>)
    requires |id| == 20
    ensures |Tlv(OCTET_STRING, id)| == 22
  {
  }

  lemma Sha1Reads(id: seq<byte>)
    requires |id| == 20
    ensures Sha1OctetString(Tlv(OCTET_STRING, id)) == Some(id)
  {
    var head := Tlv(OCTET_STRING, id);
    assert head == [OCTET_STRING, 20] + id;
    assert head[2..22] == id;
  }

  /** A subject list written in DER gives back its identifiers, in order, whatever attributes follow
      each identifier and whatever octets follow the list. */
  lemma SubjectListRoundTrip(ss: seq<TrustedSubject>, trailing: seq<byte>)
    requires forall s <- ss :: s.Valid()
    requires |Flatten(EncodeSubjects(ss))| < 0x1_0000_0000
    ensures SubjectList(Tlv(SEQUENCE, Flatten(EncodeSubjects(ss))) + trailing) == Parsed(Ids(ss))
  {
    var els := EncodeSubjects(ss);
    var content := Flatten(els);
    var list := Tlv(SEQUENCE, content);
    TlvIsWellFormed(SEQUENCE, content);
    TlvExtent(list, trailing, 4);
    var (start, len) := LengthAt(list, 1, 4).value;
    assert (list + trailing)[start..start + len] == content;
    forall s <- ss ensures IsTlv(EncodeSubject(s), 4) { EncodedSubject(s); }
    ChildrenExactly(content, els);
    SubjectsOfEncoded(ss);
  }

  lemma {:induction false} SubjectsOfEncoded(ss: seq<TrustedSubject>)
    requires forall s <- ss :: s.Valid()
    ensures Subjects(EncodeSubjects(ss)) == Parsed(Ids(ss))
  {
    hide Subject, EncodeSubject, LengthAt, TrustedSubject.Valid;
    if ss != [] {
      var front, last := ss[..|ss| - 1], ss[|ss| - 1];
      assert last in ss;
      SubjectsOfEncoded(front);
      EncodedSubject(last);
      assert EncodeSubjects(ss)[..|ss| - 1] == EncodeSubjects(front);
      assert EncodeSubjects(ss)[|ss| - 1] == EncodeSubject(last);
      assert Ids(ss) == Ids(front) + [last.id];
    }
  }

  // ----- which subject lists are read, and as what -----

  /** The input begins with a TLV with this tag and body. */
  predicate Leads(input: seq<byte>, tag: byte, body: seq<byte>) {
    exists n: nat | n <= |input| :: IsTlv(input[..n], 4) && input[0] == tag && Body(input[..n], 4) == body
  }

  /** The TLV at the front, if there is one. */
  lemma LeadsExactly(input: seq<byte>, tag: byte, body: seq<byte>)
    ensures Leads(input, tag, body)
            <==> && input != [] && input[0] == tag && LengthAt(input, 1, 4).Some?
                 && var (start, len) := LengthAt(input, 1, 4).value;
                    start + len <= |input| && body == input[start..start + len]
  {
    hide LengthAt;
    if input != [] && LengthAt(input, 1, 4).Some? {
      var (start, len) := LengthAt(input, 1, 4).value;
      if start + len <= |input| {
        PrefixIsTlv(input, start, len);
        PrefixLength(input, start + len);
        assert input[..start + len][start..] == input[start..start + len];
      }
    }
    forall n: nat | n <= |input| && IsTlv(input[..n], 4)
      ensures LengthAt(input, 1, 4) == LengthAt(input[..n], 1, 4)
    {
      PrefixLength(input, n);
    }
  }

  lemma PrefixLength(input: seq<byte>, n: nat)
    requires n <= |input| && IsTlv(input[..n], 4)
    ensures LengthAt(input, 1, 4) == LengthAt(input[..n], 1, 4)
  {
    TlvExtent(input[..n], input[n..], 4);
    hide LengthAt;
    assert input[..n] + input[n..] == input;
  }

  /** A SHA-1 identifier stands first. */
  predicate NamesSubject(parts: seq<seq<byte>>, id: seq<byte>) {
    parts != [] && |id| == 20 && Leads(parts[0], OCTET_STRING, id)
  }

  /** What an element of a subject list says: nothing if it is no SEQUENCE or does not begin with an identifier; its
      contents must be TLVs. */
  ghost predicate Contributes(el: seq<byte>, ids: seq<seq<byte>>) {
    if el == [] || el[0] != SEQUENCE then ids == []
    else
      exists parts: seq<seq<byte>> ::
        && AllTlvs(parts) && Leads(el, SEQUENCE, Flatten(parts))
        && ((exists id :: NamesSubject(parts, id) && ids == [id])
            || (ids == [] && forall id :: !NamesSubject(parts, id)))
  }

  lemma PayloadExactly(input: seq<byte>, body: seq<byte>)
    ensures SequencePayload(input) == Some(body) <==> Leads(input, SEQUENCE, body)
    ensures Sha1OctetString(input) == Some(body) <==> |body| == 20 && Leads(input, OCTET_STRING, body)
  {
    LeadsExactly(input, SEQUENCE, body);
    LeadsExactly(input, OCTET_STRING, body);
    hide LengthAt, Leads;
  }

  lemma SubjectExactly(el: seq<byte>, ids: seq<seq<byte>>)
    ensures Subject(el) == Parsed(ids) <==> Contributes(el, ids)
  {
    forall body: seq<byte> ensures SequencePayload(el) == Some(body) <==> Leads(el, SEQUENCE, body) {
      PayloadExactly(el, body);
    }
    hide Leads, LengthAt, Children, SequencePayload, Sha1OctetString, NamesSubject, AllTlvs, Flatten;
    forall content: seq<byte>, parts: seq<seq<byte>>
      ensures Children(content) == Parsed(parts) <==> AllTlvs(parts) && Flatten(parts) == content
    {
      ChildrenExactly(content, parts);
    }
    forall parts: seq<seq<byte>>, id: seq<byte>
      ensures NamesSubject(parts, id) <==> parts != [] && Sha1OctetString(parts[0]) == Some(id)
    {
      NamesExactly(parts, id);
    }
  }

  lemma NamesExactly(parts: seq<seq<byte>>, id: seq<byte>)
    ensures NamesSubject(parts, id) <==> parts != [] && Sha1OctetString(parts[0]) == Some(id)
  {
    hide Leads, Sha1OctetString;
    if parts != [] { PayloadExactly(parts[0], id); }
  }

  lemma {:induction false} SubjectsExactly(els: seq<seq<byte>>, ids: seq<seq<byte>>)
    ensures Subjects(els) == Parsed(ids)
            <==> exists each: seq<seq<seq<byte>>> :: AllContribute(els, each) && Flatten(each) == ids
  {
    hide Subject, Contributes;
    if els == [] {
      assert AllContribute(els, []);
    } else {
      var n := |els| - 1;
      if Subjects(els) == Parsed(ids) {
        var front, last := Subjects(els[..n]).value, Subject(els[n]).value;
        SubjectsExactly(els[..n], front);
        SubjectExactly(els[n], last);
        var each :| AllContribute(els[..n], each) && Flatten(each) == front;
        FlattenAppend(each, [last]);
        FlattenSingle(last);
        assert AllContribute(els, each + [last]);
      }
      forall each | AllContribute(els, each) && Flatten(each) == ids ensures Subjects(els) == Parsed(ids) {
        SubjectsExactly(els[..n], Flatten(each[..n]));
        SubjectExactly(els[n], each[n]);
        assert Contributes(els[n], each[n]) && AllContribute(els[..n], each[..n]);
        assert Subjects(els[..n]) == Parsed(Flatten(each[..n])) && Subject(els[n]) == Parsed(each[n]);
        FlattenAppend(each[..n], [each[n]]);
        FlattenSingle(each[n]);
        assert each[..n] + [each[n]] == each;
      }
    }
  }

  ghost predicate AllContribute(els: seq<seq<byte>>, each: seq<seq<seq<byte>>>) {
    |each| == |els| && forall i | 0 <= i < |els| :: Contributes(els[i], each[i])
  }

  /** A subject list is read as these identifiers exactly if it begins with a SEQUENCE of TLVs whose elements say them,
      in order. */
  lemma SubjectListExactly(input: seq<byte>, ids: seq<seq<byte>>)
    ensures SubjectList(input) == Parsed(ids)
            <==> exists els: seq<seq<byte>>, each: seq<seq<seq<byte>>> ::
                   && AllTlvs(els) && Leads(input, SEQUENCE, Flatten(els))
                   && AllContribute(els, each) && Flatten(each) == ids
  {
    hide Leads, Children, Subjects, SequencePayload, AllTlvs, AllContribute, Flatten;
    forall body: seq<byte> ensures SequencePayload(input) == Some(body) <==> Leads(input, SEQUENCE, body) {
      PayloadExactly(input, body);
    }
    forall content: seq<byte>, els: seq<seq<byte>>
      ensures Children(content) == Parsed(els) <==> AllTlvs(els) && Flatten(els) == content
    {
      ChildrenExactly(content, els);
    }
    forall els: seq<seq<byte>>
      ensures Subjects(els) == Parsed(ids)
              <==> exists each: seq<seq<seq<byte>>> :: AllContribute(els, each) && Flatten(each) == ids
    {
      SubjectsExactly(els, ids);
    }
  }
}
