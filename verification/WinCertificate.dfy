/** Rebuilding a PE certificate entry: dropping chain certificates from the PKCS#7 message and
    repacking it as an 8-octet-aligned WIN_CERTIFICATE. */
module WinCertificate {
  import opened Wrappers
  import opened DerLength
  import opened DerTlv

  const PKCS_SIGNED_DATA: nat := 2
  const SCAN_LIMIT: nat := 4096

  /** `Ok(Some(..))`, `Ok(None)` for another certificate type, or an error. */
  datatype Entry = Pkcs(revision: nat, kind: nat, der: seq<byte>) | OtherType | Rejected

  // ----- little-endian header fields -----

  function Le(n: nat, width: nat): seq<byte> {
    if width == 0 then [] else [n % 256] + Le(n / 256, width - 1)
  }

  function UnLe(octets: seq<byte>): nat {
    if octets == [] then 0 else octets[0] + 256 * UnLe(octets[1..])
  }

  function RoundUp8(n: nat): nat {
    (n + 7) / 8 * 8
  }

  function Zeros(n: nat): seq<byte> {
    seq(n, _ => 0)
  }

  // ----- repacking -----

  /** `repack_pkcs_signed_win_certificate`; the length field is a 32-bit cast. */
  function Repacked(revision: nat, kind: nat, pkcs: seq<byte>): seq<byte> {
    var total := RoundUp8(8 + |pkcs|);
    Le(total % 0x1_0000_0000, 4) + Le(revision, 2) + Le(kind, 2) + pkcs + Zeros(total - 8 - |pkcs|)
  }

  method Repack(revision: nat, kind: nat, pkcs: seq<byte>) returns (body: seq<byte>)
    requires revision < 0x1_0000 && kind < 0x1_0000
    ensures body == Repacked(revision, kind, pkcs)
  {
    LeLength(revision, 2);
    LeLength(kind, 2);
    LeLength(RoundUp8(8 + |pkcs|) % 0x1_0000_0000, 4);
    hide Le, RoundUp8;
    body := Zeros(8 + |pkcs|);
    body := body[..4] + Le(revision, 2) + body[6..];
    body := body[..6] + Le(kind, 2) + body[8..];
    body := body[..8] + pkcs;
    ghost var head, rest := body[..4], body[4..];
    assert rest == Le(revision, 2) + Le(kind, 2) + pkcs;
    ghost var padding: seq<byte> := [];
    PaddingStep(8 + |pkcs|, 0);
    while |body| % 8 != 0
      invariant body == head + rest + padding && padding == Zeros(|padding|)
      invariant |padding| <= RoundUp8(8 + |pkcs|) - 8 - |pkcs| <= 7
      decreases RoundUp8(8 + |pkcs|) - |body|
    {
      PaddingStep(8 + |pkcs|, |padding|);
      body := body + [0];
      padding := padding + [0];
    }
    PaddingStep(8 + |pkcs|, |padding|);
    assert body[4..] == rest + padding;
    body := Le(|body| % 0x1_0000_0000, 4) + body[4..];
    Regrouped(Le(RoundUp8(8 + |pkcs|) % 0x1_0000_0000, 4), Le(revision, 2), Le(kind, 2), pkcs, padding);
  }

  lemma Regrouped(a: seq<byte>, b: seq<byte>, c: seq<byte>, d: seq<byte>, e: seq<byte>)
    ensures a + (b + c + d + e) == a + b + c + d + e
  {
  }

  lemma PaddingStep(n: nat, pad: nat)
    requires pad <= 7
    ensures n <= RoundUp8(n) <= n + 7
    ensures pad <= RoundUp8(n) - n && (n + pad) % 8 != 0 ==> pad < RoundUp8(n) - n
    ensures pad <= RoundUp8(n) - n && (n + pad) % 8 == 0 ==> n + pad == RoundUp8(n)
  {
    var q, r := n / 8, n % 8;
    Eights(q, r);
    if r > 0 { Eights(q + 1, r - 1); } else { Eights(q, 7); }
    if r + pad < 8 { Eights(q, r + pad); } else { Eights(q + 1, r + pad - 8); }
  }

  lemma Eights(q: nat, r: nat)
    requires r < 8
    ensures (8 * q + r) / 8 == q && (8 * q + r) % 8 == r
  {
  }

  lemma {:induction false} LeLength(n: nat, width: nat)
    ensures |Le(n, width)| == width
  {
    if width > 0 { LeLength(n / 256, width - 1); }
  }

  // ----- parsing -----

  /** The candidate at `off`: a SEQUENCE that fits in the rest of the payload. */
  function Candidate(payload: seq<byte>, off: nat): Option<seq<byte>>
    requires off < |payload|
  {
    var tail := payload[off..];
    if tail[0] != SEQUENCE then None
    else match LengthAt(tail, 1, 4)
      case None => None
      case Some((start, len)) => if start + len > |tail| then None else Some(tail[..start + len])
  }

  predicate Accepted(payload: seq<byte>, off: nat, probe: seq<byte> -> bool)
    requires off < |payload|
  {
    match Candidate(payload, off) case None => false case Some(der) => probe(der)
  }

  function ScanEnd(payload: seq<byte>): nat {
    if |payload| < SCAN_LIMIT then |payload| else SCAN_LIMIT
  }

  /** `pkcs7_der_in_certificate_payload`, from offset `off` on. */
  function FirstAccepted(payload: seq<byte>, off: nat, probe: seq<byte> -> bool): Option<seq<byte>>
    requires off <= ScanEnd(payload)
    decreases ScanEnd(payload) - off
  {
    if off == ScanEnd(payload) then None
    else if Accepted(payload, off, probe) then Candidate(payload, off)
    else FirstAccepted(payload, off + 1, probe)
  }

  /** `parse_pkcs_signed_win_certificate`. */
  function Parsed(raw: seq<byte>, probe: seq<byte> -> bool): Entry {
    if |raw| < 8 || UnLe(raw[..4]) != |raw| then Rejected
    else if UnLe(raw[6..8]) != PKCS_SIGNED_DATA then OtherType
    else match FirstAccepted(raw[8..], 0, probe)
      case None => Rejected
      case Some(der) => Pkcs(UnLe(raw[4..6]), UnLe(raw[6..8]), der)
  }

  /** The probing loop; it returns the accepted SEQUENCE at the lowest offset below 4096. */
  method FindPkcs7(payload: seq<byte>, probe: seq<byte> -> bool) returns (r: Option<seq<byte>>)
    ensures r == FirstAccepted(payload, 0, probe)
    ensures r.None? <==> forall off :: 0 <= off < |payload| && off < SCAN_LIMIT ==> !Accepted(payload, off, probe)
    ensures r.Some? ==> exists off :: 0 <= off < |payload| && off < SCAN_LIMIT && Accepted(payload, off, probe)
                                      && r == Candidate(payload, off)
                                      && forall o :: 0 <= o < off ==> !Accepted(payload, o, probe)
  {
    for off := 0 to ScanEnd(payload)
      invariant FirstAccepted(payload, 0, probe) == FirstAccepted(payload, off, probe)
      invariant forall o :: 0 <= o < off ==> !Accepted(payload, o, probe)
    {
      if payload[off] != SEQUENCE { continue; }
      var der := Candidate(payload, off);
      if der.None? { continue; }
      if probe(der.value) { return der; }
    }
    return None;
  }

  lemma {:induction false} LeRoundTrip(n: nat, width: nat)
    requires n < Power256(width)
    ensures |Le(n, width)| == width && UnLe(Le(n, width)) == n
  {
    if width > 0 {
      LeRoundTrip(n / 256, width - 1);
      assert Le(n, width)[1..] == Le(n / 256, width - 1);
    }
  }

  lemma HeaderOf(total: nat, revision: nat, kind: nat, rest: seq<byte>)
    requires total < 0x1_0000_0000 && revision < 0x1_0000 && kind < 0x1_0000
    ensures var raw := Le(total, 4) + Le(revision, 2) + Le(kind, 2) + rest;
            && |raw| == 8 + |rest| && raw[8..] == rest
            && UnLe(raw[..4]) == total && UnLe(raw[4..6]) == revision && UnLe(raw[6..8]) == kind
  {
    PowersOf256();
    LeRoundTrip(total, 4);
    LeRoundTrip(revision, 2);
    LeRoundTrip(kind, 2);
    hide Le, UnLe;
    var raw := Le(total, 4) + Le(revision, 2) + Le(kind, 2) + rest;
    assert raw[..4] == Le(total, 4);
    assert raw[4..6] == Le(revision, 2);
    assert raw[6..8] == Le(kind, 2);
  }

  lemma RepackedHeader(revision: nat, p: seq<byte>)
    requires revision < 0x1_0000
    ensures var raw, total := Repacked(revision, PKCS_SIGNED_DATA, p), RoundUp8(8 + |p|);
            && |raw| == total && 8 + |p| <= total && total % 8 == 0 && raw[8..] == p + Zeros(total - 8 - |p|)
            && UnLe(raw[..4]) == total % 0x1_0000_0000
            && UnLe(raw[4..6]) == revision && UnLe(raw[6..8]) == PKCS_SIGNED_DATA
  {
    PaddingStep(8 + |p|, 0);
    RoundUpIsEights(8 + |p|);
    hide RoundUp8, Le, UnLe;
    var total := RoundUp8(8 + |p|);
    var pad := Zeros(total - 8 - |p|);
    HeaderOf(total % 0x1_0000_0000, revision, PKCS_SIGNED_DATA, p + pad);
    var header := Le(total % 0x1_0000_0000, 4) + Le(revision, 2) + Le(PKCS_SIGNED_DATA, 2);
    assert header + p + pad == header + (p + pad);
  }

  /** Re-parsing a repacked entry returns the same revision, type and PKCS#7 exactly when the aligned size fits
      the 32-bit length field, which then equals the buffer size; the size is a multiple of 8. */
  lemma RepackRoundTrip(revision: nat, p: seq<byte>, probe: seq<byte> -> bool)
    requires revision < 0x1_0000
    requires IsTlv(p, 4) && p[0] == SEQUENCE && probe(p)
    ensures var raw := Repacked(revision, PKCS_SIGNED_DATA, p);
            && |raw| % 8 == 0 && |raw| == RoundUp8(8 + |p|)
            && (Parsed(raw, probe) == Pkcs(revision, PKCS_SIGNED_DATA, p) <==> RoundUp8(8 + |p|) < 0x1_0000_0000)
            && (RoundUp8(8 + |p|) < 0x1_0000_0000 ==> UnLe(raw[..4]) == |raw|)
  {
    RepackedHeader(revision, p);
    hide Repacked, RoundUp8, UnLe, FirstAccepted, IsTlv, Zeros;
    FirstAtZero(p, Zeros(RoundUp8(8 + |p|) - 8 - |p|), probe);
  }

  lemma RoundUpIsEights(n: nat)
    ensures RoundUp8(n) % 8 == 0
  {
    Eights((n + 7) / 8, 0);
  }

  lemma FirstAtZero(p: seq<byte>, pad: seq<byte>, probe: seq<byte> -> bool)
    requires IsTlv(p, 4) && p[0] == SEQUENCE && probe(p)
    ensures FirstAccepted(p + pad, 0, probe) == Some(p)
  {
    hide LengthAt;
    TlvExtent(p, pad, 4);
    var payload := p + pad;
    assert payload[0..] == payload;
    assert payload[..|p|] == p;
    assert Candidate(payload, 0) == Some(p);
  }

  function Two(low: int, high: int): int {
    low + 256 * high
  }

  function Four(a: int, b: int, c: int, d: int): int {
    a + 256 * b + 65536 * c + 16777216 * d
  }

  /** The number that octets spell, lowest first. */
  lemma LowFirst(octets: seq<byte>)
    ensures |octets| == 2 ==> UnLe(octets) == Two(octets[0], octets[1])
    ensures |octets| == 4 ==> UnLe(octets) == Four(octets[0], octets[1], octets[2], octets[3])
  {
    if |octets| == 2 { LowFirstTwo(octets); }
    if |octets| == 4 {
      LowFirstTwo(octets[2..]);
      assert octets[1..][1..] == octets[2..];
    }
  }

  lemma LowFirstTwo(octets: seq<byte>)
    requires |octets| == 2
    ensures UnLe(octets) == Two(octets[0], octets[1])
  {
    var rest := octets[1..];
    assert rest[1..] == [] && UnLe(rest) == rest[0] + 256 * UnLe(rest[1..]);
  }

  /** A repacked entry, octet by octet: length, revision and type, the message, and zeros up to a multiple of 8. */
  lemma RepackedIs(revision: nat, kind: nat, p: seq<byte>)
    requires revision < 0x1_0000 && kind < 0x1_0000
    ensures var raw := Repacked(revision, kind, p);
            && |raw| % 8 == 0 && 8 + |p| <= |raw| < 16 + |p|
            && Four(raw[0], raw[1], raw[2], raw[3]) == |raw| % 0x1_0000_0000
            && Two(raw[4], raw[5]) == revision && Two(raw[6], raw[7]) == kind
            && raw[8..8 + |p|] == p && forall i | 8 + |p| <= i < |raw| :: raw[i] == 0
  {
    PaddingStep(8 + |p|, 0);
    RoundUpIsEights(8 + |p|);
    hide RoundUp8, Le, UnLe;
    var total := RoundUp8(8 + |p|);
    var pad := Zeros(total - 8 - |p|);
    HeaderOf(total % 0x1_0000_0000, revision, kind, p + pad);
    var raw := Repacked(revision, kind, p);
    var header := Le(total % 0x1_0000_0000, 4) + Le(revision, 2) + Le(kind, 2);
    assert raw == header + (p + pad);
    LowFirst(raw[..4]);
    LowFirst(raw[4..6]);
    LowFirst(raw[6..8]);
    assert raw[8..] == p + pad;
    assert forall i | 8 + |p| <= i < |raw| :: raw[i] == raw[8..][i - 8];
  }

  /** A candidate is a SEQUENCE that stands at the offset. */
  lemma CandidateExactly(payload: seq<byte>, off: nat, der: seq<byte>)
    requires off < |payload|
    ensures Candidate(payload, off) == Some(der) <==> IsTlv(der, 4) && der[0] == SEQUENCE && der <= payload[off..]
  {
    var tail := payload[off..];
    hide LengthAt;
    if IsTlv(der, 4) && der <= tail {
      assert tail[..|der|] == der;
      PrefixLength(tail, |der|);
    }
    if LengthAt(tail, 1, 4).Some? {
      var (start, len) := LengthAt(tail, 1, 4).value;
      if start + len <= |tail| {
        PrefixIsTlv(tail, start, len);
        PrefixLength(tail, start + len);
      }
    }
  }

  /** The header says the length of the entry. */
  predicate SaysItsLength(raw: seq<byte>) {
    |raw| >= 8 && Four(raw[0], raw[1], raw[2], raw[3]) == |raw|
  }

  /** The message stands at the lowest offset below 4096 at which the probe accepts one. */
  ghost predicate FirstMessage(payload: seq<byte>, probe: seq<byte> -> bool, der: seq<byte>) {
    exists off | 0 <= off < |payload| && off < 4096 ::
      && Accepted(payload, off, probe) && Candidate(payload, off) == Some(der)
      && forall o :: 0 <= o < off ==> !Accepted(payload, o, probe)
  }

  lemma {:induction false} FirstAcceptedIs(payload: seq<byte>, off: nat, probe: seq<byte> -> bool, der: seq<byte>)
    requires off <= ScanEnd(payload) && forall o :: 0 <= o < off ==> !Accepted(payload, o, probe)
    ensures FirstAccepted(payload, off, probe) == Some(der) <==> FirstMessage(payload, probe, der)
    decreases ScanEnd(payload) - off
  {
    hide Accepted, Candidate;
    if off < ScanEnd(payload) && !Accepted(payload, off, probe) {
      FirstAcceptedIs(payload, off + 1, probe, der);
    }
  }

  /** An entry is parsed exactly if it says its length; it is then of another type, or a PKCS#7 entry whose message the
      probing finds. */
  lemma ParsedExactly(raw: seq<byte>, probe: seq<byte> -> bool)
    ensures Parsed(raw, probe) == OtherType <==> SaysItsLength(raw) && Two(raw[6], raw[7]) != 2
    ensures forall revision, kind, der ::
              Parsed(raw, probe) == Pkcs(revision, kind, der)
              <==> && SaysItsLength(raw) && revision == Two(raw[4], raw[5]) && kind == Two(raw[6], raw[7]) == 2
                   && FirstMessage(raw[8..], probe, der)
  {
    if |raw| >= 8 {
      LowFirst(raw[..4]);
      LowFirst(raw[4..6]);
      LowFirst(raw[6..8]);
      forall der: seq<byte>
        ensures FirstAccepted(raw[8..], 0, probe) == Some(der) <==> FirstMessage(raw[8..], probe, der)
      {
        FirstAcceptedIs(raw[8..], 0, probe, der);
      }
    }
    hide UnLe, FirstAccepted, FirstMessage;
  }

  // ----- the certificate bag -----

  /** An open PKCS#7 message: certificates can be deleted by index, signers only read. */
  class SignedMessage<Cert, Signer> {
    var certs: seq<Cert>
    const signers: seq<Signer>

    constructor (certs: seq<Cert>, signers: seq<Signer>)
      ensures this.certs == certs && this.signers == signers
    {
      this.certs := certs;
      this.signers := signers;
    }

    /** `CMSG_CTRL_DEL_CERT`: later certificates move down by one. */
    method DeleteCert(index: nat)
      requires index < |certs|
      modifies this
      ensures certs == old(certs)[..index] + old(certs)[index + 1..]
    {
      certs := certs[..index] + certs[index + 1..];
    }

    /** `strip_chain_except_signer_from_open_msg`. */
    method StripChain(matches: (Cert, Signer) -> bool) returns (ok: bool)
      modifies this
      ensures ok <==> old(certs) == [] || forall s <- signers :: HasMatch(old(certs), s, matches)
      ensures !ok ==> certs == old(certs)
      ensures ok ==> certs == Kept(old(certs), KeepSet(old(certs), signers, matches), 0)
    {
      if certs == [] { return true; }
      var keep := KeepIndices(matches);
      if keep.None? { return false; }
      DeleteUnkept(keep.value);
      return true;
    }

    /** For every signer in turn, the first certificate that matches it; none if a signer has no match. */
    method KeepIndices(matches: (Cert, Signer) -> bool) returns (r: Option<set<nat>>)
      ensures r.Some? <==> forall s <- signers :: HasMatch(certs, s, matches)
      ensures r.Some? ==> r.value == KeepSet(certs, signers, matches)
    {
      hide FirstMatch;
      var keep: set<nat> := {};
      for i := 0 to |signers|
        invariant forall s <- signers[..i] :: HasMatch(certs, s, matches)
        invariant keep == KeepSet(certs, signers[..i], matches)
      {
        var j := 0;
        while j < |certs| && !matches(certs[j], signers[i])
          invariant j <= |certs|
          invariant forall k :: 0 <= k < j ==> !matches(certs[k], signers[i])
        {
          j := j + 1;
        }
        if j == |certs| {
          assert signers[i] in signers && !HasMatch(certs, signers[i], matches);
          return None;
        }
        FirstMatchIs(certs, signers[i], matches, j);
        KeepSetSnoc(certs, signers[..i], signers[i], matches);
        assert signers[..i + 1] == signers[..i] + [signers[i]];
        keep := keep + {j};
      }
      assert signers[..|signers|] == signers;
      return Some(keep);
    }

    /** Collects the other indices and deletes them from the highest to the lowest, so that no deletion
        moves a certificate still to be deleted. */
    method DeleteUnkept(keep: set<nat>)
      modifies this
      ensures certs == Kept(old(certs), keep, 0)
    {
      var toDelete: seq<nat> := [];
      for i := 0 to |certs|
        invariant certs == old(certs)
        invariant toDelete == Unkept(keep, i)
      {
        if i !in keep { toDelete := toDelete + [i]; }
      }
      ghost var bag := certs;
      UnkeptBounds(keep, |bag|);
      assert bag == bag[..|bag|] + Kept(bag, keep, |bag|);
      var n: nat := |toDelete|;
      while n > 0
        invariant n <= |toDelete|
        invariant certs == bag[..Bound(toDelete, n, |bag|)] + Kept(bag, keep, Bound(toDelete, n, |bag|))
      {
        ghost var bound := Bound(toDelete, n, |bag|);
        n := n - 1;
        var index := toDelete[n];
        UnkeptGap(keep, |bag|, n);
        DeletionKeeps(bag, keep, index, bound);
        DeleteCert(index);
      }
      UnkeptStart(keep, |bag|);
      KeptRun(bag, keep, 0, Bound(toDelete, 0, |bag|));
    }
  }

  lemma DeletionKeeps<Cert>(bag: seq<Cert>, keep: set<nat>, index: nat, bound: nat)
    requires index < bound <= |bag| && index !in keep
    requires forall i :: index < i < bound ==> i in keep
    ensures var current := bag[..bound] + Kept(bag, keep, bound);
            current[..index] + current[index + 1..] == bag[..index] + Kept(bag, keep, index)
  {
    KeptRun(bag, keep, index + 1, bound);
    var current := bag[..bound] + Kept(bag, keep, bound);
    assert current[..index] == bag[..index];
    assert current[index + 1..] == bag[index + 1..bound] + Kept(bag, keep, bound);
  }

  lemma KeepSetSnoc<Cert, Signer>(certs: seq<Cert>, signers: seq<Signer>, s: Signer, matches: (Cert, Signer) -> bool)
    ensures KeepSet(certs, signers + [s], matches) == KeepSet(certs, signers, matches) + {FirstMatch(certs, s, matches)}
  {
    hide FirstMatch;
    var all := signers + [s];
    forall f | f in KeepSet(certs, signers, matches) + {FirstMatch(certs, s, matches)}
      ensures f in KeepSet(certs, all, matches)
    {
      if f == FirstMatch(certs, s, matches) {
        assert f == FirstMatch(certs, all[|signers|], matches);
      } else {
        var i: nat :| i < |signers| && f == FirstMatch(certs, signers[i], matches);
        assert f == FirstMatch(certs, all[i], matches);
      }
    }
    forall f | f in KeepSet(certs, all, matches)
      ensures f in KeepSet(certs, signers, matches) + {FirstMatch(certs, s, matches)}
    {
      var i: nat :| i < |all| && f == FirstMatch(certs, all[i], matches);
      if i < |signers| { assert f == FirstMatch(certs, signers[i], matches); }
    }
  }

  predicate HasMatch<Cert, Signer>(certs: seq<Cert>, s: Signer, matches: (Cert, Signer) -> bool) {
    exists i :: 0 <= i < |certs| && matches(certs[i], s)
  }

  /** The first certificate matching the signer's issuer and serial number. */
  function FirstMatch<Cert, Signer>(certs: seq<Cert>, s: Signer, matches: (Cert, Signer) -> bool): nat {
    if certs == [] || matches(certs[0], s) then 0 else 1 + FirstMatch(certs[1..], s, matches)
  }

  function KeepSet<Cert, Signer>(certs: seq<Cert>, signers: seq<Signer>, matches: (Cert, Signer) -> bool): set<nat> {
    set i: nat | i < |signers| :: FirstMatch(certs, signers[i], matches)
  }

  /** The kept certificates from index `from` on, in bag order. */
  function Kept<Cert>(certs: seq<Cert>, keep: set<nat>, from: nat): seq<Cert>
    requires from <= |certs|
    decreases |certs| - from
  {
    if from == |certs| then []
    else if from in keep then [certs[from]] + Kept(certs, keep, from + 1)
    else Kept(certs, keep, from + 1)
  }

  /** How far from the front the bag is still untouched when `n` deletions are left. */
  function Bound(toDelete: seq<nat>, n: nat, total: nat): (b: nat)
    requires n <= |toDelete|
    requires forall d <- toDelete :: d < total
    ensures b <= total
  {
    if n == |toDelete| then total else assert toDelete[n] in toDelete; toDelete[n]
  }

  function Unkept(keep: set<nat>, n: nat): seq<nat> {
    if n == 0 then [] else if n - 1 in keep then Unkept(keep, n - 1) else Unkept(keep, n - 1) + [n - 1]
  }

  lemma {:induction false} FirstMatchIs<Cert, Signer>(certs: seq<Cert>, s: Signer, matches: (Cert, Signer) -> bool,
                                                      j: nat)
    requires j < |certs| && matches(certs[j], s)
    requires forall k :: 0 <= k < j ==> !matches(certs[k], s)
    ensures FirstMatch(certs, s, matches) == j
  {
    if j > 0 {
      assert !matches(certs[0], s);
      assert forall k :: 0 <= k < j - 1 ==> certs[1..][k] == certs[k + 1];
      FirstMatchIs(certs[1..], s, matches, j - 1);
    }
  }

  lemma {:induction false} UnkeptBounds(keep: set<nat>, n: nat)
    ensures forall i :: 0 <= i < |Unkept(keep, n)| ==> Unkept(keep, n)[i] < n && Unkept(keep, n)[i] !in keep
    ensures forall i, j :: 0 <= i < j < |Unkept(keep, n)| ==> Unkept(keep, n)[i] < Unkept(keep, n)[j]
  {
    if n > 0 { UnkeptBounds(keep, n - 1); }
  }

  /** Everything between two neighbouring deletions is kept. */
  lemma {:induction false} UnkeptGap(keep: set<nat>, n: nat, k: nat)
    requires k < |Unkept(keep, n)|
    ensures var u := Unkept(keep, n);
            forall i :: u[k] < i < (if k + 1 == |u| then n else u[k + 1]) ==> i in keep
  {
    UnkeptBounds(keep, n);
    if n > 0 {
      UnkeptBounds(keep, n - 1);
      if k < |Unkept(keep, n - 1)| { UnkeptGap(keep, n - 1, k); }
    }
  }

  lemma {:induction false} UnkeptStart(keep: set<nat>, n: nat)
    ensures var u := Unkept(keep, n); forall i :: 0 <= i < (if u == [] then n else u[0]) ==> i in keep
  {
    if n > 0 { UnkeptStart(keep, n - 1); UnkeptBounds(keep, n); }
  }

  lemma {:induction false} KeptRun<Cert>(certs: seq<Cert>, keep: set<nat>, from: nat, to: nat)
    requires from <= to <= |certs|
    requires forall i :: from <= i < to ==> i in keep
    ensures Kept(certs, keep, from) == certs[from..to] + Kept(certs, keep, to)
    decreases |certs| - from
  {
    if from == to {
      assert certs[from..to] == [];
    } else {
      KeptRun(certs, keep, from + 1, to);
      var run, rest := certs[from + 1..to], Kept(certs, keep, to);
      assert certs[from..to] == [certs[from]] + run;
      assert [certs[from]] + (run + rest) == ([certs[from]] + run) + rest;
    }
  }

  /** What is left is a subsequence of the bag: the kept indices, ascending, and nothing else. */
  lemma {:induction false} KeptIsFilter<Cert>(certs: seq<Cert>, keep: set<nat>, from: nat) returns (at: seq<nat>)
    requires from <= |certs|
    ensures |at| == |Kept(certs, keep, from)|
    ensures forall i :: 0 <= i < |at| ==> from <= at[i] < |certs| && Kept(certs, keep, from)[i] == certs[at[i]]
    ensures forall i, j :: 0 <= i < j < |at| ==> at[i] < at[j]
    ensures forall i :: from <= i < |certs| ==> (i in at <==> i in keep)
    decreases |certs| - from
  {
    if from == |certs| {
      at := [];
    } else {
      at := KeptIsFilter(certs, keep, from + 1);
      if from in keep { at := [from] + at; }
    }
  }

  /** After a successful strip every signer still finds a certificate, its first match of the original bag,
      and every certificate left is the first match of some signer. */
  lemma StrippedBag<Cert, Signer>(certs: seq<Cert>, signers: seq<Signer>, matches: (Cert, Signer) -> bool)
    requires forall s <- signers :: HasMatch(certs, s, matches)
    ensures var left := Kept(certs, KeepSet(certs, signers, matches), 0);
            && (forall s <- signers :: HasMatch(left, s, matches)
                                       && certs[FirstMatchWithin(certs, s, matches)] in left)
            && (forall c <- left :: exists s <- signers :: c == certs[FirstMatchWithin(certs, s, matches)])
  {
    var keep := KeepSet(certs, signers, matches);
    var left := Kept(certs, keep, 0);
    var at := KeptIsFilter(certs, keep, 0);
    forall s <- signers
      ensures HasMatch(left, s, matches) && certs[FirstMatchWithin(certs, s, matches)] in left
    {
      var k :| 0 <= k < |signers| && signers[k] == s;
      var f := FirstMatchWithin(certs, s, matches);
      assert FirstMatch(certs, signers[k], matches) in keep;
      var i :| 0 <= i < |at| && at[i] == f;
      assert left[i] == certs[f];
    }
    forall c <- left ensures exists s <- signers :: c == certs[FirstMatchWithin(certs, s, matches)] {
      var i :| 0 <= i < |left| && left[i] == c;
      assert at[i] in at && at[i] in keep;
      var k: nat :| k < |signers| && at[i] == FirstMatch(certs, signers[k], matches);
      assert signers[k] in signers && c == certs[FirstMatchWithin(certs, signers[k], matches)];
    }
  }

  function FirstMatchWithin<Cert, Signer>(certs: seq<Cert>, s: Signer, matches: (Cert, Signer) -> bool): (i: nat)
    requires HasMatch(certs, s, matches)
    ensures i < |certs| && matches(certs[i], s)
    ensures forall k :: 0 <= k < i ==> !matches(certs[k], s)
  {
    FirstMatchExists(certs, s, matches);
    FirstMatch(certs, s, matches)
  }

  lemma {:induction false} FirstMatchExists<Cert, Signer>(certs: seq<Cert>, s: Signer, matches: (Cert, Signer) -> bool)
    requires HasMatch(certs, s, matches)
    ensures var i := FirstMatch(certs, s, matches);
            i < |certs| && matches(certs[i], s) && forall k :: 0 <= k < i ==> !matches(certs[k], s)
  {
    var i :| 0 <= i < |certs| && matches(certs[i], s);
    if !matches(certs[0], s) {
      assert certs[1..][i - 1] == certs[i];
      FirstMatchExists(certs[1..], s, matches);
      var f := FirstMatch(certs[1..], s, matches);
      forall k | 0 <= k < f + 1 ensures !matches(certs[k], s) {
        if k > 0 { assert certs[1..][k - 1] == certs[k]; }
      }
    }
  }
}
