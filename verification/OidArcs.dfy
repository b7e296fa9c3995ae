/** OBJECT IDENTIFIER contents octets, section 8.19 of X.690, with the decoder's 64-bit arcs. */
module OidArcs {
  import opened Wrappers

  const U64_LIMIT: int := 0x1_0000_0000_0000_0000
  newtype u64 = x: int | 0 <= x < U64_LIMIT
  const U64_MAX_SHIFTED: int := 0x1FF_FFFF_FFFF_FFFF

  // ----- the encoder of the standard -----

  /** All but the last octet of a subidentifier: seven bits each, high bit set, no leading 0x80. */
  function Continued(v: nat): seq<byte> {
    if v < 128 then [v + 128] else Continued(v / 128) + [v % 128 + 128]
  }

  function Subidentifier(v: nat): seq<byte> {
    if v < 128 then [v] else Continued(v / 128) + [v % 128]
  }

  function EncodedSubs(subs: seq<nat>): seq<byte> {
    if subs == [] then [] else Subidentifier(subs[0]) + EncodedSubs(subs[1..])
  }

  /** Arcs an OID can have: the root arc is at most 2 and the second below 40 unless the root is 2. */
  predicate ValidArcs(arcs: seq<nat>) {
    && |arcs| >= 2 && arcs[0] <= 2 && (arcs[0] < 2 ==> arcs[1] < 40)
    && 40 * arcs[0] + arcs[1] < U64_LIMIT
    && forall i :: 2 <= i < |arcs| ==> arcs[i] < U64_LIMIT
  }

  function EncodeOid(arcs: seq<nat>): seq<byte>
    requires ValidArcs(arcs)
  {
    EncodedSubs([40 * arcs[0] + arcs[1]] + arcs[2..])
  }

  lemma NothingEncodes()
    ensures EncodedSubs([]) == []
  {
  }

  lemma OneEncodes(v: nat, rest: seq<nat>)
    ensures EncodedSubs([v] + rest) == Subidentifier(v) + EncodedSubs(rest)
  {
    assert ([v] + rest)[1..] == rest;
  }

  /** Subidentifiers below 128 are their own octets. */
  lemma {:induction false} OctetsEncode(octets: seq<byte>, rest: seq<nat>)
    requires forall b <- octets :: b < 128
    ensures EncodedSubs(octets + rest) == octets + EncodedSubs(rest)
  {
    if octets == [] {
      assert octets + rest == rest && octets + EncodedSubs(rest) == EncodedSubs(rest);
    } else {
      assert octets[0] in octets && (octets + rest)[1..] == octets[1..] + rest;
      forall b <- octets[1..] ensures b in octets {}
      OctetsEncode(octets[1..], rest);
    }
  }

  // ----- the decoder -----

  /** The loop state is the subidentifier read so far and whether one is about to start. */
  function Subs(value: seq<byte>, current: nat, starts: bool): Option<seq<nat>> {
    if value == [] then (if starts then Some([]) else None)
    else if (starts && value[0] == 0x80) || current > U64_MAX_SHIFTED then None
    else
      var next := current * 128 + value[0] % 128;
      if value[0] < 0x80 then
        match Subs(value[1..], 0, true) case None => None case Some(rest) => Some([next] + rest)
      else Subs(value[1..], next, false)
  }

  function SplitFirst(subs: seq<nat>): seq<nat>
    requires subs != []
  {
    var first := subs[0];
    (if first < 40 then [0, first] else if first < 80 then [1, first - 40] else [2, first - 80]) + subs[1..]
  }

  function DecodedOid(value: seq<byte>): Option<seq<nat>> {
    match Subs(value, 0, true)
    case None => None
    case Some(subs) => if subs == [] then None else Some(SplitFirst(subs))
  }

  /** `decode_oid_arcs`. The accumulator is a 64-bit integer: that every assignment to it type-checks
      shows that the guard `current > u64::MAX >> 7` rules out overflow. */
  method DecodeOidArcs(value: seq<byte>) returns (r: Option<seq<nat>>)
    ensures r == DecodedOid(value)
  {
    var subidentifiers: seq<nat>, current: u64, starts := [], 0, true;
    assert value[0..] == value;
    ghost var whole := Subs(value, 0, true);
    if whole.Some? { assert [] + whole.value == whole.value; }
    for i := 0 to |value|
      invariant whole == After(subidentifiers, Subs(value[i..], current as int, starts))
      invariant starts ==> current == 0
    {
      var byte := value[i];
      assert value[i..][0] == byte && value[i..][1..] == value[i + 1..];
      if starts && byte == 0x80 { return None; }
      if current > 0x1FF_FFFF_FFFF_FFFF { return None; }
      AfterStep(subidentifiers, value[i..], current as int, starts);
      current := current * 128 + (byte % 128) as u64;
      starts := byte < 0x80;
      if starts {
        subidentifiers := subidentifiers + [current as int];
        current := 0;
      }
    }
    assert value[|value|..] == [] && subidentifiers + [] == subidentifiers;
    if !starts || subidentifiers == [] { return None; }
    var first := subidentifiers[0];
    var arcs := if first < 40 then [0, first] else if first < 80 then [1, first - 40] else [2, first - 80];
    return Some(arcs + subidentifiers[1..]);
  }

  function After(done: seq<nat>, rest: Option<seq<nat>>): Option<seq<nat>> {
    match rest case None => None case Some(r) => Some(done + r)
  }

  lemma AfterStep(done: seq<nat>, value: seq<byte>, current: nat, starts: bool)
    requires value != [] && !(starts && value[0] == 0x80) && current <= U64_MAX_SHIFTED
    ensures var next := current * 128 + value[0] % 128;
            After(done, Subs(value, current, starts))
            == if value[0] < 0x80 then After(done + [next], Subs(value[1..], 0, true))
               else After(done, Subs(value[1..], next, false))
  {
    var next := current * 128 + value[0] % 128;
    var rest := Subs(value[1..], 0, true);
    if value[0] < 0x80 && rest.Some? {
      assert done + ([next] + rest.value) == (done + [next]) + rest.value;
    }
  }

  // ----- exactness -----

  lemma {:induction false} ContinuedScans(v: nat, rest: seq<byte>)
    requires 0 < v < U64_LIMIT
    ensures Subs(Continued(v) + rest, 0, true) == Subs(rest, v, false)
  {
    var all := Continued(v) + rest;
    if v < 128 {
      assert all[1..] == rest;
    } else {
      var tail := [v % 128 + 128] + rest;
      assert all == Continued(v / 128) + tail;
      ContinuedScans(v / 128, tail);
      assert tail[1..] == rest;
    }
  }

  lemma SubidentifierScans(v: nat, rest: seq<byte>)
    requires v < U64_LIMIT
    ensures Subs(Subidentifier(v) + rest, 0, true) == After([v], Subs(rest, 0, true))
  {
    hide Continued;
    var all := Subidentifier(v) + rest;
    if v < 128 {
      assert all[1..] == rest;
    } else {
      var tail := [v % 128] + rest;
      assert all == Continued(v / 128) + tail;
      ContinuedScans(v / 128, tail);
      assert tail[1..] == rest;
    }
  }

  predicate Fit(subs: seq<nat>) {
    forall v <- subs :: v < U64_LIMIT
  }

  lemma {:induction false} EncodedScans(subs: seq<nat>)
    requires Fit(subs)
    ensures Subs(EncodedSubs(subs), 0, true) == Some(subs)
  {
    if subs != [] {
      assert subs[0] in subs && forall v <- subs[1..] :: v in subs;
      EncodedScans(subs[1..]);
      SubidentifierScans(subs[0], EncodedSubs(subs[1..]));
      assert subs == [subs[0]] + subs[1..];
    }
  }

  /** A successful scan spells out what it read: the octets of the pending subidentifier
      followed by the rest are the encoding of the result. */
  lemma {:induction false} ScanSpells(value: seq<byte>, current: nat, starts: bool)
    requires starts ==> current == 0
    requires !starts ==> current > 0
    requires Subs(value, current, starts).Some?
    ensures var subs := Subs(value, current, starts).value;
            Fit(subs) && EncodedSubs(subs) == (if starts then [] else Continued(current)) + value
  {
    hide Continued, Subidentifier, EncodedSubs;
    if value == [] {
      NothingEncodes();
    } else {
      var b, next := value[0], current * 128 + value[0] % 128;
      PendingGrows(b, current, starts);
      var pending := if starts then [] else Continued(current);
      assert value == [b] + value[1..];
      assert pending + value == pending + [b] + value[1..];
      if b < 0x80 {
        ScanSpells(value[1..], 0, true);
        var rest := Subs(value[1..], 0, true).value;
        OneEncodes(next, rest);
        assert forall v <- [next] + rest :: v == next || v in rest;
      } else {
        ScanSpells(value[1..], next, false);
      }
    }
  }

  /** One octet more of the pending subidentifier. */
  lemma PendingGrows(b: byte, current: nat, starts: bool)
    requires (starts ==> current == 0 && b != 0x80) && (!starts ==> current > 0)
    ensures var next, pending := current * 128 + b % 128, if starts then [] else Continued(current);
            && (b < 0x80 ==> Subidentifier(next) == pending + [b])
            && (b >= 0x80 ==> next > 0 && Continued(next) == pending + [b])
  {
    var next := current * 128 + b % 128;
    assert next / 128 == current && next % 128 == b % 128;
  }

  /** The decoder accepts exactly the octets the standard's encoder produces for arcs below 2^64
      (subidentifiers complete and without leading 0x80), and returns those arcs. */
  lemma DecodesExactly(value: seq<byte>, arcs: seq<nat>)
    ensures DecodedOid(value) == Some(arcs) <==> ValidArcs(arcs) && EncodeOid(arcs) == value
  {
    if ValidArcs(arcs) && EncodeOid(arcs) == value {
      var subs := [40 * arcs[0] + arcs[1]] + arcs[2..];
      EncodedScans(subs);
      assert arcs == [arcs[0], arcs[1]] + arcs[2..];
    }
    if DecodedOid(value) == Some(arcs) {
      ScanSpells(value, 0, true);
      var subs := Subs(value, 0, true).value;
      assert subs[0] in subs;
      forall i | 2 <= i < |arcs| ensures arcs[i] < U64_LIMIT { assert arcs[i] == subs[i - 1] && subs[i - 1] in subs; }
      assert [40 * arcs[0] + arcs[1]] + arcs[2..] == subs;
    }
  }

  /** No two octet strings decode to the same arcs, and no arcs have two encodings. */
  lemma DecodingIsInjective(v1: seq<byte>, v2: seq<byte>)
    requires DecodedOid(v1).Some? && DecodedOid(v2).Some?
    ensures DecodedOid(v1) == DecodedOid(v2) <==> v1 == v2
  {
    DecodesExactly(v1, DecodedOid(v1).value);
    DecodesExactly(v2, DecodedOid(v2).value);
  }
}
