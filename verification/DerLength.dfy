/** DER length octets: two writers and the readers spread over four files.
    `b & 0x80 == 0` is `b < 0x80`, `b & 0x7f` is `b % 0x80`, and `(n << 8) | b` is `n * 256 + b`. */
module DerLength {
  import opened Wrappers

  const USIZE_LIMIT: int := 0x1_0000_0000_0000_0000

  // ----- what a length field means -----

  /** The number a run of octets spells, most significant octet first. */
  function BigEndian(octets: seq<byte>): nat {
    if octets == [] then 0 else BigEndian(octets[..|octets| - 1]) * 256 + octets[|octets| - 1]
  }

  /** The minimal big-endian octets of `n`; none for zero. */
  function Octets(n: nat): seq<byte> {
    if n == 0 then [] else Octets(n / 256) + [n % 256]
  }

  /** The definite form of X.690 section 8.1.3 in as few octets as possible (section 10.1). */
  function DefiniteLength(n: nat): seq<byte>
    requires n < USIZE_LIMIT
  {
    OctetsFit(n, 8);
    if n < 0x80 then [n] else [0x80 + |Octets(n)|] + Octets(n)
  }

  /** What `push_len` of the timestamp server appends; it never writes more than three octets. */
  function ThreeOctetLength(n: nat): seq<byte> {
    if n < 0x80 then [n]
    else if n <= 0xff then [0x81, n]
    else if n <= 0xffff then [0x82, n / 0x100, n % 0x100]
    else [0x83, n / 0x1_0000 % 0x100, n / 0x100 % 0x100, n % 0x100]
  }

  /** A length field starting at `pos`, with at most `maxOctets` long-form octets:
      the position after the field and the length it announces. */
  function LengthAt(input: seq<byte>, pos: nat, maxOctets: nat): Option<(nat, nat)> {
    if pos >= |input| then None
    else if input[pos] < 0x80 then Some((pos + 1, input[pos]))
    else
      var n := input[pos] % 0x80;
      if n == 0 || n > maxOctets || pos + 1 + n > |input| then None
      else Some((pos + 1 + n, BigEndian(input[pos + 1..pos + 1 + n])))
  }

  // ----- the readers and writers as coded -----

  /** `read_len` of the timestamp server. */
  method ReadLen(input: seq<byte>, start: nat) returns (r: Option<(nat, nat)>)
    ensures r == LengthAt(input, start, 3)
  {
    var pos := start;
    if pos >= |input| { return None; }
    var first := input[pos];
    pos := pos + 1;
    if first < 0x80 { return Some((pos, first)); }
    var n := first % 0x80;
    if n == 0 || n > 3 { return None; }
    var len: nat := 0;
    for i := 0 to n
      invariant pos == start + 1 + i <= |input|
      invariant len == BigEndian(input[start + 1..pos])
    {
      if pos >= |input| { return None; }
      assert input[start + 1..pos + 1][..i] == input[start + 1..pos];
      len := len * 256 + input[pos];
      pos := pos + 1;
    }
    return Some((pos, len));
  }

  /** `parse_der_definite_length`, `parse_der_len` and `der_len_and_header`: the same loop three times.
      The result is (length, octets read). */
  method ParseDefiniteLength(bytes: seq<byte>) returns (r: Option<(nat, nat)>)
    ensures r == match LengthAt(bytes, 0, 4) case None => None case Some((hdr, len)) => Some((len, hdr))
  {
    if bytes == [] { return None; }
    var first := bytes[0];
    if first < 0x80 { return Some((first, 1)); }
    var n := first % 0x80;
    if n == 0 || n > 4 || |bytes| < 1 + n { return None; }
    var len: nat := 0;
    for i := 0 to n
      invariant len == BigEndian(bytes[1..1 + i])
    {
      assert bytes[1..2 + i][..i] == bytes[1..1 + i];
      len := len * 256 + bytes[1 + i];
    }
    return Some((len, 1 + n));
  }

  /** `der_encode_definite_length`: low octets are pushed, then the stack is reversed. */
  method EncodeDefiniteLength(len: nat) returns (out: seq<byte>)
    requires len < USIZE_LIMIT
    ensures out == DefiniteLength(len)
  {
    if len < 0x80 { return [len]; }
    var n, stack: seq<byte> := len, [];
    while n > 0
      invariant Octets(n) + Reverse(stack) == Octets(len)
    {
      ghost var before := n;
      stack := stack + [n % 256];
      assert Reverse(stack) == [before % 256] + Reverse(stack[..|stack| - 1]);
      assert stack[..|stack| - 1] + [n % 256] == stack;
      n := n / 256;
      assert Octets(n) + [before % 256] == Octets(before);
    }
    stack := Reverse(stack);
    OctetsFit(len, 8);
    out := [0x80 + |stack|] + stack;
  }

  function Reverse<T>(s: seq<T>): seq<T> {
    if s == [] then [] else [s[|s| - 1]] + Reverse(s[..|s| - 1])
  }

  // ----- arithmetic of octets -----

  function Power256(k: nat): nat {
    if k == 0 then 1 else 256 * Power256(k - 1)
  }

  lemma {:induction false} OctetsFit(n: nat, k: nat)
    requires n < Power256(k) || (k == 8 && n < USIZE_LIMIT)
    ensures |Octets(n)| <= k
  {
    assert k == 8 ==> Power256(k) == USIZE_LIMIT by { PowersOf256(); }
    if n > 0 && k > 0 { OctetsFit(n / 256, k - 1); }
  }

  lemma PowersOf256()
    ensures Power256(1) == 0x100 && Power256(2) == 0x1_0000 && Power256(3) == 0x100_0000
    ensures Power256(4) == 0x1_0000_0000 && Power256(8) == USIZE_LIMIT
  {
    assert Power256(4) == 256 * Power256(3);
    assert Power256(5) == 256 * Power256(4);
    assert Power256(6) == 256 * Power256(5);
    assert Power256(7) == 256 * Power256(6);
    assert Power256(8) == 256 * Power256(7);
  }

  lemma {:induction false} BigEndianOctets(n: nat)
    ensures BigEndian(Octets(n)) == n
  {
    if n > 0 {
      BigEndianOctets(n / 256);
      assert Octets(n)[..|Octets(n)| - 1] == Octets(n / 256);
    }
  }

  /** Any spelling of a number has at least as many octets as the minimal one, and only
      the minimal one has no more. */
  lemma {:induction false} OctetsAreShortest(octets: seq<byte>)
    ensures |Octets(BigEndian(octets))| <= |octets|
    ensures |Octets(BigEndian(octets))| == |octets| ==> Octets(BigEndian(octets)) == octets
  {
    if octets != [] {
      var front, n := octets[..|octets| - 1], BigEndian(octets);
      OctetsAreShortest(front);
      assert n / 256 == BigEndian(front) && n % 256 == octets[|octets| - 1];
      assert octets == front + [octets[|octets| - 1]];
    }
  }

  lemma {:induction false} BigEndianBound(octets: seq<byte>)
    ensures BigEndian(octets) < Power256(|octets|)
  {
    if octets != [] { BigEndianBound(octets[..|octets| - 1]); }
  }

  lemma BigEndianThree(a: byte, b: byte, c: byte)
    ensures BigEndian([a]) == a && BigEndian([a, b]) == a * 0x100 + b
    ensures BigEndian([a, b, c]) == a * 0x1_0000 + b * 0x100 + c
  {
    assert [a][..0] == [];
    assert [a, b][..1] == [a];
    assert [a, b, c][..2] == [a, b];
  }

  // ----- agreement and round trips -----

  lemma OctetsUnfold(n: nat)
    requires 0 < n
    ensures n < 0x100 ==> Octets(n) == [n]
    ensures 0x100 <= n < 0x1_0000 ==> Octets(n) == [n / 0x100, n % 0x100]
    ensures 0x1_0000 <= n < 0x100_0000 ==>
              Octets(n) == [n / 0x1_0000 % 0x100, n / 0x100 % 0x100, n % 0x100]
    ensures 0x100_0000 <= n ==> |Octets(n)| > 3
  {
    var a := n / 0x100;
    var b := a / 0x100;
    assert b == n / 0x1_0000;
    assert Octets(n) == Octets(a) + [n % 0x100];
    if a > 0 { assert Octets(a) == Octets(b) + [a % 0x100]; }
    if b > 0 { assert Octets(b) == Octets(b / 0x100) + [b % 0x100]; }
    if b / 0x100 > 0 { assert |Octets(b / 0x100)| > 0; }
    assert Octets(0) == [];
  }

  /** The two writers emit the same octets exactly below 2^24. */
  lemma WritersAgree(n: nat)
    requires n < USIZE_LIMIT
    ensures ThreeOctetLength(n) == DefiniteLength(n) <==> n < 0x100_0000
  {
    if n > 0 { OctetsUnfold(n); }
    OctetsFit(n, 8);
    if n >= 0x100_0000 {
      assert ThreeOctetLength(n)[0] == 0x83;
      assert DefiniteLength(n)[0] == 0x80 + |Octets(n)|;
    }
  }

  /** A length field is read the same way whatever stands around it. */
  lemma LengthAtIsLocal(field: seq<byte>, pre: seq<byte>, post: seq<byte>, maxOctets: nat)
    requires LengthAt(field, 0, maxOctets).Some? && LengthAt(field, 0, maxOctets).value.0 == |field|
    ensures LengthAt(pre + field + post, |pre|, maxOctets)
            == Some((|pre| + |field|, LengthAt(field, 0, maxOctets).value.1))
  {
    var all := pre + field + post;
    assert all[|pre|] == field[0];
    if field[0] >= 0x80 {
      assert all[|pre| + 1..|pre| + |field|] == field[1..|field|];
    }
  }

  /** Every reader recovers the length a general writer wrote exactly when the length has no more
      octets than the reader accepts; the reader stops right after the field. */
  lemma DefiniteLengthRoundTrip(n: nat, maxOctets: nat)
    requires n < USIZE_LIMIT && 1 <= maxOctets
    ensures LengthAt(DefiniteLength(n), 0, maxOctets)
            == if n < 0x80 || |Octets(n)| <= maxOctets then Some((|DefiniteLength(n)|, n)) else None
  {
    OctetsFit(n, 8);
    BigEndianOctets(n);
    var d := DefiniteLength(n);
    if n >= 0x80 {
      assert d[0] % 0x80 == |Octets(n)| > 0;
      assert d[1..|d|] == Octets(n);
    }
  }

  lemma OctetCount(n: nat, k: nat)
    requires k > 0
    ensures |Octets(n)| <= k <==> n < Power256(k)
  {
    if n < Power256(k) {
      OctetsFit(n, k);
    } else {
      BigEndianOctets(n);
      BigEndianBound(Octets(n));
      if |Octets(n)| <= k { PowerMonotone(|Octets(n)|, k); }
    }
  }

  lemma {:induction false} PowerMonotone(j: nat, k: nat)
    requires j <= k
    ensures Power256(j) <= Power256(k)
  {
    if j < k { PowerMonotone(j, k - 1); }
  }

  /** The four-octet readers invert the general writer exactly below 2^32. */
  lemma GeneralRoundTripLimit(n: nat, pre: seq<byte>, post: seq<byte>)
    requires n < USIZE_LIMIT
    ensures LengthAt(DefiniteLength(n), 0, 4) == Some((|DefiniteLength(n)|, n)) <==> n < 0x1_0000_0000
    ensures n < 0x1_0000_0000 ==>
              LengthAt(pre + DefiniteLength(n) + post, |pre|, 4) == Some((|pre| + |DefiniteLength(n)|, n))
  {
    PowersOf256();
    OctetCount(n, 4);
    DefiniteLengthRoundTrip(n, 4);
    if n < 0x1_0000_0000 { LengthAtIsLocal(DefiniteLength(n), pre, post, 4); }
  }

  /** The server reads back its own length modulo 2^24, so it recovers exactly the lengths below it. */
  lemma ServerRoundTripLimit(n: nat, pre: seq<byte>, post: seq<byte>)
    ensures LengthAt(pre + ThreeOctetLength(n) + post, |pre|, 3)
            == Some((|pre| + |ThreeOctetLength(n)|, n % 0x100_0000))
    ensures (LengthAt(pre + ThreeOctetLength(n) + post, |pre|, 3) == Some((|pre| + |ThreeOctetLength(n)|, n)))
            <==> n < 0x100_0000
  {
    var t := ThreeOctetLength(n);
    if 0x80 <= n {
      BigEndianThree(n / 0x1_0000 % 0x100, n / 0x100 % 0x100, n % 0x100);
      if n < 0x1_0000 { BigEndianThree(n / 0x100, n % 0x100, 0); }
      if n < 0x100 { BigEndianThree(n, 0, 0); }
      assert t[1..] == t[1..|t|];
      SplitThreeOctets(n);
    }
    LengthAtIsLocal(t, pre, post, 3);
  }

  lemma SplitThreeOctets(n: nat)
    ensures n / 0x1_0000 % 0x100 * 0x1_0000 + n / 0x100 % 0x100 * 0x100 + n % 0x100 == n % 0x100_0000
  {
    var n1, c := n / 0x100, n % 0x100;
    var n2, b := n1 / 0x100, n1 % 0x100;
    var n3, a := n2 / 0x100, n2 % 0x100;
    assert n2 == n / 0x1_0000;
    var low := a * 0x1_0000 + b * 0x100 + c;
    LowPart(n3, low);
  }

  lemma LowPart(high: nat, low: nat)
    requires low < 0x100_0000
    ensures (high * 0x100_0000 + low) % 0x100_0000 == low
  {
  }

  /** Section 10.1 of X.690: no field any reader accepts for `len` is shorter than the one
      written, and the only one of that size is the one written. */
  lemma WrittenLengthIsMinimal(bytes: seq<byte>, maxOctets: nat)
    requires maxOctets <= 8
    requires LengthAt(bytes, 0, maxOctets).Some?
    ensures var (end, len) := LengthAt(bytes, 0, maxOctets).value;
            && len < USIZE_LIMIT
            && |DefiniteLength(len)| <= end <= |bytes|
            && (|DefiniteLength(len)| == end ==> bytes[..end] == DefiniteLength(len))
  {
    var (end, len) := LengthAt(bytes, 0, maxOctets).value;
    if bytes[0] < 0x80 {
      assert bytes[..1] == [bytes[0]];
    } else {
      var octets := bytes[1..end];
      PowersOf256();
      BigEndianBound(octets);
      PowerMonotone(|octets|, 8);
      OctetsAreShortest(octets);
      assert bytes[..end] == [bytes[0]] + octets;
    }
  }
}
