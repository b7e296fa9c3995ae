/** Base64 with the standard alphabet and canonical padding (section 4 of RFC 4648). */
module Base64 {
  import opened Wrappers

  function Symbol(v: nat): char
    requires v < 64
  {
    if v < 26 then 'A' + v as char
    else if v < 52 then 'a' + (v - 26) as char
    else if v < 62 then '0' + (v - 52) as char
    else if v == 62 then '+' else '/'
  }

  predicate IsSymbol(c: char) {
    'A' <= c <= 'Z' || 'a' <= c <= 'z' || '0' <= c <= '9' || c == '+' || c == '/'
  }

  function SymbolValue(c: char): (v: nat)
    requires IsSymbol(c)
    ensures v < 64 && Symbol(v) == c
  {
    if 'A' <= c <= 'Z' then c as int - 'A' as int
    else if 'a' <= c <= 'z' then c as int - 'a' as int + 26
    else if '0' <= c <= '9' then c as int - '0' as int + 52
    else if c == '+' then 62 else 63
  }

  /** The four sextets of three octets. */
  function First(a: byte): nat {
    a / 4
  }

  function Second(a: byte, b: byte): nat {
    a % 4 * 16 + b / 16
  }

  function Third(b: byte, c: byte): nat {
    b % 16 * 4 + c / 64
  }

  function Fourth(c: byte): nat {
    c % 64
  }

  lemma SextetsAreSmall(a: byte, b: byte, c: byte)
    ensures First(a) < 64 && Second(a, b) < 64 && Third(b, c) < 64 && Fourth(c) < 64
  {
  }

  function Encode(bytes: seq<byte>): string {
    if bytes == [] then ""
    else
      var (a, b, c) := (bytes[0], if |bytes| > 1 then bytes[1] else 0, if |bytes| > 2 then bytes[2] else 0);
      SextetsAreSmall(a, b, c);
      if |bytes| == 1 then [Symbol(First(a)), Symbol(Second(a, b)), '=', '=']
      else if |bytes| == 2 then [Symbol(First(a)), Symbol(Second(a, b)), Symbol(Third(b, c)), '=']
      else [Symbol(First(a)), Symbol(Second(a, b)), Symbol(Third(b, c)), Symbol(Fourth(c))] + Encode(bytes[3..])
  }

  /** What the strict decoder accepts: whole quartets, padding only in the last one and no stray bits under it. */
  predicate Decodable(s: string) {
    if s == "" then true
    else if |s| < 4 || !IsSymbol(s[0]) || !IsSymbol(s[1]) then false
    else if s[2] == '=' then |s| == 4 && s[3] == '=' && SymbolValue(s[1]) % 16 == 0
    else if s[3] == '=' then |s| == 4 && IsSymbol(s[2]) && SymbolValue(s[2]) % 4 == 0
    else IsSymbol(s[2]) && IsSymbol(s[3]) && Decodable(s[4..])
  }

  predicate Alphabet(c: char) {
    IsSymbol(c) || c == '='
  }

  lemma SymbolIs(v: nat)
    requires v < 64
    ensures IsSymbol(Symbol(v)) && SymbolValue(Symbol(v)) == v && Symbol(v) != '='
  {
  }

  lemma {:induction false} EncodedAlphabet(bytes: seq<byte>)
    ensures Decodable(Encode(bytes))
    ensures forall c <- Encode(bytes) :: Alphabet(c)
  {
    EncodedComesBack(bytes);
    DecodableAlphabet(Encode(bytes));
  }

  lemma {:induction false} DecodableAlphabet(s: string)
    requires Decodable(s)
    ensures forall c <- s :: Alphabet(c)
  {
    if |s| > 4 {
      DecodableAlphabet(s[4..]);
      assert s == s[..4] + s[4..];
    }
  }

  // ----- decoding -----

  function OctetA(w: nat, x: nat): byte
    requires w < 64 && x < 64
  {
    w * 4 + x / 16
  }

  function OctetB(x: nat, y: nat): byte
    requires x < 64 && y < 64
  {
    x % 16 * 16 + y / 4
  }

  function OctetC(y: nat, z: nat): byte
    requires y < 64 && z < 64
  {
    y % 4 * 64 + z
  }

  lemma OctetsFromSextets(a: byte, b: byte, c: byte)
    ensures First(a) < 64 && Second(a, b) < 64 && Third(b, c) < 64 && Fourth(c) < 64
    ensures OctetA(First(a), Second(a, b)) == a && OctetB(Second(a, b), Third(b, c)) == b
    ensures OctetC(Third(b, c), Fourth(c)) == c
    ensures Second(a, 0) % 16 == 0 && Third(b, 0) % 4 == 0
  {
    SextetsAreSmall(a, b, c);
    assert Second(a, b) / 16 == a % 4 && Second(a, b) % 16 == b / 16;
    assert Third(b, c) / 4 == b % 16 && Third(b, c) % 4 == c / 64;
    hide Second, Third;
  }

  lemma SextetsFromOctets(w: nat, x: nat, y: nat, z: nat)
    requires w < 64 && x < 64 && y < 64 && z < 64
    ensures First(OctetA(w, x)) == w && Second(OctetA(w, x), OctetB(x, y)) == x
    ensures Third(OctetB(x, y), OctetC(y, z)) == y && Fourth(OctetC(y, z)) == z
    ensures (x % 16 == 0 ==> Second(OctetA(w, x), 0) == x) && (y % 4 == 0 ==> Third(OctetB(x, y), 0) == y)
  {
  }

  /** The octets of a text that the decoder accepts: each quartet carries 24 bits, less 8 for each padding character. */
  function Decode(s: string): seq<byte>
    requires Decodable(s)
  {
    if s == "" then []
    else
      var (w, x) := (SymbolValue(s[0]), SymbolValue(s[1]));
      if s[2] == '=' then [OctetA(w, x)]
      else
        var y := SymbolValue(s[2]);
        if s[3] == '=' then [OctetA(w, x), OctetB(x, y)]
        else [OctetA(w, x), OctetB(x, y), OctetC(y, SymbolValue(s[3]))] + Decode(s[4..])
  }

  /** Bytes come back from their encoding, */
  lemma {:induction false} EncodedComesBack(bytes: seq<byte>)
    ensures Decodable(Encode(bytes)) && Decode(Encode(bytes)) == bytes
  {
    hide Symbol, SymbolValue, IsSymbol, First, Second, Third, Fourth, OctetA, OctetB, OctetC;
    if bytes != [] {
      var (a, b, c) := (bytes[0], if |bytes| > 1 then bytes[1] else 0, if |bytes| > 2 then bytes[2] else 0);
      OctetsFromSextets(a, b, c);
      SymbolsAre(a, b, c);
      if |bytes| > 2 {
        EncodedComesBack(bytes[3..]);
        assert Encode(bytes)[4..] == Encode(bytes[3..]);
        assert bytes == [a, b, c] + bytes[3..];
      }
    }
  }

  lemma SymbolsAre(a: byte, b: byte, c: byte)
    ensures First(a) < 64 && Second(a, b) < 64 && Third(b, c) < 64 && Fourth(c) < 64
    ensures forall v | v in [First(a), Second(a, b), Third(b, c), Fourth(c)] ::
              v < 64 && IsSymbol(Symbol(v)) && SymbolValue(Symbol(v)) == v && Symbol(v) != '='
  {
    SextetsAreSmall(a, b, c);
    hide First, Second, Third, Fourth;
    SymbolIs(First(a));
    SymbolIs(Second(a, b));
    SymbolIs(Third(b, c));
    SymbolIs(Fourth(c));
    hide Symbol, SymbolValue, IsSymbol;
  }

  /** and the decoder accepts no text but that encoding. */
  lemma {:induction false} DecodedComesBack(s: string)
    requires Decodable(s)
    ensures Encode(Decode(s)) == s
  {
    hide Symbol, SymbolValue, First, Second, Third, Fourth, OctetA, OctetB, OctetC;
    if s != "" {
      var y := if s[2] == '=' then 0 else SymbolValue(s[2]);
      var z := if s[2] == '=' || s[3] == '=' then 0 else SymbolValue(s[3]);
      SextetsFromOctets(SymbolValue(s[0]), SymbolValue(s[1]), y, z);
      hide IsSymbol;
      if s[2] != '=' && s[3] != '=' {
        DecodedComesBack(s[4..]);
        assert Decode(s)[3..] == Decode(s[4..]);
        assert s == s[..4] + s[4..];
      }
    }
  }

  /** The alphabet in the order of its values. */
  lemma AlphabetIs(v: nat)
    requires v < 64
    ensures Symbol(v) == ("ABCDEFGHIJKLMNOPQRSTUVWXYZ" + "abcdefghijklmnopqrstuvwxyz" + "0123456789+/")[v]
  {
  }
}
