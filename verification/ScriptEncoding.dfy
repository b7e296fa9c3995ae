/** The four byte encodings of a script: UTF-8 with and without byte order mark, and UTF-16 in both byte orders
    (sections 3 and 4 of RFC 3629, sections 2.1 and 2.2 of RFC 2781). Characters are Unicode scalar values. */
module ScriptEncoding {
  import opened Wrappers

  predicate IsScalar(u: int) {
    0 <= u < 0xD800 || 0xE000 <= u < 0x11_0000
  }

  // ----- UTF-8 -----

  function Utf8Length(u: int): nat {
    if u < 0x80 then 1 else if u < 0x800 then 2 else if u < 0x1_0000 then 3 else 4
  }

  function Utf8Char(c: char): seq<byte> {
    var u := c as int;
    if u < 0x80 then [u]
    else if u < 0x800 then [0xC0 + u / 64, 0x80 + u % 64]
    else if u < 0x1_0000 then [0xE0 + u / 4096, 0x80 + u / 64 % 64, 0x80 + u % 64]
    else [0xF0 + u / 262144, 0x80 + u / 4096 % 64, 0x80 + u / 64 % 64, 0x80 + u % 64]
  }

  function Utf8(s: string): seq<byte> {
    if s == "" then [] else Utf8Char(s[0]) + Utf8(s[1..])
  }

  /** How many bytes the leading byte announces; 0 for a byte that cannot lead. */
  function Announced(lead: byte): nat {
    if lead < 0x80 then 1
    else if 0xC0 <= lead < 0xE0 then 2
    else if 0xE0 <= lead < 0xF0 then 3
    else if 0xF0 <= lead < 0xF8 then 4 else 0
  }

  predicate Continues(b: byte) {
    0x80 <= b < 0xC0
  }

  /** The bits a byte carries above its base. */
  function Bits(b: byte, base: int): int {
    b - base
  }

  function CodePoint(b: seq<byte>): int
    requires 1 <= |b| <= 4
  {
    if |b| == 1 then b[0]
    else if |b| == 2 then Bits(b[0], 0xC0) * 64 + Bits(b[1], 0x80)
    else if |b| == 3 then Bits(b[0], 0xE0) * 4096 + Bits(b[1], 0x80) * 64 + Bits(b[2], 0x80)
    else Bits(b[0], 0xF0) * 262144 + Bits(b[1], 0x80) * 4096 + Bits(b[2], 0x80) * 64 + Bits(b[3], 0x80)
  }

  /** The bytes of one character: continuation bytes where announced, and the shortest form of a scalar value. */
  predicate IsUtf8Char(b: seq<byte>) {
    && 1 <= |b| <= 4 && Announced(b[0]) == |b|
    && (forall k | 1 <= k < |b| :: Continues(b[k]))
    && IsScalar(CodePoint(b)) && Utf8Length(CodePoint(b)) == |b|
  }

  /** `String::from_utf8`. */
  function FromUtf8(b: seq<byte>): Option<string> {
    if b == [] then Some("")
    else
      var n := Announced(b[0]);
      if n == 0 || n > |b| || !IsUtf8Char(b[..n]) then None
      else match FromUtf8(b[n..]) case None => None case Some(rest) => Some([CodePoint(b[..n]) as char] + rest)
  }

  lemma Utf8CharIs(c: char)
    ensures IsUtf8Char(Utf8Char(c)) && CodePoint(Utf8Char(c)) == c as int
  {
    var u := c as int;
    assert u / 4096 == u / 64 / 64 && u / 262144 == u / 4096 / 64;
  }

  lemma IsUtf8CharOf(b: seq<byte>)
    requires IsUtf8Char(b)
    ensures Utf8Char(CodePoint(b) as char) == b
  {
    var u := CodePoint(b);
    if |b| == 3 {
      var x: int, y: int, z: int := b[0] - 0xE0, b[1] - 0x80, b[2] - 0x80;
      Digits(x, y, z);
      assert u == (x * 64 + y) * 64 + z;
    } else if |b| == 4 {
      var w: int, x: int, y: int, z: int := b[0] - 0xF0, b[1] - 0x80, b[2] - 0x80, b[3] - 0x80;
      Digits(w * 64 + x, y, z);
      Digits(w, x, y);
      assert u == ((w * 64 + x) * 64 + y) * 64 + z;
      assert u / 262144 == u / 4096 / 64;
    }
  }

  /** Base-64 digits. */
  lemma Digits(x: int, y: int, z: int)
    requires 0 <= y < 64 && 0 <= z < 64
    ensures var u := (x * 64 + y) * 64 + z; u % 64 == z && u / 64 == x * 64 + y && u / 64 % 64 == y && u / 4096 == x
  {
    var u := (x * 64 + y) * 64 + z;
    assert u / 64 == x * 64 + y;
    assert u / 4096 == u / 64 / 64;
  }

  lemma {:induction false} Utf8RoundTrip(s: string)
    ensures FromUtf8(Utf8(s)) == Some(s)
  {
    hide Utf8Char, IsUtf8Char, CodePoint, Announced;
    if s != "" {
      var first, rest := Utf8Char(s[0]), Utf8(s[1..]);
      Utf8RoundTrip(s[1..]);
      Utf8CharIs(s[0]);
      Utf8CharAnnounces(first);
      assert (first + rest)[..|first|] == first && (first + rest)[|first|..] == rest;
      assert s == [s[0]] + s[1..];
    }
  }

  lemma Utf8CharAnnounces(b: seq<byte>)
    requires IsUtf8Char(b)
    ensures 1 <= |b| <= 4 && Announced(b[0]) == |b|
  {
  }

  /** A strict decoder accepts one byte string per text. */
  lemma {:induction false} Utf8Canonical(b: seq<byte>)
    requires FromUtf8(b).Some?
    ensures Utf8(FromUtf8(b).value) == b
  {
    hide Utf8Char, CodePoint, Announced;
    if b != [] {
      var n := Announced(b[0]);
      Utf8Canonical(b[n..]);
      IsUtf8CharOf(b[..n]);
      var s := FromUtf8(b).value;
      assert s[1..] == FromUtf8(b[n..]).value;
      assert b == b[..n] + b[n..];
    }
  }

  lemma {:induction false} Utf8Append(a: string, b: string)
    ensures Utf8(a + b) == Utf8(a) + Utf8(b)
  {
    hide Utf8Char;
    if a == "" {
      assert a + b == b;
    } else {
      assert (a + b)[1..] == a[1..] + b;
      Utf8Append(a[1..], b);
    }
  }

  // ----- UTF-16 -----

  type word = x: int | 0 <= x < 0x1_0000

  predicate IsHigh(w: word) {
    0xD800 <= w < 0xDC00
  }

  predicate IsLow(w: word) {
    0xDC00 <= w < 0xE000
  }

  function Utf16Char(c: char): seq<word> {
    var u := c as int;
    if u < 0x1_0000 then [u] else [0xD800 + (u - 0x1_0000) / 1024, 0xDC00 + (u - 0x1_0000) % 1024]
  }

  /** `encode_utf16`. */
  function Utf16(s: string): seq<word> {
    if s == "" then [] else Utf16Char(s[0]) + Utf16(s[1..])
  }

  function FromPair(high: int, low: int): int {
    0x1_0000 + (high - 0xD800) * 1024 + (low - 0xDC00)
  }

  /** `String::from_utf16`: surrogates only in pairs. */
  function FromUtf16(w: seq<word>): Option<string> {
    if w == [] then Some("")
    else if IsLow(w[0]) then None
    else if !IsHigh(w[0]) then
      match FromUtf16(w[1..]) case None => None case Some(rest) => Some([w[0] as char] + rest)
    else if |w| == 1 || !IsLow(w[1]) then None
    else
      match FromUtf16(w[2..])
      case None => None
      case Some(rest) => Some([FromPair(w[0], w[1]) as char] + rest)
  }

  lemma {:induction false} Utf16RoundTrip(s: string)
    ensures FromUtf16(Utf16(s)) == Some(s)
  {
    if s != "" {
      var first, rest := Utf16Char(s[0]), Utf16(s[1..]);
      Utf16RoundTrip(s[1..]);
      assert (first + rest)[|first|..] == rest;
      assert s == [s[0]] + s[1..];
    }
  }

  lemma {:induction false} Utf16Canonical(w: seq<word>)
    requires FromUtf16(w).Some?
    ensures Utf16(FromUtf16(w).value) == w
  {
    if w != [] {
      var s := FromUtf16(w).value;
      var n := if IsHigh(w[0]) then 2 else 1;
      Utf16Canonical(w[n..]);
      assert s[1..] == FromUtf16(w[n..]).value;
      assert Utf16Char(s[0]) == w[..n];
      assert w == w[..n] + w[n..];
    }
  }

  lemma {:induction false} Utf16Append(a: string, b: string)
    ensures Utf16(a + b) == Utf16(a) + Utf16(b)
  {
    hide Utf16Char;
    if a == "" {
      assert a + b == b;
    } else {
      assert (a + b)[1..] == a[1..] + b;
      Utf16Append(a[1..], b);
    }
  }

  // ----- words as bytes -----

  function WordBytes(w: word, little: bool): seq<byte> {
    if little then [w % 256, w / 256] else [w / 256, w % 256]
  }

  function Bytes(words: seq<word>, little: bool): seq<byte> {
    if words == [] then [] else WordBytes(words[0], little) + Bytes(words[1..], little)
  }

  function FromBytes(high: int, low: int): int {
    high * 256 + low
  }

  function Words(b: seq<byte>, little: bool): seq<word>
    requires |b| % 2 == 0
  {
    if b == [] then [] else [if little then FromBytes(b[1], b[0]) else FromBytes(b[0], b[1])] + Words(b[2..], little)
  }

  lemma {:induction false} WordsOfBytes(words: seq<word>, little: bool)
    ensures |Bytes(words, little)| % 2 == 0 && Words(Bytes(words, little), little) == words
  {
    if words != [] {
      WordsOfBytes(words[1..], little);
      assert Bytes(words, little)[2..] == Bytes(words[1..], little);
    }
  }

  lemma {:induction false} BytesOfWords(b: seq<byte>, little: bool)
    requires |b| % 2 == 0
    ensures Bytes(Words(b, little), little) == b
  {
    if b != [] {
      BytesOfWords(b[2..], little);
      assert Words(b, little)[1..] == Words(b[2..], little);
      assert b == b[..2] + b[2..];
    }
  }

  lemma {:induction false} BytesAppend(a: seq<word>, b: seq<word>, little: bool)
    ensures Bytes(a + b, little) == Bytes(a, little) + Bytes(b, little)
  {
    hide WordBytes;
    if a == [] {
      assert a + b == b;
    } else {
      assert (a + b)[1..] == a[1..] + b;
      BytesAppend(a[1..], b, little);
    }
  }

  // ----- whole files -----

  datatype Encoding = Utf8File(bom: bool) | Utf16File(little: bool)

  datatype Script = Script(content: string, encoding: Encoding)

  function Mark(e: Encoding): seq<byte> {
    match e
    case Utf8File(bom) => if bom then [0xEF, 0xBB, 0xBF] else []
    case Utf16File(little) => if little then [0xFF, 0xFE] else [0xFE, 0xFF]
  }

  /** The bytes behind the mark. */
  function Text(e: Encoding, content: string): seq<byte> {
    match e case Utf8File(_) => Utf8(content) case Utf16File(little) => Bytes(Utf16(content), little)
  }

  /** `ScriptEncoding::encode`. */
  function Encode(e: Encoding, content: string): seq<byte> {
    Mark(e) + Text(e, content)
  }

  function FromText(e: Encoding, b: seq<byte>): Result<string> {
    match e
    case Utf8File(_) => (match FromUtf8(b) case Some(s) => Ok(s) case None => Err)
    case Utf16File(little) =>
      if |b| % 2 != 0 then Err else match FromUtf16(Words(b, little)) case Some(s) => Ok(s) case None => Err
  }

  /** The encoding the first bytes select. */
  function Detect(b: seq<byte>): Encoding {
    if [0xEF, 0xBB, 0xBF] <= b then Utf8File(true)
    else if [0xFF, 0xFE] <= b then Utf16File(true)
    else if [0xFE, 0xFF] <= b then Utf16File(false)
    else Utf8File(false)
  }

  /** `ScriptEncoding::decode`. */
  function Decode(b: seq<byte>): Result<Script> {
    var e := Detect(b);
    match FromText(e, b[|Mark(e)|..]) case Ok(s) => Ok(Script(s, e)) case Err => Err
  }

  method EncodeUtf16(content: string, little: bool) returns (bytes: seq<byte>)
    ensures bytes == Encode(Utf16File(little), content)
  {
    hide WordBytes, Utf16;
    var words := Utf16(content);
    bytes := if little then [0xFF, 0xFE] else [0xFE, 0xFF];
    assert bytes + Bytes(words[0..], little) == bytes + Bytes(words, little);
    for k := 0 to |words|
      invariant bytes + Bytes(words[k..], little) == Encode(Utf16File(little), content)
    {
      assert words[k..][0] == words[k] && words[k..][1..] == words[k + 1..];
      assert bytes + (WordBytes(words[k], little) + Bytes(words[k + 1..], little))
          == (bytes + WordBytes(words[k], little)) + Bytes(words[k + 1..], little);
      bytes := bytes + WordBytes(words[k], little);
    }
    assert words[|words|..] == [];
  }

  lemma TextRoundTrip(e: Encoding, content: string)
    ensures FromText(e, Text(e, content)) == Ok(content)
  {
    hide FromUtf8, FromUtf16, Utf8, Utf16, Bytes, Words;
    match e
    case Utf8File(_) => Utf8RoundTrip(content);
    case Utf16File(little) =>
      Utf16RoundTrip(content);
      WordsOfBytes(Utf16(content), little);
  }

  lemma TextCanonical(e: Encoding, b: seq<byte>)
    requires FromText(e, b).Ok?
    ensures Text(e, FromText(e, b).value) == b
  {
    hide FromUtf8, FromUtf16, Utf8, Utf16, Bytes, Words;
    match e
    case Utf8File(_) => Utf8Canonical(b);
    case Utf16File(little) =>
      Utf16Canonical(Words(b, little));
      BytesOfWords(b, little);
  }

  lemma TextAppend(e: Encoding, a: string, b: string)
    ensures Text(e, a + b) == Text(e, a) + Text(e, b)
  {
    hide Utf8, Utf16, Bytes;
    match e
    case Utf8File(_) => Utf8Append(a, b);
    case Utf16File(little) =>
      Utf16Append(a, b);
      BytesAppend(Utf16(a), Utf16(b), little);
  }

  /** Decoding a file and encoding it again gives the same bytes. */
  lemma DecodedEncodesBack(b: seq<byte>)
    requires Decode(b).Ok?
    ensures Encode(Decode(b).value.encoding, Decode(b).value.content) == b
  {
    hide FromText, Text;
    var e := Detect(b);
    TextCanonical(e, b[|Mark(e)|..]);
    assert b == Mark(e) + b[|Mark(e)|..];
  }

  predicate StartsWithMark(s: string) {
    s != "" && s[0] == '\U{FEFF}'
  }

  lemma MarkChar(c: char)
    ensures var b := Utf8Char(c); |b| < 3 ==> b[0] < 0xE0
    ensures var b := Utf8Char(c); |b| >= 3 ==> (b[0] == 0xEF && b[1] == 0xBB && b[2] == 0xBF <==> c == '\U{FEFF}')
    ensures Utf8Char(c)[0] < 0xF5
  {
    var u := c as int;
    if 0x800 <= u < 0x1_0000 {
      assert u / 4096 == u / 64 / 64;
      assert u == (u / 4096 * 64 + u / 64 % 64) * 64 + u % 64;
    }
  }

  lemma Utf8Starts(s: string)
    ensures [0xEF, 0xBB, 0xBF] <= Utf8(s) <==> StartsWithMark(s)
    ensures Utf8(s) != [] ==> Utf8(s)[0] < 0xF5
  {
    if s != "" {
      MarkChar(s[0]);
      Utf8CharIs(s[0]);
      var b := Utf8Char(s[0]);
      hide Utf8Char, CodePoint;
      assert Utf8(s)[0] == b[0];
      if |b| >= 3 { assert Utf8(s)[1] == b[1] && Utf8(s)[2] == b[2]; }
    }
  }

  /** Encoding a text and decoding it gives the text and the encoding, unless an unmarked file would begin with the
      mark character itself. */
  lemma EncodedDecodes(e: Encoding, s: string)
    ensures Decode(Encode(e, s)) == Ok(Script(s, e)) <==> !(e == Utf8File(false) && StartsWithMark(s))
  {
    Utf8Starts(s);
    TextRoundTrip(e, s);
    hide FromText, Utf8, Utf16, Bytes;
    var b := Encode(e, s);
    assert b[|Mark(e)|..] == Text(e, s);
    match e
    case Utf8File(bom) =>
      if bom { assert [0xEF, 0xBB, 0xBF] <= b; } else { assert b == Utf8(s); }
    case Utf16File(little) =>
      assert b[0] == if little then 0xFF else 0xFE;
      assert (if little then [0xFF, 0xFE] else [0xFE, 0xFF]) <= b;
    assert Detect(b) == e <==> !(e == Utf8File(false) && StartsWithMark(s));
  }
}
