/** Removing the signature block at the end of a script, and the bytes of the file that is written back. */
module ScriptSignature {
  import opened Wrappers
  import opened Sequences
  import opened Text
  import Base64
  import E = ScriptEncoding

  // ----- the three comment styles -----

  datatype Style = Hash | Xml | Mof

  function Lead(style: Style): string {
    match style case Hash => "# " case Xml => "<!-- " case Mof => "/* "
  }

  function Trail(style: Style): string {
    match style case Hash => "" case Xml => " -->" case Mof => " */"
  }

  function Marker(style: Style, word: string): string {
    Lead(style) + "SIG # " + word + " signature block" + Trail(style)
  }

  function Begin(style: Style): string {
    Marker(style, "Begin")
  }

  function End(style: Style): string {
    Marker(style, "End")
  }

  /** The markers of each style. */
  lemma MarkersAre(style: Style)
    ensures Begin(style)
            == match style
               case Hash => "# SIG # " + "Begin" + " signature block"
               case Xml => "<!-- SIG # " + "Begin" + " signature block -->"
               case Mof => "/* SIG # " + "Begin" + " signature block */"
    ensures End(style)
            == match style
               case Hash => "# SIG # " + "End" + " signature block"
               case Xml => "<!-- SIG # " + "End" + " signature block -->"
               case Mof => "/* SIG # " + "End" + " signature block */"
  {
    MarkerIs(style, "Begin");
    MarkerIs(style, "End");
    hide Marker;
  }

  lemma MarkerIs(style: Style, word: string)
    ensures Marker(style, word)
            == match style
               case Hash => "# SIG # " + word + " signature block"
               case Xml => "<!-- SIG # " + word + " signature block -->"
               case Mof => "/* SIG # " + word + " signature block */"
  {
    match style
    case Hash => assert "# " + "SIG # " == "# SIG # ";
    case Xml => assert "<!-- " + "SIG # " == "<!-- SIG # " && " signature block" + " -->" == " signature block -->";
    case Mof => assert "/* " + "SIG # " == "/* SIG # " && " signature block" + " */" == " signature block */";
  }

  // ----- the body of a block -----

  /** What a comment line holds between the style's lead and trail. */
  function Encoded(style: Style, line: string): Option<string> {
    if !(Lead(style) <= line) then None
    else
      var rest := line[|Lead(style)|..];
      var n := |rest| - |Trail(style)|;
      if n < 0 || rest[n..] != Trail(style) then None else Some(rest[..n])
  }

  /** The concatenated comments of the lines that are not blank. */
  function Payload(style: Style, lines: seq<string>): Option<string> {
    if lines == [] then Some("")
    else
      var line := Trim(lines[0]);
      if line == "" then Payload(style, lines[1..])
      else match (Encoded(style, line), Payload(style, lines[1..]))
        case (Some(a), Some(b)) => Some(a + b)
        case _ => None
  }

  /** `is_authenticode_signature_block`. */
  predicate IsBlock(style: Style, body: string) {
    match Payload(style, Lines(body)) case None => false case Some(p) => p != "" && Base64.Decodable(p)
  }

  method IsSignatureBlock(style: Style, body: string) returns (r: bool)
    ensures r <==> IsBlock(style, body)
  {
    hide Encoded, Lines, Trim, Base64.Decodable;
    var lines := Lines(body);
    var payload := "";
    assert lines[0..] == lines;
    ghost var whole := Payload(style, lines);
    if whole.Some? { assert "" + whole.value == whole.value; }
    for k := 0 to |lines|
      invariant Payload(style, lines)
                == match Payload(style, lines[k..]) case None => None case Some(p) => Some(payload + p)
    {
      assert lines[k..][0] == lines[k] && lines[k..][1..] == lines[k + 1..];
      var line := Trim(lines[k]);
      if line != "" {
        var encoded := Encoded(style, line);
        if encoded.None? { return false; }
        ghost var later := Payload(style, lines[k + 1..]);
        if later.Some? { assert payload + (encoded.value + later.value) == payload + encoded.value + later.value; }
        payload := payload + encoded.value;
      }
    }
    assert lines[|lines|..] == [] && payload + "" == payload;
    if payload == "" { return false; }
    return Base64.Decodable(payload);
  }

  // ----- the blocks that are written -----

  /** A comment line for each chunk. */
  function Comments(style: Style, chunks: seq<string>): string {
    if chunks == [] then "" else Lead(style) + chunks[0] + Trail(style) + "\r\n" + Comments(style, chunks[1..])
  }

  /** A line of Base64. */
  predicate IsChunk(chunk: string) {
    chunk != "" && forall c <- chunk :: Base64.Alphabet(c)
  }

  lemma AlphabetIsBlack(c: char)
    requires Base64.Alphabet(c)
    ensures !IsWhitespace(c) && c != '\n' && c != '\r'
  {
  }

  lemma NothingToTrim(s: string)
    requires IsSolid(s)
    ensures Trim(s) == s
  {
  }

  predicate IsSolid(s: string) {
    s != "" && !IsWhitespace(s[0]) && !IsWhitespace(s[|s| - 1])
  }

  predicate IsOneLine(s: string) {
    '\n' !in s && '\r' !in s
  }

  lemma ChunkIsSolid(chunk: string)
    requires IsChunk(chunk)
    ensures IsSolid(chunk) && IsOneLine(chunk)
  {
    forall c <- chunk ensures !IsWhitespace(c) && c != '\n' && c != '\r' { AlphabetIsBlack(c); }
  }

  lemma StyleIsSolid(style: Style)
    ensures Lead(style) != "" && !IsWhitespace(Lead(style)[0]) && IsOneLine(Lead(style)) && IsOneLine(Trail(style))
    ensures Trail(style) == "" || !IsWhitespace(Trail(style)[|Trail(style)| - 1])
  {
  }

  /** A comment of a chunk is one line, */
  lemma CommentIsSolid(style: Style, chunk: string)
    requires IsChunk(chunk)
    ensures IsSolid(Lead(style) + chunk + Trail(style)) && IsOneLine(Lead(style) + chunk + Trail(style))
  {
    ChunkIsSolid(chunk);
    StyleIsSolid(style);
    hide Lead, Trail, IsWhitespace, IsChunk;
    var line, trail := Lead(style) + chunk + Trail(style), Trail(style);
    assert line[|line| - 1] == if trail == "" then chunk[|chunk| - 1] else trail[|trail| - 1];
  }

  /** and gives the chunk back. */
  lemma CommentHolds(style: Style, chunk: string)
    ensures Encoded(style, Lead(style) + chunk + Trail(style)) == Some(chunk)
  {
    hide Lead, Trail;
    var line := Lead(style) + chunk + Trail(style);
    var rest := line[|Lead(style)|..];
    assert line[..|Lead(style)|] == Lead(style);
    assert rest == chunk + Trail(style) && rest[..|chunk|] == chunk && rest[|chunk|..] == Trail(style);
  }

  lemma FirstLineIs(line: string, rest: string)
    requires IsOneLine(line)
    ensures Lines(line + "\r\n" + rest) == [line] + Lines(rest)
  {
    var s, i := line + "\r\n" + rest, |line| + 1;
    assert s[..i] == line + "\r" && s[i + 1..] == rest;
    assert '\n' !in line + "\r";
    IndexOfIs(s, '\n', i);
    hide IndexOf;
  }

  lemma {:induction false} CommentsPayload(style: Style, chunks: seq<string>)
    requires forall c <- chunks :: IsChunk(c)
    ensures Payload(style, Lines(Comments(style, chunks))) == Some(Flatten(chunks))
  {
    hide Lead, Trail, Trim, Lines, Encoded, IsChunk, IsWhitespace, IsOneLine;
    if chunks == [] {
      NoLines();
    } else {
      var line, rest := Lead(style) + chunks[0] + Trail(style), Comments(style, chunks[1..]);
      assert chunks[0] in chunks;
      CommentIsSolid(style, chunks[0]);
      NothingToTrim(line);
      CommentHolds(style, chunks[0]);
      FirstLineIs(line, rest);
      forall c <- chunks[1..] ensures c in chunks {}
      CommentsPayload(style, chunks[1..]);
      assert ([line] + Lines(rest))[1..] == Lines(rest);
    }
  }

  lemma NoLines()
    ensures Lines("") == []
  {
  }

  /** Base64 in comment lines is a block exactly if it decodes; so bytes in Base64, cut into lines, are. */
  lemma CommentsAreBlock(style: Style, chunks: seq<string>)
    requires chunks != [] && forall c <- chunks :: IsChunk(c)
    ensures IsBlock(style, "\r\n" + Comments(style, chunks)) <==> Base64.Decodable(Flatten(chunks))
    ensures (exists bytes :: Flatten(chunks) == Base64.Encode(bytes))
            ==> IsBlock(style, "\r\n" + Comments(style, chunks))
  {
    var body := Comments(style, chunks);
    CommentsPayload(style, chunks);
    FirstLineIs("", body);
    assert "" + "\r\n" + body == "\r\n" + body;
    assert chunks[0] in chunks && chunks[0] != "" && Flatten(chunks) == chunks[0] + Flatten(chunks[1..]);
    BlankLinesDoNotCount(style, Lines(body));
    forall bytes | Flatten(chunks) == Base64.Encode(bytes) ensures Base64.Decodable(Flatten(chunks)) {
      Base64.EncodedComesBack(bytes);
    }
    hide Payload, Comments, Lines, Base64.Decodable, Flatten, IsChunk;
  }

  lemma BlankLinesDoNotCount(style: Style, lines: seq<string>)
    ensures Payload(style, [""] + lines) == Payload(style, lines)
  {
    assert ([""] + lines)[1..] == lines;
    assert Trim("") == "";
  }

  // ----- removing the block -----

  function ChopNewline(s: string): string {
    var n := |s|;
    if n >= 2 && s[n - 2..] == "\r\n" then s[..n - 2] else if n >= 1 && s[n - 1] == '\n' then s[..n - 1] else s
  }

  function DropNewline(s: string): string {
    if "\r\n" <= s then s[2..] else if "\n" <= s then s[1..] else s
  }

  /** What `remove_script_signature_block` leaves. */
  function Removed(style: Style, content: string): Option<string> {
    match RFind(content, Begin(style))
    case None => None
    case Some(at) =>
      var from := at + |Begin(style)|;
      match Find(content, End(style), from)
      case None => None
      case Some(to) =>
        var after := to + |End(style)|;
        if Trim(content[after..]) != "" || !IsBlock(style, content[from..to]) then None
        else Some(ChopNewline(content[..at]) + DropNewline(content[after..]))
  }

  method RemoveBlock(style: Style, content: string) returns (r: Option<string>)
    ensures r == Removed(style, content)
  {
    hide IsBlock, RFindBefore, Find, Marker, Trim;
    var begin, end := Begin(style), End(style);
    var begins := RFind(content, begin);
    if begins.None? { return None; }
    var at := begins.value;
    var ends := Find(content, end, at + |begin|);
    if ends.None? { return None; }
    var after := ends.value + |end|;
    var valid := IsSignatureBlock(style, content[at + |begin|..ends.value]);
    if Trim(content[after..]) != "" || !valid { return None; }
    var removeStart := at;
    if at >= 2 && content[at - 2..at] == "\r\n" {
      removeStart := removeStart - 2;
    } else if at >= 1 && content[at - 1] == '\n' {
      removeStart := removeStart - 1;
    }
    var removeEnd := after;
    if "\r\n" <= content[after..] {
      removeEnd := removeEnd + 2;
    } else if "\n" <= content[after..] {
      removeEnd := removeEnd + 1;
    }
    ChopAt(content, at, removeStart);
    DropAt(content, after, removeEnd);
    return Some(content[..removeStart] + content[removeEnd..]);
  }

  lemma ChopAt(s: string, at: nat, k: nat)
    requires at <= |s|
    requires k == if at >= 2 && s[at - 2..at] == "\r\n" then at - 2
                  else if at >= 1 && s[at - 1] == '\n' then at - 1 else at
    ensures ChopNewline(s[..at]) == s[..k]
  {
    if at >= 2 { assert s[..at][at - 2..] == s[at - 2..at]; }
    assert s[..at][..k] == s[..k];
  }

  lemma DropAt(s: string, at: nat, k: nat)
    requires at <= |s|
    requires k == if "\r\n" <= s[at..] then at + 2 else if "\n" <= s[at..] then at + 1 else at
    ensures k <= |s| && DropNewline(s[at..]) == s[k..]
  {
  }

  // ----- trimming -----

  predicate Blank(s: string) {
    forall c <- s :: IsWhitespace(c)
  }

  lemma {:induction false} TrimStartCuts(s: string)
    ensures |TrimStart(s)| <= |s|
    ensures var n := |s| - |TrimStart(s)|; TrimStart(s) == s[n..] && Blank(s[..n])
    ensures TrimStart(s) != "" ==> !IsWhitespace(TrimStart(s)[0])
  {
    if s != "" && IsWhitespace(s[0]) {
      TrimStartCuts(s[1..]);
      var n := |s| - |TrimStart(s)|;
      assert s[..n] == [s[0]] + s[1..][..n - 1];
    }
  }

  lemma {:induction false} TrimEndCuts(s: string)
    ensures |TrimEnd(s)| <= |s|
    ensures TrimEnd(s) == s[..|TrimEnd(s)|] && Blank(s[|TrimEnd(s)|..])
  {
    if s != "" && IsWhitespace(s[|s| - 1]) {
      var m := |s| - 1;
      TrimEndCuts(s[..m]);
      var n := |TrimEnd(s)|;
      assert s[n..] == s[..m][n..] + [s[m]];
    }
  }

  /** Trimming cuts whitespace off both ends and nothing else. */
  lemma TrimCuts(s: string) returns (a: string, b: string)
    ensures s == a + Trim(s) + b && Blank(a) && Blank(b)
  {
    TrimStartCuts(s);
    var t := TrimStart(s);
    TrimEndCuts(t);
    a, b := s[..|s| - |t|], t[|Trim(s)|..];
  }

  lemma {:induction false} TrimmedAway(s: string)
    ensures Trim(s) == "" <==> Blank(s)
  {
    hide Trim, IsWhitespace;
    var a, b := TrimCuts(s);
    if Blank(s) { BlankTrims(s); }
  }

  lemma {:induction false} BlankTrims(s: string)
    requires Blank(s)
    ensures Trim(s) == ""
  {
    if s != "" { BlankTrims(s[1..]); }
  }

  // ----- where the hashes are -----

  /** In the hash style, no line holds two; in the others, there is none. */
  ghost predicate HashesApart(style: Style, s: string) {
    if style == Hash then forall i, j :: 0 <= i < j < |s| && s[i] == '#' && s[j] == '#' ==> '\n' in s[i..j]
    else '#' !in s
  }

  lemma AlphabetHasNoHash(c: char)
    requires Base64.Alphabet(c)
    ensures c != '#' && c != '\n'
  {
  }

  lemma LineHashes(style: Style, line: string)
    requires Trim(line) != "" ==> Encoded(style, Trim(line)).Some? && '#' !in Encoded(style, Trim(line)).value
    ensures HashesApart(style, line)
  {
    hide Trim, IsWhitespace, HashesApart, Encoded, Lead, Trail;
    var t := Trim(line);
    var a, b := TrimCuts(line);
    HashIsNotBlank();
    assert '#' !in a && '#' !in b;
    if t == "" {
      assert line == a + b;
      NoHashes(style, line);
    } else {
      var e := Encoded(style, t).value;
      EncodedIs(style, t);
      CommentHashes(style, a, e, b);
      assert line == a + Lead(style) + e + Trail(style) + b;
    }
  }

  lemma EncodedIs(style: Style, line: string)
    requires Encoded(style, line).Some?
    ensures line == Lead(style) + Encoded(style, line).value + Trail(style)
  {
    hide Lead, Trail;
  }

  lemma CommentHashes(style: Style, a: string, e: string, b: string)
    requires '#' !in a && '#' !in b && '#' !in e
    ensures HashesApart(style, a + Lead(style) + e + Trail(style) + b)
  {
    var line := a + Lead(style) + e + Trail(style) + b;
    if style == Hash {
      assert line == a + "#" + (" " + e + "" + b);
      assert forall i | 0 <= i < |line| && i != |a| :: line[i] != '#';
    } else {
      assert '#' !in Lead(style) && '#' !in Trail(style);
    }
  }

  lemma HashIsNotBlank()
    ensures !IsWhitespace('#')
  {
  }

  lemma CrHashes(style: Style, line: string)
    requires HashesApart(style, StripCr(line))
    ensures HashesApart(style, line)
  {
    if style == Hash {
      forall i, j | 0 <= i < j < |line| && line[i] == '#' && line[j] == '#' ensures '\n' in line[i..j] {
        assert StripCr(line)[i..j] == line[i..j];
      }
    }
  }

  lemma JoinHashes(style: Style, line: string, rest: string)
    requires HashesApart(style, line) && HashesApart(style, rest)
    ensures HashesApart(style, line + "\n" + rest)
  {
    if style == Hash {
      var s, n := line + "\n" + rest, |line|;
      forall i, j | 0 <= i < j < |s| && s[i] == '#' && s[j] == '#' ensures '\n' in s[i..j] {
        if j < n {
          assert s[i..j] == line[i..j];
        } else if i > n {
          assert s[i..j] == rest[i - n - 1..j - n - 1];
        } else {
          assert s[i..j][n - i] == '\n';
        }
      }
    }
  }

  lemma {:induction false} BodyHashes(style: Style, body: string)
    requires Payload(style, Lines(body)).Some? && '#' !in Payload(style, Lines(body)).value
    ensures HashesApart(style, body)
    decreases |body|
  {
    hide Trim, Encoded, HashesApart, IndexOf;
    if body == "" {
      NoHashes(style, body);
    } else {
      match IndexOf(body, '\n')
      case None =>
        LineHashes(style, body);
      case Some(i) =>
        assert Lines(body)[1..] == Lines(body[i + 1..]);
        LineHashes(style, StripCr(body[..i]));
        CrHashes(style, body[..i]);
        BodyHashes(style, body[i + 1..]);
        JoinHashes(style, body[..i], body[i + 1..]);
        assert body == body[..i] + "\n" + body[i + 1..];
    }
  }

  lemma NoHashes(style: Style, s: string)
    requires '#' !in s
    ensures HashesApart(style, s)
  {
  }

  lemma BlockHashes(style: Style, body: string)
    requires IsBlock(style, body)
    ensures HashesApart(style, body)
  {
    hide HashesApart, Payload;
    var p := Payload(style, Lines(body)).value;
    Base64.DecodableAlphabet(p);
    if '#' in p { AlphabetHasNoHash('#'); }
    BodyHashes(style, body);
  }

  // ----- where the markers are -----

  /** Position of the hash of "SIG #". */
  function HashAt(style: Style): nat {
    |Lead(style)| + 4
  }

  /** A marker has its hash, two characters on the first letter of its word, and no other hash except the one a
      hash-style marker starts with. */
  predicate MarkerShape(style: Style, m: string, letter: char) {
    var h := HashAt(style);
    && |m| > h + 7 && m[h] == '#' && m[h + 2] == letter && m[h - 4] == 'S' && '\n' !in m
    && (forall i | 0 <= i < |m| && m[i] == '#' :: i == h || (style == Hash && i == 0))
    && (style == Hash ==> m[0] == '#')
  }

  lemma MarkersShape(style: Style)
    ensures MarkerShape(style, Begin(style), 'B') && MarkerShape(style, End(style), 'E')
  {
    WordShape(style, "Begin");
    WordShape(style, "End");
  }

  lemma WordShape(style: Style, word: string)
    requires word != "" && '#' !in word && '\n' !in word
    ensures MarkerShape(style, Marker(style, word), word[0])
  {
    var m, h := Marker(style, word), HashAt(style);
    var front, back := Lead(style) + "SIG ", " " + word + " signature block" + Trail(style);
    PartsMake(style, word);
    assert '#' !in back && '\n' !in back && '\n' !in front;
    assert |front| == h && m == front + "#" + back;
    assert forall i | 0 <= i < |front| && front[i] == '#' :: style == Hash && i == 0;
  }

  lemma PartsMake(style: Style, word: string)
    ensures Marker(style, word) == Lead(style) + "SIG " + "#" + (" " + word + " signature block" + Trail(style))
    ensures '#' !in " signature block" && '\n' !in " signature block"
  {
    assert "SIG # " == "SIG " + "#" + " ";
  }

  /** A signed script cut at its markers. */
  function Signed(style: Style, head: string, body: string, tail: string): string {
    head + Begin(style) + body + End(style) + tail
  }

  /** Characters of five texts in a row. */
  lemma CharAt(a: string, b: string, c: string, d: string, e: string, i: nat)
    requires i < |a + b + c + d + e|
    ensures var (j, k, l) := (|a|, |a| + |b|, |a| + |b| + |c|);
            (a + b + c + d + e)[i] == if i < j then a[i] else if i < k then b[i - j] else if i < l then c[i - k]
                                      else if i < l + |d| then d[i - l] else e[i - l - |d|]
  {
  }

  /** A marker inside a body would have its two hashes on one line. */
  lemma MarkerOnOneLine(head: string, body: string, rest: string, m: string, k: nat)
    requires '\n' !in m && |m| > 6 && m[0] == '#' && m[6] == '#'
    requires |head| <= k && k + 6 < |head| + |body| && OccursAt(head + body + rest, m, k)
    ensures var i := k - |head|; body[i] == '#' && body[i + 6] == '#' && '\n' !in body[i..i + 6]
  {
    var t, i := head + body + rest, k - |head|;
    forall j | i <= j <= i + 6 ensures body[j] == m[j - i] {
      assert body[j] == t[|head| + j] == t[k..k + |m|][j - i];
    }
    assert body[i..i + 6] == m[..6];
  }

  /** The only markers at or behind the block's begin are the block's own. */
  lemma MarkersAreTheBlocks(style: Style, head: string, begin: string, body: string, end: string, tail: string,
                            m: string, letter: char, k: nat)
    requires MarkerShape(style, begin, 'B') && MarkerShape(style, end, 'E') && MarkerShape(style, m, letter)
    requires letter != 'S' && HashesApart(style, body) && '#' !in tail
    requires |head| <= k && OccursAt(head + begin + body + end + tail, m, k)
    ensures (letter == 'B' && k == |head|) || (letter == 'E' && k == |head + begin + body|)
  {
    var t, h := head + begin + body + end + tail, HashAt(style);
    assert t[k..k + |m|][0] == t[k] && t[k..k + |m|][h] == t[k + h] && t[k..k + |m|][h + 2] == t[k + h + 2];
    CharAt(head, begin, body, end, tail, k);
    CharAt(head, begin, body, end, tail, k + h);
    CharAt(head, begin, body, end, tail, k + h + 2);
    if style == Hash && |head + begin| <= k {
      assert head + begin + body + (end + tail) == t;
      if k + h < |head + begin + body| { MarkerOnOneLine(head + begin, body, end + tail, m, k); }
    }
  }

  // ----- what is removed -----

  lemma OccursHere(a: string, needle: string, b: string)
    ensures OccursAt(a + needle + b, needle, |a|)
  {
  }

  lemma BeginFound(style: Style, head: string, begin: string, body: string, end: string, tail: string)
    requires MarkerShape(style, begin, 'B') && MarkerShape(style, end, 'E') && HashesApart(style, body) && '#' !in tail
    ensures RFind(head + begin + body + end + tail, begin) == Some(|head|)
  {
    hide MarkerShape, HashesApart, RFindBefore, OccursAt;
    var t := head + begin + body + end + tail;
    assert t == head + begin + (body + end + tail);
    OccursHere(head, begin, body + end + tail);
    forall k | |head| < k ensures !OccursAt(t, begin, k) {
      if OccursAt(t, begin, k) { MarkersAreTheBlocks(style, head, begin, body, end, tail, begin, 'B', k); }
    }
    RFindIs(t, begin, |head|);
  }

  lemma EndFound(style: Style, head: string, begin: string, body: string, end: string, tail: string)
    requires MarkerShape(style, begin, 'B') && MarkerShape(style, end, 'E') && HashesApart(style, body) && '#' !in tail
    ensures Find(head + begin + body + end + tail, end, |head + begin|) == Some(|head + begin + body|)
  {
    hide MarkerShape, HashesApart, Find, OccursAt;
    var t := head + begin + body + end + tail;
    OccursHere(head + begin + body, end, tail);
    forall k | |head + begin| <= k < |head + begin + body| ensures !OccursAt(t, end, k) {
      if OccursAt(t, end, k) { MarkersAreTheBlocks(style, head, begin, body, end, tail, end, 'E', k); }
    }
    FindIs(t, end, |head + begin|, |head + begin + body|);
  }

  /** The block of a signed script is found, whatever markers stand in front of it. */
  lemma BlockIsFound(style: Style, head: string, body: string, tail: string)
    requires IsBlock(style, body) && Blank(tail)
    ensures var t := Signed(style, head, body, tail);
            && RFind(t, Begin(style)) == Some(|head|)
            && Find(t, End(style), |head + Begin(style)|) == Some(|head + Begin(style) + body|)
  {
    MarkersShape(style);
    BlockHashes(style, body);
    if '#' in tail { HashIsNotBlank(); }
    hide IsBlock, MarkerShape, HashesApart, Blank, Begin, End, RFind, Find;
    BeginFound(style, head, Begin(style), body, End(style), tail);
    EndFound(style, head, Begin(style), body, End(style), tail);
  }

  lemma SignedParts(style: Style, head: string, body: string, tail: string)
    ensures var t := Signed(style, head, body, tail);
            var from, to := |head + Begin(style)|, |head + Begin(style) + body|;
            |head| <= from <= to <= to + |End(style)| <= |t| && from == |head| + |Begin(style)|
            && t[..|head|] == head && t[from..to] == body && t[to + |End(style)|..] == tail
  {
    hide Begin, End;
  }

  /** Removal applied to a signed script: the head without the line break before the block, and what trails the one
      behind it. */
  lemma SignedIsRemoved(style: Style, head: string, body: string, tail: string)
    requires IsBlock(style, body) && Blank(tail)
    ensures Removed(style, Signed(style, head, body, tail)) == Some(ChopNewline(head) + DropNewline(tail))
  {
    hide IsBlock, Blank, Begin, End, RFind, Find, Trim, ChopNewline, DropNewline, Signed;
    BlockIsFound(style, head, body, tail);
    TrimmedAway(tail);
    SignedParts(style, head, body, tail);
  }

  /** A script is changed exactly when it is a signed script with only white space behind the block, and then by
      taking out the block. */
  lemma RemovesExactly(style: Style, content: string, unsigned: string)
    ensures Removed(style, content) == Some(unsigned)
            <==> exists head: string, body: string, tail: string ::
                   && content == Signed(style, head, body, tail) && IsBlock(style, body) && Blank(tail)
                   && unsigned == ChopNewline(head) + DropNewline(tail)
  {
    if Removed(style, content) == Some(unsigned) {
      RemovedWasSigned(style, content);
    }
    forall head: string, body: string, tail: string
      | content == Signed(style, head, body, tail) && IsBlock(style, body) && Blank(tail)
      ensures Removed(style, content) == Some(ChopNewline(head) + DropNewline(tail))
    {
      SignedIsRemoved(style, head, body, tail);
    }
  }

  lemma RemovedWasSigned(style: Style, content: string)
    requires Removed(style, content).Some?
    ensures exists head: string, body: string, tail: string ::
              && content == Signed(style, head, body, tail) && IsBlock(style, body) && Blank(tail)
              && Removed(style, content).value == ChopNewline(head) + DropNewline(tail)
  {
    hide IsBlock, Blank, Marker, RFindBefore, Find, Trim, ChopNewline, DropNewline;
    var begin, end := Begin(style), End(style);
    var at := RFind(content, begin).value;
    var from := at + |begin|;
    var to := Find(content, end, from).value;
    var head, body, tail := content[..at], content[from..to], content[to + |end|..];
    TrimmedAway(tail);
    assert content == Signed(style, head, body, tail);
  }

  // ----- the round trip -----

  /** What may follow the end marker without leaving anything behind. */
  predicate IsBreak(s: string) {
    s == "" || s == "\n" || s == "\r\n"
  }

  lemma BreakIsDropped(s: string)
    requires IsBreak(s)
    ensures Blank(s) && DropNewline(s) == ""
  {
  }

  lemma ChopCrLf(content: string)
    ensures ChopNewline(content + "\r\n") == content
  {
    var n := |content| + 2;
    assert (content + "\r\n")[n - 2..] == "\r\n";
  }

  lemma ChopLf(content: string)
    ensures ChopNewline(content + "\n") == content <==> !(content != "" && content[|content| - 1] == '\r')
  {
    var s, n := content + "\n", |content|;
    if n > 0 { assert s[n - 1..] == [content[n - 1], '\n']; }
    assert s[..n] == content;
  }

  lemma ChopNothing(content: string)
    ensures ChopNewline(content) == content <==> !(content != "" && content[|content| - 1] == '\n')
  {
  }

  lemma HeadComesBack(style: Style, head: string, body: string, newline: string)
    requires IsBlock(style, body) && IsBreak(newline)
    ensures Removed(style, Signed(style, head, body, newline)) == Some(ChopNewline(head))
  {
    BreakIsDropped(newline);
    SignedIsRemoved(style, head, body, newline);
    hide IsBlock, Removed, Signed, ChopNewline, DropNewline;
    assert ChopNewline(head) + "" == ChopNewline(head);
  }

  /** A block appended behind CR LF comes off without a trace, whatever the content. */
  lemma UnsignsExactly(style: Style, content: string, body: string, newline: string)
    requires IsBlock(style, body) && IsBreak(newline)
    ensures Removed(style, Signed(style, content + "\r\n", body, newline)) == Some(content)
  {
    HeadComesBack(style, content + "\r\n", body, newline);
    ChopCrLf(content);
  }

  /** Behind LF alone, exactly the contents that do not end in CR come back, */
  lemma UnsignsBehindLf(style: Style, content: string, body: string, newline: string)
    requires IsBlock(style, body) && IsBreak(newline)
    ensures Removed(style, Signed(style, content + "\n", body, newline)) == Some(content)
            <==> !(content != "" && content[|content| - 1] == '\r')
  {
    hide IsBlock, IsBreak, Removed, Signed, ChopNewline;
    HeadComesBack(style, content + "\n", body, newline);
    ChopLf(content);
  }

  /** and with nothing between, exactly those that do not end in a line break. */
  lemma UnsignsWithoutBreak(style: Style, content: string, body: string, newline: string)
    requires IsBlock(style, body) && IsBreak(newline)
    ensures Removed(style, Signed(style, content, body, newline)) == Some(content)
            <==> !(content != "" && content[|content| - 1] == '\n')
  {
    hide IsBlock, IsBreak, Removed, Signed, ChopNewline;
    HeadComesBack(style, content, body, newline);
    ChopNothing(content);
  }

  // ----- the file that is written back -----

  datatype Outcome = Undecodable | Unchanged | Rewritten(bytes: seq<byte>)

  /** `remove_powershell_signature`, as bytes in and bytes out. */
  function RemoveFromFile(style: Style, file: seq<byte>): Outcome {
    match E.Decode(file)
    case Err => Undecodable
    case Ok(script) =>
      match Removed(style, script.content)
      case None => Unchanged
      case Some(unsigned) => Rewritten(E.Encode(script.encoding, unsigned))
  }

  lemma SignedIsContentAndRest(style: Style, content: string, body: string, newline: string) returns (rest: string)
    ensures Signed(style, content + "\r\n", body, newline) == content + rest
  {
    hide Begin, End;
    rest := "\r\n" + Begin(style) + body + End(style) + newline;
    assert content + "\r\n" + Begin(style) + body + End(style) + newline == content + rest;
  }

  /** In all four encodings, unsigning cuts the file short and changes no byte in front. */
  lemma RewrittenIsPrefix(style: Style, file: seq<byte>, content: string, body: string, newline: string)
    requires IsBlock(style, body) && IsBreak(newline)
    requires E.Decode(file).Ok? && E.Decode(file).value.content == Signed(style, content + "\r\n", body, newline)
    ensures var r := RemoveFromFile(style, file);
            r.Rewritten? && r.bytes <= file && r.bytes == E.Encode(E.Decode(file).value.encoding, content)
  {
    hide IsBlock, IsBreak, Removed, Signed, E.Decode, E.Text;
    UnsignsExactly(style, content, body, newline);
    E.DecodedEncodesBack(file);
    var e := E.Decode(file).value.encoding;
    var rest := SignedIsContentAndRest(style, content, body, newline);
    E.TextAppend(e, content, rest);
    assert file == E.Encode(e, content) + E.Text(e, rest);
  }

  /** And decoding what is written gives the content in the encoding it had, unless an unmarked file would begin
      with the mark character. */
  lemma RewrittenReadsBack(style: Style, file: seq<byte>)
    requires RemoveFromFile(style, file).Rewritten?
    ensures var script := E.Decode(file).value;
            var unsigned := Removed(style, script.content).value;
            E.Decode(RemoveFromFile(style, file).bytes) == Ok(E.Script(unsigned, script.encoding))
            <==> !(script.encoding == E.Utf8File(false) && E.StartsWithMark(unsigned))
  {
    hide Removed, E.Encode;
    var script := E.Decode(file).value;
    hide E.Decode;
    E.EncodedDecodes(script.encoding, Removed(style, script.content).value);
  }
}
