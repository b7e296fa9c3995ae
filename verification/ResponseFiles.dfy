/** Response files: one argument per line, `@path` lines spliced in, blank lines between commands. */
module ResponseFiles {
  import opened Wrappers
  import opened Sequences
  import opened Text

  /** The decoded text of every readable response file. */
  type Texts = map<string, string>

  const MAX_DEPTH: nat := 8
  const MAX_LINES: nat := 4096

  // ----- one line -----

  function TrimEndCr(s: string): string {
    if s != "" && s[|s| - 1] == '\r' then TrimEndCr(s[..|s| - 1]) else s
  }

  function NormalizedLine(line: string): string {
    Trim(TrimEndCr(line))
  }

  /** `replace("\"\"", "\"")`. */
  function Halve(s: string): string {
    if |s| >= 2 && s[0] == '"' && s[1] == '"' then "\"" + Halve(s[2..])
    else if s == "" then ""
    else [s[0]] + Halve(s[1..])
  }

  /** `decode_response_arg_token`. */
  function DecodeToken(line: string): string {
    var t := Trim(line);
    if |t| >= 2 && t[0] == '"' && t[|t| - 1] == '"' then Halve(t[1..|t| - 1]) else t
  }

  datatype Line = Blank | Include(path: string) | Arg(text: string)

  /** What a line asks for. Quoting does not protect a leading '@', and neither does doubling it. */
  function LineOf(raw: string): Line {
    var t := NormalizedLine(raw);
    if t == "" then Blank
    else var d := DecodeToken(t); if |d| >= 2 && d[0] == '@' then Include(d[1..]) else Arg(d)
  }

  // ----- reading -----

  /** `read_flat_args_from_file`. */
  function ReadFlat(texts: Texts, path: string, depth: nat): Result<seq<string>>
    decreases if depth > MAX_DEPTH then 0 else MAX_DEPTH + 1 - depth, 1, 0
  {
    if depth > MAX_DEPTH || path !in texts || |Lines(texts[path])| > MAX_LINES then Err
    else ReadLines(texts, Lines(texts[path]), depth)
  }

  function ReadLine(texts: Texts, raw: string, depth: nat): Result<seq<string>>
    requires depth <= MAX_DEPTH
    decreases MAX_DEPTH + 1 - depth, 0, 0
  {
    match LineOf(raw)
    case Blank => Ok([])
    case Include(path) => ReadFlat(texts, path, depth + 1)
    case Arg(text) => Ok([text])
  }

  function ReadLines(texts: Texts, lines: seq<string>, depth: nat): Result<seq<string>>
    requires depth <= MAX_DEPTH
    decreases MAX_DEPTH + 1 - depth, 0, |lines|
  {
    if lines == [] then Ok([])
    else match (ReadLine(texts, lines[0], depth), ReadLines(texts, lines[1..], depth))
      case (Ok(first), Ok(rest)) => Ok(first + rest)
      case _ => Err
  }

  function Prepend(out: seq<string>, r: Result<seq<string>>): Result<seq<string>> {
    match r case Err => Err case Ok(rest) => Ok(out + rest)
  }

  /** `append_response_line`: what the line adds to the arguments. */
  method AppendResponseLine(texts: Texts, raw: string, depth: nat) returns (r: Result<seq<string>>)
    requires depth <= MAX_DEPTH
    ensures r == ReadLine(texts, raw, depth)
    decreases MAX_DEPTH + 1 - depth, 0
  {
    hide DecodeToken, NormalizedLine, ReadFlat;
    var t := NormalizedLine(raw);
    if t == "" { return Ok([]); }
    var decoded := DecodeToken(t);
    if |decoded| >= 2 && decoded[0] == '@' {
      r := ReadFlatArgs(texts, decoded[1..], depth + 1);
    } else {
      r := Ok([decoded]);
    }
  }

  method ReadFlatArgs(texts: Texts, path: string, depth: nat) returns (r: Result<seq<string>>)
    ensures r == ReadFlat(texts, path, depth)
    decreases if depth > MAX_DEPTH then 0 else MAX_DEPTH + 1 - depth, 1
  {
    hide Lines, ReadLine, ReadLines;
    if depth > MAX_DEPTH || path !in texts { return Err; }
    var lines := Lines(texts[path]);
    var out: seq<string>, linesSeen := [], 0;
    assert lines[0..] == lines;
    PrependNothing(ReadLines(texts, lines, depth));
    while linesSeen < |lines|
      invariant linesSeen <= |lines| && linesSeen <= MAX_LINES
      invariant ReadLines(texts, lines, depth) == Prepend(out, ReadLines(texts, lines[linesSeen..], depth))
    {
      var line := lines[linesSeen];
      if linesSeen + 1 > MAX_LINES { return Err; }
      ReadLinesStep(texts, lines[linesSeen..], depth);
      assert lines[linesSeen..][1..] == lines[linesSeen + 1..];
      linesSeen := linesSeen + 1;
      var more := AppendResponseLine(texts, line, depth);
      if more.Err? { return Err; }
      PrependMore(out, more.value, ReadLines(texts, lines[linesSeen..], depth));
      out := out + more.value;
    }
    ReadNoLines(texts, depth);
    assert lines[linesSeen..] == [] && out + [] == out;
    return Ok(out);
  }

  lemma ReadLinesStep(texts: Texts, lines: seq<string>, depth: nat)
    requires depth <= MAX_DEPTH && lines != []
    ensures ReadLines(texts, lines, depth) == match ReadLine(texts, lines[0], depth)
                                              case Err => Err
                                              case Ok(first) => Prepend(first, ReadLines(texts, lines[1..], depth))
  {
  }

  lemma ReadNoLines(texts: Texts, depth: nat)
    requires depth <= MAX_DEPTH
    ensures ReadLines(texts, [], depth) == Ok([])
  {
  }

  lemma PrependNothing(r: Result<seq<string>>)
    ensures Prepend([], r) == r
  {
    if r.Ok? { assert [] + r.value == r.value; }
  }

  lemma PrependMore(out: seq<string>, more: seq<string>, r: Result<seq<string>>)
    ensures Prepend(out, Prepend(more, r)) == Prepend(out + more, r)
  {
    if r.Ok? { assert out + (more + r.value) == (out + more) + r.value; }
  }

  // ----- a success is an inlining -----

  /** The lines of a file with every included file spelled out in its place. */
  datatype Inlining = Nothing | Plain(text: string, rest: Inlining)
      | Spliced(path: string, body: Inlining, rest: Inlining)

  predicate Readable(texts: Texts, path: string) {
    path in texts && |Lines(texts[path])| <= 4096
  }

  predicate Inlines(texts: Texts, lines: seq<string>, tree: Inlining)
    decreases tree, |lines|
  {
    if lines == [] then tree == Nothing
    else match LineOf(lines[0])
      case Blank => Inlines(texts, lines[1..], tree)
      case Include(path) =>
        && tree.Spliced? && tree.path == path && Readable(texts, path)
        && Inlines(texts, Lines(texts[path]), tree.body) && Inlines(texts, lines[1..], tree.rest)
      case Arg(text) => tree.Plain? && tree.text == text && Inlines(texts, lines[1..], tree.rest)
  }

  /** How deep files are nested. */
  function Height(tree: Inlining): nat {
    match tree
    case Nothing => 0
    case Plain(_, rest) => Height(rest)
    case Spliced(_, body, rest) => if 1 + Height(body) > Height(rest) then 1 + Height(body) else Height(rest)
  }

  /** The arguments, in order. */
  function Yield(tree: Inlining): seq<string> {
    match tree
    case Nothing => []
    case Plain(text, rest) => [text] + Yield(rest)
    case Spliced(_, body, rest) => Yield(body) + Yield(rest)
  }

  lemma ReadFlatIs(texts: Texts, path: string, depth: nat)
    ensures ReadFlat(texts, path, depth)
            == if Stops(texts, path, depth) then Err else ReadLines(texts, Lines(texts[path]), depth)
  {
    hide Lines;
  }

  lemma {:induction false} InliningIsRead(texts: Texts, lines: seq<string>, tree: Inlining, depth: nat)
    requires Inlines(texts, lines, tree) && Height(tree) + depth <= MAX_DEPTH
    ensures ReadLines(texts, lines, depth) == Ok(Yield(tree))
    decreases tree, |lines|
  {
    hide LineOf, Lines, ReadFlat;
    if lines != [] {
      match LineOf(lines[0])
      case Blank =>
        InliningIsRead(texts, lines[1..], tree, depth);
        assert [] + Yield(tree) == Yield(tree);
      case Include(path) =>
        ReadFlatIs(texts, path, depth + 1);
        InliningIsRead(texts, Lines(texts[path]), tree.body, depth + 1);
        InliningIsRead(texts, lines[1..], tree.rest, depth);
      case Arg(_) =>
        InliningIsRead(texts, lines[1..], tree.rest, depth);
    }
  }

  lemma {:induction false} ReadIsInlining(texts: Texts, lines: seq<string>, depth: nat) returns (tree: Inlining)
    requires depth <= MAX_DEPTH && ReadLines(texts, lines, depth).Ok?
    ensures Inlines(texts, lines, tree) && Height(tree) + depth <= MAX_DEPTH
    decreases MAX_DEPTH - depth, |lines|
  {
    hide LineOf, Lines, ReadFlat;
    if lines == [] {
      tree := Nothing;
    } else {
      tree := ReadIsInlining(texts, lines[1..], depth);
      match LineOf(lines[0])
      case Blank =>
      case Include(path) =>
        ReadFlatIs(texts, path, depth + 1);
        var body := ReadIsInlining(texts, Lines(texts[path]), depth + 1);
        tree := Spliced(path, body, tree);
      case Arg(text) =>
        tree := Plain(text, tree);
    }
  }

  /** Reading a file succeeds exactly when its includes unfold, no deeper than the limit, into readable files, and then
      gives their lines in order. */
  lemma ReadsExactly(texts: Texts, path: string, args: seq<string>)
    ensures ReadFlat(texts, path, 0) == Ok(args)
            <==> Readable(texts, path)
                 && exists tree ::
                      Inlines(texts, Lines(texts[path]), tree) && Height(tree) <= 8 && args == Yield(tree)
  {
    hide Lines, ReadLines, Inlines, Height, Yield;
    if Readable(texts, path) {
      var lines := Lines(texts[path]);
      if ReadFlat(texts, path, 0).Ok? {
        var tree := ReadIsInlining(texts, lines, 0);
        InliningIsRead(texts, lines, tree, 0);
      }
      forall tree | Inlines(texts, lines, tree) && Height(tree) <= 8
        ensures ReadLines(texts, lines, 0) == Ok(Yield(tree))
      {
        InliningIsRead(texts, lines, tree, 0);
      }
    }
  }

  // ----- when reading fails -----

  predicate Includes(texts: Texts, path: string, child: string) {
    path in texts && exists line <- Lines(texts[path]) :: LineOf(line) == Include(child)
  }

  /** A chain of includes. */
  predicate Walk(texts: Texts, w: seq<string>) {
    w != [] && forall i | 0 <= i < |w| - 1 :: Includes(texts, w[i], w[i + 1])
  }

  /** What stops a reader at this depth. */
  predicate Stops(texts: Texts, path: string, depth: nat) {
    depth > 8 || !Readable(texts, path)
  }

  lemma {:induction false} FailedLine(texts: Texts, lines: seq<string>, line: string, depth: nat)
    requires depth <= MAX_DEPTH && line in lines && ReadLine(texts, line, depth) == Err
    ensures ReadLines(texts, lines, depth) == Err
  {
    hide ReadLine;
    if line != lines[0] { FailedLine(texts, lines[1..], line, depth); }
  }

  lemma {:induction false} LineThatFailed(texts: Texts, lines: seq<string>, depth: nat) returns (line: string)
    requires depth <= MAX_DEPTH && ReadLines(texts, lines, depth) == Err
    ensures line in lines && ReadLine(texts, line, depth) == Err
  {
    hide ReadLine;
    if ReadLine(texts, lines[0], depth) == Err {
      line := lines[0];
    } else {
      line := LineThatFailed(texts, lines[1..], depth);
    }
  }

  lemma WalkOn(texts: Texts, w: seq<string>)
    requires Walk(texts, w) && |w| > 1
    ensures Walk(texts, w[1..])
  {
    hide Includes;
    forall i | 0 <= i < |w| - 2 ensures Includes(texts, w[1..][i], w[1..][i + 1]) {
      assert Includes(texts, w[i + 1], w[i + 1 + 1]);
    }
  }

  lemma {:induction false} StoppedWalkFails(texts: Texts, w: seq<string>, depth: nat)
    requires Walk(texts, w) && Stops(texts, w[|w| - 1], depth + |w| - 1)
    ensures ReadFlat(texts, w[0], depth) == Err
    decreases |w|
  {
    hide Lines, ReadLines, LineOf;
    if |w| > 1 && !Stops(texts, w[0], depth) {
      assert Includes(texts, w[0], w[1]);
      WalkOn(texts, w);
      StoppedWalkFails(texts, w[1..], depth + 1);
      var line :| line in Lines(texts[w[0]]) && LineOf(line) == Include(w[1]);
      FailedLine(texts, Lines(texts[w[0]]), line, depth);
    }
  }

  lemma {:induction false} FailureHasWalk(texts: Texts, path: string, depth: nat) returns (w: seq<string>)
    requires ReadFlat(texts, path, depth) == Err
    ensures Walk(texts, w) && w[0] == path && Stops(texts, w[|w| - 1], depth + |w| - 1)
    decreases MAX_DEPTH + 1 - depth
  {
    hide Lines, ReadLines, LineOf;
    if Stops(texts, path, depth) {
      w := [path];
    } else {
      var line := LineThatFailed(texts, Lines(texts[path]), depth);
      var child := LineOf(line).path;
      var rest := FailureHasWalk(texts, child, depth + 1);
      w := [path] + rest;
      assert Includes(texts, path, child);
    }
  }

  /** Following `w`, a reader that starts at this depth has to stop. */
  predicate LeadsToStop(texts: Texts, path: string, depth: nat, w: seq<string>) {
    Walk(texts, w) && w[0] == path && Stops(texts, w[|w| - 1], depth + |w| - 1)
  }

  /** Reading fails exactly when some chain of includes leads below the depth limit or to a file that cannot be read. */
  lemma FailsExactly(texts: Texts, path: string, depth: nat)
    ensures ReadFlat(texts, path, depth) == Err <==> exists w :: LeadsToStop(texts, path, depth, w)
  {
    if ReadFlat(texts, path, depth) == Err {
      var w := FailureHasWalk(texts, path, depth);
      assert LeadsToStop(texts, path, depth, w);
    }
    forall w | LeadsToStop(texts, path, depth, w) ensures ReadFlat(texts, path, depth) == Err {
      StoppedWalkFails(texts, w, depth);
    }
  }

  lemma JoinWalks(texts: Texts, a: seq<string>, b: seq<string>)
    requires Walk(texts, a) && Walk(texts, b) && a[|a| - 1] == b[0]
    ensures Walk(texts, a + b[1..])
  {
    hide Includes;
    var w := a + b[1..];
    forall i | 0 <= i < |w| - 1 ensures Includes(texts, w[i], w[i + 1]) {
      if i >= |a| - 1 { assert w[i] == b[i - |a| + 1] && w[i + 1] == b[i - |a| + 2]; }
    }
  }

  lemma {:induction false} AroundAndAround(texts: Texts, to: seq<string>, cycle: seq<string>, n: nat)
    returns (w: seq<string>)
    requires Walk(texts, to) && Walk(texts, cycle) && |cycle| > 1
    requires to[|to| - 1] == cycle[0] == cycle[|cycle| - 1]
    ensures Walk(texts, w) && w[0] == to[0] && w[|w| - 1] == cycle[0] && |w| > n
  {
    hide Walk;
    assert to != [] by { WalkStarts(texts, to); }
    if n == 0 {
      w := to;
    } else {
      var shorter := AroundAndAround(texts, to, cycle, n - 1);
      JoinWalks(texts, shorter, cycle);
      w := shorter + cycle[1..];
      assert w[|w| - 1] == cycle[|cycle| - 1];
    }
  }

  lemma WalkStarts(texts: Texts, w: seq<string>)
    requires Walk(texts, w)
    ensures w != []
  {
  }

  /** A reachable cycle of includes is an error, whatever the files on it say. */
  lemma CycleFails(texts: Texts, to: seq<string>, cycle: seq<string>, depth: nat)
    requires Walk(texts, to) && Walk(texts, cycle) && |cycle| > 1
    requires to[|to| - 1] == cycle[0] == cycle[|cycle| - 1]
    ensures ReadFlat(texts, to[0], depth) == Err
  {
    hide ReadFlat, Walk;
    WalkStarts(texts, to);
    var w := AroundAndAround(texts, to, cycle, MAX_DEPTH + 1);
    StoppedWalkFails(texts, w, depth);
  }

  // ----- command blocks -----

  function Close(current: seq<string>): seq<seq<string>> {
    if current == [] then [] else [current]
  }

  function Behind(blocks: seq<seq<string>>, r: Result<seq<seq<string>>>): Result<seq<seq<string>>> {
    match r case Err => Err case Ok(rest) => Ok(blocks + rest)
  }

  /** The blocks of the lines that are left, with an open block in front. */
  function BlocksFrom(texts: Texts, lines: seq<string>, current: seq<string>): Result<seq<seq<string>>>
    decreases |lines|
  {
    if lines == [] then Ok(Close(current))
    else if LineOf(lines[0]) == Blank then Behind(Close(current), BlocksFrom(texts, lines[1..], []))
    else match ReadLine(texts, lines[0], 0) case Err => Err
      case Ok(args) => BlocksFrom(texts, lines[1..], current + args)
  }

  /** `parse_multi_command_blocks`. */
  function ParseBlocks(texts: Texts, text: string): Result<seq<seq<string>>> {
    if |Lines(text)| > MAX_LINES then Err
    else match BlocksFrom(texts, Lines(text), [])
      case Err => Err
      case Ok(blocks) => if blocks == [] then Err else Ok(blocks)
  }

  method ParseMultiCommandBlocks(texts: Texts, text: string) returns (r: Result<seq<seq<string>>>)
    ensures r == ParseBlocks(texts, text)
  {
    hide Lines, ReadLine, BlocksFrom, LineOf;
    var lines := Lines(text);
    var blocks: seq<seq<string>>, current: seq<string>, linesSeen := [], [], 0;
    ghost var whole := BlocksFrom(texts, lines, []);
    assert lines[0..] == lines;
    BehindNothing(whole);
    while linesSeen < |lines|
      invariant linesSeen <= |lines| && linesSeen <= MAX_LINES
      invariant whole == Behind(blocks, BlocksFrom(texts, lines[linesSeen..], current))
    {
      var line := lines[linesSeen];
      if linesSeen + 1 > MAX_LINES { return Err; }
      BlocksStep(texts, lines[linesSeen..], current);
      assert lines[linesSeen..][1..] == lines[linesSeen + 1..];
      linesSeen := linesSeen + 1;
      BlankExactly(line);
      if NormalizedLine(line) == "" {
        BehindMore(blocks, Close(current), BlocksFrom(texts, lines[linesSeen..], []));
        if current != [] {
          blocks := blocks + [current];
          current := [];
        } else {
          assert blocks + [] == blocks;
        }
        continue;
      }
      var more := AppendResponseLine(texts, line, 0);
      if more.Err? { return Err; }
      current := current + more.value;
    }
    NoBlocksLeft(texts, current);
    assert lines[linesSeen..] == [];
    if current != [] { blocks := blocks + [current]; } else { assert blocks + [] == blocks; }
    if blocks == [] { return Err; }
    return Ok(blocks);
  }

  lemma BlankExactly(line: string)
    ensures LineOf(line) == Blank <==> NormalizedLine(line) == ""
  {
    hide NormalizedLine, DecodeToken;
  }

  lemma BlocksStep(texts: Texts, lines: seq<string>, current: seq<string>)
    requires lines != []
    ensures BlocksFrom(texts, lines, current)
            == if LineOf(lines[0]) == Blank then Behind(Close(current), BlocksFrom(texts, lines[1..], []))
               else match ReadLine(texts, lines[0], 0) case Err => Err
                 case Ok(args) => BlocksFrom(texts, lines[1..], current + args)
  {
    hide LineOf, ReadLine;
  }

  lemma NoBlocksLeft(texts: Texts, current: seq<string>)
    ensures BlocksFrom(texts, [], current) == Ok(Close(current))
  {
  }

  lemma BehindNothing(r: Result<seq<seq<string>>>)
    ensures Behind([], r) == r
  {
    if r.Ok? { assert [] + r.value == r.value; }
  }

  lemma BehindMore(blocks: seq<seq<string>>, more: seq<seq<string>>, r: Result<seq<seq<string>>>)
    ensures Behind(blocks, Behind(more, r)) == Behind(blocks + more, r)
  {
    if r.Ok? { assert blocks + (more + r.value) == (blocks + more) + r.value; }
  }

  /** Blocks are what reading the lines flat gives, cut into non-empty pieces. */
  lemma {:induction false} BlocksAreTheFlatReading(texts: Texts, lines: seq<string>, current: seq<string>)
    ensures var blocks, flat := BlocksFrom(texts, lines, current), ReadLines(texts, lines, 0);
            && (blocks.Ok? <==> flat.Ok?)
            && (blocks.Ok? ==> Flatten(blocks.value) == current + flat.value && forall b <- blocks.value :: b != [])
    decreases |lines|
  {
    hide LineOf, ReadLine;
    if lines == [] {
      ReadNoLines(texts, 0);
      CloseFlattens(current);
      assert current + [] == current;
    } else {
      BlocksStep(texts, lines, current);
      ReadLinesStep(texts, lines, 0);
      hide BlocksFrom, ReadLines;
      if LineOf(lines[0]) == Blank {
        BlankReadsNothing(texts, lines[0]);
        BlocksAreTheFlatReading(texts, lines[1..], []);
        var rest := BlocksFrom(texts, lines[1..], []);
        if rest.Ok? {
          FlattenAppend(Close(current), rest.value);
          CloseFlattens(current);
          var flat := ReadLines(texts, lines[1..], 0).value;
          assert [] + flat == flat;
        }
      } else {
        match ReadLine(texts, lines[0], 0)
        case Err =>
        case Ok(args) =>
          BlocksAreTheFlatReading(texts, lines[1..], current + args);
          var flat := ReadLines(texts, lines[1..], 0);
          if flat.Ok? { assert current + (args + flat.value) == (current + args) + flat.value; }
      }
    }
  }

  lemma CloseFlattens(current: seq<string>)
    ensures Flatten(Close(current)) == current && forall b <- Close(current) :: b != []
  {
    FlattenSingle(current);
  }

  lemma BlankReadsNothing(texts: Texts, line: string)
    requires LineOf(line) == Blank
    ensures ReadLine(texts, line, 0) == Ok([])
  {
  }

  /** Splitting a file into commands loses no argument and makes no empty command: it succeeds exactly when reading the
      file flat gives any argument at all. */
  lemma ParsedBlocks(texts: Texts, path: string)
    requires path in texts
    ensures var blocks, flat := ParseBlocks(texts, texts[path]), ReadFlat(texts, path, 0);
            && (blocks.Ok? <==> flat.Ok? && flat.value != [])
            && (blocks.Ok? ==> Flatten(blocks.value) == flat.value && forall b <- blocks.value :: b != [])
  {
    hide Lines, ReadLines, BlocksFrom;
    var lines := Lines(texts[path]);
    BlocksAreTheFlatReading(texts, lines, []);
    var blocks, flat := BlocksFrom(texts, lines, []), ReadLines(texts, lines, 0);
    if blocks.Ok? {
      assert [] + flat.value == flat.value;
      if blocks.value != [] { NonEmptyPiece(blocks.value); }
    }
  }

  lemma NonEmptyPiece(parts: seq<seq<string>>)
    requires parts != [] && forall b <- parts :: b != []
    ensures Flatten(parts) != []
  {
    assert parts[0] in parts;
  }

  // ----- quoting -----

  function Doubled(s: string): string {
    if s == "" then "" else (if s[0] == '"' then "\"\"" else [s[0]]) + Doubled(s[1..])
  }

  /** One argument as a line. */
  function Quote(s: string): string {
    "\"" + Doubled(s) + "\""
  }

  lemma {:induction false} HalveDoubled(s: string)
    ensures Halve(Doubled(s)) == s
  {
    if s != "" {
      HalveDoubled(s[1..]);
      var d := Doubled(s);
      if s[0] == '"' {
        assert d[2..] == Doubled(s[1..]);
      } else {
        assert d[0] == s[0] && d[1..] == Doubled(s[1..]);
      }
      assert s == [s[0]] + s[1..];
    }
  }

  lemma TrimsNothing(s: string)
    requires s != "" && s[0] == '"' && s[|s| - 1] == '"'
    ensures Trim(s) == s && NormalizedLine(s) == s
  {
  }

  lemma QuotedLine(s: string)
    ensures LineOf(Quote(s)) == if |s| >= 2 && s[0] == '@' then Include(s[1..]) else Arg(s)
  {
    var q := Quote(s);
    TrimsNothing(q);
    assert q[1..|q| - 1] == Doubled(s);
    HalveDoubled(s);
    hide Trim, NormalizedLine, Halve;
  }

  predicate IsBlankText(s: string) {
    forall c <- s :: IsWhitespace(c)
  }

  lemma {:induction false} TrimStartSkips(pre: string, s: string)
    requires IsBlankText(pre) && s != "" && !IsWhitespace(s[0])
    ensures TrimStart(pre + s) == s
  {
    if pre == "" {
      assert pre + s == s;
    } else {
      assert pre[0] in pre && (pre + s)[1..] == pre[1..] + s;
      TrimStartSkips(pre[1..], s);
    }
  }

  lemma {:induction false} TrimEndSkips(s: string, post: string)
    requires IsBlankText(post) && s != "" && !IsWhitespace(s[|s| - 1])
    ensures TrimEnd(s + post) == s
    decreases |post|
  {
    if post == "" {
      assert s + post == s;
    } else {
      var n := |post| - 1;
      assert post[n] in post && (s + post)[..|s| + n] == s + post[..n];
      TrimEndSkips(s, post[..n]);
    }
  }

  lemma {:induction false} CrSkips(s: string, post: string)
    requires IsBlankText(post)
    ensures exists rest :: rest <= post && TrimEndCr(s + post) == TrimEndCr(s + rest) && IsBlankText(rest)
                           && (rest == "" || rest[|rest| - 1] != '\r')
    decreases |post|
  {
    if post == "" || post[|post| - 1] != '\r' {
      assert post <= post;
    } else {
      var n := |post| - 1;
      assert (s + post)[..|s| + n] == s + post[..n];
      CrSkips(s, post[..n]);
    }
  }

  /** A line of text with white space around it: the text is what counts. */
  lemma AroundText(pre: string, s: string, post: string)
    requires IsBlankText(pre) && IsBlankText(post)
    requires s != "" && !IsWhitespace(s[0]) && !IsWhitespace(s[|s| - 1])
    ensures NormalizedLine(pre + s + post) == s && Trim(s) == s
  {
    hide IsWhitespace;
    CrIsBlank();
    CrSkips(pre + s, post);
    hide TrimEndCr, TrimStart, TrimEnd;
    var rest: string :| rest <= post && TrimEndCr(pre + s + post) == TrimEndCr(pre + s + rest) && IsBlankText(rest)
                        && (rest == "" || rest[|rest| - 1] != '\r');
    var line := pre + s + rest;
    assert line == pre + (s + rest);
    assert line[|line| - 1] != '\r';
    assert TrimEndCr(line) == line by { NoCrAtEnd(line); }
    TrimStartSkips(pre, s + rest);
    TrimEndSkips(s, rest);
    assert s + "" == s && "" + s == s;
    TrimStartSkips("", s);
    TrimEndSkips(s, "");
  }

  lemma NoCrAtEnd(line: string)
    requires line != "" && line[|line| - 1] != '\r'
    ensures TrimEndCr(line) == line
  {
  }

  lemma CrIsBlank()
    ensures IsWhitespace('\r')
  {
  }

  /** A line without quotes around it stands for its text, white space around it aside. */
  lemma PlainLine(pre: string, s: string, post: string)
    requires IsBlankText(pre) && IsBlankText(post)
    requires s != "" && !IsWhitespace(s[0]) && !IsWhitespace(s[|s| - 1])
    requires !(|s| >= 2 && s[0] == '"' && s[|s| - 1] == '"')
    ensures LineOf(pre + s + post) == if |s| >= 2 && s[0] == '@' then Include(s[1..]) else Arg(s)
  {
    AroundText(pre, s, post);
    hide Trim, NormalizedLine, Halve, IsWhitespace;
  }

  /** White space around a quoted line does not count either. */
  lemma QuotedLineAround(pre: string, s: string, post: string)
    requires IsBlankText(pre) && IsBlankText(post)
    ensures LineOf(pre + Quote(s) + post) == LineOf(Quote(s))
  {
    QuoteEnds(s);
    QuoteIsBlack();
    AroundText(pre, Quote(s), post);
    AroundText("", Quote(s), "");
    assert "" + Quote(s) + "" == Quote(s);
    hide NormalizedLine, Quote, IsWhitespace, DecodeToken;
  }

  lemma QuoteIsBlack()
    ensures !IsWhitespace('"')
  {
  }

  /** A response file that lists the arguments, each quoted. */
  function Listed(args: seq<string>): string {
    if args == [] then "" else Quote(args[0]) + "\n" + Listed(args[1..])
  }

  predicate IsInclude(arg: string) {
    |arg| >= 2 && arg[0] == '@'
  }

  lemma {:induction false} DoubledHasNoNewline(s: string)
    requires '\n' !in s
    ensures '\n' !in Doubled(s)
  {
    if s != "" { DoubledHasNoNewline(s[1..]); }
  }

  lemma {:induction false} ListedLines(args: seq<string>)
    requires forall a <- args :: '\n' !in a
    ensures Lines(Listed(args)) == seq(|args|, i requires 0 <= i < |args| => Quote(args[i]))
  {
    if args != [] {
      ListedLines(args[1..]);
      FirstListed(args);
      hide Quote, IndexOf, Listed;
      assert StripCr(Quote(args[0])) == Quote(args[0]) by { QuoteEnds(args[0]); }
    }
  }

  lemma FirstListed(args: seq<string>)
    requires args != [] && '\n' !in args[0]
    ensures var s, q := Listed(args), Quote(args[0]);
            s != "" && IndexOf(s, '\n') == Some(|q|) && s[..|q|] == q && s[|q| + 1..] == Listed(args[1..])
  {
    DoubledHasNoNewline(args[0]);
    var s, q := Listed(args), Quote(args[0]);
    assert s[..|q|] == q && s[|q|] == '\n';
    hide Listed;
    IndexOfIs(s, '\n', |q|);
  }

  lemma QuoteEnds(s: string)
    ensures Quote(s) != "" && Quote(s)[|Quote(s)| - 1] == '"' && Quote(s)[0] == '"'
  {
  }

  lemma {:induction false} QuotedLinesRead(texts: Texts, args: seq<string>, lines: seq<string>, depth: nat)
    requires depth <= MAX_DEPTH && (forall a <- args :: !IsInclude(a))
    requires lines == seq(|args|, i requires 0 <= i < |args| => Quote(args[i]))
    ensures ReadLines(texts, lines, depth) == Ok(args)
  {
    hide Quote, ReadFlat;
    if args != [] {
      assert !IsInclude(args[0]);
      QuotedLine(args[0]);
      hide LineOf;
      QuotedLinesRead(texts, args[1..], lines[1..], depth);
      assert [args[0]] + args[1..] == args;
    }
  }

  /** A decoded argument never begins with '@', except the lone one. */
  lemma {:induction false} NoArgumentIsAnInclude(texts: Texts, lines: seq<string>, tree: Inlining)
    requires Inlines(texts, lines, tree)
    ensures forall a <- Yield(tree) :: !IsInclude(a)
    decreases tree, |lines|
  {
    hide Lines;
    if lines != [] {
      match LineOf(lines[0])
      case Blank => NoArgumentIsAnInclude(texts, lines[1..], tree);
      case Include(path) =>
        NoArgumentIsAnInclude(texts, Lines(texts[path]), tree.body);
        NoArgumentIsAnInclude(texts, lines[1..], tree.rest);
      case Arg(text) =>
        LineArgument(lines[0]);
        hide LineOf;
        NoArgumentIsAnInclude(texts, lines[1..], tree.rest);
    }
  }

  lemma LineArgument(line: string)
    requires LineOf(line).Arg?
    ensures !IsInclude(LineOf(line).text)
  {
    hide NormalizedLine, DecodeToken;
  }

  /** Quoted arguments read back exactly when none of them is '@' followed by something. */
  lemma ListedReadsBack(texts: Texts, path: string, args: seq<string>)
    requires path in texts && texts[path] == Listed(args)
    requires |args| <= MAX_LINES && forall a <- args :: '\n' !in a
    ensures ReadFlat(texts, path, 0) == Ok(args) <==> forall a <- args :: !IsInclude(a)
  {
    ListedLines(args);
    hide Lines, Listed, Quote, ReadLines;
    var lines := Lines(texts[path]);
    if forall a <- args :: !IsInclude(a) {
      QuotedLinesRead(texts, args, lines, 0);
    }
    if ReadFlat(texts, path, 0) == Ok(args) {
      var tree := ReadIsInlining(texts, lines, 0);
      InliningIsRead(texts, lines, tree, 0);
      NoArgumentIsAnInclude(texts, lines, tree);
    }
  }

  // ----- the command line -----

  function Splice(texts: Texts, tail: seq<string>): Result<seq<string>> {
    if tail == [] then Ok([])
    else
      var first :=
        if "@@" <= tail[0] then Ok([tail[0][1..]])
        else if IsInclude(tail[0]) then ReadFlat(texts, tail[0][1..], 0)
        else Ok([tail[0]]);
      match (first, Splice(texts, tail[1..])) case (Ok(a), Ok(b)) => Ok(a + b) case _ => Err
  }

  function WithProgram(program: string, blocks: seq<seq<string>>): seq<seq<string>> {
    seq(|blocks|, i requires 0 <= i < |blocks| => [program] + blocks[i])
  }

  /** `expand_invocations`. */
  function Expand(texts: Texts, program: string, tail: seq<string>): Result<seq<seq<string>>> {
    if |tail| == 1 && IsInclude(tail[0]) && !("@@" <= tail[0]) then
      var path := tail[0][1..];
      if path !in texts then Err
      else match ParseBlocks(texts, texts[path]) case Err => Err case Ok(blocks) => Ok(WithProgram(program, blocks))
    else match Splice(texts, tail) case Err => Err case Ok(args) => Ok([[program] + args])
  }

  method ExpandInvocations(texts: Texts, program: string, tail: seq<string>) returns (r: Result<seq<seq<string>>>)
    ensures r == Expand(texts, program, tail)
  {
    hide ParseBlocks, ReadFlat, Splice;
    if |tail| == 1 && IsInclude(tail[0]) && !("@@" <= tail[0]) {
      var path := tail[0][1..];
      if path !in texts { return Err; }
      var blocks := ParseMultiCommandBlocks(texts, texts[path]);
      if blocks.Err? { return Err; }
      return Ok(WithProgram(program, blocks.value));
    }
    var out: seq<string> := [];
    assert tail[0..] == tail;
    PrependNothing(Splice(texts, tail));
    for k := 0 to |tail|
      invariant Splice(texts, tail) == Prepend(out, Splice(texts, tail[k..]))
    {
      var arg := tail[k];
      SpliceStep(texts, tail[k..]);
      assert tail[k..][1..] == tail[k + 1..];
      var more := [arg];
      if "@@" <= arg {
        more := if |arg| == 2 then ["@"] else [arg[1..]];
        assert |arg| == 2 ==> arg[1..] == "@";
      } else if IsInclude(arg) {
        var flat := ReadFlatArgs(texts, arg[1..], 0);
        if flat.Err? { return Err; }
        more := flat.value;
      }
      PrependMore(out, more, Splice(texts, tail[k + 1..]));
      out := out + more;
    }
    SpliceNothing(texts);
    assert tail[|tail|..] == [] && out + [] == out;
    return Ok([[program] + out]);
  }

  lemma SpliceStep(texts: Texts, tail: seq<string>)
    requires tail != []
    ensures Splice(texts, tail) ==
            match if "@@" <= tail[0] then Ok([tail[0][1..]])
                  else if IsInclude(tail[0]) then ReadFlat(texts, tail[0][1..], 0)
                  else Ok([tail[0]])
            case Err => Err
            case Ok(first) => Prepend(first, Splice(texts, tail[1..]))
  {
    hide ReadFlat;
  }

  lemma SpliceNothing(texts: Texts)
    ensures Splice(texts, []) == Ok([])
  {
  }

  // ----- a whole command line -----

  /** What one argument of the command line stands for: itself without its first '@' if it begins with two, the flat
      reading of a file if it begins with one and goes on, and otherwise itself. */
  predicate StandsFor(texts: Texts, arg: string, args: seq<string>) {
    if |arg| >= 2 && arg[0] == '@' && arg[1] == '@' then args == [arg[1..]]
    else if |arg| >= 2 && arg[0] == '@' then ReadFlat(texts, arg[1..], 0) == Ok(args)
    else args == [arg]
  }

  /** One part for each argument, which it stands for. */
  predicate AllStandFor(texts: Texts, tail: seq<string>, parts: seq<seq<string>>) {
    |parts| == |tail| && forall i | 0 <= i < |tail| :: StandsFor(texts, tail[i], parts[i])
  }

  /** Splicing puts what the arguments stand for in a row, in order. */
  lemma SplicesExactly(texts: Texts, tail: seq<string>, args: seq<string>)
    ensures Splice(texts, tail) == Ok(args)
            <==> exists parts :: AllStandFor(texts, tail, parts) && Flatten(parts) == args
  {
    hide Splice, AllStandFor, Flatten;
    if Splice(texts, tail) == Ok(args) { var parts := SplicedParts(texts, tail); }
    forall parts | AllStandFor(texts, tail, parts) && Flatten(parts) == args ensures Splice(texts, tail) == Ok(args) {
      PartsSplice(texts, tail, parts);
    }
  }

  lemma {:induction false} SplicedParts(texts: Texts, tail: seq<string>) returns (parts: seq<seq<string>>)
    requires Splice(texts, tail).Ok?
    ensures AllStandFor(texts, tail, parts) && Splice(texts, tail) == Ok(Flatten(parts))
    decreases |tail|
  {
    if tail == [] {
      parts := [];
    } else {
      var first, rest := SplicedFirst(texts, tail);
      hide Splice, StandsFor;
      var others := SplicedParts(texts, tail[1..]);
      PartsInFront(texts, tail, first, others);
      parts := [first] + others;
    }
  }

  lemma {:induction false} PartsSplice(texts: Texts, tail: seq<string>, parts: seq<seq<string>>)
    requires AllStandFor(texts, tail, parts)
    ensures Splice(texts, tail) == Ok(Flatten(parts))
    decreases |tail|
  {
    if tail == [] {
      SpliceNothing(texts);
    } else {
      SpliceStep(texts, tail);
      assert StandsFor(texts, tail[0], parts[0]);
      hide Splice, ReadFlat;
      forall i | 0 <= i < |tail[1..]| ensures StandsFor(texts, tail[1..][i], parts[1..][i]) {
        assert StandsFor(texts, tail[i + 1], parts[i + 1]);
      }
      PartsSplice(texts, tail[1..], parts[1..]);
    }
  }

  lemma SplicedFirst(texts: Texts, tail: seq<string>) returns (first: seq<string>, rest: seq<string>)
    requires tail != [] && Splice(texts, tail).Ok?
    ensures StandsFor(texts, tail[0], first) && Splice(texts, tail[1..]) == Ok(rest)
    ensures Splice(texts, tail).value == first + rest
  {
    hide ReadFlat;
    rest := Splice(texts, tail[1..]).value;
    first := if "@@" <= tail[0] then [tail[0][1..]]
             else if IsInclude(tail[0]) then ReadFlat(texts, tail[0][1..], 0).value else [tail[0]];
  }

  lemma PartsInFront(texts: Texts, tail: seq<string>, first: seq<string>, parts: seq<seq<string>>)
    requires tail != [] && StandsFor(texts, tail[0], first) && AllStandFor(texts, tail[1..], parts)
    ensures AllStandFor(texts, tail, [first] + parts) && Flatten([first] + parts) == first + Flatten(parts)
  {
    hide StandsFor;
    var all := [first] + parts;
    assert all[1..] == parts;
    forall i | 0 <= i < |tail| ensures StandsFor(texts, tail[i], all[i]) {
      if i > 0 { assert StandsFor(texts, tail[1..][i - 1], parts[i - 1]); }
    }
  }

  /** A command line that is not one include gives one invocation: the program, and what the arguments stand for. */
  lemma TailExpands(texts: Texts, program: string, tail: seq<string>)
    requires !(|tail| == 1 && |tail[0]| >= 2 && tail[0][0] == '@' && tail[0][1] != '@')
    ensures match Splice(texts, tail)
            case Err => Expand(texts, program, tail) == Err
            case Ok(args) => Expand(texts, program, tail) == Ok([[program] + args])
  {
    hide Splice, ParseBlocks;
  }

  /** The arguments of each invocation. */
  function Tails(invocations: seq<seq<string>>): seq<seq<string>> {
    seq(|invocations|, i requires 0 <= i < |invocations| =>
      var v := invocations[i]; if v == [] then [] else v[1..])
  }

  /** A command line that is one include gives an invocation for each command of the file: every one of them is the
      program and some arguments, and all arguments in a row are the flat reading. It fails if there are none. */
  lemma SingleFileExpands(texts: Texts, program: string, path: string)
    requires path in texts && path != "" && path[0] != '@'
    ensures var r, flat := Expand(texts, program, ["@" + path]), ReadFlat(texts, path, 0);
            && (r.Ok? <==> flat.Ok? && flat.value != [])
            && (r.Ok? ==>
                  && (forall v <- r.value :: |v| > 1 && v[0] == program)
                  && Flatten(Tails(r.value)) == flat.value)
  {
    hide ParseBlocks, ReadFlat;
    var arg := "@" + path;
    assert arg[1..] == path && arg[1] == path[0];
    assert IsInclude(arg) && !("@@" <= arg);
    ParsedBlocks(texts, path);
    var parsed := ParseBlocks(texts, texts[path]);
    if parsed.Ok? {
      var vs := WithProgram(program, parsed.value);
      forall v <- vs ensures |v| > 1 && v[0] == program {
        var i :| 0 <= i < |vs| && vs[i] == v;
        assert parsed.value[i] in parsed.value;
      }
      assert Tails(vs) == parsed.value;
    }
  }

  lemma UnreadableFileFails(texts: Texts, program: string, path: string)
    requires path !in texts && path != "" && path[0] != '@'
    ensures Expand(texts, program, ["@" + path]) == Err
  {
    var arg := "@" + path;
    assert arg[1..] == path && arg[1] == path[0];
  }

  // ----- where a file is cut into commands -----

  /** The commands one below the other, with a blank line between them. */
  function Script(commands: seq<seq<string>>): string {
    if commands == [] then ""
    else if |commands| == 1 then Listed(commands[0])
    else Listed(commands[0]) + "\n" + Script(commands[1..])
  }

  function Quotes(args: seq<string>): seq<string> {
    if args == [] then [] else [Quote(args[0])] + Quotes(args[1..])
  }

  function ScriptLines(commands: seq<seq<string>>): seq<string> {
    if commands == [] then []
    else if |commands| == 1 then Quotes(commands[0])
    else Quotes(commands[0]) + [""] + ScriptLines(commands[1..])
  }

  /** No newline, and not taken for an include. */
  predicate IsPlainCommand(args: seq<string>) {
    args != [] && forall a <- args :: '\n' !in a && !IsInclude(a)
  }

  lemma LinesStep(s: string, i: nat)
    requires s != "" && IndexOf(s, '\n') == Some(i)
    ensures Lines(s) == [StripCr(s[..i])] + Lines(s[i + 1..])
  {
    hide IndexOf, StripCr;
  }

  lemma {:induction false} ListedThenLines(args: seq<string>, rest: string)
    requires forall a <- args :: '\n' !in a
    ensures Lines(Listed(args) + rest) == Quotes(args) + Lines(rest)
  {
    if args == [] {
      assert Listed(args) + rest == rest && Quotes(args) + Lines(rest) == Lines(rest);
    } else {
      var q := Quote(args[0]);
      ListedThenLines(args[1..], rest);
      FirstLine(args, rest);
      hide Quote, Listed, Lines;
      Reassociate([q], Quotes(args[1..]), Lines(rest));
    }
  }

  lemma Reassociate<T>(a: seq<T>, b: seq<T>, c: seq<T>)
    ensures a + (b + c) == (a + b) + c
  {
  }

  lemma FirstLine(args: seq<string>, rest: string)
    requires args != [] && '\n' !in args[0]
    ensures Lines(Listed(args) + rest) == [Quote(args[0])] + Lines(Listed(args[1..]) + rest)
  {
    FirstOfMany(args, rest);
    QuoteEnds(args[0]);
    hide Quote, IndexOf, Listed;
    LinesStep(Listed(args) + rest, |Quote(args[0])|);
  }

  lemma ListedStep(args: seq<string>, rest: string)
    requires args != []
    ensures Listed(args) + rest == Quote(args[0]) + ("\n" + (Listed(args[1..]) + rest))
  {
    hide Quote;
    var q, l := Quote(args[0]), Listed(args[1..]);
    Reassociate(q, "\n", l);
    Reassociate("\n", l, rest);
    Reassociate(q, "\n" + l, rest);
  }

  lemma FirstOfMany(args: seq<string>, rest: string)
    requires args != [] && '\n' !in args[0]
    ensures var s, q := Listed(args) + rest, Quote(args[0]);
            && s != "" && IndexOf(s, '\n') == Some(|q|) && s[..|q|] == q
            && s[|q| + 1..] == Listed(args[1..]) + rest
  {
    DoubledHasNoNewline(args[0]);
    var s, q, behind := Listed(args) + rest, Quote(args[0]), Listed(args[1..]) + rest;
    assert '\n' !in q;
    ListedStep(args, rest);
    hide Listed, Quote, Doubled;
    assert s[..|q|] == q && s[|q|] == '\n' && s[|q| + 1..] == behind;
    IndexOfIs(s, '\n', |q|);
  }

  lemma {:induction false} LinesOfScript(commands: seq<seq<string>>)
    requires forall c <- commands :: IsPlainCommand(c)
    ensures Lines(Script(commands)) == ScriptLines(commands)
  {
    if commands != [] {
      assert IsPlainCommand(commands[0]);
      if |commands| == 1 {
        ListedThenLines(commands[0], "");
        assert Listed(commands[0]) + "" == Listed(commands[0]);
        assert Lines("") == [];
      } else {
        forall c <- commands[1..] ensures IsPlainCommand(c) { assert c in commands; }
        LinesOfScript(commands[1..]);
        var rest := Script(commands[1..]);
        BlankLineFirst(rest);
        ListedThenLines(commands[0], "\n" + rest);
        assert Listed(commands[0]) + "\n" + rest == Listed(commands[0]) + ("\n" + rest);
        hide Lines, Listed, Quotes;
        assert Quotes(commands[0]) + ([""] + Lines(rest)) == Quotes(commands[0]) + [""] + Lines(rest);
      }
    }
  }

  lemma BlankLineFirst(rest: string)
    ensures Lines("\n" + rest) == [""] + Lines(rest)
  {
    var s := "\n" + rest;
    assert s[..0] == "" && s[1..] == rest;
    IndexOfIs(s, '\n', 0);
  }

  lemma QuotedReads(texts: Texts, arg: string)
    requires !IsInclude(arg)
    ensures LineOf(Quote(arg)) != Blank && ReadLine(texts, Quote(arg), 0) == Ok([arg])
  {
    QuotedLine(arg);
    hide LineOf, Quote;
  }

  /** Quoted lines collect in the open block. */
  lemma {:induction false} QuotesCollect(texts: Texts, args: seq<string>, rest: seq<string>, current: seq<string>)
    requires forall a <- args :: !IsInclude(a)
    ensures BlocksFrom(texts, Quotes(args) + rest, current) == BlocksFrom(texts, rest, current + args)
    decreases |args|
  {
    if args == [] {
      assert Quotes(args) + rest == rest && current + args == current;
    } else {
      var q, behind := Quote(args[0]), Quotes(args[1..]);
      QuotedReads(texts, args[0]);
      hide LineOf, Quote, BlocksFrom, ReadLine, IsInclude;
      Reassociate([q], behind, rest);
      var lines := [q] + (behind + rest);
      assert lines[1..] == behind + rest;
      BlocksStep(texts, lines, current);
      QuotesCollect(texts, args[1..], rest, current + [args[0]]);
      Reassociate(current, [args[0]], args[1..]);
      assert [args[0]] + args[1..] == args;
    }
  }

  lemma EmptyLineIsBlank()
    ensures LineOf("") == Blank
  {
  }

  /** One command at the end, */
  lemma LastBlock(texts: Texts, command: seq<string>)
    requires IsPlainCommand(command)
    ensures BlocksFrom(texts, Quotes(command), []) == Ok([command])
  {
    QuotesCollect(texts, command, [], []);
    hide BlocksFrom, Quotes, IsInclude;
    assert Quotes(command) + [] == Quotes(command) && [] + command == command;
    NoBlocksLeft(texts, command);
  }

  /** and one with a blank line and others behind it. */
  lemma BlockInFront(texts: Texts, command: seq<string>, lines: seq<string>, blocks: seq<seq<string>>)
    requires IsPlainCommand(command) && BlocksFrom(texts, lines, []) == Ok(blocks)
    ensures BlocksFrom(texts, Quotes(command) + [""] + lines, []) == Ok([command] + blocks)
  {
    var rest := [""] + lines;
    QuotesCollect(texts, command, rest, []);
    hide BlocksFrom, Quotes, IsInclude, LineOf;
    Reassociate(Quotes(command), [""], lines);
    assert [] + command == command;
    BlocksStep(texts, rest, command);
    EmptyLineIsBlank();
    assert rest[1..] == lines;
  }

  lemma {:induction false} ScriptBlocks(texts: Texts, commands: seq<seq<string>>)
    requires forall c <- commands :: IsPlainCommand(c)
    ensures BlocksFrom(texts, ScriptLines(commands), []) == Ok(commands)
  {
    hide BlocksFrom, Quotes, IsPlainCommand;
    if commands == [] {
      NoBlocksLeft(texts, []);
    } else {
      var behind := commands[1..];
      assert commands[0] in commands && commands == [commands[0]] + behind;
      if behind == [] {
        assert commands == [commands[0]];
        LastBlock(texts, commands[0]);
      } else {
        forall c <- behind ensures IsPlainCommand(c) { assert c in commands; }
        ScriptBlocks(texts, behind);
        BlockInFront(texts, commands[0], ScriptLines(behind), behind);
      }
    }
  }

  lemma ScriptParses(texts: Texts, commands: seq<seq<string>>)
    requires commands != [] && (forall c <- commands :: IsPlainCommand(c)) && |ScriptLines(commands)| <= MAX_LINES
    ensures ParseBlocks(texts, Script(commands)) == Ok(commands)
  {
    LinesOfScript(commands);
    ScriptBlocks(texts, commands);
    hide Script, ScriptLines, BlocksFrom, Lines, IsPlainCommand;
  }

  lemma SingleFile(texts: Texts, program: string, path: string)
    requires path in texts && path != "" && path[0] != '@'
    ensures match ParseBlocks(texts, texts[path])
            case Err => Expand(texts, program, ["@" + path]) == Err
            case Ok(blocks) =>
              var r := Expand(texts, program, ["@" + path]);
              && r.Ok? && |r.value| == |blocks|
              && forall i | 0 <= i < |blocks| :: r.value[i] == [program] + blocks[i]
  {
    hide ParseBlocks, ReadFlat;
    var arg := "@" + path;
    assert arg[1..] == path && arg[1] == path[0];
  }

  /** A file that lists commands, blank lines between them, is cut exactly there: one invocation for each, in order. */
  lemma ScriptExpands(texts: Texts, program: string, path: string, commands: seq<seq<string>>)
    requires path in texts && path != "" && path[0] != '@' && texts[path] == Script(commands)
    requires commands != [] && (forall c <- commands :: IsPlainCommand(c)) && |ScriptLines(commands)| <= MAX_LINES
    ensures var r := Expand(texts, program, ["@" + path]);
            && r.Ok? && |r.value| == |commands|
            && forall i | 0 <= i < |commands| :: r.value[i] == [program] + commands[i]
  {
    hide Script, ScriptLines, IsPlainCommand, ParseBlocks, Expand;
    ScriptParses(texts, commands);
    SingleFile(texts, program, path);
  }

  lemma {:induction false} QuotesLength(args: seq<string>)
    ensures |Quotes(args)| == |args|
  {
    if args != [] { QuotesLength(args[1..]); }
  }

  lemma PairScript(a: seq<string>, b: seq<string>)
    ensures Script([a, b]) == Listed(a) + "\n" + Listed(b) && |ScriptLines([a, b])| == |a| + 1 + |b|
  {
    assert [a, b][1..] == [b];
    QuotesLength(a);
    QuotesLength(b);
    hide Listed, Quotes;
  }

  /** For two commands. */
  lemma TwoCommandsExpand(texts: Texts, program: string, path: string, a: seq<string>, b: seq<string>)
    requires path in texts && path != "" && path[0] != '@' && texts[path] == Listed(a) + "\n" + Listed(b)
    requires IsPlainCommand(a) && IsPlainCommand(b) && |a| + 1 + |b| <= MAX_LINES
    ensures Expand(texts, program, ["@" + path]) == Ok([[program] + a, [program] + b])
  {
    hide IsPlainCommand, Listed, Expand, Script, ScriptLines;
    PairScript(a, b);
    var pair := [a, b];
    assert forall c <- pair :: c == a || c == b;
    ScriptExpands(texts, program, path, pair);
    var r := Expand(texts, program, ["@" + path]).value;
    assert r == [r[0], r[1]] && pair[0] == a && pair[1] == b;
  }

  function Protect(arg: string): string {
    if "@" <= arg then "@" + arg else arg
  }

  /** On the command line doubling does protect: any argument list can be passed through. */
  lemma {:induction false} ProtectedTailSplices(texts: Texts, args: seq<string>)
    ensures Splice(texts, seq(|args|, i requires 0 <= i < |args| => Protect(args[i]))) == Ok(args)
  {
    if args != [] {
      var tail := seq(|args|, i requires 0 <= i < |args| => Protect(args[i]));
      assert tail[1..] == seq(|args[1..]|, i requires 0 <= i < |args[1..]| => Protect(args[1..][i]));
      ProtectedTailSplices(texts, args[1..]);
      if "@" <= args[0] {
        assert tail[0][1..] == args[0] && tail[0][0] == '@' && tail[0][1] == '@';
        assert "@@" <= tail[0];
      }
      assert [args[0]] + args[1..] == args;
    }
  }

  lemma ProtectedTailExpands(texts: Texts, program: string, args: seq<string>)
    ensures Expand(texts, program, seq(|args|, i requires 0 <= i < |args| => Protect(args[i])))
            == Ok([[program] + args])
  {
    hide Splice;
    ProtectedTailSplices(texts, args);
    if |args| == 1 && "@" <= args[0] {
      assert Protect(args[0])[0] == '@' && Protect(args[0])[1] == '@';
      assert "@@" <= Protect(args[0]);
    }
  }
}
