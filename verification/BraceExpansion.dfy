/** Brace expansion as coded: the outermost leftmost group is replaced by each of its choices and the
    rewritten pattern is expanded again. */
module BraceExpansion {
  import opened Wrappers
  import opened Decimal

  datatype Brace = NoBrace | Pair(start: nat, end: nat) | Unmatched

  // ----- scanning for the first group -----

  /** `first_brace`, on the rest `s` of the pattern that begins at index `at`. */
  function Scan(s: string, at: nat, start: nat, depth: nat, escaped: bool): Brace {
    if s == "" then (if depth == 0 then NoBrace else Unmatched)
    else if escaped then Scan(s[1..], at + 1, start, depth, false)
    else if s[0] == '\\' then Scan(s[1..], at + 1, start, depth, true)
    else if s[0] == '{' then Scan(s[1..], at + 1, if depth == 0 then at else start, depth + 1, false)
    else if s[0] == '}' then
      if depth == 0 then Unmatched
      else if depth == 1 then Pair(start, at)
      else Scan(s[1..], at + 1, start, depth - 1, false)
    else Scan(s[1..], at + 1, start, depth, false)
  }

  function FirstBrace(s: string): Brace {
    Scan(s, 0, 0, 0, false)
  }

  method FindFirstBrace(s: string) returns (r: Brace)
    ensures r == FirstBrace(s)
  {
    var start, depth, escaped := 0, 0, false;
    assert s[0..] == s;
    for i := 0 to |s|
      invariant start >= 0 && depth >= 0
      invariant FirstBrace(s) == Scan(s[i..], i, start, depth, escaped)
    {
      assert s[i..][1..] == s[i + 1..];
      if escaped {
        escaped := false;
        continue;
      }
      if s[i] == '\\' {
        escaped := true;
      } else if s[i] == '{' {
        if depth == 0 { start := i; }
        depth := depth + 1;
      } else if s[i] == '}' {
        if depth == 0 { return Unmatched; }
        depth := depth - 1;
        if depth == 0 { return Pair(start, i); }
      }
    }
    return if depth != 0 then Unmatched else NoBrace;
  }

  // ----- numeric ranges -----

  const I64_MIN: int := -0x8000_0000_0000_0000
  const I64_MAX: int := 0x7fff_ffff_ffff_ffff

  /** `str::parse::<i64>`: an optional sign and at least one digit, in range. */
  function ParseI64(s: string): Option<int> {
    var negative, digits := s != "" && s[0] == '-', if s != "" && s[0] in {'-', '+'} then s[1..] else s;
    if digits == "" || !AllDigits(digits) then None
    else
      var n: int := if negative then 0 - Number(digits) else Number(digits);
      if I64_MIN <= n <= I64_MAX then Some(n) else None
  }

  function Zeros(n: int): string {
    if n <= 0 then "" else seq(n, _ => '0')
  }

  function Signed(n: int): string {
    if n < 0 then "-" + Digits(-n) else Digits(n)
  }

  /** `{n:0width$}` when the width exceeds one: zeros go between sign and digits. */
  function Padded(n: int, width: nat): string {
    if width <= 1 then Signed(n)
    else if n < 0 then "-" + Zeros(width - 1 - |Digits(-n)|) + Digits(-n)
    else Zeros(width - |Digits(n)|) + Digits(n)
  }

  function Distance(first: int, last: int): nat {
    if first <= last then last - first else first - last
  }

  function Toward(first: int, last: int, k: int): int {
    if first <= last then first + k else first - k
  }

  function RangeWords(first: int, last: int, width: nat): seq<string> {
    seq(Distance(first, last) + 1, k requires 0 <= k => Padded(Toward(first, last, k), width))
  }

  /** Where ".." first occurs. */
  function DotDot(s: string): Option<nat> {
    if |s| < 2 then None
    else if s[0] == '.' && s[1] == '.' then Some(0)
    else match DotDot(s[1..]) case None => None case Some(k) => Some(k + 1)
  }

  function RangeOf(body: string): Option<seq<string>> {
    match DotDot(body)
    case None => None
    case Some(k) =>
      DotDotIndex(body);
      var start, end := body[..k], body[k + 2..];
      match (ParseI64(start), ParseI64(end))
      case (Some(first), Some(last)) => Some(RangeWords(first, last, if |start| > |end| then |start| else |end|))
      case _ => None
  }

  lemma {:induction false} DotDotIndex(s: string)
    ensures DotDot(s).Some? ==> var k := DotDot(s).value; k + 2 <= |s| && s[k] == '.' && s[k + 1] == '.'
  {
    if |s| >= 2 && !(s[0] == '.' && s[1] == '.') { DotDotIndex(s[1..]); }
  }

  // ----- splitting a group into choices -----

  function PrependWord(w: string, rest: Option<seq<string>>): Option<seq<string>> {
    match rest case None => None case Some(r) => Some([w] + r)
  }

  /** The comma loop of `brace_choices`; it does not know about escapes. */
  function Split(s: string, current: string, depth: nat): Option<seq<string>> {
    if s == "" then Some([current])
    else if s[0] == '{' then Split(s[1..], current + [s[0]], depth + 1)
    else if s[0] == '}' then (if depth == 0 then None else Split(s[1..], current + [s[0]], depth - 1))
    else if s[0] == ',' && depth == 0 then PrependWord(current, Split(s[1..], "", 0))
    else Split(s[1..], current + [s[0]], depth)
  }

  function Choices(body: string): Option<seq<string>> {
    match RangeOf(body) case Some(words) => Some(words) case None => Split(body, "", 0)
  }

  method BraceChoices(body: string) returns (r: Option<seq<string>>)
    ensures r == Choices(body)
  {
    var range := RangeOf(body);
    if range.Some? { return range; }
    var choices: seq<string>, current, depth: nat := [], "", 0;
    assert body[0..] == body;
    AfterNone(Split(body, "", 0));
    for i := 0 to |body|
      invariant Split(body, "", 0) == After(choices, Split(body[i..], current, depth))
    {
      assert body[i..][1..] == body[i + 1..];
      if body[i] == '{' {
        depth := depth + 1;
        current := current + [body[i]];
      } else if body[i] == '}' {
        if depth == 0 { return None; }
        depth := depth - 1;
        current := current + [body[i]];
      } else if body[i] == ',' && depth == 0 {
        AfterOne(choices, current, Split(body[i + 1..], "", 0));
        choices := choices + [current];
        current := "";
      } else {
        current := current + [body[i]];
      }
    }
    return Some(choices + [current]);
  }

  function After(done: seq<string>, rest: Option<seq<string>>): Option<seq<string>> {
    match rest case None => None case Some(r) => Some(done + r)
  }

  lemma AfterNone(rest: Option<seq<string>>)
    ensures After([], rest) == rest
  {
    if rest.Some? { assert [] + rest.value == rest.value; }
  }

  lemma AfterOne(done: seq<string>, w: string, rest: Option<seq<string>>)
    ensures After(done, PrependWord(w, rest)) == After(done + [w], rest)
  {
    if rest.Some? { assert done + ([w] + rest.value) == (done + [w]) + rest.value; }
  }

  // ----- expansion -----

  /** Every recursive call of `expand_braces` has strictly fewer opening braces. */
  function Opens(s: string): nat {
    if s == "" then 0 else (if s[0] == '{' then 1 else 0) + Opens(s[1..])
  }

  function Expand(s: string): Option<seq<string>>
    decreases Opens(s), 1, 0
  {
    match FirstBrace(s)
    case Unmatched => None
    case NoBrace => Some([s])
    case Pair(start, end) =>
      PairIndices(s, 0, 0, 0, false);
      match Choices(s[start + 1..end])
      case None => None
      case Some(choices) =>
        FewerOpens(s, start, end);
        ExpandAll(s[..start], choices, s[end + 1..], Opens(s))
  }

  function ExpandAll(before: string, choices: seq<string>, after: string, ghost bound: nat): Option<seq<string>>
    requires forall c <- choices :: Opens(before + c + after) < bound
    decreases bound, 0, |choices|
  {
    if choices == [] then Some([])
    else
      assert choices[0] in choices && forall c <- choices[1..] :: c in choices;
      match (Expand(before + choices[0] + after), ExpandAll(before, choices[1..], after, bound))
      case (Some(words), Some(rest)) => Some(words + rest)
      case _ => None
  }

  /** `expand_braces`. */
  method ExpandBraces(pattern: string) returns (r: Option<seq<string>>)
    ensures r == Expand(pattern)
    decreases Opens(pattern)
  {
    hide Scan, Choices, Opens;
    var brace := FindFirstBrace(pattern);
    if brace.Unmatched? { return None; }
    if brace.NoBrace? { return Some([pattern]); }
    PairIndices(pattern, 0, 0, 0, false);
    var before, body, after := pattern[..brace.start], pattern[brace.start + 1..brace.end], pattern[brace.end + 1..];
    var choices := BraceChoices(body);
    if choices.None? { return None; }
    FewerOpens(pattern, brace.start, brace.end);
    var out, cs := [], choices.value;
    assert cs[0..] == cs;
    ghost var bound := Opens(pattern);
    AfterNone(ExpandAll(before, cs, after, bound));
    for i := 0 to |cs|
      invariant forall c <- cs[i..] :: c in cs
      invariant ExpandAll(before, cs, after, bound) == After(out, ExpandAll(before, cs[i..], after, bound))
    {
      assert cs[i] in cs && cs[i..][1..] == cs[i + 1..];
      var expanded := ExpandBraces(before + cs[i] + after);
      if expanded.None? { return None; }
      AfterMore(out, expanded.value, ExpandAll(before, cs[i + 1..], after, bound));
      out := out + expanded.value;
    }
    assert out + [] == out;
    return Some(out);
  }

  lemma AfterMore(out: seq<string>, words: seq<string>, rest: Option<seq<string>>)
    ensures After(out, if rest.Some? then Some(words + rest.value) else None) == After(out + words, rest)
  {
    if rest.Some? { assert out + (words + rest.value) == (out + words) + rest.value; }
  }

  lemma {:induction false} OpensAdd(a: string, b: string)
    ensures Opens(a + b) == Opens(a) + Opens(b)
  {
    if a == "" {
      assert a + b == b;
    } else {
      assert (a + b)[1..] == a[1..] + b;
      OpensAdd(a[1..], b);
    }
  }

  lemma {:induction false} PairIndices(s: string, at: nat, start: nat, depth: nat, escaped: bool)
    ensures match Scan(s, at, start, depth, escaped)
            case Pair(b, e) =>
              && at <= e < at + |s| && s[e - at] == '}'
              && (if depth == 0 then at <= b < e && s[b - at] == '{' else b == start)
            case _ => true
  {
    if s != "" {
      var r := s[1..];
      if escaped { PairIndices(r, at + 1, start, depth, false); }
      else if s[0] == '\\' { PairIndices(r, at + 1, start, depth, true); }
      else if s[0] == '{' { PairIndices(r, at + 1, if depth == 0 then at else start, depth + 1, false); }
      else if s[0] == '}' { if depth > 1 { PairIndices(r, at + 1, start, depth - 1, false); } }
      else { PairIndices(r, at + 1, start, depth, false); }
    }
  }

  lemma {:induction false} SplitOpens(s: string, current: string, depth: nat)
    ensures match Split(s, current, depth)
            case None => true
            case Some(words) => forall w <- words :: Opens(w) <= Opens(current) + Opens(s)
  {
    if s != "" {
      OpensAdd(current, [s[0]]);
      assert Opens([s[0]]) + Opens(s[1..]) == Opens(s) by { assert [s[0]] + s[1..] == s; OpensAdd([s[0]], s[1..]); }
      if s[0] == '{' { SplitOpens(s[1..], current + [s[0]], depth + 1); }
      else if s[0] == '}' { if depth > 0 { SplitOpens(s[1..], current + [s[0]], depth - 1); } }
      else if s[0] == ',' && depth == 0 { SplitOpens(s[1..], "", 0); }
      else { SplitOpens(s[1..], current + [s[0]], depth); }
    }
  }

  lemma {:induction false} NoOpens(s: string)
    requires '{' !in s
    ensures Opens(s) == 0
  {
    if s != "" { NoOpens(s[1..]); }
  }

  lemma PaddedHasNoBraces(n: int, width: nat)
    ensures '{' !in Padded(n, width) && '}' !in Padded(n, width) && '\\' !in Padded(n, width)
  {
    NumberOfDigits(if n < 0 then -n else n);
  }

  lemma FewerOpens(s: string, start: nat, end: nat)
    requires start < end < |s| && s[start] == '{' && Choices(s[start + 1..end]).Some?
    ensures forall c <- Choices(s[start + 1..end]).value :: Opens(s[..start] + c + s[end + 1..]) < Opens(s)
  {
    var before, body, after := s[..start], s[start + 1..end], s[end + 1..];
    assert s == before + ("{" + (body + ([s[end]] + after)));
    OpensAdd(before, "{" + (body + ([s[end]] + after)));
    OpensAdd("{", body + ([s[end]] + after));
    OpensAdd(body, [s[end]] + after);
    OpensAdd([s[end]], after);
    assert Opens("{") == 1;
    ChoicesOpens(body);
    forall c <- Choices(body).value ensures Opens(before + c + after) < Opens(s) {
      OpensAdd(before + c, after);
      OpensAdd(before, c);
    }
  }

  lemma ChoicesOpens(body: string)
    requires Choices(body).Some?
    ensures forall c <- Choices(body).value :: Opens(c) <= Opens(body)
  {
    if RangeOf(body).Some? {
      forall c <- Choices(body).value ensures Opens(c) == 0 { RangeWordIsPlain(body, c); }
    } else {
      SplitOpens(body, "", 0);
    }
  }

  lemma RangeWordIsPlain(body: string, c: string)
    requires RangeOf(body).Some? && c in RangeOf(body).value
    ensures '{' !in c && '}' !in c && '\\' !in c && Opens(c) == 0
  {
    hide Padded, ParseI64;
    DotDotIndex(body);
    var k := DotDot(body).value;
    var start, end := body[..k], body[k + 2..];
    var first, last := ParseI64(start).value, ParseI64(end).value;
    var width := if |start| > |end| then |start| else |end|;
    var i :| 0 <= i < |RangeOf(body).value| && RangeOf(body).value[i] == c;
    PaddedHasNoBraces(Toward(first, last, i), width);
    NoOpens(c);
  }

  // ----- backslash-free patterns: nesting levels -----

  predicate Plain(s: string) {
    '\\' !in s
  }

  /** No brace at all. */
  predicate Braceless(s: string) {
    '{' !in s && '}' !in s
  }

  /** The nesting level after `s` when it starts at level `d`; -1 once a brace closes what was not opened. */
  function Level(s: string, d: nat): int {
    if s == "" then d
    else if s[0] == '{' then Level(s[1..], d + 1)
    else if s[0] == '}' then (if d == 0 then -1 else Level(s[1..], d - 1))
    else Level(s[1..], d)
  }

  predicate Balanced(s: string) {
    Level(s, 0) == 0
  }

  lemma {:induction false} LevelAppend(a: string, b: string, d: nat)
    ensures Level(a, d) >= -1
    ensures Level(a + b, d) == if Level(a, d) < 0 then -1 else Level(b, Level(a, d))
  {
    if a == "" {
      assert a + b == b;
    } else {
      assert (a + b)[1..] == a[1..] + b;
      if a[0] == '{' { LevelAppend(a[1..], b, d + 1); }
      else if a[0] == '}' { if d > 0 { LevelAppend(a[1..], b, d - 1); } }
      else { LevelAppend(a[1..], b, d); }
    }
  }

  lemma {:induction false} LevelShift(s: string, d: nat, k: nat)
    requires Level(s, d) >= 0
    ensures Level(s, d + k) == Level(s, d) + k
  {
    if s != "" {
      if s[0] == '{' { LevelShift(s[1..], d + 1, k); }
      else if s[0] == '}' { LevelShift(s[1..], d - 1, k); }
      else { LevelShift(s[1..], d, k); }
    }
  }

  lemma {:induction false} BracelessLevel(s: string, d: nat)
    requires Braceless(s)
    ensures Level(s, d) == d
  {
    if s != "" { BracelessLevel(s[1..], d); }
  }

  lemma BalancedAppend(a: string, b: string)
    requires Balanced(a)
    ensures Balanced(a + b) <==> Balanced(b)
  {
    LevelAppend(a, b, 0);
  }

  /** Cutting a balanced group out and putting another balanced text in keeps balance. */
  lemma Regroup(before: string, body: string, after: string, c: string)
    requires Braceless(before) && Balanced(body) && Balanced(c)
    ensures Balanced(before + "{" + body + "}" + after) <==> Balanced(after)
    ensures Balanced(before + c + after) <==> Balanced(after)
  {
    hide Level;
    BracelessLevel(before, 0);
    BalancedAppend(before, c);
    BalancedAppend(before + c, after);
    assert Level("{" + body + "}", 0) == 0 by { GroupLevel(body); }
    assert before + "{" + body + "}" == before + ("{" + body + "}");
    BalancedAppend(before, "{" + body + "}");
    BalancedAppend(before + "{" + body + "}", after);
  }

  lemma GroupLevel(body: string)
    requires Balanced(body)
    ensures Level("{" + body + "}", 0) == 0
  {
    LevelShift(body, 0, 1);
    LevelAppend(body, "}", 1);
    assert ("{" + body + "}")[1..] == body + "}";
    assert Level("}", 1) == 0 by { assert "}"[1..] == ""; }
  }

  // ----- what the scan finds in a backslash-free pattern -----

  lemma {:induction false} ScanBraceless(a: string, b: string, at: nat, start: nat, depth: nat)
    requires Plain(a) && Braceless(a)
    ensures Scan(a + b, at, start, depth, false) == Scan(b, at + |a|, start, depth, false)
  {
    if a == "" {
      assert a + b == b;
    } else {
      assert (a + b)[1..] == a[1..] + b;
      ScanBraceless(a[1..], b, at + 1, start, depth);
    }
  }

  lemma {:induction false} ScanInside(a: string, b: string, at: nat, start: nat, d: nat)
    requires Plain(a) && Level(a, d) == 0
    ensures Scan(a + b, at, start, d + 1, false) == Scan(b, at + |a|, start, 1, false)
  {
    if a == "" {
      assert a + b == b;
    } else {
      assert (a + b)[1..] == a[1..] + b;
      if a[0] == '{' { ScanInside(a[1..], b, at + 1, start, d + 1); }
      else if a[0] == '}' { ScanInside(a[1..], b, at + 1, start, d - 1); }
      else { ScanInside(a[1..], b, at + 1, start, d); }
    }
  }

  lemma ScanClosing(after: string, at: nat, start: nat)
    ensures Scan("}" + after, at, start, 1, false) == Pair(start, at)
  {
  }

  lemma ScanOpening(tail: string, at: nat)
    ensures Scan("{" + tail, at, 0, 0, false) == Scan(tail, at + 1, at, 1, false)
  {
    assert ("{" + tail)[1..] == tail;
  }

  lemma FirstBraceIs(before: string, body: string, after: string)
    requires Plain(before) && Braceless(before) && Plain(body) && Balanced(body)
    ensures FirstBrace(before + "{" + body + "}" + after) == Pair(|before|, |before| + 1 + |body|)
  {
    hide Level;
    var tail := body + ("}" + after);
    assert before + "{" + body + "}" + after == before + ("{" + tail);
    ScanBraceless(before, "{" + tail, 0, 0, 0);
    assert ("{" + tail)[1..] == tail;
    ScanInside(body, "}" + after, |before| + 1, |before|, 0);
    hide Scan;
    assert Scan("}" + after, |before| + 1 + |body|, |before|, 1, false) == Pair(|before|, |before| + 1 + |body|) by {
      ScanClosing(after, |before| + 1 + |body|, |before|);
    }
    assert Scan("{" + tail, |before|, 0, 0, false) == Scan(tail, |before| + 1, |before|, 1, false) by {
      ScanOpening(tail, |before|);
    }
  }

  /** Conversely, scanning at level `d + 1` finds the brace that closes level 1. */
  lemma {:induction false} ScanCloses(s: string, at: nat, start: nat, d: nat)
    requires Plain(s)
    ensures match Scan(s, at, start, d + 1, false)
            case NoBrace => false
            case Unmatched => Level(s, d + 1) != 0
            case Pair(b, e) => b == start && at <= e < at + |s| && s[e - at] == '}' && Level(s[..e - at], d) == 0
  {
    if s != "" {
      var r := s[1..];
      if s[0] == '}' && d == 0 {
        assert s[..0] == "";
      } else {
        var d' := if s[0] == '{' then d + 1 else if s[0] == '}' then d - 1 else d;
        ScanCloses(r, at + 1, start, d');
        var scan := Scan(s, at, start, d + 1, false);
        if scan.Pair? {
          assert s[..scan.end - at][1..] == r[..scan.end - at - 1];
        }
      }
    }
  }

  lemma SliceShift(s: string, a: nat, b: nat)
    requires 1 <= a <= b <= |s|
    ensures s[a..b] == s[1..][a - 1..b - 1]
  {
    var r, t := s[1..], s[1..][a - 1..b - 1];
    assert |t| == b - a && forall i | 0 <= i < b - a :: t[i] == r[a - 1 + i] == s[a + i];
  }

  lemma {:induction false} ScanOpens(s: string, at: nat, start: nat)
    requires Plain(s)
    ensures match Scan(s, at, start, 0, false)
            case NoBrace => Braceless(s)
            case Unmatched => !Balanced(s)
            case Pair(b, e) =>
              at <= b < e < at + |s| && Braceless(s[..b - at]) && s[b - at] == '{' && s[e - at] == '}'
              && Balanced(s[b - at + 1..e - at])
  {
    if s != "" {
      var r := s[1..];
      if s[0] == '{' {
        ScanCloses(r, at + 1, at, 0);
        var scan := Scan(s, at, start, 0, false);
        if scan.Pair? { SliceShift(s, 1, scan.end - at); }
      } else if s[0] != '}' {
        ScanOpens(r, at + 1, start);
        var scan := Scan(s, at, start, 0, false);
        if scan.Pair? {
          assert s[..scan.start - at] == [s[0]] + r[..scan.start - at - 1];
          SliceShift(s, scan.start - at + 1, scan.end - at);
        }
      }
    }
  }

  /** A backslash-free pattern has no brace, is unbalanced, or starts with a brace-free text and one whole group. */
  lemma FirstGroup(s: string) returns (before: string, body: string, after: string)
    requires Plain(s)
    ensures FirstBrace(s).NoBrace? ==> Braceless(s)
    ensures FirstBrace(s).Unmatched? ==> !Balanced(s)
    ensures FirstBrace(s).Pair? ==>
              && s == before + "{" + body + "}" + after
              && Plain(before) && Plain(body) && Plain(after) && Braceless(before) && Balanced(body)
              && FirstBrace(s) == Pair(|before|, |before| + 1 + |body|)
  {
    ScanOpens(s, 0, 0);
    before, body, after := "", "", "";
    if FirstBrace(s).Pair? {
      var Pair(b, e) := FirstBrace(s);
      before, body, after := s[..b], s[b + 1..e], s[e + 1..];
    }
  }

  // ----- choices of a balanced body -----

  lemma {:induction false} SplitBalanced(s: string, current: string, depth: nat)
    requires Plain(s) && Plain(current) && Level(current, 0) == depth && Level(s, depth) == 0
    ensures Split(s, current, depth).Some? && Split(s, current, depth).value != []
    ensures forall w <- Split(s, current, depth).value :: Plain(w) && Balanced(w)
  {
    if s != "" {
      LevelAppend(current, [s[0]], 0);
      assert [s[0]][1..] == "";
      if s[0] == '{' { SplitBalanced(s[1..], current + [s[0]], depth + 1); }
      else if s[0] == '}' { SplitBalanced(s[1..], current + [s[0]], depth - 1); }
      else if s[0] == ',' && depth == 0 { SplitBalanced(s[1..], "", 0); }
      else { SplitBalanced(s[1..], current + [s[0]], depth); }
    }
  }

  lemma ChoicesBalanced(body: string)
    requires Plain(body) && Balanced(body)
    ensures Choices(body).Some? && Choices(body).value != []
    ensures forall w <- Choices(body).value :: Plain(w) && Balanced(w)
  {
    if RangeOf(body).Some? {
      forall w <- Choices(body).value ensures Plain(w) && Balanced(w) {
        RangeWordIsPlain(body, w);
        BracelessLevel(w, 0);
      }
    } else {
      SplitBalanced(body, "", 0);
    }
  }

  /** One step of expansion on a pattern given as text, group, rest. */
  lemma ExpandGroup(before: string, body: string, after: string)
    requires Plain(before) && Braceless(before) && Plain(body) && Balanced(body)
    ensures var s := before + "{" + body + "}" + after;
            && Choices(body).Some?
            && (forall c <- Choices(body).value :: Opens(before + c + after) < Opens(s))
            && Expand(s) == ExpandAll(before, Choices(body).value, after, Opens(s))
  {
    hide Scan, Choices, Opens;
    var s := before + "{" + body + "}" + after;
    FirstBraceIs(before, body, after);
    ChoicesBalanced(body);
    var start, end := |before|, |before| + 1 + |body|;
    assert s[..start] == before && s[start + 1..end] == body && s[end + 1..] == after && s[start] == '{';
    FewerOpens(s, start, end);
  }

  /** The ghost bound only serves termination. */
  lemma {:induction false} BoundIrrelevant(before: string, choices: seq<string>, after: string, b1: nat, b2: nat)
    requires forall c <- choices :: Opens(before + c + after) < b1 && Opens(before + c + after) < b2
    ensures ExpandAll(before, choices, after, b1) == ExpandAll(before, choices, after, b2)
    decreases |choices|
  {
    if choices != [] {
      assert choices[0] in choices && forall c <- choices[1..] :: c in choices;
      BoundIrrelevant(before, choices[1..], after, b1, b2);
    }
  }

  // ----- success, and what is left -----

  /** A backslash-free pattern expands if and only if its braces balance; no brace is left in the words. */
  lemma {:induction false} ExpandsExactly(s: string)
    requires Plain(s)
    ensures Expand(s).Some? <==> Balanced(s)
    ensures Expand(s).Some? ==> Expand(s).value != [] && forall w <- Expand(s).value :: Braceless(w) && Plain(w)
    decreases Opens(s), 1, 0
  {
    hide Level, Opens, Choices;
    var before, body, after := FirstGroup(s);
    if FirstBrace(s).NoBrace? {
      BracelessLevel(s, 0);
    } else if FirstBrace(s).Pair? {
      ChoicesBalanced(body);
      ExpandGroup(before, body, after);
      Regroup(before, body, after, "") by { BracelessLevel("", 0); }
      ExpandsAllExactly(before, Choices(body).value, after, Opens(s));
    }
  }

  lemma {:induction false} ExpandsAllExactly(before: string, choices: seq<string>, after: string, bound: nat)
    requires Plain(before) && Braceless(before) && Plain(after)
    requires forall c <- choices :: Opens(before + c + after) < bound && Plain(c) && Balanced(c)
    ensures choices != [] ==> (ExpandAll(before, choices, after, bound).Some? <==> Balanced(after))
    ensures ExpandAll(before, choices, after, bound).Some? ==>
              && (choices != [] ==> ExpandAll(before, choices, after, bound).value != [])
              && forall w <- ExpandAll(before, choices, after, bound).value :: Braceless(w) && Plain(w)
    decreases bound, 0, |choices|
  {
    hide Level, Opens, Expand;
    if choices != [] {
      assert choices[0] in choices && forall c <- choices[1..] :: c in choices;
      ExpandsExactly(before + choices[0] + after);
      Regroup(before, choices[0], after, choices[0]);
      ExpandsAllExactly(before, choices[1..], after, bound);
    }
  }

  // ----- expansion is a homomorphism -----

  function Prefixed(x: string, ys: seq<string>): seq<string> {
    if ys == [] then [] else [x + ys[0]] + Prefixed(x, ys[1..])
  }

  /** All concatenations, the left choice varying slowest. */
  function Product(xs: seq<string>, ys: seq<string>): seq<string> {
    if xs == [] then [] else Prefixed(xs[0], ys) + Product(xs[1..], ys)
  }

  lemma {:induction false} PrefixedAppend(x: string, a: seq<string>, b: seq<string>)
    ensures Prefixed(x, a + b) == Prefixed(x, a) + Prefixed(x, b)
  {
    if a == [] {
      assert a + b == b;
    } else {
      assert (a + b)[1..] == a[1..] + b;
      PrefixedAppend(x, a[1..], b);
    }
  }

  lemma {:induction false} ProductAppend(a: seq<string>, b: seq<string>, ys: seq<string>)
    ensures Product(a + b, ys) == Product(a, ys) + Product(b, ys)
  {
    if a == [] {
      assert a + b == b;
    } else {
      assert (a + b)[1..] == a[1..] + b;
      ProductAppend(a[1..], b, ys);
    }
  }

  lemma ProductOne(x: string, ys: seq<string>)
    ensures Product([x], ys) == Prefixed(x, ys)
  {
    assert [x][1..] == [];
  }

  /** Expanding a concatenation of balanced backslash-free patterns is the ordered product of their expansions. */
  lemma {:induction false} Homomorphism(x: string, y: string)
    requires Plain(x) && Plain(y) && Balanced(x) && Balanced(y)
    ensures Expand(x).Some? && Expand(y).Some?
    ensures Expand(x + y) == Some(Product(Expand(x).value, Expand(y).value))
    decreases Opens(x + y), 1, 0
  {
    hide Level, Opens, Choices, ExpandAll, Product, Prefixed;
    ExpandsExactly(x);
    ExpandsExactly(y);
    var before, body, after := FirstGroup(x);
    if FirstBrace(x).Pair? {
      ChoicesBalanced(body);
      ExpandGroup(before, body, after);
      assert x + y == before + "{" + body + "}" + (after + y);
      ExpandGroup(before, body, after + y);
      Regroup(before, body, after, "") by { BracelessLevel("", 0); }
      LeftGroups(before, Choices(body).value, after, y, Opens(x), Opens(x + y));
    } else {
      ProductOne(x, Expand(y).value);
      var before', body', after' := FirstGroup(y);
      if FirstBrace(y).Pair? {
        ChoicesBalanced(body');
        ExpandGroup(before', body', after');
        assert x + y == (x + before') + "{" + body' + "}" + after';
        ExpandGroup(x + before', body', after');
        Regroup(before', body', after', "") by { BracelessLevel("", 0); }
        RightGroups(x, before', Choices(body').value, after', Opens(y), Opens(x + y));
      } else {
        ExpandBraceless(x);
        ExpandBraceless(y);
        ExpandBraceless(x + y);
        PrefixedOne(x, y);
      }
    }
  }

  lemma ExpandBraceless(s: string)
    requires Plain(s) && Braceless(s)
    ensures Expand(s) == Some([s])
  {
    ScanBraceless(s, "", 0, 0, 0);
    assert s + "" == s;
  }

  lemma PrefixedOne(x: string, y: string)
    ensures Prefixed(x, [y]) == [x + y]
  {
    assert [y][1..] == [];
  }

  /** The groups come from the left factor. */
  lemma {:induction false} LeftGroups(before: string, choices: seq<string>, after: string, y: string, b1: nat,
                                      bound: nat)
    requires Plain(before) && Braceless(before) && Plain(after) && Balanced(after) && Plain(y) && Balanced(y)
    requires forall c <- choices :: Plain(c) && Balanced(c)
    requires forall c <- choices :: Opens(before + c + after) < b1 && Opens(before + c + (after + y)) < bound
    requires Expand(y).Some?
    ensures ExpandAll(before, choices, after, b1).Some?
    ensures ExpandAll(before, choices, after + y, bound)
            == Some(Product(ExpandAll(before, choices, after, b1).value, Expand(y).value))
    decreases bound, 0, |choices|
  {
    hide Level, Opens, Expand, Prefixed;
    if choices != [] {
      var c := choices[0];
      assert c in choices && forall c <- choices[1..] :: c in choices;
      assert before + c + after + y == before + c + (after + y);
      Regroup(before, c, after, c);
      Homomorphism(before + c + after, y);
      LeftGroups(before, choices[1..], after, y, b1, bound);
      ProductAppend(Expand(before + c + after).value, ExpandAll(before, choices[1..], after, b1).value,
          Expand(y).value);
    }
  }

  /** The left factor has no group, so the groups come from the right one. */
  lemma {:induction false} RightGroups(x: string, before: string, choices: seq<string>, after: string, b1: nat,
                                       bound: nat)
    requires Plain(x) && Braceless(x) && Plain(before) && Braceless(before) && Plain(after) && Balanced(after)
    requires forall c <- choices :: Plain(c) && Balanced(c)
    requires forall c <- choices :: Opens(before + c + after) < b1 && Opens((x + before) + c + after) < bound
    ensures ExpandAll(before, choices, after, b1).Some?
    ensures ExpandAll(x + before, choices, after, bound)
            == Some(Prefixed(x, ExpandAll(before, choices, after, b1).value))
    decreases bound, 0, |choices|
  {
    hide Level, Opens, Expand, Product;
    if choices != [] {
      var c := choices[0];
      assert c in choices && forall c <- choices[1..] :: c in choices;
      assert x + (before + c + after) == (x + before) + c + after;
      Regroup(before, c, after, c);
      BracelessLevel(x, 0);
      Homomorphism(x, before + c + after);
      ExpandBraceless(x);
      ProductOne(x, Expand(before + c + after).value);
      RightGroups(x, before, choices[1..], after, b1, bound);
      PrefixedAppend(x, Expand(before + c + after).value, ExpandAll(before, choices[1..], after, b1).value);
    }
  }

  // ----- escapes -----

  /** The text as a pattern that stands for itself: a backslash in front of every brace and backslash. */
  function Escaped(text: string): string {
    if text == "" then ""
    else (if text[0] in {'{', '}', '\\'} then ['\\', text[0]] else [text[0]]) + Escaped(text[1..])
  }

  lemma {:induction false} ScanEscaped(text: string, s: string, at: nat, start: nat, depth: nat)
    ensures Scan(Escaped(text) + s, at, start, depth, false) == Scan(s, at + |Escaped(text)|, start, depth, false)
  {
    if text == "" {
      assert "" + s == s;
    } else {
      var rest := Escaped(text[1..]) + s;
      if text[0] in {'{', '}', '\\'} {
        ScanEscaped(text[1..], s, at + 2, start, depth);
        assert Escaped(text) + s == "\\" + ([text[0]] + rest);
        assert ("\\" + ([text[0]] + rest))[1..] == [text[0]] + rest && ([text[0]] + rest)[1..] == rest;
      } else {
        ScanEscaped(text[1..], s, at + 1, start, depth);
        assert Escaped(text) + s == [text[0]] + rest && ([text[0]] + rest)[1..] == rest;
      }
    }
  }

  /** Outside all groups, where the last one started does not matter. */
  lemma {:induction false} StartIsFresh(s: string, at: nat, a: nat, b: nat, escaped: bool)
    ensures Scan(s, at, a, 0, escaped) == Scan(s, at, b, 0, escaped)
  {
    if s != "" {
      if escaped || s[0] == '\\' || (s[0] != '{' && s[0] != '}') {
        StartIsFresh(s[1..], at + 1, a, b, !escaped && s[0] == '\\');
      }
    }
  }

  function Behind(brace: Brace, k: nat): Brace {
    match brace case Pair(start, end) => Pair(start + k, end + k) case other => other
  }

  lemma {:induction false} ScanShift(s: string, at: nat, start: nat, depth: nat, escaped: bool, k: nat)
    ensures Scan(s, at + k, start + k, depth, escaped) == Behind(Scan(s, at, start, depth, escaped), k)
  {
    if s != "" {
      if escaped { ScanShift(s[1..], at + 1, start, depth, false, k); }
      else if s[0] == '\\' { ScanShift(s[1..], at + 1, start, depth, true, k); }
      else if s[0] == '{' { ScanShift(s[1..], at + 1, if depth == 0 then at else start, depth + 1, false, k); }
      else if s[0] == '}' { if depth > 1 { ScanShift(s[1..], at + 1, start, depth - 1, false, k); } }
      else { ScanShift(s[1..], at + 1, start, depth, false, k); }
    }
  }

  lemma BraceBehindEscaped(text: string, s: string)
    ensures FirstBrace(Escaped(text) + s) == Behind(FirstBrace(s), |Escaped(text)|)
  {
    var k := |Escaped(text)|;
    ScanEscaped(text, s, 0, 0, 0);
    StartIsFresh(s, k, 0, k, false);
    ScanShift(s, 0, 0, 0, false, k);
  }

  function InFront(text: string, words: Option<seq<string>>): Option<seq<string>> {
    match words
    case None => None
    case Some(ws) => Some(Prefixed(text, ws))
  }

  /** Escaped text in front of a pattern stands in front of every word, whatever the pattern. */
  lemma {:induction false} EscapedStays(text: string, s: string)
    ensures Expand(Escaped(text) + s) == InFront(Escaped(text), Expand(s))
    decreases Opens(s), 1, 0
  {
    hide Scan, Choices, Opens, Escaped;
    var e := Escaped(text);
    BraceBehindEscaped(text, s);
    PairIndices(s, 0, 0, 0, false);
    PrefixedOne(e, s);
    if FirstBrace(s).Pair? {
      var Pair(start, end) := FirstBrace(s);
      var before, body, after := s[..start], s[start + 1..end], s[end + 1..];
      var t, k := e + s, |e|;
      assert t[..start + k] == e + before && t[start + k + 1..end + k] == body && t[end + k + 1..] == after;
      if Choices(body).Some? {
        FewerOpens(s, start, end);
        FewerOpens(t, start + k, end + k);
        EscapedStaysInAll(text, before, Choices(body).value, after, Opens(s), Opens(t));
      }
    }
  }

  lemma {:induction false} EscapedStaysInAll(text: string, before: string, choices: seq<string>, after: string,
                                             bound: nat, wider: nat)
    requires forall c <- choices :: Opens(before + c + after) < bound
    requires forall c <- choices :: Opens(Escaped(text) + before + c + after) < wider
    ensures ExpandAll(Escaped(text) + before, choices, after, wider)
            == InFront(Escaped(text), ExpandAll(before, choices, after, bound))
    decreases bound, 0, |choices|
  {
    hide Opens, Escaped, Expand;
    if choices != [] {
      assert choices[0] in choices && forall c <- choices[1..] :: c in choices;
      var s := before + choices[0] + after;
      EscapedStays(text, s);
      assert Escaped(text) + before + choices[0] + after == Escaped(text) + s;
      EscapedStaysInAll(text, before, choices[1..], after, bound, wider);
      var all := ExpandAll(before, choices[1..], after, bound);
      if Expand(s).Some? && all.Some? { PrefixedAppend(Escaped(text), Expand(s).value, all.value); }
    }
  }

  /** Escaped text alone expands to itself. */
  lemma EscapedIsLiteral(text: string)
    ensures Expand(Escaped(text)) == Some([Escaped(text)])
  {
    EscapedStays(text, "");
    PrefixedOne(Escaped(text), "");
    assert Escaped(text) + "" == Escaped(text);
  }
}
