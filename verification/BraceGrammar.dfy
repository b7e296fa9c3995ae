/** The grammar behind brace patterns: what a pattern denotes, and that expansion computes exactly that. */
module BraceGrammar {
  import opened Wrappers
  import opened Decimal
  import opened BraceExpansion

  /** A pattern is a sequence of parts; a group is a comma list or a numeric range. */
  datatype Word = End | Then(part: Part, rest: Word)
  datatype Part = Text(text: string) | Group(choices: ChoiceList) | Range(start: string, end: string)
  datatype ChoiceList = Last(word: Word) | Or(word: Word, others: ChoiceList)

  function RenderWord(w: Word): string {
    match w case End => "" case Then(p, rest) => RenderPart(p) + RenderWord(rest)
  }

  function RenderPart(p: Part): string {
    match p
    case Text(t) => t
    case Group(cs) => "{" + RenderChoices(cs) + "}"
    case Range(start, end) => "{" + (start + ".." + end) + "}"
  }

  function RenderChoices(cs: ChoiceList): string {
    match cs case Last(w) => RenderWord(w) case Or(w, others) => RenderWord(w) + ("," + RenderChoices(others))
  }

  function RenderList(cs: ChoiceList): seq<string> {
    match cs case Last(w) => [RenderWord(w)] case Or(w, others) => [RenderWord(w)] + RenderList(others)
  }

  /** Literal text has no brace and no backslash, and no comma when it is directly inside a group. A comma list
      is one that does not read as a range. */
  predicate WordOk(w: Word, inside: bool) {
    match w case End => true case Then(p, rest) => PartOk(p, inside) && WordOk(rest, inside)
  }

  predicate PartOk(p: Part, inside: bool) {
    match p
    case Text(t) => Plain(t) && Braceless(t) && (inside ==> ',' !in t)
    case Group(cs) => ChoicesOk(cs) && RangeOf(RenderChoices(cs)).None?
    case Range(start, end) => ParseI64(start).Some? && ParseI64(end).Some?
  }

  predicate ChoicesOk(cs: ChoiceList) {
    match cs case Last(w) => WordOk(w, true) case Or(w, others) => WordOk(w, true) && ChoicesOk(others)
  }

  /** The words a pattern stands for: left-to-right choice order. */
  function Denote(w: Word): seq<string>
    requires WordOk(w, false) || WordOk(w, true)
  {
    match w
    case End => [""]
    case Then(p, rest) => Product(DenotePart(p), Denote(rest))
  }

  function DenotePart(p: Part): seq<string>
    requires PartOk(p, false) || PartOk(p, true)
  {
    match p
    case Text(t) => [t]
    case Group(cs) => DenoteChoices(cs)
    case Range(start, end) =>
      RangeWords(ParseI64(start).value, ParseI64(end).value, if |start| > |end| then |start| else |end|)
  }

  function DenoteChoices(cs: ChoiceList): seq<string>
    requires ChoicesOk(cs)
  {
    match cs case Last(w) => Denote(w) case Or(w, others) => Denote(w) + DenoteChoices(others)
  }

  // ----- commas that are not inside a group -----

  predicate NoTopComma(s: string, d: nat) {
    if s == "" then true
    else if s[0] == '{' then NoTopComma(s[1..], d + 1)
    else if s[0] == '}' then d > 0 && NoTopComma(s[1..], d - 1)
    else (s[0] == ',' ==> d > 0) && NoTopComma(s[1..], d)
  }

  lemma {:induction false} NoTopCommaAppend(a: string, b: string, d: nat)
    requires Level(a, d) >= 0
    ensures NoTopComma(a + b, d) <==> NoTopComma(a, d) && NoTopComma(b, Level(a, d))
  {
    if a == "" {
      assert a + b == b;
    } else {
      assert (a + b)[1..] == a[1..] + b;
      if a[0] == '{' { NoTopCommaAppend(a[1..], b, d + 1); }
      else if a[0] == '}' { NoTopCommaAppend(a[1..], b, d - 1); }
      else { NoTopCommaAppend(a[1..], b, d); }
    }
  }

  lemma {:induction false} DeepCommas(s: string, d: nat)
    requires Level(s, d) >= 0
    ensures NoTopComma(s, d + 1)
  {
    if s != "" {
      if s[0] == '{' { DeepCommas(s[1..], d + 1); }
      else if s[0] == '}' { DeepCommas(s[1..], d - 1); }
      else { DeepCommas(s[1..], d); }
    }
  }

  lemma {:induction false} TextCommas(t: string)
    requires Braceless(t)
    ensures NoTopComma(t, 0) <==> ',' !in t
  {
    if t != "" {
      assert t == [t[0]] + t[1..];
      TextCommas(t[1..]);
    }
  }

  lemma GroupCommas(body: string)
    requires Balanced(body)
    ensures NoTopComma("{" + body + "}", 0)
  {
    DeepCommas(body, 0);
    LevelShift(body, 0, 1);
    NoTopCommaAppend(body, "}", 1);
    assert ("{" + body + "}")[1..] == body + "}";
    assert NoTopComma("}", 1) by { assert "}"[1..] == ""; }
  }

  // ----- rendered words are well formed -----

  lemma IntegerText(s: string)
    requires ParseI64(s).Some?
    ensures Plain(s) && Braceless(s) && '.' !in s && ',' !in s
  {
    var digits := if s[0] in {'-', '+'} then s[1..] else s;
    assert forall c <- s :: c == s[0] || c in s[1..];
  }

  lemma {:induction false} DotDotAfter(start: string, end: string)
    requires '.' !in start
    ensures DotDot(start + ".." + end) == Some(|start|)
  {
    var s := start + ".." + end;
    if start != "" {
      DotDotAfter(start[1..], end);
      assert s[1..] == start[1..] + ".." + end;
      assert s[0] == start[0];
    }
  }

  lemma RangeBody(start: string, end: string)
    requires ParseI64(start).Some? && ParseI64(end).Some?
    ensures Plain(start + ".." + end) && Balanced(start + ".." + end)
    ensures RangeOf(start + ".." + end)
            == Some(RangeWords(ParseI64(start).value, ParseI64(end).value, if |start| > |end| then |start| else |end|))
  {
    IntegerText(start);
    IntegerText(end);
    DotDotAfter(start, end);
    var body := start + ".." + end;
    assert body[..|start|] == start && body[|start| + 2..] == end;
    BracelessLevel(body, 0);
  }

  lemma {:induction false} WordRendered(w: Word, inside: bool)
    requires WordOk(w, inside)
    ensures Plain(RenderWord(w)) && Balanced(RenderWord(w))
    ensures inside ==> NoTopComma(RenderWord(w), 0)
  {
    hide Level, NoTopComma, ParseI64, RangeOf;
    match w
    case End =>
      BracelessLevel("", 0);
      TextCommas("");
    case Then(p, rest) =>
      PartRendered(p, inside);
      WordRendered(rest, inside);
      BalancedAppend(RenderPart(p), RenderWord(rest));
      NoTopCommaAppend(RenderPart(p), RenderWord(rest), 0);
  }

  lemma {:induction false} PartRendered(p: Part, inside: bool)
    requires PartOk(p, inside)
    ensures Plain(RenderPart(p)) && Balanced(RenderPart(p))
    ensures inside ==> NoTopComma(RenderPart(p), 0)
  {
    hide Level, NoTopComma, ParseI64, RangeOf;
    match p
    case Text(t) =>
      BracelessLevel(t, 0);
      TextCommas(t);
    case Group(cs) =>
      ChoicesRendered(cs);
      GroupLevel(RenderChoices(cs));
      GroupCommas(RenderChoices(cs));
    case Range(start, end) =>
      RangeBody(start, end);
      GroupLevel(start + ".." + end);
      GroupCommas(start + ".." + end);
  }

  lemma {:induction false} ChoicesRendered(cs: ChoiceList)
    requires ChoicesOk(cs)
    ensures Plain(RenderChoices(cs)) && Balanced(RenderChoices(cs))
    ensures Split(RenderChoices(cs), "", 0) == Some(RenderList(cs))
    ensures forall w <- RenderList(cs) :: Plain(w) && Balanced(w)
  {
    hide Level, NoTopComma, Split;
    match cs
    case Last(w) =>
      WordRendered(w, true);
      SplitWord(RenderWord(w), "", "", 0);
      assert RenderWord(w) + "" == RenderWord(w) && "" + RenderWord(w) == RenderWord(w);
      SplitEnds(RenderWord(w));
    case Or(w, others) =>
      WordRendered(w, true);
      ChoicesRendered(others);
      var tail := "," + RenderChoices(others);
      BracelessLevel(",", 0);
      BalancedAppend(",", RenderChoices(others));
      BalancedAppend(RenderWord(w), tail);
      SplitWord(RenderWord(w), tail, "", 0);
      assert "" + RenderWord(w) == RenderWord(w);
      SplitComma(RenderChoices(others), RenderWord(w));
  }

  lemma SplitEnds(current: string)
    ensures Split("", current, 0) == Some([current])
  {
  }

  lemma SplitComma(s: string, current: string)
    ensures Split("," + s, current, 0) == PrependWord(current, Split(s, "", 0))
  {
    assert ("," + s)[1..] == s;
  }

  /** A balanced text without top-level comma goes into the current choice as a whole. */
  lemma {:induction false} SplitWord(x: string, rest: string, current: string, depth: nat)
    requires Level(x, depth) == 0 && NoTopComma(x, depth)
    ensures Split(x + rest, current, depth) == Split(rest, current + x, 0)
  {
    if x == "" {
      assert x + rest == rest && current + x == current;
    } else {
      assert (x + rest)[1..] == x[1..] + rest;
      assert (current + [x[0]]) + x[1..] == current + x;
      if x[0] == '{' { SplitWord(x[1..], rest, current + [x[0]], depth + 1); }
      else if x[0] == '}' { SplitWord(x[1..], rest, current + [x[0]], depth - 1); }
      else { SplitWord(x[1..], rest, current + [x[0]], depth); }
    }
  }

  // ----- expansion computes the denotation -----

  lemma {:induction false} WordExpands(w: Word, inside: bool)
    requires WordOk(w, inside)
    ensures Expand(RenderWord(w)) == Some(Denote(w))
  {
    hide Expand, Level, Product;
    match w
    case End => ExpandBraceless("");
    case Then(p, rest) =>
      PartRendered(p, inside);
      WordRendered(rest, inside);
      PartExpands(p, inside);
      WordExpands(rest, inside);
      Homomorphism(RenderPart(p), RenderWord(rest));
  }

  lemma GroupExpands(body: string)
    requires Plain(body) && Balanced(body)
    ensures Choices(body).Some?
    ensures forall c <- Choices(body).value :: Opens("" + c + "") < Opens("{" + body + "}")
    ensures Expand("{" + body + "}") == ExpandAll("", Choices(body).value, "", Opens("{" + body + "}"))
  {
    hide Expand, ExpandAll, Level, Choices;
    ExpandGroup("", body, "");
    assert "" + "{" + body + "}" + "" == "{" + body + "}";
  }

  lemma {:induction false} PartExpands(p: Part, inside: bool)
    requires PartOk(p, inside)
    ensures Expand(RenderPart(p)) == Some(DenotePart(p))
  {
    hide Expand, Level, Opens, ParseI64;
    match p
    case Text(t) => ExpandBraceless(t);
    case Group(cs) =>
      ChoicesRendered(cs);
      GroupExpands(RenderChoices(cs));
      ChoicesExpand(cs, Opens(RenderPart(p)));
    case Range(start, end) =>
      RangeBody(start, end);
      var body := start + ".." + end;
      GroupExpands(body);
      forall c <- RangeOf(body).value ensures Plain(c) && Braceless(c) { RangeWordIsPlain(body, c); }
      BracelessAll(RangeOf(body).value, Opens(RenderPart(p)));
  }

  lemma {:induction false} BracelessAll(words: seq<string>, bound: nat)
    requires forall c <- words :: Plain(c) && Braceless(c) && Opens("" + c + "") < bound
    ensures ExpandAll("", words, "", bound) == Some(words)
    decreases |words|
  {
    hide Expand, Opens;
    if words != [] {
      assert words[0] in words && forall c <- words[1..] :: c in words;
      BracelessAll(words[1..], bound);
      assert "" + words[0] + "" == words[0];
      ExpandBraceless(words[0]);
      assert words == [words[0]] + words[1..];
    }
  }

  lemma {:induction false} ChoicesExpand(cs: ChoiceList, bound: nat)
    requires ChoicesOk(cs)
    requires forall c <- RenderList(cs) :: Opens("" + c + "") < bound
    ensures ExpandAll("", RenderList(cs), "", bound) == Some(DenoteChoices(cs))
  {
    hide Expand, Opens;
    var words := RenderList(cs);
    assert "" + words[0] + "" == words[0];
    WordExpands(cs.word, true);
    match cs
    case Last(w) =>
      assert words[1..] == [];
      assert Denote(w) + [] == Denote(w);
    case Or(w, others) =>
      assert words[1..] == RenderList(others);
      ChoicesExpand(others, bound);
  }

  // ----- every balanced pattern has a reading -----

  function Join(words: seq<string>): string {
    if words == [] then "" else if |words| == 1 then words[0] else words[0] + ("," + Join(words[1..]))
  }

  /** A text that can stand as one choice of a group. */
  predicate ChoiceText(w: string) {
    Plain(w) && Balanced(w) && NoTopComma(w, 0)
  }

  lemma {:induction false} SplitJoins(s: string, current: string, depth: nat)
    requires Plain(s) && Plain(current) && Level(current, 0) == depth && Level(s, depth) == 0 && NoTopComma(current, 0)
    ensures Split(s, current, depth).Some?
    ensures var words := Split(s, current, depth).value;
            words != [] && Join(words) == current + s && forall w <- words :: ChoiceText(w)
  {
    hide NoTopComma, ChoiceText;
    if s == "" {
      assert current + s == current;
      FinishedChoice(current);
    } else {
      var c := [s[0]];
      assert current + s == (current + c) + s[1..];
      if s[0] == ',' && depth == 0 {
        EmptyText();
        FinishedChoice(current);
        SplitJoins(s[1..], "", 0);
        var rest := Split(s[1..], "", 0).value;
        assert ([current] + rest)[1..] == rest;
        assert "" + s[1..] == s[1..];
        assert current + s == current + ("," + s[1..]);
      } else {
        Grow(current, s[0], depth);
        SplitJoins(s[1..], current + c, if s[0] == '{' then depth + 1 else if s[0] == '}' then depth - 1 else depth);
      }
    }
  }

  lemma FinishedChoice(w: string)
    requires Plain(w) && Level(w, 0) == 0 && NoTopComma(w, 0)
    ensures ChoiceText(w)
  {
  }

  lemma {:induction false} SplitIsShorter(s: string, current: string, depth: nat)
    ensures Split(s, current, depth).Some? ==> forall w <- Split(s, current, depth).value :: |w| <= |current| + |s|
  {
    if s != "" {
      var c := [s[0]];
      if s[0] == ',' && depth == 0 { SplitIsShorter(s[1..], "", 0); }
      else if s[0] == '{' { SplitIsShorter(s[1..], current + c, depth + 1); }
      else if s[0] == '}' { if depth > 0 { SplitIsShorter(s[1..], current + c, depth - 1); } }
      else { SplitIsShorter(s[1..], current + c, depth); }
    }
  }

  lemma EmptyText()
    ensures Level("", 0) == 0 && NoTopComma("", 0)
  {
  }

  lemma Grow(current: string, c: char, depth: nat)
    requires Level(current, 0) == depth && NoTopComma(current, 0)
    requires c == '}' ==> depth > 0
    requires c == ',' ==> depth > 0
    ensures Level(current + [c], 0) == if c == '{' then depth + 1 else if c == '}' then depth - 1 else depth
    ensures NoTopComma(current + [c], 0)
  {
    LevelAppend(current, [c], 0);
    NoTopCommaAppend(current, [c], 0);
    assert [c][1..] == "";
  }

  lemma {:induction false} Reading(s: string, inside: bool) returns (w: Word)
    requires Plain(s) && Balanced(s) && (inside ==> NoTopComma(s, 0))
    ensures WordOk(w, inside) && RenderWord(w) == s
    decreases |s|
  {
    hide Level, NoTopComma, Split, ParseI64, PartOk, RenderPart, RangeOf;
    var before, body, after := FirstGroup(s);
    if FirstBrace(s).NoBrace? {
      if inside { TextCommas(s); }
      PartialReading(s, inside);
      w := Then(Text(s), End);
      assert s + "" == s;
    } else {
      var group := "{" + body + "}";
      assert s == before + (group + after);
      SplitReading(before, body, after, inside);
      var rest := Reading(after, inside);
      var part: Part;
      if RangeOf(body).Some? {
        part := RangeReading(body);
      } else {
        EmptyText();
        SplitJoins(body, "", 0);
        SplitIsShorter(body, "", 0);
        assert "" + body == body;
        var cs := ChoicesReading(Split(body, "", 0).value, |s|);
        part := Group(cs);
        GroupReading(cs);
      }
      PartialReading(before, inside);
      w := Then(Text(before), Then(part, rest));
    }
  }

  lemma PartialReading(t: string, inside: bool)
    requires Plain(t) && Braceless(t) && (inside ==> ',' !in t)
    ensures PartOk(Text(t), inside) && RenderPart(Text(t)) == t
  {
  }

  lemma GroupReading(cs: ChoiceList)
    requires ChoicesOk(cs) && RangeOf(RenderChoices(cs)).None?
    ensures PartOk(Group(cs), true) && PartOk(Group(cs), false)
    ensures RenderPart(Group(cs)) == "{" + RenderChoices(cs) + "}"
  {
  }

  lemma SplitReading(before: string, body: string, after: string, inside: bool)
    requires Braceless(before) && Balanced(body)
    requires var s := before + ("{" + body + "}" + after); Balanced(s) && (inside ==> NoTopComma(s, 0))
    ensures Balanced(after) && (inside ==> ',' !in before && NoTopComma(after, 0))
  {
    hide Level, NoTopComma;
    var group := "{" + body + "}";
    BracelessLevel(before, 0);
    GroupLevel(body);
    BalancedAppend(before, group + after);
    BalancedAppend(group, after);
    if inside {
      NoTopCommaAppend(before, group + after, 0);
      NoTopCommaAppend(group, after, 0);
      TextCommas(before);
    }
  }

  lemma RangeReading(body: string) returns (part: Part)
    requires RangeOf(body).Some?
    ensures PartOk(part, true) && PartOk(part, false) && RenderPart(part) == "{" + body + "}"
  {
    hide ParseI64;
    DotDotIndex(body);
    var k := DotDot(body).value;
    part := Range(body[..k], body[k + 2..]);
    assert body == body[..k] + ".." + body[k + 2..];
  }

  lemma {:induction false} ChoicesReading(words: seq<string>, bound: nat) returns (cs: ChoiceList)
    requires words != []
    requires forall w <- words :: ChoiceText(w) && |w| < bound
    ensures ChoicesOk(cs) && RenderChoices(cs) == Join(words)
    decreases bound, 0, |words|
  {
    hide Level, NoTopComma;
    assert words[0] in words && forall w <- words[1..] :: w in words;
    var w := Reading(words[0], true);
    if |words| == 1 {
      cs := Last(w);
    } else {
      var others := ChoicesReading(words[1..], bound);
      cs := Or(w, others);
    }
  }

  /** Every balanced backslash-free pattern is a rendered word of the grammar, and it expands to exactly the
      words that word denotes, in left-to-right choice order. */
  lemma ExpandsToDenotation(s: string)
    requires Plain(s) && Balanced(s)
    ensures exists w :: WordOk(w, false) && RenderWord(w) == s && Expand(s) == Some(Denote(w))
  {
    var w := Reading(s, false);
    WordExpands(w, false);
  }

  // ----- numeric ranges -----

  lemma PaddedLength(n: int, width: nat)
    ensures |Padded(n, width)| == if width > 1 && width > |Signed(n)| then width else |Signed(n)|
  {
    hide Digits;
  }

  lemma PaddedIsNumber(n: int, width: nat)
    requires I64_MIN <= n <= I64_MAX
    ensures ParseI64(Padded(n, width)) == Some(n)
  {
    var m: nat := if n < 0 then -n else n;
    NumberOfDigits(m);
    LeadingZeros(PadCount(n, width), Digits(m));
    PaddedShape(n, width);
    hide Padded, PadCount, Digits, AllDigits, Number, ParseI64;
    SignedReads(seq(PadCount(n, width), _ => '0') + Digits(m));
  }

  function PadCount(n: int, width: nat): nat {
    if width > 1 && width > |Signed(n)| then width - |Signed(n)| else 0
  }

  lemma PaddedShape(n: int, width: nat)
    ensures var body := seq(PadCount(n, width), _ => '0') + Digits(if n < 0 then -n else n);
            Padded(n, width) == if n < 0 then "-" + body else body
  {
    hide Digits;
  }

  lemma SignedReads(body: string)
    requires body != "" && AllDigits(body)
    ensures Number(body) <= I64_MAX ==> ParseI64(body) == Some(Number(body))
    ensures Number(body) <= -I64_MIN ==> ParseI64("-" + body) == Some(0 - Number(body))
  {
    hide Number;
    assert body[0] in body && IsDigit(body[0]);
    assert ("-" + body)[1..] == body;
  }

  /** A range group enumerates its numbers one by one from the first to the last, in either direction, each word reading
      back as its number and zero-padded to the longer bound. */
  lemma RangeEnumerates(start: string, end: string, k: nat)
    requires ParseI64(start).Some? && ParseI64(end).Some?
    requires k <= Distance(ParseI64(start).value, ParseI64(end).value)
    ensures var first, last := ParseI64(start).value, ParseI64(end).value;
            var width := if |start| > |end| then |start| else |end|;
            var words := DenotePart(Range(start, end));
            && |words| == Distance(first, last) + 1
            && ParseI64(words[k]) == Some(Toward(first, last, k))
            && (width > 1 ==> |words[k]| >= width)
  {
    var first, last := ParseI64(start).value, ParseI64(end).value;
    var width := if |start| > |end| then |start| else |end|;
    PaddedLength(Toward(first, last, k), width);
    PaddedIsNumber(Toward(first, last, k), width);
  }
}
