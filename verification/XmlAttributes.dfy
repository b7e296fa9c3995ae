/** Rewriting one attribute in every start tag of a given local name, as text. */
module XmlAttributes {
  import opened Wrappers
  import opened Text
  import opened XmlScan

  // ----- escaping -----

  /** `str::replace` with a one-character pattern. */
  function Replace(s: string, c: char, entity: string): string {
    if s == "" then "" else (if s[0] == c then entity else [s[0]]) + Replace(s[1..], c, entity)
  }

  /** `xml_escape_attr`: four replacements, one after the other. */
  function Escape(value: string): string {
    Replace(Replace(Replace(Replace(value, '&', "&amp;"), '"', "&quot;"), '<', "&lt;"), '>', "&gt;")
  }

  /** What a single pass over the characters would write. */
  function EscapeChar(c: char): string {
    if c == '&' then "&amp;"
        else if c == '"' then "&quot;" else if c == '<' then "&lt;" else if c == '>' then "&gt;" else [c]
  }

  function EscapeEach(s: string): string {
    if s == "" then "" else EscapeChar(s[0]) + EscapeEach(s[1..])
  }

  /** Reading the four entities back. */
  function Unescape(s: string): string {
    if s == "" then ""
    else if "&amp;" <= s then "&" + Unescape(s[5..])
    else if "&quot;" <= s then "\"" + Unescape(s[6..])
    else if "&lt;" <= s then "<" + Unescape(s[4..])
    else if "&gt;" <= s then ">" + Unescape(s[4..])
    else [s[0]] + Unescape(s[1..])
  }

  lemma {:induction false} ReplaceAppend(a: string, b: string, c: char, entity: string)
    ensures Replace(a + b, c, entity) == Replace(a, c, entity) + Replace(b, c, entity)
  {
    if a == "" {
      assert a + b == b;
    } else {
      assert (a + b)[1..] == a[1..] + b;
      ReplaceAppend(a[1..], b, c, entity);
    }
  }

  lemma {:induction false} ReplaceAbsent(s: string, c: char, entity: string)
    requires c !in s
    ensures Replace(s, c, entity) == s
  {
    if s != "" { ReplaceAbsent(s[1..], c, entity); }
  }

  lemma ReplaceChar(x: char, c: char, entity: string)
    ensures Replace([x], c, entity) == if x == c then entity else [x]
  {
    assert [x][1..] == "";
  }

  /** Later replacements leave the entities of earlier ones alone. */
  lemma EscapeOne(c: char)
    ensures Escape([c]) == EscapeChar(c)
  {
    hide Replace;
    ReplaceChar(c, '&', "&amp;");
    if c == '&' {
      AmpersandStays();
    } else {
      ReplaceChar(c, '"', "&quot;");
      if c == '"' {
        ReplaceAbsent("&quot;", '<', "&lt;");
        ReplaceAbsent("&quot;", '>', "&gt;");
      } else {
        ReplaceChar(c, '<', "&lt;");
        ReplaceChar(c, '>', "&gt;");
        ReplaceAbsent("&lt;", '>', "&gt;");
      }
    }
  }

  lemma AmpersandStays()
    ensures Replace("&amp;", '"', "&quot;") == "&amp;"
    ensures Replace("&amp;", '<', "&lt;") == "&amp;"
    ensures Replace("&amp;", '>', "&gt;") == "&amp;"
  {
    hide Replace;
    ReplaceAbsent("&amp;", '"', "&quot;");
    ReplaceAbsent("&amp;", '<', "&lt;");
    ReplaceAbsent("&amp;", '>', "&gt;");
  }

  /** The four sequential replacements are one per-character map. */
  lemma {:induction false} EscapeIsPerCharacter(s: string)
    ensures Escape(s) == EscapeEach(s)
  {
    if s != "" {
      var c, rest := [s[0]], s[1..];
      assert s == c + rest;
      var c1, r1 := Replace(c, '&', "&amp;"), Replace(rest, '&', "&amp;");
      var c2, r2 := Replace(c1, '"', "&quot;"), Replace(r1, '"', "&quot;");
      var c3, r3 := Replace(c2, '<', "&lt;"), Replace(r2, '<', "&lt;");
      ReplaceAppend(c, rest, '&', "&amp;");
      ReplaceAppend(c1, r1, '"', "&quot;");
      ReplaceAppend(c2, r2, '<', "&lt;");
      ReplaceAppend(c3, r3, '>', "&gt;");
      EscapeOne(s[0]);
      hide Replace;
      EscapeIsPerCharacter(rest);
    }
  }

  lemma {:induction false} UnescapeStep(c: char, rest: string)
    ensures Unescape(EscapeChar(c) + rest) == [c] + Unescape(rest)
  {
    var e := EscapeChar(c);
    var s := e + rest;
    assert s[|e|..] == rest;
    if c == '&' || c == '"' || c == '<' || c == '>' {
      assert e <= s;
      assert s[1] == e[1];
      if c == '<' || c == '>' { assert s[1] != 'a' && s[1] != 'q'; }
    } else {
      assert s[0] == c;
    }
  }

  /** Escaping loses nothing and leaves no raw quote or angle bracket. */
  lemma {:induction false} EscapeRoundTrip(s: string)
    ensures Unescape(Escape(s)) == s
    ensures '"' !in Escape(s) && '<' !in Escape(s) && '>' !in Escape(s)
  {
    EscapeIsPerCharacter(s);
    hide Escape;
    if s != "" {
      UnescapeStep(s[0], EscapeEach(s[1..]));
      EscapeIsPerCharacter(s[1..]);
      hide Unescape;
      EscapeRoundTrip(s[1..]);
      assert s == [s[0]] + s[1..];
    }
  }

  // ----- one tag -----

  function Needle(attr: string): string {
    attr + "=\""
  }

  /** `replace_or_insert_xml_attr`. */
  function SetAttr(tag: string, attr: string, value: string): Option<string> {
    match Find(tag, Needle(attr), 0)
    case Some(at) =>
      var from := at + |Needle(attr)|;
      (match Find(tag, "\"", from)
       case None => None
       case Some(to) => Some(tag[..from] + value + tag[to..]))
    case None =>
      match InsertAt(tag) case None => None
        case Some(k) => Some(tag[..k] + (" " + Needle(attr)) + value + "\"" + tag[k..])
  }

  function InsertAt(tag: string): Option<nat> {
    match RFind(tag, "/>") case Some(k) => Some(k) case None => RFind(tag, ">")
  }

  /** The value a tag carries, read the way the rewriter looks for it. */
  function AttrValue(tag: string, attr: string): Option<string> {
    match Find(tag, Needle(attr), 0)
    case None => None
    case Some(at) =>
      var from := at + |Needle(attr)|;
      match Find(tag, "\"", from) case None => None case Some(to) => Some(tag[from..to])
  }

  // ----- the whole text -----

  /** `update_attr_for_local_tags`, on the text that is left. */
  function Update(s: string, local: string, attr: string, value: string): Result<string>
    decreases |s|
  {
    match Scan(s, local)
    case NoTag => Ok(s)
    case Unclosed => Err
    case Found(start, end, _) =>
      ScanBounds(s, local);
      match (SetAttr(s[start..end + 1], attr, value), Update(s[end + 1..], local, attr, value))
      case (Some(tag), Ok(rest)) => Ok(s[..start] + tag + rest)
      case _ => Err
  }

  method UpdateAttr(text: string, local: string, attr: string, value: string) returns (r: Result<string>)
    ensures r == Update(text, local, attr, value)
  {
    hide Update, ScanFrom, SetAttr;
    var out, cursor: nat := "", 0;
    assert text[0..] == text;
    PrefixedNothing(Update(text, local, attr, value));
    while true
      invariant cursor <= |text|
      invariant Update(text, local, attr, value) == Prefixed(out, Update(text[cursor..], local, attr, value))
      decreases |text| - cursor
    {
      var tag := FindStartTag(text, local, cursor);
      UpdateAt(text, local, attr, value, cursor);
      if tag.NoTag? { return Ok(out + text[cursor..]); }
      if tag.Unclosed? { return Err; }
      var rewritten := SetAttr(text[tag.start..tag.end + 1], attr, value);
      if rewritten.None? { return Err; }
      PrefixedMore(out, text[cursor..tag.start] + rewritten.value, Update(text[tag.end + 1..], local, attr, value));
      out := out + (text[cursor..tag.start] + rewritten.value);
      cursor := tag.end + 1;
    }
  }

  lemma UpdateAt(text: string, local: string, attr: string, value: string, cursor: nat)
    requires cursor <= |text|
    ensures match ScanFrom(text, local, cursor)
            case NoTag => Update(text[cursor..], local, attr, value) == Ok(text[cursor..])
            case Unclosed => Update(text[cursor..], local, attr, value) == Err
            case Found(start, end, _) =>
              && cursor <= start < end < |text|
              && Update(text[cursor..], local, attr, value)
                 == match SetAttr(text[start..end + 1], attr, value)
                    case None => Err
                    case Some(tag) => Prefixed(text[cursor..start] + tag, Update(text[end + 1..], local, attr, value))
  {
    hide Scan, SetAttr;
    var s := text[cursor..];
    ScanBounds(s, local);
    if Scan(s, local).Found? {
      var Found(start, end, _) := Scan(s, local);
      SliceOfSlice(text, cursor, start, end + 1);
      SliceOfSlice(text, cursor, 0, start);
      SliceOfSlice(text, cursor, end + 1, |s|);
      assert s[0..start] == s[..start] && s[end + 1..|s|] == s[end + 1..]
             && text[cursor + end + 1..] == text[cursor + end + 1..|text|];
    }
  }

  lemma SliceOfSlice(s: string, a: nat, lo: nat, hi: nat)
    requires a <= |s| && lo <= hi <= |s| - a
    ensures s[a..][lo..hi] == s[a + lo..a + hi]
  {
  }

  function Prefixed(out: string, r: Result<string>): Result<string> {
    match r case Err => Err case Ok(rest) => Ok(out + rest)
  }

  lemma PrefixedNothing(r: Result<string>)
    ensures Prefixed("", r) == r
  {
    if r.Ok? { assert "" + r.value == r.value; }
  }

  lemma PrefixedMore(out: string, more: string, r: Result<string>)
    ensures Prefixed(out, Prefixed(more, r)) == Prefixed(out + more, r)
  {
    if r.Ok? { assert out + (more + r.value) == (out + more) + r.value; }
  }

  // ----- one rewritten tag -----

  /** A start tag as the scanner cuts it out. */
  predicate TagShape(t: string) {
    |t| > 1 && t[0] == '<' && !NotAStartTag(t[1]) && IndexOf(t, '>') == Some(|t| - 1)
  }

  predicate PlainAttr(attr: string) {
    ' ' !in attr && '<' !in attr && '>' !in attr
  }

  /** No raw quote or angle bracket, as after escaping. */
  predicate PlainValue(value: string) {
    '"' !in value && '<' !in value && '>' !in value
  }

  predicate IsTagIn(s: string, r: TagSearch) {
    r.Found? ==>
      && r.start < r.end < |s| && TagShape(s[r.start..r.end + 1])
      && r.name == TagName(s[r.start + 1..r.end + 1])
  }

  lemma FoundTagShape(s: string, local: string)
    requires Scan(s, local).Found?
    ensures var Found(start, end, name) := Scan(s, local);
            start < end < |s| && TagShape(s[start..end + 1]) && name == TagName(s[start + 1..end + 1])
  {
    FoundTag(s, local);
  }

  lemma {:induction false} FoundTag(s: string, local: string)
    ensures IsTagIn(s, Scan(s, local))
  {
    hide TagName, LocalName, IndexOf, IsTagIn;
    if s == "" || (s[0] == '<' && (|s| == 1 || (!NotAStartTag(s[1]) && IndexOf(s, '>') == None))) {
      NoTagIn(s);
    } else if s[0] != '<' || NotAStartTag(s[1]) {
      FoundTag(s[1..], local);
      FoundLater(s, 1, Scan(s[1..], local));
    } else {
      var e := IndexOf(s, '>').value;
      FirstTag(s, e);
      FoundTag(s[e + 1..], local);
      FoundLater(s, e + 1, Scan(s[e + 1..], local));
    }
  }

  lemma NoTagIn(s: string)
    ensures IsTagIn(s, NoTag) && IsTagIn(s, Unclosed)
  {
  }

  lemma FirstTag(s: string, e: nat)
    requires |s| > 1 && s[0] == '<' && !NotAStartTag(s[1]) && IndexOf(s, '>') == Some(e)
    ensures IsTagIn(s, Found(0, e, TagName(s[1..e + 1])))
  {
    hide TagName;
    assert s[0..e + 1][..e] == s[..e];
    IndexOfIs(s[0..e + 1], '>', e);
  }

  lemma FoundLater(s: string, n: nat, r: TagSearch)
    requires n <= |s| && IsTagIn(s[n..], r)
    ensures IsTagIn(s, Skip(n, r))
  {
    hide TagName, TagShape;
    if r.Found? {
      SliceOfSlice(s, n, r.start, r.end + 1);
      SliceOfSlice(s, n, r.start + 1, r.end + 1);
    }
  }

  /** An occurrence within a common prefix. */
  lemma OccursInPrefix(s: string, t: string, n: nat, needle: string, k: nat)
    requires n <= |s| && n <= |t| && s[..n] == t[..n] && k + |needle| <= n
    ensures OccursAt(s, needle, k) <==> OccursAt(t, needle, k)
  {
    assert s[k..k + |needle|] == s[..n][k..k + |needle|];
    assert t[k..k + |needle|] == t[..n][k..k + |needle|];
  }

  /** The needle at `at`, then the value, then a quote. */
  predicate ValueAt(t: string, needle: string, at: nat, value: string) {
    && OccursAt(t, needle, at)
    && var from := at + |needle|;
      from + |value| < |t| && t[from..from + |value|] == value && t[from + |value|] == '"'
  }

  ghost predicate NoneBefore(t: string, needle: string, at: nat) {
    forall k: nat | k < at :: !OccursAt(t, needle, k)
  }

  /** A value standing between an attribute's opening quote and the next quote. */
  lemma ValueStands(t: string, attr: string, at: nat, value: string)
    requires ValueAt(t, Needle(attr), at, value) && NoneBefore(t, Needle(attr), at) && '"' !in value
    ensures AttrValue(t, attr) == Some(value) && SetAttr(t, attr, value) == Some(t)
  {
    hide Find, Needle;
    var from := at + |Needle(attr)|;
    var to := from + |value|;
    FindIs(t, Needle(attr), 0, at);
    forall k | from <= k < to ensures !OccursAt(t, "\"", k) {
      assert t[k] == t[from..to][k - from];
      assert t[k..k + 1] == [t[k]];
    }
    assert t[to..to + 1] == "\"";
    FindIs(t, "\"", from, to);
    assert t == t[..from] + value + t[to..];
  }

  lemma ReplacedTag(t: string, attr: string, value: string)
    requires TagShape(t) && PlainAttr(attr) && PlainValue(value)
    requires Find(t, Needle(attr), 0).Some? && SetAttr(t, attr, value).Some?
    ensures var t' := SetAttr(t, attr, value).value;
            TagShape(t') && AttrValue(t', attr) == Some(value) && SetAttr(t', attr, value) == Some(t')
  {
    var at := Find(t, Needle(attr), 0).value;
    var from := at + |Needle(attr)|;
    var to := Find(t, "\"", from).value;
    QuoteAt(t, to);
    assert SetAttr(t, attr, value).value == t[..from] + value + t[to..];
    hide Find, IndexOf, TagShape, AttrValue, SetAttr;
    ReplacedValue(t, from, to, attr, at, value);
    SplicedTagShape(t, from, to, value);
  }

  lemma QuoteAt(t: string, k: nat)
    requires OccursAt(t, "\"", k)
    ensures k < |t| && t[k] == '"'
  {
    assert t[k] == t[k..k + 1][0];
  }

  lemma ReplacedValue(t: string, from: nat, to: nat, attr: string, at: nat, value: string)
    requires from <= to < |t| && t[to] == '"' && from == at + |Needle(attr)|
    requires OccursAt(t, Needle(attr), at) && NoneBefore(t, Needle(attr), at) && PlainValue(value)
    ensures var t' := t[..from] + value + t[to..];
            AttrValue(t', attr) == Some(value) && SetAttr(t', attr, value) == Some(t')
  {
    ReplacedNeedle(t, from, to, Needle(attr), at, value);
    hide AttrValue, SetAttr, Needle, OccursAt, ValueAt, NoneBefore;
    ValueStands(t[..from] + value + t[to..], attr, at, value);
  }

  lemma ReplacedNeedle(t: string, from: nat, to: nat, needle: string, at: nat, value: string)
    requires from <= to < |t| && t[to] == '"' && from == at + |needle|
    requires OccursAt(t, needle, at) && NoneBefore(t, needle, at)
    ensures var t' := t[..from] + value + t[to..]; ValueAt(t', needle, at, value) && NoneBefore(t', needle, at)
  {
    hide OccursAt;
    var t' := t[..from] + value + t[to..];
    assert t'[..from] == t[..from] && t'[from..from + |value|] == value;
    OccursInPrefix(t, t', from, needle, at);
    forall k: nat | k < at ensures !OccursAt(t', needle, k) {
      OccursInPrefix(t, t', from, needle, k);
    }
  }

  /** Putting a text without angle brackets inside a tag leaves it one tag. */
  lemma SplicedTagShape(t: string, from: nat, to: nat, text: string)
    requires TagShape(t) && 1 <= from <= to < |t| && '>' !in text
    requires from == 1 ==> text != "" && !NotAStartTag(text[0])
    ensures TagShape(t[..from] + text + t[to..])
  {
    hide IndexOf;
    var t' := t[..from] + text + t[to..];
    var front := t[..|t| - 1];
    assert t'[..|t'| - 1] == front[..from] + text + front[to..];
    IndexOfIs(t', '>', |t'| - 1);
  }

  lemma InsertAtIs(t: string)
    requires TagShape(t)
    ensures InsertAt(t) == Some(if t[|t| - 2] == '/' then |t| - 2 else |t| - 1)
  {
    hide IndexOf, RFindBefore;
    var last := |t| - 1;
    var front := t[..last];
    forall k | 0 <= k < last ensures t[k] != '>' { assert front[k] == t[k]; }
    assert t[last..last + 1] == ">";
    RFindIs(t, ">", last);
    forall k | 0 <= k && k != last - 1 ensures !OccursAt(t, "/>", k) {
      if k + 2 <= |t| { assert t[k..k + 2][1] == t[k + 1]; }
    }
    assert t[last - 1..last + 1] == [t[last - 1], '>'];
    if t[last - 1] == '/' {
      RFindIs(t, "/>", last - 1);
    } else {
      assert t[last - 1..last + 1][0] != '/';
      assert !OccursAt(t, "/>", last - 1);
    }
  }

  lemma NoOccurrenceOver(s: string, needle: string, j: nat, k: nat)
    requires j <= k < j + |needle| && k < |s| && s[k] !in needle
    ensures !OccursAt(s, needle, j)
  {
    if j + |needle| <= |s| { assert s[j..j + |needle|][k - j] == s[k]; }
  }

  lemma InsertedTag(t: string, attr: string, value: string)
    requires TagShape(t) && PlainAttr(attr) && PlainValue(value)
    requires Find(t, Needle(attr), 0).None?
    ensures SetAttr(t, attr, value).Some?
    ensures var t' := SetAttr(t, attr, value).value;
            TagShape(t') && AttrValue(t', attr) == Some(value) && SetAttr(t', attr, value) == Some(t')
  {
    InsertAtIs(t);
    var k := InsertAt(t).value;
    hide Find, IndexOf, RFindBefore, TagShape, AttrValue, InsertAt;
    var t' := SetAttr(t, attr, value).value;
    var text := (" " + Needle(attr)) + value + "\"";
    assert t' == t[..k] + text + t[k..];
    InsertedShape(t, k, attr, value);
    InsertedValue(t, k, attr, value);
  }

  lemma InsertedShape(t: string, k: nat, attr: string, value: string)
    requires TagShape(t) && 1 <= k < |t| && PlainAttr(attr) && PlainValue(value)
    ensures TagShape(t[..k] + ((" " + Needle(attr)) + value + "\"") + t[k..])
  {
    SplicedTagShape(t, k, k, (" " + Needle(attr)) + value + "\"");
  }

  lemma InsertedNeedle(t: string, k: nat, needle: string, t': string)
    requires k <= |t| && k < |t'| && t'[..k] == t[..k] && t'[k] == ' ' && ' ' !in needle
    requires forall j: nat :: !OccursAt(t, needle, j)
    ensures NoneBefore(t', needle, k + 1)
  {
    forall j: nat | j < k + 1 ensures !OccursAt(t', needle, j) {
      hide OccursAt;
      if j + |needle| <= k {
        OccursInPrefix(t, t', k, needle, j);
      } else {
        NoOccurrenceOver(t', needle, j, k);
      }
    }
  }

  lemma InsertedParts(t: string, k: nat, needle: string, value: string)
    requires k < |t|
    ensures var t' := t[..k] + ((" " + needle) + value + "\"") + t[k..];
            k < |t'| && t'[..k] == t[..k] && t'[k] == ' ' && ValueAt(t', needle, k + 1, value)
  {
    var t' := t[..k] + ((" " + needle) + value + "\"") + t[k..];
    var from := k + 1 + |needle|;
    assert t'[k + 1..from] == needle && t'[from..from + |value|] == value;
  }

  lemma InsertedValue(t: string, k: nat, attr: string, value: string)
    requires k < |t| && PlainAttr(attr) && PlainValue(value) && Find(t, Needle(attr), 0).None?
    ensures var t' := t[..k] + ((" " + Needle(attr)) + value + "\"") + t[k..];
            AttrValue(t', attr) == Some(value) && SetAttr(t', attr, value) == Some(t')
  {
    NoSpaceInNeedle(attr);
    InsertedParts(t, k, Needle(attr), value);
    hide Find, AttrValue, SetAttr, OccursAt, Needle, ValueAt, NoneBefore;
    var t' := t[..k] + ((" " + Needle(attr)) + value + "\"") + t[k..];
    InsertedNeedle(t, k, Needle(attr), t');
    ValueStands(t', attr, k + 1, value);
  }

  lemma NoSpaceInNeedle(attr: string)
    requires PlainAttr(attr)
    ensures ' ' !in Needle(attr)
  {
  }

  lemma RewrittenTag(t: string, attr: string, value: string)
    requires TagShape(t) && PlainAttr(attr) && PlainValue(value) && SetAttr(t, attr, value).Some?
    ensures var t' := SetAttr(t, attr, value).value;
            TagShape(t') && AttrValue(t', attr) == Some(value) && SetAttr(t', attr, value) == Some(t')
  {
    if Find(t, Needle(attr), 0).Some? { ReplacedTag(t, attr, value); } else { InsertedTag(t, attr, value); }
  }

  // ----- the text cut at the scanned tags -----

  /** What the scan sees: text, a tag, text, a tag, ... and the text behind the last tag. */
  datatype Pieces = Last(text: string) | Broken | Piece(gap: string, tag: string, more: Pieces)

  function Cut(s: string, local: string): Pieces
    decreases |s|
  {
    match Scan(s, local)
    case NoTag => Last(s)
    case Unclosed => Broken
    case Found(start, end, _) =>
      ScanBounds(s, local);
      Piece(s[..start], s[start..end + 1], Cut(s[end + 1..], local))
  }

  function Join(p: Pieces): string {
    match p case Last(text) => text case Broken => "" case Piece(gap, tag, more) => gap + tag + Join(more)
  }

  /** Nothing broken, and every tag's attribute can be set. */
  predicate Rewritable(p: Pieces, attr: string, value: string) {
    match p
    case Last(_) => true
    case Broken => false
    case Piece(_, tag, more) => SetAttr(tag, attr, value).Some? && Rewritable(more, attr, value)
  }

  /** Each tag rewritten, each gap as it was. */
  function Rewritten(p: Pieces, attr: string, value: string): Pieces
    requires Rewritable(p, attr, value)
  {
    match p
    case Last(_) => p
    case Piece(gap, tag, more) => Piece(gap, SetAttr(tag, attr, value).value, Rewritten(more, attr, value))
  }

  predicate AllCarry(p: Pieces, attr: string, value: string) {
    match p case Piece(_, tag, more) => AttrValue(tag, attr) == Some(value) && AllCarry(more, attr, value)
      case _ => true
  }

  /** No tag's name holds a quote, so no attribute's value can begin inside a name. */
  predicate QuotelessNames(p: Pieces) {
    match p case Piece(_, tag, more) => (tag != "" ==> '"' !in TagName(tag[1..])) && QuotelessNames(more) case _ => true
  }

  predicate Whole(p: Pieces) {
    match p case Last(_) => true case Broken => false case Piece(_, _, more) => Whole(more)
  }

  lemma {:induction false} CutJoins(s: string, local: string)
    requires Whole(Cut(s, local))
    ensures Join(Cut(s, local)) == s
    decreases |s|
  {
    hide Scan;
    if Scan(s, local).Found? {
      var Found(start, end, _) := Scan(s, local);
      ScanBounds(s, local);
      CutJoins(s[end + 1..], local);
      assert s == s[..start] + s[start..end + 1] + s[end + 1..];
    }
  }

  lemma {:induction false} RewritableIsWhole(p: Pieces, attr: string, value: string)
    ensures Rewritable(p, attr, value) ==> Whole(p)
  {
    match p
    case Piece(_, _, more) => RewritableIsWhole(more, attr, value);
    case _ =>
  }

  /** The update changes the scanned tags and nothing else; it fails exactly when a tag is not closed or an
      attribute's quote is not. */
  lemma {:induction false} RewritesOnlyTheTags(s: string, local: string, attr: string, value: string)
    ensures Update(s, local, attr, value)
            == if Rewritable(Cut(s, local), attr, value) then Ok(Join(Rewritten(Cut(s, local), attr, value))) else Err
    ensures Update(s, local, attr, value).Ok? ==> Join(Cut(s, local)) == s
    decreases |s|
  {
    hide Scan, SetAttr;
    RewritableIsWhole(Cut(s, local), attr, value);
    if Whole(Cut(s, local)) { CutJoins(s, local); }
    if Scan(s, local).Found? {
      ScanBounds(s, local);
      RewritesOnlyTheTags(s[Scan(s, local).end + 1..], local, attr, value);
    }
  }

  // ----- scanning the rewritten text -----

  /** The scan passes over the first `start` characters of `s` in front of any tag. */
  predicate Passes(s: string, start: nat, y: string, local: string) {
    start <= |s| && Scan(s[..start] + y, local) == Skip(start, Scan(y, local))
  }

  /** Text the scan passed over is passed over again in front of any other tag. */
  lemma {:induction false} GapPassed(s: string, local: string, y: string)
    requires Scan(s, local).Found?
    requires y != "" && y[0] == '<'
    ensures Passes(s, Scan(s, local).start, y, local)
    decreases |s|
  {
    hide TagName, LocalName, IndexOf, Passes;
    if s[0] != '<' || NotAStartTag(s[1]) {
      GapPassed(s[1..], local, y);
      ScanBounds(s[1..], local);
      PlainGap(s, local, y, Scan(s[1..], local).start);
    } else {
      var e := IndexOf(s, '>').value;
      if LocalName(TagName(s[1..e + 1])) == local {
        NoGap(s, local, y);
      } else {
        GapPassed(s[e + 1..], local, y);
        TagGap(s, local, y, e, Scan(s[e + 1..], local).start);
      }
    }
  }

  lemma NoGap(s: string, local: string, y: string)
    ensures Passes(s, 0, y, local)
  {
    assert s[..0] + y == y;
    SkipTwice(0, 0, Scan(y, local));
  }

  lemma PlainGap(s: string, local: string, y: string, start: nat)
    requires s != "" && start < |s[1..]| && s[1..][start] == '<'
    requires s[0] != '<' || (|s| > 1 && NotAStartTag(s[1]))
    requires Passes(s[1..], start, y, local)
    ensures Passes(s, 1 + start, y, local)
  {
    assert s[1..][start] == s[1 + start];
    var p := s[..1 + start];
    hide Scan, Skip;
    assert p[1..] == s[1..][..start];
    PlainStep(p, y, local);
    SkipTwice(1, start, Scan(y, local));
  }

  lemma TagGap(s: string, local: string, y: string, e: nat, start: nat)
    requires |s| > 1 && s[0] == '<' && !NotAStartTag(s[1]) && IndexOf(s, '>') == Some(e)
    requires LocalName(TagName(s[1..e + 1])) != local
    requires Passes(s[e + 1..], start, y, local)
    ensures Passes(s, e + 1 + start, y, local)
  {
    hide Scan, IndexOf, TagName, LocalName, Skip;
    var p := s[..e + 1 + start];
    GapTag(s, p, e);
    assert p[e + 1..] == s[e + 1..][..start];
    TagStep(p, y, local, e);
    SkipTwice(e + 1, start, Scan(y, local));
  }

  lemma GapTag(s: string, p: string, e: nat)
    requires |s| > 1 && IndexOf(s, '>') == Some(e) && 0 < e < |p| && p <= s
    ensures |p| > 1 && p[1] == s[1] && p[0] == s[0] && p[1..e + 1] == s[1..e + 1] && IndexOf(p, '>') == Some(e)
  {
    assert p[..e] == s[..e];
    IndexOfIs(p, '>', e);
  }

  /** A text the scan passes over is kept by the update, and by the cut. */
  lemma PassedIsKept(p: string, r: string, local: string, attr: string, value: string)
    requires Scan(p + r, local) == Skip(|p|, Scan(r, local))
    ensures Update(p + r, local, attr, value) == Prefixed(p, Update(r, local, attr, value))
  {
    hide Scan, SetAttr;
    ScanBounds(r, local);
    if Scan(r, local).Found? {
      var Found(start, end, _) := Scan(r, local);
      BehindPrefix(p, r, start, end);
      var rest := Update(r[end + 1..], local, attr, value);
      if rest.Ok? && SetAttr(r[start..end + 1], attr, value).Some? {
        var tag := SetAttr(r[start..end + 1], attr, value).value;
        assert (p + r[..start]) + tag + rest.value == p + (r[..start] + tag + rest.value);
      }
    }
  }

  lemma BehindPrefix(p: string, r: string, start: nat, end: nat)
    requires start <= end < |r|
    ensures (p + r)[|p| + start..|p| + end + 1] == r[start..end + 1]
    ensures (p + r)[|p| + end + 1..] == r[end + 1..]
    ensures (p + r)[..|p| + start] == p + r[..start]
  {
  }

  /** A tag at the front, found or not, is stepped over. */
  lemma TagInFront(t: string, rest: string, local: string)
    requires TagShape(t)
    ensures Scan(t + rest, local) == if LocalName(TagName(t[1..])) == local then Found(0, |t| - 1, TagName(t[1..]))
                                     else Skip(|t|, Scan(rest, local))
  {
    hide TagName, LocalName, IndexOf;
    TagStep(t, rest, local, |t| - 1);
    assert t[1..|t|] == t[1..] && t[|t|..] + rest == rest;
  }

  /** A tag that is already as it should be is kept. */
  lemma TagKept(t: string, rest: string, local: string, attr: string, value: string)
    requires TagShape(t) && SetAttr(t, attr, value) == Some(t)
    ensures Update(t + rest, local, attr, value) == Prefixed(t, Update(rest, local, attr, value))
  {
    TagInFront(t, rest, local);
    hide Scan, SetAttr, TagShape, TagName, LocalName;
    if Scan(t + rest, local) == Skip(|t|, Scan(rest, local)) {
      PassedIsKept(t, rest, local, attr, value);
    } else {
      var s := t + rest;
      assert s[0..|t|] == t && s[|t|..] == rest && s[..0] + t == t;
    }
  }

  /** A second application changes nothing. */
  lemma {:induction false} UpdateIsIdempotent(s: string, local: string, attr: string, value: string)
    requires PlainAttr(attr) && PlainValue(value)
    requires Update(s, local, attr, value).Ok?
    ensures Update(Update(s, local, attr, value).value, local, attr, value) == Update(s, local, attr, value)
    decreases |s|
  {
    hide Scan, SetAttr, TagShape, AttrValue, TagName, PlainAttr, PlainValue;
    if Scan(s, local).Found? {
      FoundTagShape(s, local);
      var Found(start, end, _) := Scan(s, local);
      var rest := Update(s[end + 1..], local, attr, value).value;
      UpdateIsIdempotent(s[end + 1..], local, attr, value);
      RewrittenTag(s[start..end + 1], attr, value);
      var tag := SetAttr(s[start..end + 1], attr, value).value;
      RewrittenTagStarts(tag);
      GapPassed(s, local, tag + rest);
      PassedIsKept(s[..start], tag + rest, local, attr, value);
      TagKept(tag, rest, local, attr, value);
      assert s[..start] + (tag + rest) == s[..start] + tag + rest;
    }
  }

  lemma RewrittenTagStarts(t: string)
    requires TagShape(t)
    ensures t != "" && forall y: string :: (t + y)[0] == '<'
  {
  }

  lemma PassedIsCut(p: string, r: string, local: string)
    requires Scan(p + r, local) == Skip(|p|, Scan(r, local))
    ensures Cut(p + r, local) == match Cut(r, local)
                                 case Last(text) => Last(p + text)
                                 case Broken => Broken
                                 case Piece(gap, tag, more) => Piece(p + gap, tag, more)
  {
    hide Scan;
    ScanBounds(r, local);
    if Scan(r, local).Found? {
      var Found(start, end, _) := Scan(r, local);
      BehindPrefix(p, r, start, end);
    }
  }

  /** Every tag the scan finds afterwards carries the value, whatever the names were. */
  lemma {:induction false} EveryTagCarriesTheValue(s: string, local: string, attr: string, value: string)
    requires PlainAttr(attr) && PlainValue(value)
    requires Update(s, local, attr, value).Ok?
    ensures AllCarry(Cut(Update(s, local, attr, value).value, local), attr, value)
    decreases |s|
  {
    hide Scan, SetAttr, TagShape, AttrValue, TagName, LocalName, PlainAttr, PlainValue;
    if Scan(s, local).Found? {
      FoundTagShape(s, local);
      var Found(start, end, _) := Scan(s, local);
      var rest := Update(s[end + 1..], local, attr, value).value;
      EveryTagCarriesTheValue(s[end + 1..], local, attr, value);
      RewrittenTag(s[start..end + 1], attr, value);
      var tag := SetAttr(s[start..end + 1], attr, value).value;
      RewrittenTagStarts(tag);
      TagInFront(tag, rest, local);
      if Scan(tag + rest, local) == Skip(|tag|, Scan(rest, local)) {
        PassedIsCut(tag, rest, local);
      } else {
        assert (tag + rest)[0..|tag|] == tag && (tag + rest)[|tag|..] == rest;
      }
      GapPassed(s, local, tag + rest);
      PassedIsCut(s[..start], tag + rest, local);
      assert s[..start] + (tag + rest) == s[..start] + tag + rest;
    }
  }

  // ----- the same tags again -----

  lemma NameBefore(a: string, b: string, c: string)
    requires b != "" && c != "" && EndsName(b[0]) && EndsName(c[0])
    ensures TagName(a + b) == TagName(a + c)
  {
    if exists x <- a :: EndsName(x) {
      TagNameEnds(a, b);
      TagNameEnds(a, c);
    } else {
      TagNameGoesOn(a, b);
      TagNameGoesOn(a, c);
    }
  }

  lemma {:induction false} NameStops(a: string)
    ensures TagName(a) <= a && forall c <- TagName(a) :: !EndsName(c)
    ensures |TagName(a)| < |a| ==> EndsName(a[|TagName(a)|])
  {
    if a != "" && !EndsName(a[0]) { NameStops(a[1..]); }
  }

  /** Rewriting keeps a name that holds no quote. */
  lemma NameKept(t: string, attr: string, value: string)
    requires TagShape(t) && PlainAttr(attr) && PlainValue(value) && SetAttr(t, attr, value).Some?
    requires '"' !in TagName(t[1..])
    ensures SetAttr(t, attr, value).value != "" && TagName(SetAttr(t, attr, value).value[1..]) == TagName(t[1..])
  {
    hide Find, IndexOf, RFindBefore, TagName, InsertAt;
    match Find(t, Needle(attr), 0)
    case Some(at) =>
      var from := at + |Needle(attr)|;
      NeedleEnds(t, attr, at);
      var to := Find(t, "\"", from).value;
      NameKeptBehind(t, from, value + t[to..]);
      assert t[..from] + value + t[to..] == t[..from] + (value + t[to..]);
    case None =>
      InsertAtIs(t);
      var k := InsertAt(t).value;
      NameKeptInFront(t, k, Needle(attr) + value + "\"" + t[k..]);
      assert t[..k] + (" " + Needle(attr)) + value + "\"" + t[k..]
             == t[..k] + ([' '] + (Needle(attr) + value + "\"" + t[k..]));
  }

  lemma NeedleEnds(t: string, attr: string, at: nat)
    requires OccursAt(t, Needle(attr), at)
    ensures t[at + |Needle(attr)| - 1] == '"'
  {
    var n := |Needle(attr)|;
    assert t[at..at + n][n - 1] == t[at + n - 1];
  }

  lemma NameKeptBehind(t: string, from: nat, y: string)
    requires TagShape(t) && 2 <= from <= |t| && t[from - 1] == '"' && '"' !in TagName(t[1..])
    ensures TagName((t[..from] + y)[1..]) == TagName(t[1..])
  {
    hide TagName, IndexOf;
    NameStops(t[1..]);
    NameEndsBefore(t, from - 1);
    TagNameEnds(t[1..from], t[from..]);
    assert t[1..from] + t[from..] == t[1..];
    TagNameEnds(t[1..from], y);
    assert t[1..from] + y == (t[..from] + y)[1..];
  }

  lemma NameKeptInFront(t: string, k: nat, y: string)
    requires 1 <= k < |t| && EndsName(t[k])
    ensures TagName((t[..k] + ([' '] + y))[1..]) == TagName(t[1..])
  {
    hide TagName;
    var text := [' '] + y;
    NameBefore(t[1..k], t[k..], text);
    assert t[1..k] + t[k..] == t[1..];
    assert t[1..k] + text == (t[..k] + text)[1..];
  }

  lemma NameEndsBefore(t: string, q: nat)
    requires TagShape(t) && 1 <= q < |t| && t[q] == '"' && '"' !in TagName(t[1..])
    requires TagName(t[1..]) <= t[1..] && (|TagName(t[1..])| < |t[1..]| ==> EndsName(t[1..][|TagName(t[1..])|]))
    ensures exists c <- t[1..q + 1] :: EndsName(c)
  {
    hide TagName, IndexOf;
    var n := |TagName(t[1..])|;
    assert t[1..][q - 1] == t[q];
    assert t[1..][n] == t[1..q + 1][n];
    assert t[1..q + 1][n] in t[1..q + 1];
  }

  /** With names free of quotes, rescanning meets the rewritten tags one for one, with the same text between. */
  lemma {:induction false} RescanMeetsTheSameTags(s: string, local: string, attr: string, value: string)
    requires PlainAttr(attr) && PlainValue(value)
    requires Update(s, local, attr, value).Ok? && QuotelessNames(Cut(s, local))
    ensures Rewritable(Cut(s, local), attr, value)
    ensures Cut(Update(s, local, attr, value).value, local) == Rewritten(Cut(s, local), attr, value)
    decreases |s|
  {
    hide Scan, SetAttr, TagShape, AttrValue, TagName, LocalName, PlainAttr, PlainValue;
    RewritesOnlyTheTags(s, local, attr, value);
    if Scan(s, local).Found? {
      FoundTagShape(s, local);
      var Found(start, end, name) := Scan(s, local);
      var rest := Update(s[end + 1..], local, attr, value).value;
      RescanMeetsTheSameTags(s[end + 1..], local, attr, value);
      RewrittenTag(s[start..end + 1], attr, value);
      assert s[start..end + 1][1..] == s[start + 1..end + 1];
      NameKept(s[start..end + 1], attr, value);
      var tag := SetAttr(s[start..end + 1], attr, value).value;
      ScanBounds(s, local);
      RewrittenTagStarts(tag);
      TagInFront(tag, rest, local);
      assert (tag + rest)[0..|tag|] == tag && (tag + rest)[|tag|..] == rest;
      GapPassed(s, local, tag + rest);
      PassedIsCut(s[..start], tag + rest, local);
      assert s[..start] + (tag + rest) == s[..start] + tag + rest;
    }
  }
}
