/** The text scanner that finds XML start tags without parsing XML. */
module XmlScan {
  import opened Wrappers
  import opened Sequences
  import opened Text

  /** `end` is the index of the first '>' after the tag's '<', quotes or not. */
  datatype TagSearch = NoTag | Unclosed | Found(start: nat, end: nat, name: string)

  predicate EndsName(c: char) {
    IsWhitespace(c) || c == '>' || c == '/'
  }

  function TagName(t: string): string {
    if t == "" || EndsName(t[0]) then "" else [t[0]] + TagName(t[1..])
  }

  /** What follows the last colon. */
  function LocalName(name: string): string {
    match IndexOf(name, ':') case None => name case Some(k) => LocalName(name[k + 1..])
  }

  function Skip(n: nat, r: TagSearch): TagSearch {
    match r case Found(start, end, name) => Found(n + start, n + end, name) case other => other
  }

  predicate NotAStartTag(c: char) {
    c == '/' || c == '!' || c == '?'
  }

  /** `find_xml_start_tag_by_local_name`, on the text that is left. */
  function Scan(s: string, local: string): TagSearch {
    if s == "" then NoTag
    else if s[0] != '<' then Skip(1, Scan(s[1..], local))
    else if |s| == 1 then NoTag
    else if NotAStartTag(s[1]) then Skip(1, Scan(s[1..], local))
    else match IndexOf(s, '>')
      case None => Unclosed
      case Some(e) =>
        var name := TagName(s[1..e + 1]);
        if LocalName(name) == local then Found(0, e, name) else Skip(e + 1, Scan(s[e + 1..], local))
  }

  /** Name of the first start tag, past declarations and comments: `find_xml_root_start_tag`. */
  function Root(s: string): Option<string> {
    if s == "" then None
    else if s[0] != '<' then Root(s[1..])
    else if |s| == 1 || s[1] == '/' then None
    else match IndexOf(s, '>')
      case None => None
      case Some(e) => if s[1] == '?' || s[1] == '!' then Root(s[e + 1..]) else Some(TagName(s[1..e + 1]))
  }

  /** The same scan, starting at a position of the whole text. */
  function ScanFrom(text: string, local: string, from: nat): TagSearch
    requires from <= |text|
  {
    Skip(from, Scan(text[from..], local))
  }

  /** `text[from..].find(c)`, as an index into the text. */
  function NextChar(text: string, c: char, from: nat): (r: Option<nat>)
    requires from <= |text|
    ensures r.Some? ==> from <= r.value < |text| && text[r.value] == c
  {
    match IndexOf(text[from..], c) case None => None case Some(k) => Some(from + k)
  }

  method FindStartTag(text: string, local: string, from: nat) returns (r: TagSearch)
    requires from <= |text|
    ensures r == ScanFrom(text, local, from)
  {
    hide ScanFrom, NextChar, TagName, LocalName, NotAStartTag;
    var cursor := from;
    while cursor <= |text|
      invariant cursor <= |text| && ScanFrom(text, local, from) == ScanFrom(text, local, cursor)
      decreases |text| - cursor
    {
      var start := NextChar(text, '<', cursor);
      ScanFromGap(text, local, cursor);
      if start.None? { return NoTag; }
      ScanFromTag(text, local, start.value);
      if start.value + 1 == |text| { return NoTag; }
      if NotAStartTag(text[start.value + 1]) {
        cursor := start.value + 1;
        continue;
      }
      var end := NextChar(text, '>', start.value + 1);
      if end.None? { return Unclosed; }
      var name := TagName(text[start.value + 1..end.value + 1]);
      if LocalName(name) == local { return Found(start.value, end.value, name); }
      cursor := end.value + 1;
    }
    return NoTag;
  }

  method FindRoot(text: string) returns (r: Option<string>)
    ensures r == Root(text)
  {
    hide Root, NextChar, TagName;
    var cursor: nat := 0;
    assert text[0..] == text;
    while cursor <= |text|
      invariant cursor <= |text| && Root(text) == Root(text[cursor..])
      decreases |text| - cursor
    {
      var start := NextChar(text, '<', cursor);
      RootGap(text, cursor);
      if start.None? { return None; }
      RootAtTag(text, start.value);
      if start.value + 1 == |text| { return None; }
      if text[start.value + 1] == '?' || text[start.value + 1] == '!' {
        var close := NextChar(text, '>', start.value + 1);
        if close.None? { return None; }
        cursor := close.value + 1;
        continue;
      }
      if text[start.value + 1] == '/' { return None; }
      var close := NextChar(text, '>', start.value + 1);
      if close.None? { return None; }
      return Some(TagName(text[start.value + 1..close.value + 1]));
    }
    return None;
  }

  // ----- unfolding the scans by position -----

  lemma SkipTwice(a: nat, b: nat, r: TagSearch)
    ensures Skip(a, Skip(b, r)) == Skip(a + b, r)
    ensures Skip(0, r) == r
  {
  }

  lemma {:induction false} ScanWithout(s: string, local: string)
    requires '<' !in s
    ensures Scan(s, local) == NoTag
  {
    if s != "" { ScanWithout(s[1..], local); }
  }

  lemma {:induction false} ScanGap(s: string, local: string, n: nat)
    requires n <= |s| && '<' !in s[..n]
    ensures Scan(s, local) == Skip(n, Scan(s[n..], local))
  {
    if n == 0 {
      assert s[0..] == s;
      SkipTwice(0, 0, Scan(s, local));
    } else {
      assert s[..n][0] == s[0];
      assert s[1..][..n - 1] == s[..n][1..];
      ScanGap(s[1..], local, n - 1);
      assert s[1..][n - 1..] == s[n..];
      SkipTwice(1, n - 1, Scan(s[n..], local));
    }
  }

  lemma ScanFromGap(text: string, local: string, cursor: nat)
    requires cursor <= |text|
    ensures match NextChar(text, '<', cursor)
            case None => ScanFrom(text, local, cursor) == NoTag
            case Some(start) => ScanFrom(text, local, cursor) == ScanFrom(text, local, start)
  {
    hide Scan;
    var s := text[cursor..];
    match IndexOf(s, '<')
    case None => ScanWithout(s, local);
    case Some(rel) =>
      ScanGap(s, local, rel);
      assert s[rel..] == text[cursor + rel..];
      SkipTwice(cursor, rel, Scan(text[cursor + rel..], local));
  }

  /** Searching for '>' may start after the '<'. */
  lemma NextAfter(text: string, start: nat)
    requires start < |text| && text[start] == '<'
    ensures match IndexOf(text[start..], '>')
            case None => NextChar(text, '>', start + 1) == None
            case Some(e) => NextChar(text, '>', start + 1) == Some(start + e)
  {
    assert text[start..][1..] == text[start + 1..];
  }

  lemma ScanFromTag(text: string, local: string, start: nat)
    requires start < |text| && text[start] == '<'
    ensures ScanFrom(text, local, start) ==
            if start + 1 == |text| then NoTag
            else if NotAStartTag(text[start + 1]) then ScanFrom(text, local, start + 1)
            else match NextChar(text, '>', start + 1)
              case None => Unclosed
              case Some(end) =>
                var name := TagName(text[start + 1..end + 1]);
                if LocalName(name) == local then Found(start, end, name) else ScanFrom(text, local, end + 1)
  {
    hide NextChar, TagName, LocalName, IndexOf;
    NextAfter(text, start);
    var s := text[start..];
    assert s[1..] == text[start + 1..];
    SkipTwice(start, 1, Scan(s[1..], local));
    var close := IndexOf(s, '>');
    if close.Some? {
      var e := close.value;
      assert s[1..e + 1] == text[start + 1..start + e + 1];
      assert s[e + 1..] == text[start + e + 1..];
      SkipTwice(start, e + 1, Scan(s[e + 1..], local));
    }
  }

  lemma {:induction false} RootSkips(s: string, n: nat)
    requires n <= |s| && '<' !in s[..n]
    ensures Root(s) == Root(s[n..])
  {
    if n == 0 {
      assert s[0..] == s;
    } else {
      assert s[..n][0] == s[0];
      assert s[1..][..n - 1] == s[..n][1..];
      RootSkips(s[1..], n - 1);
      assert s[1..][n - 1..] == s[n..];
    }
  }

  lemma RootGap(text: string, cursor: nat)
    requires cursor <= |text|
    ensures match NextChar(text, '<', cursor)
            case None => Root(text[cursor..]) == None
            case Some(start) => Root(text[cursor..]) == Root(text[start..])
  {
    hide Root, IndexOf;
    var s := text[cursor..];
    match IndexOf(s, '<')
    case None =>
      assert s[..|s|] == s && s[|s|..] == "";
      RootSkips(s, |s|);
      RootOfNothing();
    case Some(rel) =>
      RootSkips(s, rel);
      assert s[rel..] == text[cursor + rel..];
  }

  lemma RootOfNothing()
    ensures Root("") == None
  {
  }

  lemma RootAtTag(text: string, start: nat)
    requires start < |text| && text[start] == '<'
    ensures Root(text[start..]) ==
            if start + 1 == |text| || text[start + 1] == '/' then None
            else match NextChar(text, '>', start + 1)
              case None => None
              case Some(e) =>
                if text[start + 1] == '?' || text[start + 1] == '!' then Root(text[e + 1..])
                else Some(TagName(text[start + 1..e + 1]))
  {
    hide NextChar, TagName, IndexOf;
    NextAfter(text, start);
    var s := text[start..];
    var close := IndexOf(s, '>');
    if close.Some? {
      assert s[1..close.value + 1] == text[start + 1..start + close.value + 1];
      assert s[close.value + 1..] == text[start + close.value + 1..];
    }
  }

  // ----- what the root search finds -----

  /** Text without a '<', a declaration, a comment or an instruction, as the search takes them: up to the first '>'. */
  predicate IsPassed(piece: string) {
    || '<' !in piece
    || (|piece| > 1 && piece[0] == '<' && (piece[1] == '?' || piece[1] == '!')
        && IndexOf(piece, '>') == Some(|piece| - 1))
  }

  predicate IsOpenTag(tag: string) {
    |tag| > 1 && tag[0] == '<' && !NotAStartTag(tag[1]) && IndexOf(tag, '>') == Some(|tag| - 1)
  }

  /** Passed pieces, one start tag, and anything behind it. */
  predicate RootAt(s: string, pieces: seq<string>, tag: string, behind: string) {
    && s == Flatten(pieces) + tag + behind
    && (forall piece <- pieces :: IsPassed(piece)) && IsOpenTag(tag)
  }

  /** The search succeeds exactly on such texts, with the name in the start tag. */
  lemma RootExactly(s: string, name: string)
    ensures Root(s) == Some(name)
            <==> exists pieces, tag, behind :: RootAt(s, pieces, tag, behind) && name == TagName(tag[1..])
  {
    hide Root, IsPassed, TagName, Flatten;
    if Root(s) == Some(name) { var pieces, tag, behind := RootSplits(s); }
    forall pieces, tag, behind | RootAt(s, pieces, tag, behind) && name == TagName(tag[1..])
      ensures Root(s) == Some(name)
    {
      RootJoins(s, pieces, tag, behind);
    }
  }

  lemma {:induction false} RootSplits(s: string) returns (pieces: seq<string>, tag: string, behind: string)
    requires Root(s).Some?
    ensures RootAt(s, pieces, tag, behind) && Root(s) == Some(TagName(tag[1..]))
    decreases |s|
  {
    hide IndexOf, TagName;
    if s[0] != '<' {
      var rest;
      rest, tag, behind := RootSplits(s[1..]);
      pieces := PassedFirst([s[0]], rest);
      assert s == [s[0]] + s[1..];
      Regrouped([s[0]], rest, tag, behind);
    } else {
      var e := IndexOf(s, '>').value;
      var first := s[..e + 1];
      IndexInPrefix(first, s[e + 1..], '>');
      assert s == first + s[e + 1..];
      FirstClose(s, e);
      if s[1] == '?' || s[1] == '!' {
        var rest;
        rest, tag, behind := RootSplits(s[e + 1..]);
        pieces := PassedFirst(first, rest);
        Regrouped(first, rest, tag, behind);
      } else {
        pieces, tag, behind := [], first, s[e + 1..];
        assert Flatten(pieces) + tag + behind == tag + behind;
        assert tag[1..] == s[1..e + 1];
      }
    }
  }

  lemma FirstClose(s: string, e: nat)
    requires IndexOf(s, '>') == Some(e)
    ensures e < |s| && IndexOf(s[..e + 1], '>') == Some(e)
  {
    hide IndexOf;
    assert s[..e + 1][..e] == s[..e];
    IndexOfIs(s[..e + 1], '>', e);
  }

  lemma PassedFirst(first: string, rest: seq<string>) returns (pieces: seq<string>)
    requires IsPassed(first) && forall piece <- rest :: IsPassed(piece)
    ensures pieces == [first] + rest && Flatten(pieces) == first + Flatten(rest)
    ensures forall piece <- pieces :: IsPassed(piece)
  {
    hide IsPassed;
    pieces := [first] + rest;
    assert pieces[1..] == rest;
  }

  lemma Regrouped(first: string, rest: seq<string>, tag: string, behind: string)
    ensures first + (Flatten(rest) + tag + behind) == (first + Flatten(rest)) + tag + behind
  {
  }

  lemma {:induction false} RootJoins(s: string, pieces: seq<string>, tag: string, behind: string)
    requires RootAt(s, pieces, tag, behind)
    ensures Root(s) == Some(TagName(tag[1..]))
    decreases |pieces|
  {
    hide TagName, IndexOf;
    if pieces == [] {
      assert s == tag + behind;
      IndexInPrefix(tag, behind, '>');
      assert s[1..|tag|] == tag[1..];
    } else {
      var first, rest := pieces[0], pieces[1..];
      var left := Flatten(rest) + tag + behind;
      Regrouped(first, rest, tag, behind);
      assert s == first + left;
      assert IsPassed(first);
      RootJoins(left, rest, tag, behind);
      if '<' !in first {
        assert s[..|first|] == first && s[|first|..] == left;
        RootSkips(s, |first|);
      } else {
        IndexInPrefix(first, left, '>');
        assert s[|first|..] == left;
      }
    }
  }

  // ----- what the scan for a name finds -----

  /** A name ends at the first white space, '>' or '/'; */
  lemma {:induction false} TagNameIs(t: string)
    ensures TagName(t) <= t && forall c <- TagName(t) :: !IsWhitespace(c) && c != '>' && c != '/'
    ensures |TagName(t)| < |t| ==> var c := t[|TagName(t)|]; IsWhitespace(c) || c == '>' || c == '/'
  {
    hide IsWhitespace;
    if t != "" && !EndsName(t[0]) { TagNameIs(t[1..]); }
  }

  /** its local name is what follows the last colon. */
  lemma {:induction false} LocalNameIs(name: string)
    ensures ':' !in LocalName(name)
    ensures LocalName(name) == name || exists prefix: string :: name == prefix + ":" + LocalName(name)
    decreases |name|
  {
    hide IndexOf;
    match IndexOf(name, ':')
    case None =>
    case Some(k) =>
      var rest := name[k + 1..];
      LocalNameIs(rest);
      assert name == name[..k] + ":" + rest;
      if prefix: string :| rest == prefix + ":" + LocalName(rest) {
        assert name == (name[..k] + ":" + prefix) + ":" + LocalName(rest);
      }
  }

  /** Text without a '<', the first two characters of an end tag, a declaration or an instruction, and start tags with
      another local name, as the scan takes them: up to the first '>'. */
  predicate IsOther(piece: string, local: string) {
    || '<' !in piece
    || (|piece| == 2 && piece[0] == '<' && (piece[1] == '/' || piece[1] == '!' || piece[1] == '?'))
    || (IsOpenTag(piece) && LocalName(TagName(piece[1..])) != local)
  }

  /** Other pieces, then this. */
  predicate Leads(s: string, local: string, pieces: seq<string>, rest: string) {
    s == Flatten(pieces) + rest && forall piece <- pieces :: IsOther(piece, local)
  }

  /** A start tag with the name stands at the front. */
  predicate BeginsWithTag(rest: string, local: string, tag: string) {
    tag <= rest && IsOpenTag(tag) && LocalName(TagName(tag[1..])) == local
  }

  /** A start tag stands at the front and is never closed. */
  predicate BeginsUnclosed(rest: string) {
    |rest| > 1 && rest[0] == '<' && rest[1] != '/' && rest[1] != '!' && rest[1] != '?' && '>' !in rest
  }

  lemma OtherIsPassed(piece: string, rest: string, local: string)
    requires IsOther(piece, local)
    ensures Scan(piece + rest, local) == Skip(|piece|, Scan(rest, local))
  {
    var s := piece + rest;
    if '<' !in piece {
      assert s[..|piece|] == piece && s[|piece|..] == rest;
      ScanGap(s, local, |piece|);
    } else if |piece| == 2 && NotAStartTag(piece[1]) {
      hide IndexOf;
      assert s[1..] == [piece[1]] + rest && s[1..][1..] == rest;
      assert Scan(s[1..], local) == Skip(1, Scan(rest, local));
      SkipTwice(1, 1, Scan(rest, local));
    } else {
      hide IndexOf, LocalName, TagName;
      IndexInPrefix(piece, rest, '>');
      assert s[1..|piece|] == piece[1..] && s[|piece|..] == rest;
    }
  }

  lemma {:induction false} LeadsToRest(s: string, local: string, pieces: seq<string>, rest: string)
    requires Leads(s, local, pieces, rest)
    ensures Scan(s, local) == Skip(|Flatten(pieces)|, Scan(rest, local))
    decreases |pieces|
  {
    hide Scan, IsOther;
    if pieces == [] {
      assert s == rest;
      SkipTwice(0, 0, Scan(rest, local));
    } else {
      var left := Flatten(pieces[1..]) + rest;
      assert s == pieces[0] + left;
      LeadsToRest(left, local, pieces[1..], rest);
      OtherIsPassed(pieces[0], left, local);
      SkipTwice(|pieces[0]|, |Flatten(pieces[1..])|, Scan(rest, local));
    }
  }

  lemma TagFound(rest: string, local: string, tag: string)
    requires BeginsWithTag(rest, local, tag)
    ensures Scan(rest, local) == Found(0, |tag| - 1, TagName(tag[1..]))
  {
    var behind := rest[|tag|..];
    assert rest == tag + behind;
    IndexInPrefix(tag, behind, '>');
    assert rest[1..|tag|] == tag[1..];
    hide IndexOf, LocalName, TagName;
  }

  lemma OtherFirst(first: string, s: string, local: string, pieces: seq<string>, rest: string)
    requires IsOther(first, local) && Leads(s, local, pieces, rest)
    ensures Leads(first + s, local, [first] + pieces, rest)
  {
    hide IsOther;
    assert ([first] + pieces)[1..] == pieces;
    assert first + (Flatten(pieces) + rest) == (first + Flatten(pieces)) + rest;
  }

  /** Every text is other pieces and then a tag with the name, or one that is not closed, or nothing but a '<'. */
  lemma {:induction false} ScanSplits(s: string, local: string) returns (pieces: seq<string>, rest: string)
    ensures Leads(s, local, pieces, rest)
    ensures rest == "" || rest == "<" || BeginsUnclosed(rest) || exists tag :: BeginsWithTag(rest, local, tag)
    decreases |s|
  {
    if s == "" || s == "<" || BeginsUnclosed(s) {
      pieces, rest := [], s;
    } else if s[0] != '<' {
      pieces, rest := ScanSplits(s[1..], local);
      OtherFirst([s[0]], s[1..], local, pieces, rest);
      assert [s[0]] + s[1..] == s;
      pieces := [[s[0]]] + pieces;
    } else if NotAStartTag(s[1]) {
      pieces, rest := ScanSplits(s[2..], local);
      assert s[..2] + s[2..] == s;
      OtherFirst(s[..2], s[2..], local, pieces, rest);
      pieces := [s[..2]] + pieces;
    } else {
      var e := IndexOf(s, '>').value;
      FirstClose(s, e);
      var tag := s[..e + 1];
      hide IndexOf;
      assert tag + s[e + 1..] == s;
      if LocalName(TagName(tag[1..])) == local {
        assert BeginsWithTag(s, local, tag);
        pieces, rest := [], s;
      } else {
        pieces, rest := ScanSplits(s[e + 1..], local);
        OtherFirst(tag, s[e + 1..], local, pieces, rest);
        pieces := [tag] + pieces;
      }
    }
  }

  lemma RestDecides(rest: string, local: string)
    ensures rest == "" || rest == "<" ==> Scan(rest, local) == NoTag
    ensures BeginsUnclosed(rest) ==> Scan(rest, local) == Unclosed
  {
  }

  /** What the scan answers, by what the other pieces lead to. */
  lemma ScanBy(s: string, local: string, pieces: seq<string>, rest: string)
    requires Leads(s, local, pieces, rest)
    ensures rest == "" || rest == "<" ==> Scan(s, local) == NoTag
    ensures BeginsUnclosed(rest) ==> Scan(s, local) == Unclosed
    ensures forall tag | BeginsWithTag(rest, local, tag) ::
              |tag| > 0 && Scan(s, local) == Found(|Flatten(pieces)|, |Flatten(pieces)| + |tag| - 1, TagName(tag[1..]))
  {
    hide Scan, Leads, BeginsUnclosed, Flatten, TagName, LocalName, IndexOf;
    LeadsToRest(s, local, pieces, rest);
    RestDecides(rest, local);
    forall tag | BeginsWithTag(rest, local, tag)
      ensures |tag| > 0 && Scan(rest, local) == Found(0, |tag| - 1, TagName(tag[1..]))
    {
      TagFound(rest, local, tag);
    }
  }

  /** The scan finds a tag exactly if other pieces lead to it, */
  lemma FoundExactly(s: string, local: string, start: nat, end: nat, name: string)
    ensures Scan(s, local) == Found(start, end, name)
            <==> exists pieces, rest, tag ::
                   && Leads(s, local, pieces, rest) && BeginsWithTag(rest, local, tag)
                   && start == |Flatten(pieces)| && end == start + |tag| - 1 && name == TagName(tag[1..])
  {
    hide Scan, Leads, BeginsUnclosed, Flatten, TagName, LocalName, IndexOf;
    if Scan(s, local) == Found(start, end, name) {
      var pieces, rest := ScanSplits(s, local);
      ScanBy(s, local, pieces, rest);
    }
    forall pieces, rest, tag | Leads(s, local, pieces, rest) && BeginsWithTag(rest, local, tag)
      ensures |tag| > 0
      ensures Scan(s, local) == Found(|Flatten(pieces)|, |Flatten(pieces)| + |tag| - 1, TagName(tag[1..]))
    {
      ScanBy(s, local, pieces, rest);
    }
  }

  /** stops at one that is not closed exactly if they lead there, */
  lemma UnclosedExactly(s: string, local: string)
    ensures Scan(s, local) == Unclosed <==> exists pieces, rest :: Leads(s, local, pieces, rest) && BeginsUnclosed(rest)
  {
    hide Scan, Leads, BeginsUnclosed, Flatten, TagName, LocalName, IndexOf;
    if Scan(s, local) == Unclosed {
      var pieces, rest := ScanSplits(s, local);
      ScanBy(s, local, pieces, rest);
      assert Leads(s, local, pieces, rest) && BeginsUnclosed(rest);
    }
    forall pieces, rest | Leads(s, local, pieces, rest) && BeginsUnclosed(rest) ensures Scan(s, local) == Unclosed {
      ScanBy(s, local, pieces, rest);
    }
  }

  /** and finds nothing exactly if there is nothing else. */
  lemma NoTagExactly(s: string, local: string)
    ensures Scan(s, local) == NoTag
            <==> exists pieces, rest :: Leads(s, local, pieces, rest) && (rest == "" || rest == "<")
  {
    hide Scan, Leads, BeginsUnclosed, Flatten, TagName, LocalName, IndexOf;
    if Scan(s, local) == NoTag {
      var pieces, rest := ScanSplits(s, local);
      ScanBy(s, local, pieces, rest);
      assert Leads(s, local, pieces, rest) && (rest == "" || rest == "<");
    }
    forall pieces, rest | Leads(s, local, pieces, rest) && (rest == "" || rest == "<") ensures Scan(s, local) == NoTag {
      ScanBy(s, local, pieces, rest);
    }
  }

  lemma {:induction false} ScanBounds(s: string, local: string)
    ensures match Scan(s, local)
            case Found(start, end, name) => start < end < |s| && s[start] == '<' && s[end] == '>'
                && LocalName(name) == local
            case _ => true
  {
    hide TagName, LocalName, IndexOf;
    if s != "" {
      if s[0] != '<' || (|s| > 1 && NotAStartTag(s[1])) {
        ScanBounds(s[1..], local);
      } else if |s| > 1 && IndexOf(s, '>').Some? {
        ScanBounds(s[IndexOf(s, '>').value + 1..], local);
      }
    }
  }

  // ----- scanning a prefix -----

  lemma IndexInPrefix(p: string, x: string, c: char)
    ensures IndexOf(p + x, c) == if IndexOf(p, c).Some? then IndexOf(p, c)
                                 else match IndexOf(x, c) case None => None case Some(e) => Some(|p| + e)
  {
    match IndexOf(p, c)
    case Some(e) =>
      assert (p + x)[..e] == p[..e];
      IndexOfIs(p + x, c, e);
    case None =>
      match IndexOf(x, c)
      case None =>
      case Some(e) =>
        assert (p + x)[..|p| + e] == p + x[..e];
        IndexOfIs(p + x, c, |p| + e);
  }

  /** One step of the scan over a prefix: a character that starts no tag, */
  lemma PlainStep(p: string, x: string, local: string)
    requires p != "" && (p[0] != '<' || (|p| > 1 && NotAStartTag(p[1])))
    ensures Scan(p + x, local) == Skip(1, Scan(p[1..] + x, local))
  {
    assert (p + x)[1..] == p[1..] + x;
  }

  /** a whole tag, */
  lemma TagStep(p: string, x: string, local: string, e: nat)
    requires |p| > 1 && p[0] == '<' && !NotAStartTag(p[1]) && IndexOf(p, '>') == Some(e)
    ensures var name := TagName(p[1..e + 1]);
            Scan(p + x, local) == if LocalName(name) == local then Found(0, e, name)
                                  else Skip(e + 1, Scan(p[e + 1..] + x, local))
  {
    hide IndexOf, TagName, LocalName;
    IndexInPrefix(p, x, '>');
    assert (p + x)[1..e + 1] == p[1..e + 1];
    assert (p + x)[e + 1..] == p[e + 1..] + x;
  }

  /** or a tag that is closed only behind the prefix. */
  lemma OpenStep(p: string, x: string, local: string, f: nat)
    requires p != "" && x != "" && p[0] == '<' && IndexOf(p, '>') == None && IndexOf(x, '>') == Some(f)
    requires !NotAStartTag(if |p| == 1 then x[0] else p[1])
    ensures var name := TagName(p[1..] + x[..f + 1]);
            Scan(p + x, local) == if LocalName(name) == local then Found(0, |p| + f, name)
                                  else Skip(|p| + f + 1, Scan(x[f + 1..], local))
  {
    hide IndexOf, TagName, LocalName;
    IndexInPrefix(p, x, '>');
    assert (p + x)[1..|p| + f + 1] == p[1..] + x[..f + 1];
    assert (p + x)[|p| + f + 1..] == x[f + 1..];
  }

  // ----- names -----

  /** The name is complete as soon as a character ends it. */
  lemma {:induction false} TagNameEnds(a: string, b: string)
    requires exists c <- a :: EndsName(c)
    ensures TagName(a + b) == TagName(a)
  {
    if !EndsName(a[0]) {
      var c :| c in a && EndsName(c);
      assert c in a[1..];
      assert (a + b)[1..] == a[1..] + b;
      TagNameEnds(a[1..], b);
    }
  }

  lemma {:induction false} TagNameGoesOn(a: string, b: string)
    requires forall c <- a :: !EndsName(c)
    ensures TagName(a + b) == a + TagName(b)
  {
    if a == "" {
      assert a + b == b;
    } else {
      assert (a + b)[1..] == a[1..] + b;
      TagNameGoesOn(a[1..], b);
    }
  }

  lemma {:induction false} LocalNameKeeps(a: string, b: string, c: char)
    requires ':' !in b && c in b
    ensures c in LocalName(a + b)
    decreases |a|
  {
    match IndexOf(a + b, ':')
    case None =>
    case Some(k) =>
      assert forall i :: |a| <= i < |a + b| ==> (a + b)[i] == b[i - |a|];
      assert (a + b)[k + 1..] == a[k + 1..] + b;
      LocalNameKeeps(a[k + 1..], b, c);
  }
}
