/** The `str` methods the source relies on. Text is a sequence of characters; byte offsets of the source are
    character offsets here. */
module Text {
  import opened Wrappers

  // ----- searching -----

  predicate OccursAt(s: string, needle: string, k: nat) {
    k + |needle| <= |s| && s[k..k + |needle|] == needle
  }

  /** `s[from..].find(needle)`, as an index into `s`. */
  function Find(s: string, needle: string, from: nat): (r: Option<nat>)
    ensures match r
            case None => forall k :: from <= k ==> !OccursAt(s, needle, k)
            case Some(i) => from <= i && OccursAt(s, needle, i) && forall k :: from <= k < i ==> !OccursAt(s, needle, k)
    decreases |s| - from
  {
    if from + |needle| > |s| then None
    else if OccursAt(s, needle, from) then Some(from)
    else Find(s, needle, from + 1)
  }

  /** `rfind`: the last occurrence that starts at or before `last`. */
  function RFindBefore(s: string, needle: string, last: nat): (r: Option<nat>)
    ensures match r
            case None => forall k :: 0 <= k <= last ==> !OccursAt(s, needle, k)
            case Some(i) => i <= last && OccursAt(s, needle, i) && forall k :: i < k <= last ==> !OccursAt(s, needle, k)
  {
    if OccursAt(s, needle, last) then Some(last)
    else if last == 0 then None
    else RFindBefore(s, needle, last - 1)
  }

  function RFind(s: string, needle: string): (r: Option<nat>)
    ensures match r
            case None => forall k :: 0 <= k ==> !OccursAt(s, needle, k)
            case Some(i) => OccursAt(s, needle, i) && forall k :: i < k ==> !OccursAt(s, needle, k)
  {
    RFindBefore(s, needle, |s|)
  }

  function IndexOf(s: string, c: char): (r: Option<nat>)
    ensures match r
            case None => c !in s
            case Some(i) => i < |s| && s[i] == c && c !in s[..i]
  {
    if s == "" then None
    else if s[0] == c then Some(0)
    else match IndexOf(s[1..], c) case None => None
      case Some(i) => assert s[..i + 1] == [s[0]] + s[1..][..i]; Some(i + 1)
  }

  /** The search result is determined by its contract. */
  lemma FindIs(s: string, needle: string, from: nat, i: nat)
    requires from <= i && OccursAt(s, needle, i)
    requires forall k :: from <= k < i ==> !OccursAt(s, needle, k)
    ensures Find(s, needle, from) == Some(i)
  {
    hide Find;
    var r := Find(s, needle, from);
    assert r.Some?;
  }

  lemma RFindIs(s: string, needle: string, i: nat)
    requires OccursAt(s, needle, i)
    requires forall k :: i < k ==> !OccursAt(s, needle, k)
    ensures RFind(s, needle) == Some(i)
  {
    hide RFindBefore;
    var r := RFind(s, needle);
    assert r.Some?;
  }

  lemma IndexOfIs(s: string, c: char, i: nat)
    requires i < |s| && s[i] == c && c !in s[..i]
    ensures IndexOf(s, c) == Some(i)
  {
    hide IndexOf;
    var r := IndexOf(s, c);
    assert s[i] in s;
    forall j | 0 <= j < i ensures s[j] != c { assert s[..i][j] == s[j]; }
    forall j | 0 <= j < r.value ensures s[j] != c { assert s[..r.value][j] == s[j]; }
  }

  // ----- whitespace -----

  /** `char::is_whitespace`: the Unicode White_Space property. */
  predicate IsWhitespace(c: char) {
    var u := c as int;
    || 0x09 <= u <= 0x0D || u == 0x20 || u == 0x85 || u == 0xA0 || u == 0x1680
    || 0x2000 <= u <= 0x200A || u == 0x2028 || u == 0x2029 || u == 0x202F || u == 0x205F || u == 0x3000
  }

  function TrimStart(s: string): string {
    if s != "" && IsWhitespace(s[0]) then TrimStart(s[1..]) else s
  }

  function TrimEnd(s: string): string {
    if s != "" && IsWhitespace(s[|s| - 1]) then TrimEnd(s[..|s| - 1]) else s
  }

  function Trim(s: string): string {
    TrimEnd(TrimStart(s))
  }

  // ----- lines -----

  function StripCr(line: string): string {
    if line != "" && line[|line| - 1] == '\r' then line[..|line| - 1] else line
  }

  /** `str::lines`: a final line without newline keeps its carriage return. */
  function Lines(s: string): seq<string> {
    if s == "" then []
    else match IndexOf(s, '\n')
      case None => [s]
      case Some(i) => [StripCr(s[..i])] + Lines(s[i + 1..])
  }
}
