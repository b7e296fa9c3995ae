/** The memoised glob matcher against the language its patterns denote. */
module GlobMatch {
  import opened Wrappers
  import opened Sequences

  const STAR: byte := 0x2A
  const QUESTION: byte := 0x3F
  const SLASH: byte := 0x2F

  // ----- the language -----

  datatype Token = AnyPath | AnyName | AnyChar | Literal(b: byte)

  /** A pattern read left to right: `**` with an optional slash, `*`, `?`, or a literal. */
  function Tokens(p: seq<byte>): seq<Token> {
    if p == [] then []
    else if p[0] == STAR then
      if |p| > 2 && p[1] == STAR && p[2] == SLASH then [AnyPath] + Tokens(p[3..])
      else if |p| > 1 && p[1] == STAR then [AnyPath] + Tokens(p[2..])
      else [AnyName] + Tokens(p[1..])
    else if p[0] == QUESTION then [AnyChar] + Tokens(p[1..])
    else [Literal(p[0])] + Tokens(p[1..])
  }

  /** ASCII lower case. */
  function Lower(b: byte): byte {
    if 0x41 <= b <= 0x5A then b + 0x20 else b
  }

  /** The same octet, or the two cases of one ASCII letter. */
  predicate SameLetter(a: byte, b: byte) {
    a == b || (0x41 <= a <= 0x5A && b == a + 0x20) || (0x41 <= b <= 0x5A && a == b + 0x20)
  }

  predicate Fits(token: Token, piece: seq<byte>) {
    match token
    case AnyPath => true
    case AnyName => SLASH !in piece
    case AnyChar => |piece| == 1 && piece[0] != SLASH
    case Literal(b) => |piece| == 1 && SameLetter(piece[0], b)
  }

  predicate Splits(tokens: seq<Token>, pieces: seq<seq<byte>>, text: seq<byte>) {
    && |pieces| == |tokens|
    && Flatten(pieces) == text
    && forall i :: 0 <= i < |tokens| ==> Fits(tokens[i], pieces[i])
  }

  /** The text falls into consecutive pieces, one for each token. */
  ghost predicate Accepts(tokens: seq<Token>, text: seq<byte>) {
    exists pieces :: Splits(tokens, pieces, text)
  }

  // ----- the recursion as coded, without its memo -----

  predicate Matches(p: seq<byte>, t: seq<byte>)
    decreases |p|, |t|
  {
    if p == [] then t == []
    else if p[0] == STAR then
      if |p| > 1 && p[1] == STAR then
        || (|p| > 2 && p[2] == SLASH && Matches(p[3..], t))
        || Matches(p[2..], t)
        || (t != [] && Matches(p, t[1..]))
      else
        || Matches(p[1..], t)
        || (t != [] && t[0] != SLASH && Matches(p, t[1..]))
    else if p[0] == QUESTION then t != [] && t[0] != SLASH && Matches(p[1..], t[1..])
    else t != [] && Lower(p[0]) == Lower(t[0]) && Matches(p[1..], t[1..])
  }

  /** The meaning of a state: the rest of the pattern against the rest of the text. */
  predicate MatchesFrom(p: seq<byte>, t: seq<byte>, pi: nat, ti: nat)
    requires pi <= |p| && ti <= |t|
  {
    Matches(p[pi..], t[ti..])
  }

  // ----- the memoised matcher -----

  /** A pair of positions, in the pattern and in the text. */
  datatype State = State(pi: nat, ti: nat)

  class Memo {
    var entries: map<State, bool>
    /** How many states were evaluated rather than looked up. */
    ghost var computed: nat

    constructor ()
      ensures entries == map[] && computed == 0
    {
      entries := map[];
      computed := 0;
    }
  }

  /** Every entry agrees with the meaning of its state. */
  ghost predicate Consistent(p: seq<byte>, t: seq<byte>, entries: map<State, bool>) {
    forall s <- entries :: s.pi <= |p| && s.ti <= |t| && entries[s] == MatchesFrom(p, t, s.pi, s.ti)
  }

  predicate Beyond(s: State, pi: nat, ti: nat) {
    s.pi >= pi && s.ti >= ti && s != State(pi, ti)
  }

  /** Entries are only added, and only for states beyond (pi, ti). */
  ghost predicate Grows(before: map<State, bool>, after: map<State, bool>, pi: nat, ti: nat) {
    && before.Keys <= after.Keys
    && forall s <- after :: s !in before ==> Beyond(s, pi, ti)
  }

  /** Evaluating the state (pi, ti) may add states beyond it, and then adds it. */
  ghost predicate Evaluated(before: map<State, bool>, after: map<State, bool>, pi: nat, ti: nat) {
    && before.Keys <= after.Keys
    && forall s <- after :: s !in before ==> s == State(pi, ti) || Beyond(s, pi, ti)
  }

  /** `glob_match_inner`. */
  method GlobMatchInner(p: seq<byte>, t: seq<byte>, pi: nat, ti: nat, memo: Memo) returns (r: bool)
    requires pi <= |p| && ti <= |t|
    requires Consistent(p, t, memo.entries) && memo.computed == |memo.entries|
    modifies memo
    ensures r == MatchesFrom(p, t, pi, ti)
    ensures Consistent(p, t, memo.entries) && memo.computed == |memo.entries|
    ensures Evaluated(old(memo.entries), memo.entries, pi, ti)
    decreases |p| - pi, |t| - ti, 1
  {
    if State(pi, ti) in memo.entries {
      assert Consistent(p, t, memo.entries);
      return memo.entries[State(pi, ti)];
    }
    MatchesAt(p, t, pi, ti);
    ghost var before := memo.entries;
    assert Grows(before, memo.entries, pi, ti);
    hide Matches, MatchesFrom, Consistent, Grows, Evaluated, Lower;
    var result := false;
    if pi == |p| {
      result := ti == |t|;
    } else if p[pi] == STAR {
      if pi + 1 < |p| && p[pi + 1] == STAR {
        result := DoubleStar(p, t, pi, ti, memo, before);
      } else {
        result := GlobMatchInner(p, t, pi + 1, ti, memo);
        GrowsOn(before, before, memo.entries, pi, ti, pi + 1, ti);
        if !result && ti < |t| && t[ti] != SLASH {
          ghost var now := memo.entries;
          result := GlobMatchInner(p, t, pi, ti + 1, memo);
          GrowsOn(before, now, memo.entries, pi, ti, pi, ti + 1);
        }
      }
    } else if p[pi] == QUESTION {
      if ti < |t| && t[ti] != SLASH {
        result := GlobMatchInner(p, t, pi + 1, ti + 1, memo);
        GrowsOn(before, before, memo.entries, pi, ti, pi + 1, ti + 1);
      }
    } else if ti < |t| && Lower(p[pi]) == Lower(t[ti]) {
      result := GlobMatchInner(p, t, pi + 1, ti + 1, memo);
      GrowsOn(before, before, memo.entries, pi, ti, pi + 1, ti + 1);
    }
    Recorded(p, t, before, memo.entries, pi, ti, result);
    memo.entries := memo.entries[State(pi, ti) := result];
    memo.computed := memo.computed + 1;
    return result;
  }

  /** Its arm for `**`: past the slash behind the stars, past the stars alone, or one byte on. */
  method DoubleStar(p: seq<byte>, t: seq<byte>, pi: nat, ti: nat, memo: Memo, ghost before: map<State, bool>)
    returns (r: bool)
    requires pi + 1 < |p| && ti <= |t| && p[pi] == STAR && p[pi + 1] == STAR
    requires Consistent(p, t, memo.entries) && memo.computed == |memo.entries| && Grows(before, memo.entries, pi, ti)
    modifies memo
    ensures r == MatchesFrom(p, t, pi, ti)
    ensures Consistent(p, t, memo.entries) && memo.computed == |memo.entries| && Grows(before, memo.entries, pi, ti)
    decreases |p| - pi, |t| - ti, 0
  {
    MatchesAt(p, t, pi, ti);
    hide Matches, MatchesFrom, Consistent, Grows, Evaluated, Lower;
    r := false;
    if pi + 2 < |p| && p[pi + 2] == SLASH {
      ghost var now := memo.entries;
      r := GlobMatchInner(p, t, pi + 3, ti, memo);
      GrowsOn(before, now, memo.entries, pi, ti, pi + 3, ti);
      if r { return; }
    }
    ghost var now := memo.entries;
    r := GlobMatchInner(p, t, pi + 2, ti, memo);
    GrowsOn(before, now, memo.entries, pi, ti, pi + 2, ti);
    if r || ti == |t| { return; }
    now := memo.entries;
    r := GlobMatchInner(p, t, pi, ti + 1, memo);
    GrowsOn(before, now, memo.entries, pi, ti, pi, ti + 1);
  }

  lemma GrowsOn(before: map<State, bool>, now: map<State, bool>, after: map<State, bool>,
                pi: nat, ti: nat, pi': nat, ti': nat)
    requires Grows(before, now, pi, ti) && Evaluated(now, after, pi', ti') && Beyond(State(pi', ti'), pi, ti)
    ensures Grows(before, after, pi, ti)
  {
  }

  /** The state itself was not evaluated on the way, so it is counted once. */
  lemma Recorded(p: seq<byte>, t: seq<byte>, before: map<State, bool>, now: map<State, bool>,
                 pi: nat, ti: nat, result: bool)
    requires pi <= |p| && ti <= |t| && result == MatchesFrom(p, t, pi, ti)
    requires State(pi, ti) !in before && Grows(before, now, pi, ti) && Consistent(p, t, now)
    ensures var after := now[State(pi, ti) := result];
            |after| == |now| + 1 && Consistent(p, t, after) && Evaluated(before, after, pi, ti)
  {
    hide MatchesFrom;
    assert State(pi, ti) !in now;
  }

  /** `glob_match`: the answer is the language's, and at most (|p| + 1)(|t| + 1) states are evaluated. */
  method Match(pattern: seq<byte>, text: seq<byte>) returns (r: bool, ghost states: nat)
    ensures r <==> Accepts(Tokens(pattern), text)
    ensures states <= (|pattern| + 1) * (|text| + 1)
  {
    var memo := new Memo();
    r := GlobMatchInner(pattern, text, 0, 0, memo);
    assert pattern[0..] == pattern && text[0..] == text;
    MatchesExactly(pattern, text);
    states := memo.computed;
    StatesBound(memo.entries, |pattern|, |text|);
  }

  /** One unfolding of the recursion, in terms of positions. */
  lemma MatchesAt(p: seq<byte>, t: seq<byte>, pi: nat, ti: nat)
    requires pi <= |p| && ti <= |t|
    ensures MatchesFrom(p, t, pi, ti) <==>
            if pi == |p| then ti == |t|
            else if p[pi] == STAR then
              if pi + 1 < |p| && p[pi + 1] == STAR then
                || (pi + 2 < |p| && p[pi + 2] == SLASH && MatchesFrom(p, t, pi + 3, ti))
                || MatchesFrom(p, t, pi + 2, ti)
                || (ti < |t| && MatchesFrom(p, t, pi, ti + 1))
              else
                || MatchesFrom(p, t, pi + 1, ti)
                || (ti < |t| && t[ti] != SLASH && MatchesFrom(p, t, pi, ti + 1))
            else if p[pi] == QUESTION then ti < |t| && t[ti] != SLASH && MatchesFrom(p, t, pi + 1, ti + 1)
            else ti < |t| && Lower(p[pi]) == Lower(t[ti]) && MatchesFrom(p, t, pi + 1, ti + 1)
  {
    if pi < |p| { assert p[pi..][1..] == p[pi + 1..]; }
    if pi + 1 < |p| { assert p[pi..][2..] == p[pi + 2..]; }
    if pi + 2 < |p| { assert p[pi..][3..] == p[pi + 3..]; }
    if ti < |t| { assert t[ti..][1..] == t[ti + 1..]; }
  }

  // ----- the matcher decides the language -----

  lemma AcceptsNothing(text: seq<byte>)
    ensures Accepts([], text) <==> text == []
  {
    if text == [] { assert Splits([], [], text); }
  }

  lemma AcceptsCons(token: Token, rest: seq<Token>, piece: seq<byte>, tail: seq<byte>)
    requires Fits(token, piece) && Accepts(rest, tail)
    ensures Accepts([token] + rest, piece + tail)
  {
    var pieces :| Splits(rest, pieces, tail);
    assert ([piece] + pieces)[1..] == pieces;
    assert Splits([token] + rest, [piece] + pieces, piece + tail);
  }

  lemma AcceptsSplit(token: Token, rest: seq<Token>, text: seq<byte>) returns (piece: seq<byte>)
    requires Accepts([token] + rest, text)
    ensures piece <= text && Fits(token, piece) && Accepts(rest, text[|piece|..])
  {
    var pieces :| Splits([token] + rest, pieces, text);
    piece := pieces[0];
    var tokens := [token] + rest;
    assert Fits(tokens[0], pieces[0]);
    forall i | 0 <= i < |rest| ensures Fits(rest[i], pieces[1..][i]) { assert Fits(tokens[i + 1], pieces[i + 1]); }
    assert text == piece + Flatten(pieces[1..]);
    assert Splits(rest, pieces[1..], text[|piece|..]);
  }

  /** A token that takes one byte. */
  lemma AcceptsOne(token: Token, rest: seq<Token>, text: seq<byte>)
    requires token.AnyChar? || token.Literal?
    ensures Accepts([token] + rest, text) <==> text != [] && Fits(token, text[..1]) && Accepts(rest, text[1..])
  {
    if Accepts([token] + rest, text) {
      var piece := AcceptsSplit(token, rest, text);
      assert piece == text[..1];
    }
    if text != [] && Fits(token, text[..1]) && Accepts(rest, text[1..]) {
      AcceptsCons(token, rest, text[..1], text[1..]);
      assert text == text[..1] + text[1..];
    }
  }

  predicate MayTake(token: Token, b: byte) {
    token.AnyPath? || (token.AnyName? && b != SLASH)
  }

  /** A token that takes any number of bytes: stop here, or take one more. */
  lemma AcceptsMany(token: Token, rest: seq<Token>, text: seq<byte>)
    requires token.AnyPath? || token.AnyName?
    ensures Accepts([token] + rest, text) <==>
            || Accepts(rest, text)
            || (text != [] && MayTake(token, text[0]) && Accepts([token] + rest, text[1..]))
  {
    hide Accepts;
    if Accepts([token] + rest, text) {
      TakeLess(token, rest, text);
    }
    if Accepts(rest, text) {
      AcceptsCons(token, rest, [], text);
      assert [] + text == text;
    }
    if text != [] && MayTake(token, text[0]) && Accepts([token] + rest, text[1..]) {
      TakeMore(token, rest, text);
    }
  }

  lemma TakeLess(token: Token, rest: seq<Token>, text: seq<byte>)
    requires (token.AnyPath? || token.AnyName?) && Accepts([token] + rest, text)
    ensures Accepts(rest, text) || (text != [] && MayTake(token, text[0]) && Accepts([token] + rest, text[1..]))
  {
    hide Accepts;
    var piece := AcceptsSplit(token, rest, text);
    if piece == [] {
      assert text[0..] == text;
    } else {
      assert Fits(token, piece[1..]);
      AcceptsCons(token, rest, piece[1..], text[|piece|..]);
      assert text[1..] == piece[1..] + text[|piece|..];
    }
  }

  lemma TakeMore(token: Token, rest: seq<Token>, text: seq<byte>)
    requires text != [] && MayTake(token, text[0]) && Accepts([token] + rest, text[1..])
    ensures Accepts([token] + rest, text)
  {
    hide Accepts;
    var piece := AcceptsSplit(token, rest, text[1..]);
    AcceptsCons(token, rest, [text[0]] + piece, text[1..][|piece|..]);
    assert text == ([text[0]] + piece) + text[1..][|piece|..];
  }

  lemma {:induction false} MatchesExactly(p: seq<byte>, t: seq<byte>)
    ensures Matches(p, t) <==> Accepts(Tokens(p), t)
    decreases |p|, |t|
  {
    hide Accepts, Fits;
    if p == [] {
      AcceptsNothing(t);
    } else if p[0] == STAR {
      if |p| > 1 && p[1] == STAR {
        if t != [] { MatchesExactly(p, t[1..]); }
        MatchesExactly(p[2..], t);
        if |p| > 2 && p[2] == SLASH {
          MatchesExactly(p[3..], t);
          AcceptsMany(AnyPath, Tokens(p[3..]), t);
          if Matches(p[2..], t) { SlashIsSubsumed(p[2..], t); }
        } else {
          AcceptsMany(AnyPath, Tokens(p[2..]), t);
        }
      } else {
        if t != [] { MatchesExactly(p, t[1..]); }
        MatchesExactly(p[1..], t);
        AcceptsMany(AnyName, Tokens(p[1..]), t);
      }
    } else {
      var token := if p[0] == QUESTION then AnyChar else Literal(p[0]);
      if t != [] {
        MatchesExactly(p[1..], t[1..]);
        OneByteFits(token, t);
      }
      AcceptsOne(token, Tokens(p[1..]), t);
    }
  }

  lemma OneByteFits(token: Token, t: seq<byte>)
    requires t != [] && (token.AnyChar? || token.Literal?)
    ensures Fits(token, t[..1]) <==> if token.AnyChar? then t[0] != SLASH else Lower(token.b) == Lower(t[0])
  {
  }

  /** Reading the slash of `**` + slash as a literal adds nothing: the wildcard can take it. */
  lemma SlashIsSubsumed(p: seq<byte>, t: seq<byte>)
    requires p != [] && p[0] == SLASH && Matches(p, t)
    requires Accepts(Tokens(p), t)
    ensures t != [] && Accepts([AnyPath] + Tokens(p[1..]), t[1..])
  {
    AcceptsOne(Literal(SLASH), Tokens(p[1..]), t);
    AcceptsMany(AnyPath, Tokens(p[1..]), t[1..]);
  }

  // ----- how many states -----

  function Row(row: nat, columns: nat): set<State> {
    if columns == 0 then {} else Row(row, columns - 1) + {State(row, columns - 1)}
  }

  function Rectangle(rows: nat, columns: nat): set<State> {
    if rows == 0 then {} else Rectangle(rows - 1, columns) + Row(rows - 1, columns)
  }

  lemma {:induction false} RowSize(row: nat, columns: nat)
    ensures forall s :: s in Row(row, columns) <==> s.pi == row && s.ti < columns
    ensures |Row(row, columns)| == columns
  {
    if columns > 0 { RowSize(row, columns - 1); }
  }

  lemma {:induction false} RectangleSize(rows: nat, columns: nat)
    ensures forall s :: s in Rectangle(rows, columns) <==> s.pi < rows && s.ti < columns
    ensures |Rectangle(rows, columns)| == rows * columns
  {
    hide Row;
    if rows > 0 {
      RectangleSize(rows - 1, columns);
      RowSize(rows - 1, columns);
      AddRow(Rectangle(rows - 1, columns), Row(rows - 1, columns), rows - 1, columns);
    }
  }

  lemma AddRow(rest: set<State>, row: set<State>, rows: nat, columns: nat)
    requires forall s :: s in rest <==> s.pi < rows && s.ti < columns
    requires forall s :: s in row <==> s.pi == rows && s.ti < columns
    requires |rest| == rows * columns && |row| == columns
    ensures forall s :: s in rest + row <==> s.pi < rows + 1 && s.ti < columns
    ensures |rest + row| == (rows + 1) * columns
  {
    assert rest !! row;
  }

  lemma {:induction false} SubsetSize<T>(a: set<T>, b: set<T>)
    requires a <= b
    ensures |a| <= |b|
  {
    if a != {} {
      var x :| x in a;
      SubsetSize(a - {x}, b - {x});
    }
  }

  lemma StatesBound(entries: map<State, bool>, n: nat, m: nat)
    requires forall s <- entries :: s.pi <= n && s.ti <= m
    ensures |entries| <= (n + 1) * (m + 1)
  {
    RectangleSize(n + 1, m + 1);
    hide Rectangle;
    SubsetSize(entries.Keys, Rectangle(n + 1, m + 1));
    assert |entries| == |entries.Keys|;
  }

  // ----- when `**` + slash stands for whole directories -----

  /** The beginning of the text, or behind a slash. */
  predicate AtBoundary(t: seq<byte>, k: nat)
    requires k <= |t|
  {
    k == 0 || t[k - 1] == SLASH
  }

  /** The usual glob convention for `**` + slash: some whole directories, then the rest of the pattern. */
  predicate Anchored(rest: seq<byte>, t: seq<byte>) {
    exists k | 0 <= k <= |t| :: AtBoundary(t, k) && Matches(rest, t[k..])
  }

  /** The first character that is not `?` is a star. */
  predicate OpensWild(rest: seq<byte>) {
    rest != [] && (rest[0] == STAR || (rest[0] == QUESTION && OpensWild(rest[1..])))
  }

  /** As coded: anything at all, then the rest of the pattern. */
  lemma DoubleStarSlash(rest: seq<byte>, t: seq<byte>)
    ensures Matches([STAR, STAR, SLASH] + rest, t) <==> exists k | 0 <= k <= |t| :: Matches(rest, t[k..])
  {
    hide Matches;
    if Matches([STAR, STAR, SLASH] + rest, t) { var k := SlashSplits(rest, t); }
    if k :| 0 <= k <= |t| && Matches(rest, t[k..]) { SlashJoins(rest, t, k); }
  }

  lemma SlashTokens(rest: seq<byte>)
    ensures Tokens([STAR, STAR, SLASH] + rest) == [AnyPath] + Tokens(rest)
  {
    assert ([STAR, STAR, SLASH] + rest)[3..] == rest;
  }

  lemma SlashSplits(rest: seq<byte>, t: seq<byte>) returns (k: nat)
    requires Matches([STAR, STAR, SLASH] + rest, t)
    ensures k <= |t| && Matches(rest, t[k..])
  {
    hide Matches, Accepts, Fits, Tokens;
    SlashTokens(rest);
    MatchesExactly([STAR, STAR, SLASH] + rest, t);
    var piece := AcceptsSplit(AnyPath, Tokens(rest), t);
    k := |piece|;
    MatchesExactly(rest, t[k..]);
  }

  lemma SlashJoins(rest: seq<byte>, t: seq<byte>, k: nat)
    requires k <= |t| && Matches(rest, t[k..])
    ensures Matches([STAR, STAR, SLASH] + rest, t)
  {
    hide Matches, Accepts, Fits, Tokens;
    MatchesExactly(rest, t[k..]);
    AnyPathFits(t[..k]);
    AcceptsCons(AnyPath, Tokens(rest), t[..k], t[k..]);
    assert t == t[..k] + t[k..];
    SlashTokens(rest);
    MatchesExactly([STAR, STAR, SLASH] + rest, t);
  }

  lemma AnyPathFits(piece: seq<byte>)
    ensures Fits(AnyPath, piece)
  {
  }

  /** It is exactly as permissive as `**` without the slash. */
  lemma DoubleStarSlashIsDoubleStar(rest: seq<byte>, t: seq<byte>)
    requires rest == [] || rest[0] != SLASH
    ensures Matches([STAR, STAR, SLASH] + rest, t) <==> Matches([STAR, STAR] + rest, t)
  {
    var p, q := [STAR, STAR, SLASH] + rest, [STAR, STAR] + rest;
    MatchesExactly(p, t);
    MatchesExactly(q, t);
    assert p[3..] == rest && q[2..] == rest;
  }

  /** A pattern that opens wild takes one more byte of a name in front. */
  lemma {:induction false} WildTakesMore(rest: seq<byte>, b: byte, v: seq<byte>)
    requires OpensWild(rest) && b != SLASH && Matches(rest, v)
    ensures Matches(rest, [b] + v)
  {
    assert ([b] + v)[1..] == v;
    if rest[0] == QUESTION {
      WildTakesMore(rest[1..], v[0], v[1..]);
      assert v == [v[0]] + v[1..];
    }
  }

  lemma {:induction false} WildReachesBoundary(rest: seq<byte>, t: seq<byte>, k: nat)
    requires OpensWild(rest) && k <= |t| && Matches(rest, t[k..])
    ensures Anchored(rest, t)
    decreases k
  {
    hide Matches;
    if !AtBoundary(t, k) {
      WildTakesMore(rest, t[k - 1], t[k..]);
      assert t[k - 1..] == [t[k - 1]] + t[k..];
      WildReachesBoundary(rest, t, k - 1);
    }
  }

  /** A shortest text of the pattern, with `a` for every `?`. */
  function Shortest(p: seq<byte>, a: byte): seq<byte> {
    if p == [] then []
    else if p[0] == STAR then
      if |p| > 2 && p[1] == STAR && p[2] == SLASH then Shortest(p[3..], a)
      else if |p| > 1 && p[1] == STAR then Shortest(p[2..], a)
      else Shortest(p[1..], a)
    else [if p[0] == QUESTION then a else p[0]] + Shortest(p[1..], a)
  }

  lemma {:induction false} ShortestMatches(p: seq<byte>, a: byte)
    requires a != SLASH
    ensures Matches(p, Shortest(p, a))
  {
    if p != [] {
      if p[0] == STAR {
        if |p| > 2 && p[1] == STAR && p[2] == SLASH { ShortestMatches(p[3..], a); }
        else if |p| > 1 && p[1] == STAR { ShortestMatches(p[2..], a); }
        else { ShortestMatches(p[1..], a); }
      } else {
        ShortestMatches(p[1..], a);
        assert Shortest(p, a)[1..] == Shortest(p[1..], a);
      }
    }
  }

  lemma {:induction false} NothingShorter(p: seq<byte>, a: byte, t: seq<byte>)
    requires Matches(p, t)
    ensures |t| >= |Shortest(p, a)|
    decreases |p|, |t|
  {
    if p != [] {
      if p[0] == STAR && |p| > 1 && p[1] == STAR {
        if |p| > 2 && p[2] == SLASH && Matches(p[3..], t) { NothingShorter(p[3..], a, t); }
        else if Matches(p[2..], t) { NothingShorter(p[2..], a, t); }
        else { NothingShorter(p, a, t[1..]); }
      } else if p[0] == STAR {
        if Matches(p[1..], t) { NothingShorter(p[1..], a, t); } else { NothingShorter(p, a, t[1..]); }
      } else {
        NothingShorter(p[1..], a, t[1..]);
      }
    }
  }

  /** A byte of a name that the first character other than `?` does not match. */
  function Stranger(rest: seq<byte>): (a: byte)
    ensures a != SLASH
  {
    if rest == [] then 0x61
    else if rest[0] == QUESTION then Stranger(rest[1..])
    else if Lower(rest[0]) == 0x61 then 0x62 else 0x61
  }

  lemma {:induction false} StrangerIsRefused(rest: seq<byte>, a: byte)
    requires !OpensWild(rest) && a == Stranger(rest)
    ensures !Matches(rest, [a] + Shortest(rest, a))
  {
    var t := [a] + Shortest(rest, a);
    if rest != [] && rest[0] == QUESTION {
      StrangerIsRefused(rest[1..], a);
      assert t[1..] == [a] + Shortest(rest[1..], a);
    }
  }

  /** A text that the code matches although no whole directories stand in front. */
  lemma MatchedInsideAName(rest: seq<byte>) returns (t: seq<byte>)
    requires !OpensWild(rest)
    ensures Matches([STAR, STAR, SLASH] + rest, t) && !Anchored(rest, t)
  {
    hide Matches, OpensWild, Stranger, Shortest;
    var a := Stranger(rest);
    t := [a] + Shortest(rest, a);
    ShortestMatches(rest, a);
    assert t[1..] == Shortest(rest, a);
    DoubleStarSlash(rest, t);
    forall k | 0 <= k <= |t| && AtBoundary(t, k) ensures !Matches(rest, t[k..]) {
      if k == 0 {
        StrangerIsRefused(rest, a);
        assert t[0..] == t;
      } else if Matches(rest, t[k..]) {
        NothingShorter(rest, a, t[k..]);
      }
    }
  }

  /** `**` + slash in front of a pattern keeps to whole directories, on every text, if and only if the first character
      of that pattern other than `?` is a star. */
  lemma AnchoredExactly(rest: seq<byte>)
    ensures (forall t :: Matches([STAR, STAR, SLASH] + rest, t) <==> Anchored(rest, t)) <==> OpensWild(rest)
  {
    hide Matches, OpensWild, AtBoundary;
    if OpensWild(rest) {
      forall t ensures Matches([STAR, STAR, SLASH] + rest, t) <==> Anchored(rest, t) {
        DoubleStarSlash(rest, t);
        if k :| 0 <= k <= |t| && Matches(rest, t[k..]) { WildReachesBoundary(rest, t, k); }
      }
    } else {
      var t := MatchedInsideAName(rest);
    }
  }

  /** The pattern "**" + "/b" matches "ab", where no directory ends in front of the b. */
  lemma DoubleStarSlashInsideAName()
    ensures Matches([STAR, STAR, SLASH, 0x62], [0x61, 0x62]) && !Anchored([0x62], [0x61, 0x62])
  {
    var t: seq<byte>, rest: seq<byte> := [0x61, 0x62], [0x62];
    assert Matches(rest, t[1..]) by {
      assert t[1..] == [0x62] && [0x62][1..] == [];
    }
    DoubleStarSlash(rest, t);
    assert [STAR, STAR, SLASH] + rest == [STAR, STAR, SLASH, 0x62];
  }
}
