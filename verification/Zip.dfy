/** Archives as finite trees, and rewriting one through a map of pending updates. */
module Zip {
  import opened Wrappers

  type Bytes = seq<byte>

  /** A file's content: opaque bytes, or an archive with its entries in order. */
  datatype Node = Blob(bytes: Bytes) | Archive(entries: seq<Entry>)

  datatype Compression = Stored | Deflated | OtherMethod(code: nat)

  datatype Entry = Entry(name: string, node: Node, compression: Compression, modified: int)

  datatype Update = Update(name: string, node: Node, compression: Compression)

  predicate IsDir(name: string) {
    name != "" && (name[|name| - 1] == '/' || name[|name| - 1] == '\\')
  }

  /** The first part of a path, up to a slash. */
  function FirstPart(name: string): string {
    if name == "" || name[0] == '/' then "" else [name[0]] + FirstPart(name[1..])
  }

  predicate HasDotPart(name: string)
    decreases |name|
  {
    var part := FirstPart(name);
    part == "." || part == ".." || (|part| < |name| && HasDotPart(name[|part| + 1..]))
  }

  /** `normalize_zip_name` accepts the name, and then leaves it as it is. */
  predicate SafeName(name: string) {
    name != "" && name[0] != '/' && '\\' !in name && !HasDotPart(name)
  }

  lemma {:induction false} NoSlash(name: string)
    requires '/' !in name
    ensures FirstPart(name) == name
  {
    if name != "" {
      assert name[0] in name;
      NoSlash(name[1..]);
    }
  }

  lemma {:induction false} FirstPartEnds(part: string, rest: string)
    requires '/' !in part
    ensures FirstPart(part + "/" + rest) == part
  {
    var name := part + "/" + rest;
    if part != "" {
      assert part[0] in part;
      assert name[1..] == part[1..] + "/" + rest;
      FirstPartEnds(part[1..], rest);
    }
  }

  /** A plain file name, */
  lemma FlatIsSafe(name: string)
    requires name != "" && '/' !in name && '\\' !in name && name != "." && name != ".."
    ensures SafeName(name)
  {
    assert name[0] in name;
    NoSlash(name);
  }

  /** and one in a directory. */
  lemma BelowIsSafe(part: string, rest: string)
    requires part != "" && '/' !in part && '\\' !in part && part != "." && part != ".." && SafeName(rest)
    ensures SafeName(part + "/" + rest)
  {
    var name := part + "/" + rest;
    assert part[0] in part;
    FirstPartEnds(part, rest);
    assert name[|part| + 1..] == rest;
  }

  lemma {:induction false} FirstPartIs(name: string)
    ensures FirstPart(name) <= name && '/' !in FirstPart(name)
    ensures |FirstPart(name)| < |name| ==> name[|FirstPart(name)|] == '/'
  {
    if name != "" && name[0] != '/' { FirstPartIs(name[1..]); }
  }

  /** What stands between two slashes of the name, or a slash and an end of it. */
  predicate IsPart(name: string, i: nat, j: nat) {
    && i <= j <= |name| && (forall m | i <= m < j :: name[m] != '/')
    && (i > 0 ==> name[i - 1] == '/') && (j < |name| ==> name[j] == '/')
  }

  predicate IsDots(part: string) {
    part == "." || part == ".."
  }

  lemma {:induction false} DotPartsFrom(name: string, k: nat)
    requires k <= |name| && (k > 0 ==> name[k - 1] == '/')
    ensures HasDotPart(name[k..]) <==> exists i: nat, j: nat :: k <= i && IsPart(name, i, j) && IsDots(name[i..j])
    decreases |name| - k
  {
    var rest := name[k..];
    var part := FirstPart(rest);
    FirstPartIs(rest);
    hide FirstPart;
    var end := k + |part|;
    assert name[k..end] == part;
    assert forall m | k <= m < end :: name[m] == part[m - k];
    if |part| < |rest| {
      assert rest[|part| + 1..] == name[end + 1..];
      DotPartsFrom(name, end + 1);
    }
    forall i: nat, j: nat | k <= i && IsPart(name, i, j)
      ensures (i == k && j == end) || (|part| < |rest| && i >= end + 1)
    {
    }
    assert IsPart(name, k, end);
  }

  /** The names that may leave an archive: relative, without a backslash, and with no part that is "." or "..". */
  lemma SafeExactly(name: string)
    ensures SafeName(name)
            <==> && name != "" && name[0] != '/' && '\\' !in name
                 && forall i: nat, j: nat :: IsPart(name, i, j) ==> name[i..j] != "." && name[i..j] != ".."
  {
    assert name[0..] == name;
    DotPartsFrom(name, 0);
    hide HasDotPart;
  }

  /** `by_name`: of entries with one name, the last. */
  function ByName(entries: seq<Entry>, name: string): Option<Entry> {
    if entries == [] then None
    else if entries[|entries| - 1].name == name then Some(entries[|entries| - 1])
    else ByName(entries[..|entries| - 1], name)
  }

  predicate Contains(entries: seq<Entry>, name: string) {
    exists e <- entries :: e.name == name
  }

  // ----- the pending updates, ordered by name -----

  /** The order of the names' characters, which is that of their UTF-8 bytes. */
  predicate Less(a: string, b: string) {
    if b == "" then false else if a == "" then true else a[0] < b[0] || (a[0] == b[0] && Less(a[1..], b[1..]))
  }

  lemma {:induction false} LessIsAsymmetric(a: string, b: string)
    requires Less(a, b)
    ensures !Less(b, a)
  {
    if a != "" && a[0] == b[0] { LessIsAsymmetric(a[1..], b[1..]); }
  }

  function Insert(u: Update, pending: seq<Update>): seq<Update> {
    if pending == [] || Less(u.name, pending[0].name) then [u] + pending else [pending[0]] + Insert(u, pending[1..])
  }

  predicate Pends(pending: seq<Update>, name: string) {
    exists u <- pending :: u.name == name
  }

  function Find(pending: seq<Update>, name: string): Update
    requires Pends(pending, name)
  {
    if pending[0].name == name then pending[0] else Find(pending[1..], name)
  }

  function Without(pending: seq<Update>, name: string): seq<Update> {
    if pending == [] then []
    else if pending[0].name == name then Without(pending[1..], name)
    else [pending[0]] + Without(pending[1..], name)
  }

  /** All updates in name order; two for one entry are refused. */
  function Collect(updates: seq<Update>, pending: seq<Update>): Result<seq<Update>>
    decreases |updates|
  {
    if updates == [] then Ok(pending)
    else if !SafeName(updates[0].name) || Pends(pending, updates[0].name) then Err
    else Collect(updates[1..], Insert(updates[0], pending))
  }

  // ----- repacking -----

  function Rewritten(u: Update, now: int): Entry {
    Entry(u.name, u.node, u.compression, now)
  }

  /** Every entry in its place, updated by the update that is pending for it. */
  function Replaced(entries: seq<Entry>, pending: seq<Update>, now: int): seq<Entry>
    decreases |entries|
  {
    if entries == [] then []
    else if Pends(pending, entries[0].name) then
      [Rewritten(Find(pending, entries[0].name), now)] + Replaced(entries[1..], Without(pending, entries[0].name), now)
    else [entries[0]] + Replaced(entries[1..], pending, now)
  }

  function Unclaimed(entries: seq<Entry>, pending: seq<Update>): seq<Update>
    decreases |entries|
  {
    if entries == [] then pending else Unclaimed(entries[1..], Without(pending, entries[0].name))
  }

  function Added(pending: seq<Update>, now: int): seq<Entry> {
    seq(|pending|, i requires 0 <= i < |pending| => Rewritten(pending[i], now))
  }

  predicate SafeNames(entries: seq<Entry>) {
    forall e <- entries :: SafeName(e.name)
  }

  /** `repack_zip_with_updates`. */
  function Repack(entries: seq<Entry>, updates: seq<Update>, now: int): Result<seq<Entry>> {
    match Collect(updates, [])
    case Err => Err
    case Ok(pending) =>
      if !SafeNames(entries) then Err else Ok(Replaced(entries, pending, now) + Added(Unclaimed(entries, pending), now))
  }

  method CollectUpdates(updates: seq<Update>) returns (r: Result<seq<Update>>)
    ensures r == Collect(updates, [])
  {
    hide SafeName, Insert;
    var pending: seq<Update> := [];
    assert updates[0..] == updates;
    for k := 0 to |updates|
      invariant Collect(updates, []) == Collect(updates[k..], pending)
    {
      assert updates[k..][0] == updates[k] && updates[k..][1..] == updates[k + 1..];
      if !SafeName(updates[k].name) || Pends(pending, updates[k].name) { return Err; }
      pending := Insert(updates[k], pending);
    }
    assert updates[|updates|..] == [];
    return Ok(pending);
  }

  lemma ReplacedStep(entries: seq<Entry>, pending: seq<Update>, now: int)
    requires entries != []
    ensures var e, rest, claimed := entries[0], entries[1..], Pends(pending, entries[0].name);
            var left := if claimed then Without(pending, e.name) else pending;
            && Replaced(entries, pending, now)
               == [if claimed then Rewritten(Find(pending, e.name), now) else e] + Replaced(rest, left, now)
            && Unclaimed(entries, pending) == Unclaimed(rest, left)
  {
    hide Find, Without;
    if !Pends(pending, entries[0].name) { WithoutAbsent(pending, entries[0].name); }
  }

  lemma ReplacedEnd(pending: seq<Update>, now: int)
    ensures Replaced([], pending, now) == [] && Unclaimed([], pending) == pending
  {
  }

  lemma SafeSoFar(entries: seq<Entry>, k: nat)
    requires k < |entries| && SafeNames(entries[..k])
    ensures SafeNames(entries[..k + 1]) <==> SafeName(entries[k].name)
    ensures !SafeName(entries[k].name) ==> !SafeNames(entries)
  {
    hide SafeName;
    assert entries[k] in entries && entries[..k + 1] == entries[..k] + [entries[k]];
    assert entries[k] in entries[..k + 1];
  }

  method RepackZip(entries: seq<Entry>, updates: seq<Update>, now: int) returns (r: Result<seq<Entry>>)
    ensures r == Repack(entries, updates, now)
  {
    hide SafeName, SafeNames, Without, Find, Replaced, Unclaimed, Pends;
    var collected := CollectUpdates(updates);
    if collected.Err? { return Err; }
    var pending, out: seq<Entry> := collected.value, [];
    ghost var all := pending;
    NoneUnsafe();
    assert entries[0..] == entries && entries[..0] == []
           && [] + Replaced(entries, all, now) == Replaced(entries, all, now);
    for k := 0 to |entries|
      invariant SafeNames(entries[..k])
      invariant Replaced(entries, all, now) == out + Replaced(entries[k..], pending, now)
      invariant Unclaimed(entries, all) == Unclaimed(entries[k..], pending)
    {
      ReplacedStep(entries[k..], pending, now);
      assert entries[k..][0] == entries[k] && entries[k..][1..] == entries[k + 1..];
      SafeSoFar(entries, k);
      var name, entry := entries[k].name, entries[k];
      if !SafeName(name) { return Err; }
      if Pends(pending, name) {
        entry := Rewritten(Find(pending, name), now);
        pending := Without(pending, name);
      }
      ghost var rest := Replaced(entries[k + 1..], pending, now);
      assert out + ([entry] + rest) == (out + [entry]) + rest;
      out := out + [entry];
    }
    ReplacedEnd(pending, now);
    assert entries[|entries|..] == [] && entries[..|entries|] == entries && out + [] == out;
    return Ok(out + Added(pending, now));
  }

  lemma NoneUnsafe()
    ensures SafeNames([])
  {
  }

  // ----- what repacking does -----

  lemma {:induction false} WithoutAbsent(pending: seq<Update>, name: string)
    requires !Pends(pending, name)
    ensures Without(pending, name) == pending
  {
    if pending != [] {
      assert pending[0] in pending;
      forall u <- pending[1..] ensures u in pending {}
      WithoutAbsent(pending[1..], name);
    }
  }

  lemma {:induction false} FindIs(pending: seq<Update>, name: string)
    requires Pends(pending, name)
    ensures Find(pending, name) in pending && Find(pending, name).name == name
  {
    if pending[0].name != name { FindIs(pending[1..], name); }
  }

  lemma {:induction false} WithoutKeeps(pending: seq<Update>, name: string)
    ensures forall u :: u in Without(pending, name) <==> u in pending && u.name != name
  {
    if pending != [] { WithoutKeeps(pending[1..], name); }
  }

  lemma {:induction false} InsertKeeps(u: Update, pending: seq<Update>)
    ensures forall v :: v in Insert(u, pending) <==> v == u || v in pending
  {
    if pending != [] && !Less(u.name, pending[0].name) { InsertKeeps(u, pending[1..]); }
  }

  /** One update a name. */
  predicate NamesDiffer(updates: seq<Update>) {
    forall i, j :: 0 <= i < j < |updates| ==> updates[i].name != updates[j].name
  }

  ghost predicate OnePerName(pending: seq<Update>) {
    forall u <- pending, v <- pending :: u.name == v.name ==> u == v
  }

  lemma {:induction false} CollectKeeps(updates: seq<Update>, pending: seq<Update>)
    requires Collect(updates, pending).Ok? && OnePerName(pending)
    ensures var p := Collect(updates, pending).value;
            (forall u :: u in p <==> u in updates || u in pending) && OnePerName(p)
    ensures NamesDiffer(updates) && forall u <- updates :: !Pends(pending, u.name)
    decreases |updates|
  {
    hide SafeName, Insert;
    if updates != [] {
      var u, more := updates[0], Insert(updates[0], pending);
      InsertKeeps(u, pending);
      assert u in more;
      CollectKeeps(updates[1..], more);
      assert updates == [u] + updates[1..];
      forall v <- updates[1..] ensures v.name != u.name && !Pends(pending, v.name) {
        assert !Pends(more, v.name);
      }
      assert forall j | 0 < j < |updates| :: updates[j] in updates[1..];
      forall i, j | 0 <= i < j < |updates| ensures updates[i].name != updates[j].name {
        if i > 0 { assert updates[1..][i - 1].name != updates[1..][j - 1].name; }
      }
    }
  }

  /** What stands at `k` after repacking: the entry, or the update for it if no earlier entry has its name. */
  function Outcome(entries: seq<Entry>, updates: seq<Update>, now: int, k: nat): Entry
    requires k < |entries|
  {
    if Pends(updates, entries[k].name) && !Contains(entries[..k], entries[k].name)
    then Rewritten(Find(updates, entries[k].name), now) else entries[k]
  }

  lemma {:induction false} ReplacedAt(entries: seq<Entry>, pending: seq<Update>, now: int, k: nat)
    requires OnePerName(pending) && k < |entries|
    ensures |Replaced(entries, pending, now)| == |entries|
    ensures Replaced(entries, pending, now)[k] == Outcome(entries, pending, now, k)
    decreases |entries|
  {
    hide Find, Without;
    var e, rest := entries[0], entries[1..];
    var left := if Pends(pending, e.name) then Without(pending, e.name) else pending;
    WithoutKeeps(pending, e.name);
    if k > 0 {
      ReplacedAt(rest, left, now, k - 1);
      OutcomeLater(entries, pending, left, now, k);
    } else {
      if rest != [] { ReplacedAt(rest, left, now, 0); }
    }
  }

  lemma OutcomeLater(entries: seq<Entry>, pending: seq<Update>, left: seq<Update>, now: int, k: nat)
    requires 0 < k < |entries| && OnePerName(pending) && OnePerName(left)
    requires forall u :: u in left <==> u in pending && u.name != entries[0].name
    ensures Outcome(entries[1..], left, now, k - 1) == Outcome(entries, pending, now, k)
  {
    hide Find;
    var name := entries[k].name;
    assert entries[..k] == [entries[0]] + entries[1..][..k - 1];
    assert Contains(entries[..k], name) <==> entries[0].name == name || Contains(entries[1..][..k - 1], name) by {
      assert entries[0] in entries[..k];
      forall e | e in entries[1..][..k - 1] ensures e in entries[..k] {}
      forall e | e in entries[..k] ensures e == entries[0] || e in entries[1..][..k - 1] {}
    }
    if Pends(pending, name) && entries[0].name != name {
      FindIs(pending, name);
      assert Find(pending, name) in left;
      FindIs(left, name);
    }
  }

  lemma {:induction false} UnclaimedAre(entries: seq<Entry>, pending: seq<Update>)
    ensures forall u :: u in Unclaimed(entries, pending) <==> u in pending && !Contains(entries, u.name)
    decreases |entries|
  {
    if entries != [] {
      hide Without;
      WithoutKeeps(pending, entries[0].name);
      UnclaimedAre(entries[1..], Without(pending, entries[0].name));
      forall name: string ensures Contains(entries, name) <==> entries[0].name == name || Contains(entries[1..], name) {
        assert entries[0] in entries;
        forall e | e in entries[1..] ensures e in entries {}
        forall e | e in entries ensures e == entries[0] || e in entries[1..] {}
      }
    }
  }

  /** Repacking keeps every entry's place and name, rewrites exactly the entries with an update, and adds the updates
      that met no entry behind them; two updates for one name are refused. */
  lemma RepackDoes(entries: seq<Entry>, updates: seq<Update>, now: int)
    requires Repack(entries, updates, now).Ok?
    ensures var out := Repack(entries, updates, now).value;
            && NamesDiffer(updates)
            && |out| >= |entries|
            && (forall k | 0 <= k < |entries| :: out[k] == Outcome(entries, updates, now, k))
            && (forall e <- out[|entries|..] :: exists u <- updates ::
               e == Rewritten(u, now) && !Contains(entries, u.name))
            && (forall u <- updates | !Contains(entries, u.name) :: Rewritten(u, now) in out[|entries|..])
  {
    hide Collect, Find, Replaced, Unclaimed, SafeNames, Contains;
    CollectKeeps(updates, []);
    var pending := Collect(updates, []).value;
    var out := Repack(entries, updates, now).value;
    if entries != [] { ReplacedAt(entries, pending, now, 0); } else { NothingReplaced(pending, now); }
    forall k | 0 <= k < |entries| ensures out[k] == Outcome(entries, updates, now, k) {
      ReplacedAt(entries, pending, now, k);
      SameOutcome(entries, updates, pending, now, k);
    }
    UnclaimedAre(entries, pending);
    var left := Unclaimed(entries, pending);
    assert out[|entries|..] == Added(left, now);
    forall e <- out[|entries|..] ensures exists u <- updates :: e == Rewritten(u, now) && !Contains(entries, u.name) {
      var i :| 0 <= i < |left| && e == Rewritten(left[i], now);
      assert left[i] in left;
    }
    forall u <- updates | !Contains(entries, u.name) ensures Rewritten(u, now) in out[|entries|..] {
      assert u in left;
      var i :| 0 <= i < |left| && left[i] == u;
      assert Added(left, now)[i] == Rewritten(u, now);
    }
  }

  lemma NothingReplaced(pending: seq<Update>, now: int)
    ensures Replaced([], pending, now) == []
  {
  }

  lemma SameOutcome(entries: seq<Entry>, updates: seq<Update>, pending: seq<Update>, now: int, k: nat)
    requires k < |entries| && OnePerName(pending) && forall u :: u in pending <==> u in updates
    ensures Outcome(entries, pending, now, k) == Outcome(entries, updates, now, k)
  {
    hide Find, Contains;
    var name := entries[k].name;
    if Pends(updates, name) {
      FindIs(updates, name);
      assert Find(updates, name) in pending;
      FindIs(pending, name);
    }
  }

  /** Of the entries of one name, the first. */
  lemma {:induction false} FirstOf(entries: seq<Entry>, name: string) returns (k: nat)
    requires Contains(entries, name)
    ensures k < |entries| && entries[k].name == name && !Contains(entries[..k], name)
  {
    if entries[0].name == name {
      k := 0;
    } else {
      forall e <- entries | e != entries[0] ensures e in entries[1..] {}
      var rest := FirstOf(entries[1..], name);
      k := rest + 1;
      assert entries[..k] == [entries[0]] + entries[1..][..rest];
      forall e <- entries[..k] ensures e.name != name {
        assert e == entries[0] || e in entries[1..][..rest];
      }
    }
  }

  /** No update is lost: each is an entry of the result, with its content and compression, stamped now. */
  lemma UpdatesLand(entries: seq<Entry>, updates: seq<Update>, now: int)
    requires Repack(entries, updates, now).Ok?
    ensures forall u <- updates :: Entry(u.name, u.node, u.compression, now) in Repack(entries, updates, now).value
  {
    hide Repack, Contains, Find;
    RepackDoes(entries, updates, now);
    var out := Repack(entries, updates, now).value;
    forall u <- updates ensures Rewritten(u, now) in out {
      if Contains(entries, u.name) {
        var k := FirstOf(entries, u.name);
        assert out[k] == Outcome(entries, updates, now, k);
        assert Pends(updates, u.name);
        FindIs(updates, u.name);
        OneOfAName(updates, u, Find(updates, u.name));
        assert out[k] == Rewritten(u, now);
      } else {
        assert Rewritten(u, now) in out[|entries|..];
      }
    }
  }

  lemma OneOfAName(updates: seq<Update>, u: Update, v: Update)
    requires NamesDiffer(updates) && u in updates && v in updates && u.name == v.name
    ensures u == v
  {
  }

  // ----- when repacking succeeds -----

  lemma {:induction false} CollectSucceeds(updates: seq<Update>, pending: seq<Update>)
    ensures Collect(updates, pending).Ok?
            <==> NamesDiffer(updates) && forall u <- updates :: SafeName(u.name) && !Pends(pending, u.name)
    decreases |updates|
  {
    hide SafeName, Insert;
    if updates != [] {
      var u, rest := updates[0], updates[1..];
      InsertKeeps(u, pending);
      CollectSucceeds(rest, Insert(u, pending));
      forall name ensures Pends(Insert(u, pending), name) <==> u.name == name || Pends(pending, name) {}
      hide Pends;
      assert updates == [u] + rest;
      FirstDiffers(u, rest);
    }
  }

  lemma FirstDiffers(u: Update, rest: seq<Update>)
    ensures NamesDiffer([u] + rest) <==> NamesDiffer(rest) && forall v <- rest :: v.name != u.name
  {
    var all := [u] + rest;
    assert forall i | 0 <= i < |rest| :: rest[i] == all[i + 1];
    if NamesDiffer(all) {
      forall v <- rest ensures v.name != u.name {
        var i :| 0 <= i < |rest| && rest[i] == v;
        assert all[0].name != all[i + 1].name;
      }
    }
    if NamesDiffer(rest) && forall v <- rest :: v.name != u.name {
      forall i, j | 0 <= i < j < |all| ensures all[i].name != all[j].name {
        if i > 0 { assert rest[i - 1].name != rest[j - 1].name; } else { assert rest[j - 1] in rest; }
      }
    }
  }

  /** Repacking succeeds exactly if no name in the archive or among the updates is unsafe and no two updates are for one
      name. */
  lemma RepackSucceeds(entries: seq<Entry>, updates: seq<Update>, now: int)
    ensures Repack(entries, updates, now).Ok?
            <==> NamesDiffer(updates) && SafeNames(entries) && forall u <- updates :: SafeName(u.name)
  {
    hide Collect, SafeName, SafeNames, NamesDiffer;
    CollectSucceeds(updates, []);
  }

  // ----- the order of what is added -----

  lemma {:induction false} LessIsTotal(a: string, b: string)
    requires a != b
    ensures Less(a, b) || Less(b, a)
  {
    if a != "" && b != "" && a[0] == b[0] {
      assert a == [a[0]] + a[1..] && b == [b[0]] + b[1..];
      LessIsTotal(a[1..], b[1..]);
    }
  }

  lemma {:induction false} LessIsTransitive(a: string, b: string, c: string)
    requires Less(a, b) && Less(b, c)
    ensures Less(a, c)
  {
    if a != "" && a[0] == b[0] == c[0] { LessIsTransitive(a[1..], b[1..], c[1..]); }
  }

  /** Each name behind the one before it, so none twice. */
  predicate Ascending(updates: seq<Update>) {
    forall i, j :: 0 <= i < j < |updates| ==> Less(updates[i].name, updates[j].name)
  }

  lemma AscendingBehind(u: Update, updates: seq<Update>)
    requires Ascending(updates) && forall v <- updates :: Less(u.name, v.name)
    ensures Ascending([u] + updates)
  {
    hide Less;
    var all := [u] + updates;
    forall i, j | 0 <= i < j < |all| ensures Less(all[i].name, all[j].name) {
      assert all[j] == updates[j - 1] && updates[j - 1] in updates;
      if i > 0 { assert all[i] == updates[i - 1]; }
    }
  }

  lemma AscendingRest(updates: seq<Update>)
    requires Ascending(updates) && updates != []
    ensures Ascending(updates[1..]) && forall v <- updates[1..] :: Less(updates[0].name, v.name)
  {
    hide Less;
  }

  lemma {:induction false} InsertAscends(u: Update, pending: seq<Update>)
    requires Ascending(pending) && !Pends(pending, u.name)
    ensures Ascending(Insert(u, pending))
  {
    InsertKeeps(u, pending);
    hide Less, Ascending;
    if pending == [] || Less(u.name, pending[0].name) {
      forall v <- pending ensures Less(u.name, v.name) {
        AscendingRest(pending);
        if v != pending[0] {
          assert v in pending[1..];
          LessIsTransitive(u.name, pending[0].name, v.name);
        }
      }
      AscendingBehind(u, pending);
    } else {
      AscendingRest(pending);
      assert pending[0] in pending && forall v <- pending[1..] :: v in pending;
      LessIsTotal(u.name, pending[0].name);
      InsertAscends(u, pending[1..]);
      InsertKeeps(u, pending[1..]);
      AscendingBehind(pending[0], Insert(u, pending[1..]));
    }
  }

  lemma {:induction false} CollectAscends(updates: seq<Update>, pending: seq<Update>)
    requires Collect(updates, pending).Ok? && Ascending(pending)
    ensures Ascending(Collect(updates, pending).value)
    decreases |updates|
  {
    hide SafeName, Insert, Ascending;
    if updates != [] {
      InsertAscends(updates[0], pending);
      CollectAscends(updates[1..], Insert(updates[0], pending));
    }
  }

  lemma {:induction false} WithoutAscends(pending: seq<Update>, name: string)
    requires Ascending(pending)
    ensures Ascending(Without(pending, name))
  {
    hide Less, Ascending;
    if pending != [] {
      AscendingRest(pending);
      WithoutAscends(pending[1..], name);
      if pending[0].name != name {
        WithoutKeeps(pending[1..], name);
        AscendingBehind(pending[0], Without(pending[1..], name));
      }
    }
  }

  lemma {:induction false} UnclaimedAscends(entries: seq<Entry>, pending: seq<Update>)
    requires Ascending(pending)
    ensures Ascending(Unclaimed(entries, pending))
    decreases |entries|
  {
    hide Ascending, Without;
    if entries != [] {
      WithoutAscends(pending, entries[0].name);
      UnclaimedAscends(entries[1..], Without(pending, entries[0].name));
    }
  }

  /** What repacking adds stands in name order, each name once. */
  lemma AddedInOrder(entries: seq<Entry>, updates: seq<Update>, now: int, i: nat, j: nat)
    requires Repack(entries, updates, now).Ok? && |entries| <= i < j < |Repack(entries, updates, now).value|
    ensures Less(Repack(entries, updates, now).value[i].name, Repack(entries, updates, now).value[j].name)
  {
    var none: seq<Update> := [];
    assert Ascending(none);
    CollectAscends(updates, none);
    CollectKeeps(updates, none);
    var pending := Collect(updates, none).value;
    UnclaimedAscends(entries, pending);
    hide Collect, Unclaimed, Replaced, SafeNames, Less;
    if entries != [] { ReplacedAt(entries, pending, now, 0); } else { NothingReplaced(pending, now); }
  }
}
