/** The AuthRoot CAB cache: two files, replaced and stamped by any number of processes that may stop anywhere.
    Time is in nanoseconds since the epoch; the metadata holds whole seconds. */
module AuthRootCache {
  import opened Wrappers

  type Body = seq<byte>

  const SECOND: nat := 1_000_000_000

  // ----- the files -----

  /** What `read_meta` can find. A file caught while it is written does not parse. */
  datatype Meta = NoMeta | Unparsable | Json(unixSecs: Option<int>, utcSecs: Option<int>)

  datatype Tmp = Torn | Whole(body: Body)

  /** `meta_downloaded_at`, in seconds. */
  function DownloadedAt(meta: Meta): Option<int> {
    if !meta.Json? then None
    else if meta.unixSecs.Some? && meta.unixSecs.value >= 0 then meta.unixSecs
    else if meta.utcSecs.Some? && meta.utcSecs.value >= 0 then meta.utcSecs
    else None
  }

  /** The last test of `is_stale`: a stamp ahead of the clock counts as fresh. */
  predicate IsFresh(stamp: int, now: nat, maxAge: nat) {
    now < stamp * SECOND || now - stamp * SECOND <= maxAge
  }

  /** A stamp is fresh up to `maxAge` behind it, and so at any clock in front of it. */
  lemma StampAhead(stamp: int, now: nat, later: nat, maxAge: nat)
    requires now < stamp * SECOND
    ensures IsFresh(stamp, now, maxAge)
    ensures IsFresh(stamp, later, maxAge) <==> later <= stamp * SECOND + maxAge
  {
  }

  // ----- one process -----

  datatype Outcome = AcceptedFresh(stamp: int, refresh: nat, at: nat) | Refreshed | StaleFallback | Failed

  /** Where a process stands in `get_or_download_authroot_cab_with`; one step each reads or changes one file or reads
      the clock. */
  datatype Pc =
    | Start
    | SawCab
    | SawBoth
    | HasStamp(stamp: int, refresh: nat)
    | Fetching
    | Fetched(body: Body)
    | WritingTmp(body: Body)
    | TmpWritten(body: Body)
    | Removing(body: Body)
    | Removed(body: Body)
    | Installed(refresh: nat)
    | HasUtc(refresh: nat, utc: nat)
    | HasTimes(refresh: nat, utc: nat, unix: nat)
    | WritingMeta(refresh: nat, utc: nat, unix: nat)
    | Finished(outcome: Outcome)

  // ----- all processes and the disk -----

  /** A successful rename onto the cab. */
  datatype Install = Install(body: Body, at: nat)

  /** `fetches` and `installs` are the histories of non-empty fetches and of renames onto the cab; `stamped` is the
      install whose process wrote the metadata. */
  datatype State = State(
    cab: Option<Body>, meta: Meta, tmps: map<nat, Tmp>, procs: map<nat, Pc>, now: nat,
    fetches: seq<Body>, installs: seq<Install>, stamped: nat)

  function Empty(now: nat): State {
    State(None, NoMeta, map[], map[], now, [], [], 0)
  }

  /** `ok` says whether the file operation succeeds, `fetch` what a fetch returns. */
  datatype Act = Tick(nanos: nat) | Spawn(pid: nat) | Crash(pid: nat) | Go(pid: nat, ok: bool, fetch: Option<Body>)

  function At(s: State, pid: nat, pc: Pc): State {
    s.(procs := s.procs[pid := pc])
  }

  function Installing(s: State, pid: nat): State {
    match if pid in s.tmps then s.tmps[pid] else Torn
    case Torn => At(s, pid, Finished(Failed))
    case Whole(body) =>
      At(s.(cab := Some(body), tmps := s.tmps - {pid}, installs := s.installs + [Install(body, s.now)]),
         pid, Installed(|s.installs|))
  }

  /** The next step of one process. */
  function Proceed(s: State, pid: nat, ok: bool, fetch: Option<Body>, maxAge: nat): State
    requires pid in s.procs
  {
    match s.procs[pid]
    case Start => At(s, pid, if s.cab.Some? then SawCab else Fetching)
    case SawCab => At(s, pid, if s.cab.Some? && s.meta != NoMeta then SawBoth else Fetching)
    case SawBoth =>
      (match DownloadedAt(s.meta)
       case None => At(s, pid, Fetching)
       case Some(stamp) => At(s, pid, if ok then HasStamp(stamp, s.stamped) else Fetching))
    case HasStamp(stamp, refresh) =>
      At(s, pid, if IsFresh(stamp, s.now, maxAge) then Finished(AcceptedFresh(stamp, refresh, s.now)) else Fetching)
    case Fetching =>
      if fetch.Some? && fetch.value != [] then At(s.(fetches := s.fetches + [fetch.value]), pid, Fetched(fetch.value))
      else At(s, pid, Finished(if s.cab.Some? then StaleFallback else Failed))
    case Fetched(body) =>
      if ok then At(s.(tmps := s.tmps[pid := Torn]), pid, WritingTmp(body)) else At(s, pid, Finished(Failed))
    case WritingTmp(body) =>
      if ok then At(s.(tmps := s.tmps[pid := Whole(body)]), pid, TmpWritten(body)) else At(s, pid, Finished(Failed))
    case TmpWritten(body) =>
      if ok then Installing(s, pid) else At(s, pid, if s.cab.Some? then Removing(body) else Finished(Failed))
    case Removing(body) => if ok then At(s.(cab := None), pid, Removed(body)) else At(s, pid, Finished(Failed))
    case Removed(body) => if ok then Installing(s, pid) else At(s, pid, Finished(Failed))
    case Installed(refresh) => At(s, pid, HasUtc(refresh, s.now / SECOND))
    case HasUtc(refresh, utc) => At(s, pid, HasTimes(refresh, utc, s.now / SECOND))
    case HasTimes(refresh, utc, unix) =>
      if ok then At(s.(meta := Unparsable), pid, WritingMeta(refresh, utc, unix)) else At(s, pid, Finished(Failed))
    case WritingMeta(refresh, utc, unix) =>
      if ok then At(s.(meta := Json(Some(unix), Some(utc)), stamped := refresh), pid, Finished(Refreshed))
      else At(s, pid, Finished(Failed))
    case Finished(_) => s
  }

  /** One step of the whole system; a process can stop between any two steps, and its number be used again. */
  function Next(s: State, act: Act, maxAge: nat): State {
    match act
    case Tick(nanos) => s.(now := s.now + nanos)
    case Spawn(pid) => if pid in s.procs then s else At(s, pid, Start)
    case Crash(pid) => s.(procs := s.procs - {pid})
    case Go(pid, ok, fetch) => if pid in s.procs then Proceed(s, pid, ok, fetch, maxAge) else s
  }

  function Run(s: State, acts: seq<Act>, maxAge: nat): State
    decreases |acts|
  {
    if acts == [] then s else Run(Next(s, acts[0], maxAge), acts[1..], maxAge)
  }

  // ----- what every reachable state satisfies -----

  function Seconds(nanos: nat): nat {
    nanos / SECOND
  }

  /** Every install wrote one whole, non-empty fetch, not later than now. */
  ghost predicate History(s: State) {
    && (forall b <- s.fetches :: b != [])
    && (forall i <- s.installs :: i.body in s.fetches && i.at <= s.now)
  }

  /** The cab is what the latest install wrote. */
  predicate CabIsLatest(s: State) {
    s.cab.Some? ==> s.installs != [] && s.cab.value == s.installs[|s.installs| - 1].body
  }

  /** Install `refresh` happened, and `secs` is a time between then and now. */
  predicate Since(s: State, refresh: nat, secs: int) {
    refresh < |s.installs| && Seconds(s.installs[refresh].at) <= secs <= Seconds(s.now)
  }

  predicate MetaSince(s: State) {
    s.meta.Json? ==> s.meta.unixSecs.Some? && Since(s, s.stamped, s.meta.unixSecs.value)
  }

  ghost predicate PcOk(s: State, pid: nat, pc: Pc, maxAge: nat) {
    match pc
    case Fetched(body) => body in s.fetches
    case WritingTmp(body) => body in s.fetches
    case TmpWritten(body) => body in s.fetches && pid in s.tmps && s.tmps[pid] == Whole(body)
    case Removing(body) => body in s.fetches && pid in s.tmps && s.tmps[pid] == Whole(body)
    case Removed(body) => body in s.fetches && pid in s.tmps && s.tmps[pid] == Whole(body)
    case HasStamp(stamp, refresh) => Since(s, refresh, stamp)
    case Installed(refresh) => refresh < |s.installs|
    case HasUtc(refresh, utc) => Since(s, refresh, utc)
    case HasTimes(refresh, utc, unix) => Since(s, refresh, unix)
    case WritingMeta(refresh, utc, unix) => Since(s, refresh, unix)
    case Finished(AcceptedFresh(stamp, refresh, at)) =>
      at <= s.now && Since(s, refresh, stamp) && stamp * SECOND <= at <= stamp * SECOND + maxAge
    case _ => true
  }

  ghost predicate Inv(s: State, maxAge: nat) {
    && History(s) && CabIsLatest(s) && MetaSince(s)
    && (forall pid <- s.procs :: PcOk(s, pid, s.procs[pid], maxAge))
  }

  /** Histories only grow, and the clock does not go back. */
  predicate Extends(t: State, s: State) {
    s.now <= t.now && s.fetches <= t.fetches && s.installs <= t.installs
  }

  lemma SinceKept(s: State, t: State, refresh: nat, secs: int)
    requires Extends(t, s) && Since(s, refresh, secs)
    ensures Since(t, refresh, secs)
  {
    assert s.now / SECOND <= t.now / SECOND;
  }

  /** A process is unaffected by anything that leaves its own temporary file alone. */
  lemma PcKept(s: State, t: State, pid: nat, pc: Pc, maxAge: nat)
    requires Extends(t, s) && PcOk(s, pid, pc, maxAge)
    requires (pid in t.tmps) == (pid in s.tmps) && (pid in s.tmps ==> t.tmps[pid] == s.tmps[pid])
    ensures PcOk(t, pid, pc, maxAge)
  {
    hide Since, Extends;
    assert s.fetches <= t.fetches && s.now <= t.now by { ExtendsMeans(s, t); }
    match pc
    case HasStamp(stamp, refresh) => SinceKept(s, t, refresh, stamp);
    case Installed(refresh) => ExtendsMeans(s, t);
    case HasUtc(refresh, utc) => SinceKept(s, t, refresh, utc);
    case HasTimes(refresh, utc, unix) => SinceKept(s, t, refresh, unix);
    case WritingMeta(refresh, utc, unix) => SinceKept(s, t, refresh, unix);
    case Finished(AcceptedFresh(stamp, refresh, at)) => SinceKept(s, t, refresh, stamp);
    case _ =>
  }

  lemma ExtendsMeans(s: State, t: State)
    requires Extends(t, s)
    ensures s.fetches <= t.fetches && s.now <= t.now && |s.installs| <= |t.installs|
    ensures forall b <- s.fetches :: b in t.fetches
  {
  }

  /** What one process does to everything but its own position. */
  ghost predicate Others(s: State, t: State, pid: nat) {
    && Extends(t, s) && History(t) && CabIsLatest(t) && MetaSince(t)
    && (forall q | q != pid :: (q in t.tmps) == (q in s.tmps) && (q in s.tmps ==> t.tmps[q] == s.tmps[q]))
    && (forall q | q != pid :: (q in t.procs) == (q in s.procs) && (q in s.procs ==> t.procs[q] == s.procs[q]))
  }

  lemma StepKeeps(s: State, t: State, pid: nat, maxAge: nat)
    requires Inv(s, maxAge) && Others(s, t, pid)
    requires pid in t.procs ==> PcOk(t, pid, t.procs[pid], maxAge)
    ensures Inv(t, maxAge)
  {
    hide PcOk, History, CabIsLatest, MetaSince, Extends;
    forall q | q in t.procs ensures PcOk(t, q, t.procs[q], maxAge) {
      if q != pid { PcKept(s, t, q, s.procs[q], maxAge); }
    }
  }

  lemma InstallKeeps(s: State, pid: nat, body: Body, maxAge: nat)
    requires Inv(s, maxAge) && pid in s.procs && pid in s.tmps && s.tmps[pid] == Whole(body) && body in s.fetches
    ensures Inv(Installing(s, pid), maxAge)
  {
    var t := Installing(s, pid);
    assert t.installs[|s.installs|] == Install(body, s.now);
    if s.meta.Json? { SinceKept(s, t, s.stamped, s.meta.unixSecs.value); }
    hide PcOk, Since;
    assert Others(s, t, pid);
    assert PcOk(t, pid, t.procs[pid], maxAge) by { InstalledOk(t, pid, |s.installs|, maxAge); }
    StepKeeps(s, t, pid, maxAge);
  }

  lemma InstalledOk(t: State, pid: nat, refresh: nat, maxAge: nat)
    requires refresh < |t.installs|
    ensures PcOk(t, pid, Installed(refresh), maxAge)
  {
  }

  /** The reading half of the algorithm touches nothing. */
  lemma ReadStepKeeps(s: State, pid: nat, ok: bool, fetch: Option<Body>, maxAge: nat)
    requires Inv(s, maxAge) && pid in s.procs
    requires var pc := s.procs[pid]; pc.Start? || pc.SawCab? || pc.SawBoth? || pc.HasStamp? || pc.Finished?
    ensures Inv(Proceed(s, pid, ok, fetch, maxAge), maxAge)
  {
    var t := Proceed(s, pid, ok, fetch, maxAge);
    assert Others(s, t, pid);
    assert PcOk(t, pid, t.procs[pid], maxAge);
    StepKeeps(s, t, pid, maxAge);
  }

  lemma MetaKept(s: State, t: State)
    requires Extends(t, s) && MetaSince(s) && t.meta == s.meta && t.stamped == s.stamped
    ensures MetaSince(t)
  {
    hide Extends, Since;
    if s.meta.Json? { SinceKept(s, t, s.stamped, s.meta.unixSecs.value); }
  }

  lemma FetchStepKeeps(s: State, pid: nat, ok: bool, fetch: Option<Body>, maxAge: nat)
    requires Inv(s, maxAge) && pid in s.procs
    requires var pc := s.procs[pid]; pc.Fetching? || pc.Fetched? || pc.WritingTmp?
    ensures Inv(Proceed(s, pid, ok, fetch, maxAge), maxAge)
  {
    var t := Proceed(s, pid, ok, fetch, maxAge);
    assert PcOk(t, pid, t.procs[pid], maxAge);
    assert Extends(t, s);
    hide PcOk, Extends, MetaSince;
    MetaKept(s, t);
    assert History(t);
    assert Others(s, t, pid);
    StepKeeps(s, t, pid, maxAge);
  }

  lemma ReplaceStepKeeps(s: State, pid: nat, ok: bool, fetch: Option<Body>, maxAge: nat)
    requires Inv(s, maxAge) && pid in s.procs
    requires var pc := s.procs[pid]; pc.TmpWritten? || pc.Removing? || pc.Removed?
    ensures Inv(Proceed(s, pid, ok, fetch, maxAge), maxAge)
  {
    var pc := s.procs[pid];
    if ok && !pc.Removing? {
      InstallKeeps(s, pid, pc.body, maxAge);
    } else {
      var t := Proceed(s, pid, ok, fetch, maxAge);
      assert Others(s, t, pid);
      StepKeeps(s, t, pid, maxAge);
    }
  }

  lemma ClockStepKeeps(s: State, pid: nat, ok: bool, fetch: Option<Body>, maxAge: nat)
    requires Inv(s, maxAge) && pid in s.procs && (s.procs[pid].Installed? || s.procs[pid].HasUtc?)
    ensures Inv(Proceed(s, pid, ok, fetch, maxAge), maxAge)
  {
    var t := Proceed(s, pid, ok, fetch, maxAge);
    if s.procs[pid].Installed? { InstalledBefore(s, pid, maxAge); }
    assert PcOk(t, pid, t.procs[pid], maxAge) && MetaSince(t);
    hide PcOk, MetaSince, Since;
    assert Others(s, t, pid);
    StepKeeps(s, t, pid, maxAge);
  }

  lemma MetaStepKeeps(s: State, pid: nat, ok: bool, fetch: Option<Body>, maxAge: nat)
    requires Inv(s, maxAge) && pid in s.procs && (s.procs[pid].HasTimes? || s.procs[pid].WritingMeta?)
    ensures Inv(Proceed(s, pid, ok, fetch, maxAge), maxAge)
  {
    var t := Proceed(s, pid, ok, fetch, maxAge);
    assert PcOk(s, pid, s.procs[pid], maxAge);
    assert PcOk(t, pid, t.procs[pid], maxAge) && MetaSince(t);
    hide PcOk, MetaSince, Since;
    assert Others(s, t, pid);
    StepKeeps(s, t, pid, maxAge);
  }

  lemma InstalledBefore(s: State, pid: nat, maxAge: nat)
    requires Inv(s, maxAge) && pid in s.procs && s.procs[pid].Installed?
    ensures Since(s, s.procs[pid].refresh, Seconds(s.now))
  {
    var refresh := s.procs[pid].refresh;
    assert PcOk(s, pid, s.procs[pid], maxAge);
    assert s.installs[refresh] in s.installs;
    assert s.installs[refresh].at / SECOND <= s.now / SECOND;
  }

  lemma NextKeepsInv(s: State, act: Act, maxAge: nat)
    requires Inv(s, maxAge)
    ensures Inv(Next(s, act, maxAge), maxAge)
  {
    var t := Next(s, act, maxAge);
    match act
    case Tick(_) =>
      TickKeeps(s, t, maxAge);
    case Spawn(pid) =>
      if pid !in s.procs { assert Others(s, t, pid); StepKeeps(s, t, pid, maxAge); }
    case Crash(pid) =>
      assert Others(s, t, pid);
      StepKeeps(s, t, pid, maxAge);
    case Go(pid, ok, fetch) =>
      hide Inv, Proceed;
      if pid in s.procs {
        match s.procs[pid]
        case Start => ReadStepKeeps(s, pid, ok, fetch, maxAge);
        case SawCab => ReadStepKeeps(s, pid, ok, fetch, maxAge);
        case SawBoth => ReadStepKeeps(s, pid, ok, fetch, maxAge);
        case HasStamp(_, _) => ReadStepKeeps(s, pid, ok, fetch, maxAge);
        case Finished(_) => ReadStepKeeps(s, pid, ok, fetch, maxAge);
        case Fetching => FetchStepKeeps(s, pid, ok, fetch, maxAge);
        case Fetched(_) => FetchStepKeeps(s, pid, ok, fetch, maxAge);
        case WritingTmp(_) => FetchStepKeeps(s, pid, ok, fetch, maxAge);
        case TmpWritten(_) => ReplaceStepKeeps(s, pid, ok, fetch, maxAge);
        case Removing(_) => ReplaceStepKeeps(s, pid, ok, fetch, maxAge);
        case Removed(_) => ReplaceStepKeeps(s, pid, ok, fetch, maxAge);
        case Installed(_) => ClockStepKeeps(s, pid, ok, fetch, maxAge);
        case HasUtc(_, _) => ClockStepKeeps(s, pid, ok, fetch, maxAge);
        case _ => MetaStepKeeps(s, pid, ok, fetch, maxAge);
      }
  }

  lemma TickKeeps(s: State, t: State, maxAge: nat)
    requires Inv(s, maxAge) && s.now <= t.now && t == s.(now := t.now)
    ensures Inv(t, maxAge)
  {
    if s.meta.Json? { SinceKept(s, t, s.stamped, s.meta.unixSecs.value); }
    hide PcOk, Since;
    forall q | q in t.procs ensures PcOk(t, q, t.procs[q], maxAge) { PcKept(s, t, q, s.procs[q], maxAge); }
  }

  lemma {:induction false} RunKeepsInv(s: State, acts: seq<Act>, maxAge: nat)
    requires Inv(s, maxAge)
    ensures Inv(Run(s, acts, maxAge), maxAge)
    decreases |acts|
  {
    hide Inv, Next;
    if acts != [] {
      NextKeepsInv(s, acts[0], maxAge);
      RunKeepsInv(Next(s, acts[0], maxAge), acts[1..], maxAge);
    }
  }

  /** Over all runs from an empty cache: the cab, when present, is one whole non-empty fetch; a cab accepted as fresh
      is no older than the refresh that stamped the metadata; and that stamp was at most `maxAge` old. */
  lemma CacheSafety(start: nat, acts: seq<Act>, maxAge: nat)
    ensures var s := Run(Empty(start), acts, maxAge);
            && (s.cab.Some? ==> s.cab.value != [] && s.cab.value in s.fetches)
            && forall pid <- s.procs :: s.procs[pid].Finished? && s.procs[pid].outcome.AcceptedFresh? ==>
                 var AcceptedFresh(stamp, refresh, at) := s.procs[pid].outcome;
                 && stamp * SECOND <= at <= stamp * SECOND + maxAge
                 && refresh < |s.installs| && Seconds(s.installs[refresh].at) <= stamp
                 && (s.cab.Some? ==> exists i :: refresh <= i < |s.installs| && s.installs[i].body == s.cab.value)
  {
    RunKeepsInv(Empty(start), acts, maxAge);
    hide Run;
    var s := Run(Empty(start), acts, maxAge);
    if s.cab.Some? {
      assert s.installs[|s.installs| - 1] in s.installs;
    }
    forall pid | pid in s.procs ensures PcOk(s, pid, s.procs[pid], maxAge) {}
  }

  // ----- a refresh that does not succeed -----

  predicate OnlyReads(pc: Pc) {
    pc.Start? || pc.SawCab? || pc.SawBoth? || pc.HasStamp? || pc.Fetching? || pc.Finished?
  }

  predicate FetchesNothing(act: Act) {
    act.Go? ==> act.fetch == None || act.fetch == Some([])
  }

  /** As long as every fetch fails or is empty, no file changes, whatever the processes do. */
  lemma {:induction false} FailedFetchesChangeNothing(s: State, acts: seq<Act>, maxAge: nat)
    requires forall pid <- s.procs :: OnlyReads(s.procs[pid])
    requires forall act <- acts :: FetchesNothing(act)
    ensures var t := Run(s, acts, maxAge); t.cab == s.cab && t.meta == s.meta && t.tmps == s.tmps
    decreases |acts|
  {
    if acts != [] {
      var t := Next(s, acts[0], maxAge);
      assert FetchesNothing(acts[0]);
      if acts[0].Go? && acts[0].pid in s.procs { assert OnlyReads(s.procs[acts[0].pid]); }
      hide Run, IsFresh, DownloadedAt;
      assert forall pid <- t.procs :: OnlyReads(t.procs[pid]);
      FailedFetchesChangeNothing(t, acts[1..], maxAge);
    }
  }

  lemma {:induction false} RunAppend(s: State, a: seq<Act>, b: seq<Act>, maxAge: nat)
    ensures Run(s, a + b, maxAge) == Run(Run(s, a, maxAge), b, maxAge)
    decreases |a|
  {
    hide Next;
    if a == [] {
      assert a + b == b;
    } else {
      assert (a + b)[1..] == a[1..] + b;
      RunAppend(Next(s, a[0], maxAge), a[1..], b, maxAge);
    }
  }

  // ----- the program -----

  /** What the world answers: which file operations succeed, what the fetch returns, and the time that passes before
      each look at the clock. */
  datatype World = World(
    readable: bool, fetch: Option<Body>, torn: bool, written: bool, renamed: bool, removed: bool, renamedAgain: bool,
    truncated: bool, stamped: bool, beforeCheck: nat, beforeUtc: nat, beforeUnix: nat)

  /** The reading half finds the cab fresh, some time after the last look at the clock. */
  predicate FindsFresh(cab: Option<Body>, meta: Meta, now: nat, maxAge: nat, w: World) {
    && cab.Some? && w.readable && DownloadedAt(meta).Some?
    && IsFresh(DownloadedAt(meta).value, now + w.beforeCheck, maxAge)
  }

  /** The stamp of the metadata: the Unix one, and the UTC one where the Unix one is missing or negative. */
  predicate IsStamp(meta: Meta, secs: int) {
    && meta.Json? && secs >= 0
    && (meta.unixSecs == Some(secs)
        || ((meta.unixSecs.Some? ==> meta.unixSecs.value < 0) && meta.utcSecs == Some(secs)))
  }

  /** The cab is used as it is exactly if it can be read and its metadata hold a stamp the clock has not passed by more
      than the allowed age. */
  lemma FreshExactly(cab: Option<Body>, meta: Meta, now: nat, maxAge: nat, w: World)
    ensures FindsFresh(cab, meta, now, maxAge, w)
            <==> && cab.Some? && w.readable
                 && exists secs: int :: IsStamp(meta, secs) && now + w.beforeCheck <= secs * 1_000_000_000 + maxAge
  {
    if DownloadedAt(meta).Some? { assert IsStamp(meta, DownloadedAt(meta).value); }
    assert forall secs: int :: IsStamp(meta, secs) ==> DownloadedAt(meta) == Some(secs);
  }

  /** The stamp a refresh leaves keeps the next call from fetching until the allowed age has passed, counted from the
      whole second of the refresh. */
  lemma RefreshedIsFresh(body: Body, meta: Meta, stamped: nat, now: nat, maxAge: nat, w: World)
    requires meta.Json? && meta.unixSecs == Some(Seconds(stamped)) && w.readable
    ensures FindsFresh(Some(body), meta, now, maxAge, w)
            <==> now + w.beforeCheck <= stamped - stamped % 1_000_000_000 + maxAge
  {
    FreshExactly(Some(body), meta, now, maxAge, w);
    assert IsStamp(meta, Seconds(stamped));
  }

  /** The new cab gets into place: by one rename, or by removing the old one and renaming again. */
  predicate Replaces(cab: Option<Body>, w: World) {
    w.renamed || (cab.Some? && w.removed && w.renamedAgain)
  }

  predicate Stores(cab: Option<Body>, w: World) {
    w.torn && w.written && Replaces(cab, w) && w.truncated && w.stamped
  }

  /** `AuthRootCacheResolution`. */
  datatype Resolution = Resolution(refreshed: bool, staleFallback: bool)

  function Report(outcome: Outcome): Result<Resolution> {
    match outcome
    case AcceptedFresh(_, _, _) => Ok(Resolution(false, false))
    case Refreshed => Ok(Resolution(true, false))
    case StaleFallback => Ok(Resolution(false, true))
    case Failed => Err
  }

  /** The cache directory as one process sees it. `machine` follows along: every file operation is one step of it. */
  class CacheDir {
    var cab: Option<Body>
    var meta: Meta
    var tmp: Option<Tmp>
    var now: nat
    const pid: nat
    const maxAge: nat
    ghost const origin: State
    ghost var machine: State
    ghost var acts: seq<Act>

    constructor (s: State, pid: nat, maxAge: nat)
      requires pid !in s.procs
      ensures Mirrors(Start) && origin == s && this.pid == pid && this.maxAge == maxAge
      ensures cab == s.cab && meta == s.meta
    {
      this.pid, this.maxAge, now := pid, maxAge, s.now;
      cab, meta, tmp := s.cab, s.meta, if pid in s.tmps then Some(s.tmps[pid]) else None;
      origin, machine, acts := s, Next(s, Spawn(pid), maxAge), [Spawn(pid)];
      new;
      RunOne(s, Spawn(pid), maxAge);
    }

    /** The machine shows the same files and clock, and got where it is by a run of its own. */
    ghost predicate Mirrors(pc: Pc)
      reads this
    {
      && machine == Run(origin, acts, maxAge)
      && machine.cab == cab && machine.meta == meta && machine.now == now
      && (tmp.None? ==> pid !in machine.tmps) && (tmp.Some? ==> pid in machine.tmps && machine.tmps[pid] == tmp.value)
      && pid in machine.procs && machine.procs[pid] == pc
    }

    ghost method Follow(act: Act)
      requires machine == Run(origin, acts, maxAge)
      modifies `machine, `acts
      ensures machine == Next(old(machine), act, maxAge) == Run(origin, acts, maxAge)
    {
      RunAppend(origin, acts, [act], maxAge);
      RunOne(machine, act, maxAge);
      machine, acts := Next(machine, act, maxAge), acts + [act];
    }

    /** Looking at the clock, some time after the last look. */
    method Clock(nanos: nat, ghost pc: Pc) returns (t: nat)
      requires Mirrors(pc)
      modifies `now, `machine, `acts
      ensures Mirrors(pc) && t == now == old(now) + nanos
    {
      hide Run;
      now := now + nanos;
      Follow(Tick(nanos));
      t := now;
    }

    /** `is_stale`, entered with the cab seen. */
    method IsStale(w: World) returns (stale: bool)
      requires Mirrors(SawCab)
      modifies `now, `machine, `acts
      ensures !stale <==> FindsFresh(cab, meta, old(now), maxAge, w)
      ensures stale ==> Mirrors(Fetching)
      ensures !stale ==> exists o: Outcome :: o.AcceptedFresh? && Mirrors(Finished(o))
    {
      hide Run;
      Follow(Go(pid, true, None));
      if cab.None? || meta == NoMeta { return true; }
      Follow(Go(pid, w.readable, None));
      var stamp := DownloadedAt(meta);
      if stamp.None? || !w.readable { return true; }
      ghost var has := machine.procs[pid];
      var t := Clock(w.beforeCheck, has);
      Follow(Go(pid, true, None));
      if IsFresh(stamp.value, t, maxAge) {
        ghost var o := AcceptedFresh(stamp.value, has.refresh, t);
        assert Mirrors(Finished(o));
        return false;
      }
      return true;
    }

    /** `replace_file` of the temporary file onto the cab. */
    method ReplaceFile(w: World) returns (done: bool)
      requires tmp.Some? && tmp.value.Whole? && Mirrors(TmpWritten(tmp.value.body))
      modifies `cab, `tmp, `machine, `acts
      ensures done <==> Replaces(old(cab), w)
      ensures done ==> (exists i: nat :: Mirrors(Installed(i))) && tmp == None && cab == Some(old(tmp).value.body)
      ensures !done ==> Mirrors(Finished(Failed)) && (cab == old(cab) || cab == None)
    {
      hide Run;
      Follow(Go(pid, w.renamed, None));
      if w.renamed {
        cab, tmp := Some(tmp.value.body), None;
        ghost var i := machine.procs[pid].refresh;
        assert Mirrors(Installed(i));
        return true;
      }
      if cab.None? { return false; }
      Follow(Go(pid, w.removed, None));
      if !w.removed { return false; }
      cab := None;
      Follow(Go(pid, w.renamedAgain, None));
      if !w.renamedAgain { return false; }
      cab, tmp := Some(tmp.value.body), None;
      ghost var i := machine.procs[pid].refresh;
      assert Mirrors(Installed(i));
      return true;
    }

    method WriteTmp(body: Body, w: World) returns (done: bool)
      requires Mirrors(Fetched(body))
      modifies `tmp, `machine, `acts
      ensures done <==> w.torn && w.written
      ensures done ==> tmp == Some(Whole(body)) && Mirrors(TmpWritten(body))
      ensures !done ==> Mirrors(Finished(Failed))
    {
      hide Run;
      Follow(Go(pid, w.torn, None));
      if !w.torn { return false; }
      tmp := Some(Torn);
      Follow(Go(pid, w.written, None));
      if !w.written { return false; }
      tmp := Some(Whole(body));
      return true;
    }

    method WriteMeta(utc: nat, unix: nat, w: World, ghost i: nat) returns (done: bool)
      requires Mirrors(HasTimes(i, utc, unix))
      modifies `meta, `machine, `acts
      ensures done <==> w.truncated && w.stamped
      ensures done ==> Mirrors(Finished(Refreshed)) && meta == Json(Some(unix), Some(utc))
      ensures !done ==> Mirrors(Finished(Failed))
    {
      hide Run;
      Follow(Go(pid, w.truncated, None));
      if !w.truncated { return false; }
      meta := Unparsable;
      Follow(Go(pid, w.stamped, None));
      if !w.stamped { return false; }
      meta := Json(Some(unix), Some(utc));
      return true;
    }

    /** The clock is read once for each form of the stamp, after the cab is in place. */
    method Stamp(w: World, ghost i: nat) returns (done: bool)
      requires Mirrors(Installed(i))
      modifies `meta, `now, `machine, `acts
      ensures now >= old(now) && (done <==> w.truncated && w.stamped)
      ensures done ==> Mirrors(Finished(Refreshed)) && meta.Json? && meta.unixSecs == Some(Seconds(now))
      ensures !done ==> Mirrors(Finished(Failed))
    {
      hide Run;
      var utc := Clock(w.beforeUtc, Installed(i));
      Follow(Go(pid, true, None));
      var unix := Clock(w.beforeUnix, HasUtc(i, Seconds(utc)));
      Follow(Go(pid, true, None));
      done := WriteMeta(Seconds(utc), Seconds(unix), w, i);
    }

    /** `cache_authroot_cab_bytes`. */
    method CacheCabBytes(body: Body, w: World) returns (done: bool)
      requires Mirrors(Fetched(body))
      modifies this
      ensures done <==> Stores(old(cab), w)
      ensures done ==> Mirrors(Finished(Refreshed)) && cab == Some(body) && tmp == None
      ensures done ==> meta.Json? && meta.unixSecs == Some(Seconds(now))
      ensures !done ==> Mirrors(Finished(Failed))
    {
      hide Mirrors;
      done := WriteTmp(body, w);
      if !done { return; }
      done := ReplaceFile(w);
      if !done { return; }
      ghost var i: nat :| Mirrors(Installed(i));
      done := Stamp(w, i);
    }

    /** The downloading half of `get_or_download_authroot_cab_with`. */
    method Refresh(w: World) returns (r: Result<Resolution>)
      requires Mirrors(Fetching)
      modifies this
      ensures exists o: Outcome :: Mirrors(Finished(o)) && r == Report(o)
      ensures r == if w.fetch == None || w.fetch == Some([])
                   then (if old(cab).Some? then Ok(Resolution(false, true)) else Err)
                   else if Stores(old(cab), w) then Ok(Resolution(true, false)) else Err
      ensures r.Ok? && r.value.refreshed ==> w.fetch.Some? && w.fetch.value != [] && cab == w.fetch && tmp == None
      ensures r.Ok? && !r.value.refreshed ==> cab.Some? && cab == old(cab) && meta == old(meta)
      ensures w.fetch == None || w.fetch == Some([]) ==> cab == old(cab) && meta == old(meta) && tmp == old(tmp)
    {
      hide Run;
      Follow(Go(pid, true, w.fetch));
      if w.fetch == None || w.fetch == Some([]) {
        ghost var o := if cab.Some? then StaleFallback else Failed;
        assert Mirrors(Finished(o));
        if cab.Some? { return Ok(Resolution(false, true)); }
        return Err;
      }
      assert Mirrors(Fetched(w.fetch.value));
      hide Mirrors;
      var done := CacheCabBytes(w.fetch.value, w);
      if done { return Ok(Resolution(true, false)); }
      return Err;
    }

    /** `get_or_download_authroot_cab_with`: a run of the machine to its end, and what the caller is told of it. */
    method GetOrDownload(w: World) returns (r: Result<Resolution>)
      requires Mirrors(Start)
      modifies this
      ensures exists o: Outcome :: Mirrors(Finished(o)) && r == Report(o)
      ensures r == if FindsFresh(old(cab), old(meta), old(now), maxAge, w) then Ok(Resolution(false, false))
                   else if w.fetch == None || w.fetch == Some([])
                   then (if old(cab).Some? then Ok(Resolution(false, true)) else Err)
                   else if && w.torn && w.written && w.truncated && w.stamped
                           && (w.renamed || (old(cab).Some? && w.removed && w.renamedAgain))
                   then Ok(Resolution(true, false)) else Err
      ensures r.Ok? && r.value.refreshed ==> w.fetch.Some? && w.fetch.value != [] && cab == w.fetch && tmp == None
      ensures r.Ok? && !r.value.refreshed ==> cab.Some? && cab == old(cab) && meta == old(meta)
      ensures w.fetch == None || w.fetch == Some([]) ==> cab == old(cab) && meta == old(meta) && tmp == old(tmp)
    {
      hide Run;
      Follow(Go(pid, true, None));
      assert Mirrors(if cab.Some? then SawCab else Fetching);
      hide Mirrors;
      if cab.Some? {
        var stale := IsStale(w);
        if !stale { return Ok(Resolution(false, false)); }
      }
      r := Refresh(w);
    }
  }

  lemma RunOne(s: State, act: Act, maxAge: nat)
    ensures Run(s, [act], maxAge) == Next(s, act, maxAge)
  {
    hide Next;
    assert [act][1..] == [];
  }
}
