/** Signing a list of targets, one after the other or in parallel, and the report over all of them. Files are named by
    their canonical path; what a signer makes of a file is a parameter. */
module SignBatch {
  import opened Sequences
  import opened Sorting
  import opened Wrappers

  type Path = string
  type Bytes = seq<byte>
  type Files = map<Path, Bytes>

  // ----- one target -----

  datatype Row = Signed(block: string) | Failed(error: string)

  /** What signing a target comes to: nothing is written, or an output and perhaps an App Installer companion. Only a
      `Signed` verdict, which includes the self-check, is copied over the target. */
  datatype Making = Skips(block: string) | Refuses(error: string)
      | Makes(output: Option<Bytes>, p7: Option<Bytes>, verdict: Row)

  datatype Companion = Companion(target: Path, temp: Path)

  /** `copies` and `copiesCompanion` say whether the two copy operations succeed. */
  datatype Job = Job(target: Path, temp: Path, companion: Option<Companion>, copies: bool, copiesCompanion: bool,
      copyError: string)

  /** The signer, told which job it is and what the target holds. */
  type Signer = (nat, Option<Bytes>) -> Making

  datatype Pc =
    | Todo
    | WroteTemp(p7: Option<Bytes>, verdict: Row)
    | Copying(block: string)
    | CopyingCompanion(block: string)
    | Cleaning(row: Row)
    | CleaningCompanion(row: Row)
    | Finished(row: Row)

  function Lookup(files: Files, p: Path): Option<Bytes> {
    if p in files then Some(files[p]) else None
  }

  function Write(files: Files, p: Path, content: Option<Bytes>): Files {
    match content case None => files case Some(b) => files[p := b]
  }

  function Judged(verdict: Row): Pc {
    match verdict case Signed(block) => Copying(block) case Failed(_) => Cleaning(verdict)
  }

  datatype Stage = Stage(files: Files, pc: Pc)

  /** One file operation of one target: write the temporary output, copy it over, remove it. */
  function Advance(job: Job, i: nat, sign: Signer, files: Files, pc: Pc): Stage {
    match pc
    case Todo =>
      (match sign(i, Lookup(files, job.target))
       case Skips(block) => Stage(files, Finished(Signed(block)))
       case Refuses(error) => Stage(files, Finished(Failed(error)))
       case Makes(output, p7, verdict) =>
         Stage(Write(files, job.temp, output), if job.companion.Some? then WroteTemp(p7, verdict) else Judged(verdict)))
    case WroteTemp(p7, verdict) =>
      if job.companion.None? then Stage(files, Judged(verdict))
      else Stage(Write(files, job.companion.value.temp, p7), Judged(verdict))
    case Copying(block) =>
      if !job.copies || job.temp !in files then Stage(files, Cleaning(Failed(job.copyError)))
      else Stage(files[job.target := files[job.temp]],
                 if job.companion.Some? then CopyingCompanion(block) else Cleaning(Signed(block)))
    case CopyingCompanion(block) =>
      if job.companion.None? then Stage(files, Cleaning(Signed(block)))
      else if !job.copiesCompanion || job.companion.value.temp !in files then
        Stage(files, Cleaning(Failed(job.copyError)))
      else Stage(files[job.companion.value.target := files[job.companion.value.temp]], Cleaning(Signed(block)))
    case Cleaning(row) =>
      Stage(files - {job.temp}, if job.companion.Some? then CleaningCompanion(row) else Finished(row))
    case CleaningCompanion(row) =>
      Stage(if job.companion.Some? then files - {job.companion.value.temp} else files, Finished(row))
    case Finished(_) => Stage(files, pc)
  }

  function StepsLeft(pc: Pc): nat {
    match pc
    case Todo => 6 case WroteTemp(_, _) => 5 case Copying(_) => 4 case CopyingCompanion(_) => 3
    case Cleaning(_) => 2 case CleaningCompanion(_) => 1 case Finished(_) => 0
  }

  /** The rest of a target's operations, without interruption. */
  function Finish(job: Job, i: nat, sign: Signer, files: Files, pc: Pc): Stage
    decreases StepsLeft(pc)
  {
    if pc.Finished? then Stage(files, pc)
    else var s := Advance(job, i, sign, files, pc); Finish(job, i, sign, s.files, s.pc)
  }

  // ----- all targets -----

  /** `pcs[i]` is where target `i` stands. */
  datatype State = State(files: Files, pcs: seq<Pc>)

  function Begin(files: Files, n: nat): State {
    State(files, seq(n, _ => Todo))
  }

  function Next(jobs: seq<Job>, sign: Signer, s: State, i: nat): State
    requires |s.pcs| == |jobs|
  {
    if i < |jobs| then
      var t := Advance(jobs[i], i, sign, s.files, s.pcs[i]);
      State(t.files, s.pcs[i := t.pc])
    else s
  }

  /** A schedule says which target makes the next step. */
  function Run(jobs: seq<Job>, sign: Signer, s: State, schedule: seq<nat>): State
    requires |s.pcs| == |jobs|
    decreases |schedule|
  {
    if schedule == [] then s else Run(jobs, sign, Next(jobs, sign, s, schedule[0]), schedule[1..])
  }

  predicate Complete(s: State) {
    forall pc <- s.pcs :: pc.Finished?
  }

  function Rows(s: State): seq<Row>
    requires Complete(s)
  {
    seq(|s.pcs|, i requires 0 <= i < |s.pcs| => s.pcs[i].row)
  }

  /** Target `k` and the ones behind it, one after the other. */
  function SignFrom(jobs: seq<Job>, sign: Signer, s: State, k: nat): State
    requires k <= |jobs| == |s.pcs|
    decreases |jobs| - k
  {
    if k == |jobs| then s
    else
      var t := Finish(jobs[k], k, sign, s.files, s.pcs[k]);
      SignFrom(jobs, sign, State(t.files, s.pcs[k := t.pc]), k + 1)
  }

  // ----- what one target touches -----

  function Footprint(job: Job): set<Path> {
    {job.target, job.temp} + match job.companion case None => {} case Some(c) => {c.target, c.temp}
  }

  /** Distinct identities, distinct temporary names. */
  predicate Disjoint(jobs: seq<Job>) {
    forall i, j :: 0 <= i < j < |jobs| ==> Footprint(jobs[i]) !! Footprint(jobs[j])
  }

  predicate Agree(a: Files, b: Files, paths: set<Path>) {
    forall p <- paths :: Lookup(a, p) == Lookup(b, p)
  }

  /** A step reads and writes its footprint only. */
  lemma AdvanceIsLocal(job: Job, i: nat, sign: Signer, a: Files, b: Files, pc: Pc)
    requires Agree(a, b, Footprint(job))
    ensures var s, t := Advance(job, i, sign, a, pc), Advance(job, i, sign, b, pc);
            s.pc == t.pc && Agree(s.files, t.files, Footprint(job))
  {
    assert job.target in Footprint(job) && job.temp in Footprint(job);
    assert Lookup(a, job.target) == Lookup(b, job.target) && Lookup(a, job.temp) == Lookup(b, job.temp);
    if job.companion.Some? {
      var c := job.companion.value;
      assert c.target in Footprint(job) && c.temp in Footprint(job);
      assert Lookup(a, c.temp) == Lookup(b, c.temp);
    }
  }

  lemma AdvanceKeepsTheRest(job: Job, i: nat, sign: Signer, files: Files, pc: Pc, p: Path)
    requires p !in Footprint(job)
    ensures Lookup(Advance(job, i, sign, files, pc).files, p) == Lookup(files, p)
  {
  }

  lemma {:induction false} FinishIsLocal(job: Job, i: nat, sign: Signer, a: Files, b: Files, pc: Pc)
    requires Agree(a, b, Footprint(job))
    ensures var s, t := Finish(job, i, sign, a, pc), Finish(job, i, sign, b, pc);
            s.pc == t.pc && Agree(s.files, t.files, Footprint(job))
    decreases StepsLeft(pc)
  {
    if !pc.Finished? {
      AdvanceIsLocal(job, i, sign, a, b, pc);
      var s, t := Advance(job, i, sign, a, pc), Advance(job, i, sign, b, pc);
      FinishIsLocal(job, i, sign, s.files, t.files, s.pc);
    }
  }

  // ----- the invariant -----

  /** What target `i` will come to is what it would have come to alone, from the start. */
  ghost predicate OnCourse(jobs: seq<Job>, sign: Signer, start: Files, s: State, i: nat)
    requires i < |jobs| == |s.pcs|
  {
    var now, alone := Finish(jobs[i], i, sign, s.files, s.pcs[i]), Finish(jobs[i], i, sign, start, Todo);
    now.pc == alone.pc && Agree(now.files, alone.files, Footprint(jobs[i]))
  }

  ghost predicate Untouched(jobs: seq<Job>, p: Path) {
    forall i | 0 <= i < |jobs| :: p !in Footprint(jobs[i])
  }

  ghost predicate Inv(jobs: seq<Job>, sign: Signer, start: Files, s: State) {
    && |s.pcs| == |jobs|
    && (forall i | 0 <= i < |jobs| :: OnCourse(jobs, sign, start, s, i))
    && (forall p: Path | Untouched(jobs, p) :: Lookup(s.files, p) == Lookup(start, p))
  }

  lemma BeginIsOnCourse(jobs: seq<Job>, sign: Signer, start: Files)
    ensures Inv(jobs, sign, start, Begin(start, |jobs|))
  {
    hide Finish;
  }

  /** A step of another target leaves this one's outcome alone. */
  lemma OtherStepKeepsCourse(jobs: seq<Job>, sign: Signer, start: Files, s: State, i: nat, j: nat)
    requires i < |jobs| == |s.pcs| && j < |jobs| && i != j && Disjoint(jobs)
    requires OnCourse(jobs, sign, start, s, i)
    ensures OnCourse(jobs, sign, start, Next(jobs, sign, s, j), i)
  {
    hide Advance, Finish, Footprint;
    var t := Next(jobs, sign, s, j);
    assert Footprint(jobs[i]) !! Footprint(jobs[j]);
    forall p | p in Footprint(jobs[i]) ensures Lookup(t.files, p) == Lookup(s.files, p) {
      AdvanceKeepsTheRest(jobs[j], j, sign, s.files, s.pcs[j], p);
    }
    FinishIsLocal(jobs[i], i, sign, s.files, t.files, s.pcs[i]);
  }

  lemma OwnStepKeepsCourse(jobs: seq<Job>, sign: Signer, start: Files, s: State, i: nat)
    requires i < |jobs| == |s.pcs| && OnCourse(jobs, sign, start, s, i)
    ensures OnCourse(jobs, sign, start, Next(jobs, sign, s, i), i)
  {
    hide Footprint;
    FinishAfterAdvance(jobs[i], i, sign, s.files, s.pcs[i]);
    hide Advance, Finish;
  }

  lemma FinishAfterAdvance(job: Job, i: nat, sign: Signer, files: Files, pc: Pc)
    ensures var t := Advance(job, i, sign, files, pc);
            Finish(job, i, sign, t.files, t.pc) == Finish(job, i, sign, files, pc)
  {
  }

  lemma NextKeepsInv(jobs: seq<Job>, sign: Signer, start: Files, s: State, j: nat)
    requires Disjoint(jobs) && Inv(jobs, sign, start, s)
    ensures Inv(jobs, sign, start, Next(jobs, sign, s, j))
  {
    hide Advance, OnCourse, Disjoint, Footprint;
    var t := Next(jobs, sign, s, j);
    if j < |jobs| {
      forall i | 0 <= i < |jobs| ensures OnCourse(jobs, sign, start, t, i) {
        if i == j {
          OwnStepKeepsCourse(jobs, sign, start, s, i);
        } else {
          OtherStepKeepsCourse(jobs, sign, start, s, i, j);
        }
      }
      forall p: Path | Untouched(jobs, p) ensures Lookup(t.files, p) == Lookup(start, p) {
        AdvanceKeepsTheRest(jobs[j], j, sign, s.files, s.pcs[j], p);
      }
    }
  }

  lemma {:induction false} RunKeepsInv(jobs: seq<Job>, sign: Signer, start: Files, s: State, schedule: seq<nat>)
    requires Disjoint(jobs) && Inv(jobs, sign, start, s)
    ensures Inv(jobs, sign, start, Run(jobs, sign, s, schedule))
    decreases |schedule|
  {
    if schedule != [] {
      NextKeepsInv(jobs, sign, start, s, schedule[0]);
      hide Inv, Next, Disjoint;
      assert |Next(jobs, sign, s, schedule[0]).pcs| == |jobs| by { NextLength(jobs, sign, s, schedule[0]); }
      RunKeepsInv(jobs, sign, start, Next(jobs, sign, s, schedule[0]), schedule[1..]);
    }
  }

  lemma NextLength(jobs: seq<Job>, sign: Signer, s: State, i: nat)
    requires |s.pcs| == |jobs|
    ensures |Next(jobs, sign, s, i).pcs| == |jobs|
  {
  }

  /** Two finished states that stayed on course are the same. */
  lemma CourseEndsAlike(jobs: seq<Job>, sign: Signer, start: Files, s: State, t: State)
    requires Inv(jobs, sign, start, s) && Inv(jobs, sign, start, t) && Complete(s) && Complete(t)
    ensures s == t
  {
    hide Footprint, Advance;
    forall i | 0 <= i < |jobs| ensures s.pcs[i] == t.pcs[i] && Agree(s.files, t.files, Footprint(jobs[i])) {
      assert OnCourse(jobs, sign, start, s, i) && OnCourse(jobs, sign, start, t, i);
      FinishedStays(jobs[i], i, sign, s.files, s.pcs[i]);
      FinishedStays(jobs[i], i, sign, t.files, t.pcs[i]);
      hide Finish;
    }
    hide Inv, OnCourse;
    assert s.pcs == t.pcs;
    forall p: Path ensures Lookup(s.files, p) == Lookup(t.files, p) {
      if i: nat :| i < |jobs| && p in Footprint(jobs[i]) {
        assert Agree(s.files, t.files, Footprint(jobs[i]));
      } else {
        UntouchedKept(jobs, sign, start, s, p);
        UntouchedKept(jobs, sign, start, t, p);
      }
    }
    SameFiles(s.files, t.files);
  }

  lemma FinishedStays(job: Job, i: nat, sign: Signer, files: Files, pc: Pc)
    requires pc.Finished?
    ensures Finish(job, i, sign, files, pc) == Stage(files, pc)
  {
  }

  lemma UntouchedKept(jobs: seq<Job>, sign: Signer, start: Files, s: State, p: Path)
    requires Inv(jobs, sign, start, s) && Untouched(jobs, p)
    ensures Lookup(s.files, p) == Lookup(start, p)
  {
  }

  lemma SameFiles(a: Files, b: Files)
    requires forall p: Path :: Lookup(a, p) == Lookup(b, p)
    ensures a == b
  {
    forall p: Path ensures p in a <==> p in b { assert Lookup(a, p) == Lookup(b, p); }
    forall p | p in a ensures a[p] == b[p] { assert Lookup(a, p) == Lookup(b, p); }
  }

  // ----- one after the other is a schedule too -----

  lemma {:induction false} FinishKeepsCourse(jobs: seq<Job>, sign: Signer, start: Files, s: State, i: nat)
    requires Disjoint(jobs) && Inv(jobs, sign, start, s) && i < |jobs|
    ensures var t := Finish(jobs[i], i, sign, s.files, s.pcs[i]);
            t.pc.Finished? && Inv(jobs, sign, start, State(t.files, s.pcs[i := t.pc]))
    decreases StepsLeft(s.pcs[i])
  {
    if s.pcs[i].Finished? {
      assert s.pcs[i := s.pcs[i]] == s.pcs;
    } else {
      NextKeepsInv(jobs, sign, start, s, i);
      AdvanceSteps(jobs[i], i, sign, s.files, s.pcs[i]);
      hide Inv, Advance, Disjoint;
      var next := Next(jobs, sign, s, i);
      FinishKeepsCourse(jobs, sign, start, next, i);
      var done := Finish(jobs[i], i, sign, next.files, next.pcs[i]).pc;
      assert next.pcs[i := done] == s.pcs[i := done];
    }
  }

  lemma AdvanceSteps(job: Job, i: nat, sign: Signer, files: Files, pc: Pc)
    ensures !pc.Finished? ==> StepsLeft(Advance(job, i, sign, files, pc).pc) < StepsLeft(pc)
  {
  }

  lemma {:induction false} SequentialKeepsCourse(jobs: seq<Job>, sign: Signer, start: Files, s: State, k: nat)
    requires Disjoint(jobs) && Inv(jobs, sign, start, s) && k <= |jobs|
    requires forall i | 0 <= i < k :: s.pcs[i].Finished?
    ensures var t := SignFrom(jobs, sign, s, k); Inv(jobs, sign, start, t) && Complete(t)
    decreases |jobs| - k
  {
    if k < |jobs| {
      FinishKeepsCourse(jobs, sign, start, s, k);
      hide Finish, Disjoint, OnCourse;
      var t := Finish(jobs[k], k, sign, s.files, s.pcs[k]);
      SequentialKeepsCourse(jobs, sign, start, State(t.files, s.pcs[k := t.pc]), k + 1);
    }
  }

  lemma {:induction false} RunLength(jobs: seq<Job>, sign: Signer, s: State, schedule: seq<nat>)
    requires |s.pcs| == |jobs|
    ensures |Run(jobs, sign, s, schedule).pcs| == |jobs|
    decreases |schedule|
  {
    hide Next;
    if schedule != [] {
      NextLength(jobs, sign, s, schedule[0]);
      RunLength(jobs, sign, Next(jobs, sign, s, schedule[0]), schedule[1..]);
    }
  }

  /** Every schedule that lets all targets finish ends with the files and results of the sequential run. */
  lemma AnyScheduleIsSequential(jobs: seq<Job>, sign: Signer, start: Files, schedule: seq<nat>)
    requires Disjoint(jobs)
    requires Complete(Run(jobs, sign, Begin(start, |jobs|), schedule))
    ensures Run(jobs, sign, Begin(start, |jobs|), schedule) == SignFrom(jobs, sign, Begin(start, |jobs|), 0)
  {
    hide Run, SignFrom, Inv, Disjoint, Complete;
    var s := Begin(start, |jobs|);
    BeginIsOnCourse(jobs, sign, start);
    RunKeepsInv(jobs, sign, start, s, schedule);
    SequentialKeepsCourse(jobs, sign, start, s, 0);
    CourseEndsAlike(jobs, sign, start, Run(jobs, sign, s, schedule), SignFrom(jobs, sign, s, 0));
  }

  // ----- what signing one target comes to -----

  /** The paths of one target are four, or two, different ones, and the temporary ones are not in use. */
  predicate Fresh(job: Job, files: Files) {
    && job.temp != job.target && job.temp !in files
    && match job.companion
       case None => true
       case Some(c) => c.temp !in files && c.temp != c.target && job.temp != c.temp && job.temp != c.target
                       && job.target != c.temp && job.target != c.target
  }

  function Cleaned(job: Job, files: Files): Files {
    match job.companion case None => files - {job.temp} case Some(c) => files - {job.temp} - {c.temp}
  }

  lemma CleaningEnds(job: Job, i: nat, sign: Signer, files: Files, row: Row)
    ensures Finish(job, i, sign, files, Cleaning(row)) == Stage(Cleaned(job, files), Finished(row))
  {
    hide Finish;
    FinishAfterAdvance(job, i, sign, files, Cleaning(row));
    if job.companion.Some? {
      FinishAfterAdvance(job, i, sign, files - {job.temp}, CleaningCompanion(row));
    }
    FinishedStays(job, i, sign, Cleaned(job, files), Finished(row));
  }

  /** Both copies in turn, and whether they worked. */
  function Copied(job: Job, files: Files, block: string): Stage {
    if !job.copies || job.temp !in files then Stage(files, Cleaning(Failed(job.copyError)))
    else
      var over := files[job.target := files[job.temp]];
      match job.companion
      case None => Stage(over, Cleaning(Signed(block)))
      case Some(c) =>
        if !job.copiesCompanion || c.temp !in over then Stage(over, Cleaning(Failed(job.copyError)))
        else Stage(over[c.target := over[c.temp]], Cleaning(Signed(block)))
  }

  lemma CopyingEnds(job: Job, i: nat, sign: Signer, files: Files, block: string)
    ensures var s := Copied(job, files, block);
            Finish(job, i, sign, files, Copying(block)) == Finish(job, i, sign, s.files, s.pc)
  {
    hide Finish;
    FinishAfterAdvance(job, i, sign, files, Copying(block));
    if job.copies && job.temp in files && job.companion.Some? {
      FinishAfterAdvance(job, i, sign, files[job.target := files[job.temp]], CopyingCompanion(block));
    }
  }

  /** The files after the signer wrote its temporary output. */
  function Written(job: Job, files: Files, output: Option<Bytes>, p7: Option<Bytes>): Files {
    match job.companion
    case None => Write(files, job.temp, output)
    case Some(c) => Write(Write(files, job.temp, output), c.temp, p7)
  }

  lemma WritingEnds(job: Job, i: nat, sign: Signer, files: Files)
    requires sign(i, Lookup(files, job.target)).Makes?
    ensures var Makes(output, p7, verdict) := sign(i, Lookup(files, job.target));
            Finish(job, i, sign, files, Todo) == Finish(job, i, sign, Written(job, files, output, p7), Judged(verdict))
  {
    hide Finish;
    var Makes(output, p7, verdict) := sign(i, Lookup(files, job.target));
    FinishAfterAdvance(job, i, sign, files, Todo);
    if job.companion.Some? {
      FinishAfterAdvance(job, i, sign, Write(files, job.temp, output), WroteTemp(p7, verdict));
    }
  }

  /** A target that is skipped counts as signed, one that is refused as failed, and both change nothing. Otherwise the
      target is replaced exactly by an output that passed its check and could be copied; no temporary file stays; a
      companion that cannot be copied fails the target although its new content stands. */
  lemma SigningOne(job: Job, i: nat, sign: Signer, files: Files)
    requires sign(i, Lookup(files, job.target)).Makes? ==> Fresh(job, files)
    ensures var s := Finish(job, i, sign, files, Todo);
            match sign(i, Lookup(files, job.target))
            case Skips(block) => s.files == files && s.pc == Finished(Signed(block))
            case Refuses(error) => s.files == files && s.pc == Finished(Failed(error))
            case Makes(output, p7, verdict) =>
              var copied := verdict.Signed? && job.copies && output.Some?;
              var covered := job.companion.Some? ==> job.copiesCompanion && p7.Some?;
              && s.pc == Finished(if verdict.Failed? || (copied && covered) then verdict else Failed(job.copyError))
              && Lookup(s.files, job.target) == (if copied then output else Lookup(files, job.target))
              && job.temp !in s.files
              && (job.companion.Some? ==>
                    var c := job.companion.value;
                    && c.temp !in s.files
                    && Lookup(s.files, c.target) == if copied && covered then p7 else Lookup(files, c.target))
              && forall p | p !in Footprint(job) :: Lookup(s.files, p) == Lookup(files, p)
  {
    match sign(i, Lookup(files, job.target))
    case Skips(block) =>
      FinishAfterAdvance(job, i, sign, files, Todo);
      FinishedStays(job, i, sign, files, Finished(Signed(block)));
    case Refuses(error) =>
      FinishAfterAdvance(job, i, sign, files, Todo);
      FinishedStays(job, i, sign, files, Finished(Failed(error)));
    case Makes(output, p7, verdict) =>
      hide Finish;
      WritingEnds(job, i, sign, files);
      MadeEnds(job, i, sign, files, output, p7, verdict);
  }

  /** A row says signed exactly if the target was skipped, or its output passed its check and every copy worked. */
  lemma SignedExactly(job: Job, i: nat, sign: Signer, files: Files)
    requires sign(i, Lookup(files, job.target)).Makes? ==> Fresh(job, files)
    ensures var making, pc := sign(i, Lookup(files, job.target)), Finish(job, i, sign, files, Todo).pc;
            && pc.Finished?
            && (pc.row.Signed? <==>
                  || making.Skips?
                  || (making.Makes? && making.verdict.Signed? && making.output.Some? && job.copies
                      && (job.companion.Some? ==> making.p7.Some? && job.copiesCompanion)))
  {
    SigningOne(job, i, sign, files);
    hide Finish;
  }

  lemma MadeEnds(job: Job, i: nat, sign: Signer, files: Files, output: Option<Bytes>, p7: Option<Bytes>, verdict: Row)
    requires Fresh(job, files)
    ensures var s := Finish(job, i, sign, Written(job, files, output, p7), Judged(verdict));
            var copied := verdict.Signed? && job.copies && output.Some?;
            var covered := job.companion.Some? ==> job.copiesCompanion && p7.Some?;
            && s.pc == Finished(if verdict.Failed? || (copied && covered) then verdict else Failed(job.copyError))
            && Lookup(s.files, job.target) == (if copied then output else Lookup(files, job.target))
            && job.temp !in s.files
            && (job.companion.Some? ==>
                  var c := job.companion.value;
                  && c.temp !in s.files
                  && Lookup(s.files, c.target) == if copied && covered then p7 else Lookup(files, c.target))
            && forall p | p !in Footprint(job) :: Lookup(s.files, p) == Lookup(files, p)
  {
    hide Finish;
    var written := Written(job, files, output, p7);
    match verdict
    case Failed(_) => CleaningEnds(job, i, sign, written, verdict);
    case Signed(block) =>
      CopyingEnds(job, i, sign, written, block);
      var s := Copied(job, written, block);
      CleaningEnds(job, i, sign, s.files, s.pc.row);
  }

  // ----- no target is ever missing -----

  predicate IsTemporary(job: Job, p: Path) {
    p == job.temp || (job.companion.Some? && p == job.companion.value.temp)
  }

  lemma AdvanceKeeps(job: Job, i: nat, sign: Signer, files: Files, pc: Pc, p: Path)
    requires p in files && !IsTemporary(job, p)
    ensures p in Advance(job, i, sign, files, pc).files
  {
  }

  /** At every moment of every schedule, whether or not it is let finish, a file that was there is there, unless it has
      the name of a temporary output. */
  lemma {:induction false} RunKeeps(jobs: seq<Job>, sign: Signer, s: State, schedule: seq<nat>, p: Path)
    requires |s.pcs| == |jobs| && p in s.files && forall job <- jobs :: !IsTemporary(job, p)
    ensures p in Run(jobs, sign, s, schedule).files
    decreases |schedule|
  {
    if schedule != [] {
      var j := schedule[0];
      NextLength(jobs, sign, s, j);
      if j < |jobs| { AdvanceKeeps(jobs[j], j, sign, s.files, s.pcs[j], p); }
      hide Advance, IsTemporary;
      RunKeeps(jobs, sign, Next(jobs, sign, s, j), schedule[1..], p);
    }
  }

  // ----- why identities must be distinct -----

  /** A signer that appends to what it finds, as `--append-signature` does. */
  function Appends(i: nat, content: Option<Bytes>): Making {
    Makes(Some((if content.Some? then content.value else []) + [i % 256]), None, Signed(""))
  }

  /** One target alone: the output lands on the target and the temporary file is gone. */
  lemma AloneAppends(job: Job, i: nat, files: Files)
    requires job.companion == None && job.copies && job.temp != job.target && job.temp !in files && job.target in files
    ensures Finish(job, i, Appends, files, Todo)
            == Stage(files[job.target := files[job.target] + [i % 256]], Finished(Signed("")))
  {
    var out := files[job.target] + [i % 256];
    var s1 := Advance(job, i, Appends, files, Todo);
    assert s1 == Stage(files[job.temp := out], Copying(""));
    var s2 := Advance(job, i, Appends, s1.files, s1.pc);
    assert s2 == Stage(files[job.temp := out][job.target := out], Cleaning(Signed("")));
    var s3 := Advance(job, i, Appends, s2.files, s2.pc);
    assert s3.files == files[job.target := out];
  }

  lemma RunPair(jobs: seq<Job>, sign: Signer, s: State, rest: seq<nat>)
    requires |s.pcs| == |jobs|
    ensures Run(jobs, sign, s, [0, 1] + rest) == Run(jobs, sign, Next(jobs, sign, Next(jobs, sign, s, 0), 1), rest)
  {
    hide Next;
    NextLength(jobs, sign, s, 0);
    var schedule := [0, 1] + rest;
    assert schedule[1..] == [1] + rest && schedule[1..][1..] == rest;
  }

  /** Two operations on one target, appending to it: run together, the first signature is lost. */
  lemma SharedTargetLosesASignature()
    ensures var job := Job("app", "tmp", None, true, true, "");
            var jobs, start := [job, job], map["app" := []];
            && SignFrom(jobs, Appends, Begin(start, 2), 0).files == map["app" := [0, 1]]
            && Complete(Run(jobs, Appends, Begin(start, 2), [0, 1, 0, 1, 0, 1]))
            && Run(jobs, Appends, Begin(start, 2), [0, 1, 0, 1, 0, 1]).files == map["app" := [1]]
  {
    var job := Job("app", "tmp", None, true, true, "");
    var jobs, start: Files := [job, job], map["app" := []];
    SharedInARow(job, jobs, start);
    SharedTogether(job, jobs, start);
  }

  lemma SharedInARow(job: Job, jobs: seq<Job>, start: Files)
    requires job == Job("app", "tmp", None, true, true, "") && jobs == [job, job] && start == map["app" := []]
    ensures SignFrom(jobs, Appends, Begin(start, 2), 0).files == map["app" := [0, 1]]
  {
    hide Finish, Advance;
    var none: Bytes, zero: Bytes, one: Bytes := [], [0], [1];
    assert none + zero == zero && zero + one == [0, 1];
    AloneAppends(job, 0, start);
    var once := Finish(job, 0, Appends, start, Todo).files;
    assert once == map["app" := [0]];
    AloneAppends(job, 1, once);
    var twice := Finish(job, 1, Appends, once, Todo).files;
    var s1 := State(once, [Finished(Signed("")), Todo]);
    var s2 := State(twice, [Finished(Signed("")), Finished(Signed(""))]);
    assert SignFrom(jobs, Appends, s2, 2) == s2;
    assert SignFrom(jobs, Appends, s1, 1) == s2;
    assert Begin(start, 2).pcs[0 := Finished(Signed(""))] == [Finished(Signed("")), Todo];
  }

  lemma TogetherFirst(job: Job, jobs: seq<Job>, start: Files)
    requires job == Job("app", "tmp", None, true, true, "") && jobs == [job, job] && start == map["app" := []]
    ensures Next(jobs, Appends, Next(jobs, Appends, Begin(start, 2), 0), 1)
            == State(map["app" := [], "tmp" := [1]], [Copying(""), Copying("")])
  {
    var none: Bytes, zero: Bytes, one: Bytes := [], [0], [1];
    assert none + zero == zero && none + one == one;
    assert Next(jobs, Appends, Begin(start, 2), 0) == State(map["app" := [], "tmp" := [0]], [Copying(""), Todo]);
  }

  lemma TogetherCopies(job: Job, jobs: seq<Job>)
    requires job == Job("app", "tmp", None, true, true, "") && jobs == [job, job]
    ensures var s := State(map["app" := [], "tmp" := [1]], [Copying(""), Copying("")]);
            Next(jobs, Appends, Next(jobs, Appends, s, 0), 1)
            == State(map["app" := [1], "tmp" := [1]], [Cleaning(Signed("")), Cleaning(Signed(""))])
  {
  }

  lemma TogetherCleans(job: Job, jobs: seq<Job>)
    requires job == Job("app", "tmp", None, true, true, "") && jobs == [job, job]
    ensures var s := State(map["app" := [1], "tmp" := [1]], [Cleaning(Signed("")), Cleaning(Signed(""))]);
            Next(jobs, Appends, Next(jobs, Appends, s, 0), 1)
            == State(map["app" := [1]], [Finished(Signed("")), Finished(Signed(""))])
  {
  }

  lemma SharedTogether(job: Job, jobs: seq<Job>, start: Files)
    requires job == Job("app", "tmp", None, true, true, "") && jobs == [job, job] && start == map["app" := []]
    ensures var s := Run(jobs, Appends, Begin(start, 2), [0, 1, 0, 1, 0, 1]);
            Complete(s) && s.files == map["app" := [1]]
  {
    hide Run, Next;
    var s0 := Begin(start, 2);
    var s1 := State(map["app" := [], "tmp" := [1]], [Copying(""), Copying("")]);
    var s2 := State(map["app" := [1], "tmp" := [1]], [Cleaning(Signed("")), Cleaning(Signed(""))]);
    var s3 := State(map["app" := [1]], [Finished(Signed("")), Finished(Signed(""))]);
    TogetherFirst(job, jobs, start);
    TogetherCopies(job, jobs);
    TogetherCleans(job, jobs);
    RunPair(jobs, Appends, s0, [0, 1, 0, 1]);
    RunPair(jobs, Appends, s1, [0, 1]);
    RunPair(jobs, Appends, s2, []);
    RunNothing(jobs, Appends, s3);
    assert [0, 1] + [0, 1, 0, 1] == [0, 1, 0, 1, 0, 1] && [0, 1] + [0, 1] == [0, 1, 0, 1] && [0, 1] + [] == [0, 1];
  }

  lemma RunNothing(jobs: seq<Job>, sign: Signer, s: State)
    requires |s.pcs| == |jobs|
    ensures Run(jobs, sign, s, []) == s
  {
  }

  // ----- the programs -----

  /** The files that exist, changed by one signing after another. */
  class Disk {
    var files: Files

    constructor (files: Files)
      ensures this.files == files
    {
      this.files := files;
    }

    method Copy(source: Path, target: Path, works: bool) returns (done: bool)
      modifies this
      ensures done <==> works && source in old(files)
      ensures files == if works && source in old(files) then old(files)[target := old(files)[source]] else old(files)
    {
      done := works && source in files;
      if done { files := files[target := files[source]]; }
    }

    /** `run_portable_core_sign` behind the checks of `try_sign_one`. */
    method SignOne(job: Job, i: nat, sign: Signer) returns (row: Row)
      modifies this
      ensures Stage(files, Finished(row)) == Finish(job, i, sign, old(files), Todo)
    {
      hide Finish;
      FinishAfterAdvance(job, i, sign, files, Todo);
      var making := sign(i, Lookup(files, job.target));
      match making
      case Skips(block) => row := Signed(block); FinishedStays(job, i, sign, files, Finished(row)); return;
      case Refuses(error) => row := Failed(error); FinishedStays(job, i, sign, files, Finished(row)); return;
      case Makes(output, p7, verdict) =>
        files := Write(files, job.temp, output);
        if job.companion.Some? {
          FinishAfterAdvance(job, i, sign, files, WroteTemp(p7, verdict));
          files := Write(files, job.companion.value.temp, p7);
        }
        row := CopyOver(job, i, sign, verdict);
        CleanUp(job, i, sign, row);
    }

    method CopyOver(job: Job, i: nat, sign: Signer, verdict: Row) returns (row: Row)
      modifies this
      ensures Finish(job, i, sign, files, Cleaning(row)) == Finish(job, i, sign, old(files), Judged(verdict))
    {
      hide Finish;
      if verdict.Failed? { return verdict; }
      FinishAfterAdvance(job, i, sign, files, Copying(verdict.block));
      var done := Copy(job.temp, job.target, job.copies);
      if !done { return Failed(job.copyError); }
      if job.companion.Some? {
        FinishAfterAdvance(job, i, sign, files, CopyingCompanion(verdict.block));
        done := Copy(job.companion.value.temp, job.companion.value.target, job.copiesCompanion);
        if !done { return Failed(job.copyError); }
      }
      return verdict;
    }

    method CleanUp(job: Job, i: nat, sign: Signer, row: Row)
      modifies this
      ensures Stage(files, Finished(row)) == Finish(job, i, sign, old(files), Cleaning(row))
    {
      hide Finish;
      FinishAfterAdvance(job, i, sign, files, Cleaning(row));
      files := files - {job.temp};
      if job.companion.Some? {
        FinishAfterAdvance(job, i, sign, files, CleaningCompanion(row));
        files := files - {job.companion.value.temp};
      }
      FinishedStays(job, i, sign, files, Finished(row));
    }
  }

  predicate AllDiffer(identities: seq<Path>) {
    forall i, j :: 0 <= i < j < |identities| ==> identities[i] != identities[j]
  }

  /** `has_duplicate_target_identities`. */
  method HasDuplicates(identities: seq<Path>) returns (r: bool)
    ensures r <==> !AllDiffer(identities)
  {
    var seen: set<Path> := {};
    for k := 0 to |identities|
      invariant seen == set i | 0 <= i < k :: identities[i]
      invariant forall i, j :: 0 <= i < j < k ==> identities[i] != identities[j]
    {
      if identities[k] in seen { return true; }
      seen := seen + {identities[k]};
    }
    return false;
  }

  // ----- the report -----

  datatype ExitStyle = Signtool | AzureSignTool

  const PARTIAL_SUCCESS: int := 0x2000_0001
  /** 0xA0000002 as a signed 32-bit number. */
  const ALL_FAILED: int := 0xA000_0002 - 0x1_0000_0000

  /** `batch_exit_code`. */
  function ExitCode(style: ExitStyle, successes: nat, failures: nat): int {
    match style
    case Signtool => if failures > 0 then 1 else 0
    case AzureSignTool =>
      if successes > 0 && failures == 0 then 0
      else if successes > 0 && failures > 0 then PARTIAL_SUCCESS
      else if successes == 0 && failures > 0 then ALL_FAILED
      else 0
  }

  datatype Indexed = Indexed(idx: nat, row: Row)

  datatype Report = Report(text: string, exit: int) | Aborted(error: string)

  function CountSigned(rows: seq<Row>): nat {
    if rows == [] then 0 else (if rows[0].Signed? then 1 else 0) + CountSigned(rows[1..])
  }

  function CountFailed(rows: seq<Row>): nat {
    if rows == [] then 0 else (if rows[0].Failed? then 1 else 0) + CountFailed(rows[1..])
  }

  function Block(name: string, row: Row): string {
    match row case Signed(block) => block case Failed(error) => "Failed: " + name + ": " + error + "\n"
  }

  function Text(names: seq<string>, rows: seq<Row>): string
    requires |names| == |rows|
  {
    if rows == [] then ""
    else Block(names[0], rows[0]) + if |rows| == 1 then "" else "\n" + Text(names[1..], rows[1..])
  }

  function FirstError(rows: seq<Row>): Option<string> {
    if rows == [] then None else if rows[0].Failed? then Some(rows[0].error) else FirstError(rows[1..])
  }

  /** What the batch reports for the results in target order. */
  function ReportOf(names: seq<string>, rows: seq<Row>, continueOnError: bool, style: ExitStyle): Report
    requires |names| == |rows|
  {
    if !continueOnError && FirstError(rows).Some? then Aborted(FirstError(rows).value)
    else Report(Text(names, rows), ExitCode(style, CountSigned(rows), CountFailed(rows)))
  }

  // ----- rows in any order -----

  function Enumerate(rows: seq<Row>): seq<Indexed> {
    seq(|rows|, i requires 0 <= i < |rows| => Indexed(i, rows[i]))
  }

  predicate RowBefore(a: Indexed, b: Indexed) {
    a.idx < b.idx
  }

  predicate Ordered(a: seq<Indexed>) {
    forall i, j :: 0 <= i < j < |a| ==> a[i].idx <= a[j].idx
  }

  lemma {:induction false} InOrderIsOrdered(a: seq<Indexed>, i: nat, j: nat)
    requires InOrder(RowBefore, a) && i < j < |a|
    ensures a[i].idx <= a[j].idx
  {
    if i + 1 < j { InOrderIsOrdered(a, i, j - 1); }
    assert !RowBefore(a[j], a[j - 1]);
  }

  /** `sort_by_key` on the index. */
  lemma SortSorts(a: seq<Indexed>)
    ensures Ordered(Sort(RowBefore, a)) && multiset(Sort(RowBefore, a)) == multiset(a)
  {
    Sorts(RowBefore, a);
    var sorted := Sort(RowBefore, a);
    forall i, j | 0 <= i < j < |sorted| ensures sorted[i].idx <= sorted[j].idx { InOrderIsOrdered(sorted, i, j); }
  }

  lemma SameHead(a: seq<Indexed>, b: seq<Indexed>, k: nat)
    requires Ordered(a) && multiset(a) == multiset(b) && b != []
    requires forall i | 0 <= i < |b| :: b[i].idx == k + i
    ensures a != [] && a[0] == b[0]
  {
    assert b[0] in multiset(b);
    assert b[0] in multiset(a);
    var j :| 0 <= j < |a| && a[j] == b[0];
    assert a[0] in multiset(a);
    assert a[0] in multiset(b);
    var i :| 0 <= i < |b| && b[i] == a[0];
    assert a[0].idx <= a[j].idx;
  }

  lemma SameTail(a: seq<Indexed>, b: seq<Indexed>)
    requires a != [] && b != [] && a[0] == b[0] && multiset(a) == multiset(b)
    ensures multiset(a[1..]) == multiset(b[1..])
  {
    assert a == [a[0]] + a[1..] && b == [b[0]] + b[1..];
    assert multiset(a[1..]) == multiset(a) - multiset{a[0]};
    assert multiset(b[1..]) == multiset(b) - multiset{b[0]};
  }

  /** Indices that count up from `k` leave only one ordered arrangement. */
  lemma {:induction false} OneArrangement(a: seq<Indexed>, b: seq<Indexed>, k: nat)
    requires Ordered(a) && multiset(a) == multiset(b)
    requires forall i | 0 <= i < |b| :: b[i].idx == k + i
    ensures a == b
  {
    assert |a| == |multiset(a)| == |b|;
    if b != [] {
      SameHead(a, b, k);
      SameTail(a, b);
      OneArrangement(a[1..], b[1..], k + 1);
      assert a == [a[0]] + a[1..] && b == [b[0]] + b[1..];
    }
  }

  /** However the rows come back, sorting puts them in target order. */
  lemma SortedRows(returned: seq<Indexed>, rows: seq<Row>)
    requires multiset(returned) == multiset(Enumerate(rows))
    ensures Sort(RowBefore, returned) == Enumerate(rows)
  {
    SortSorts(returned);
    OneArrangement(Sort(RowBefore, returned), Enumerate(rows), 0);
  }

  lemma {:induction false} CountsAdd(rows: seq<Row>, row: Row)
    ensures CountSigned(rows + [row]) == CountSigned(rows) + if row.Signed? then 1 else 0
    ensures CountFailed(rows + [row]) == CountFailed(rows) + if row.Failed? then 1 else 0
  {
    if rows == [] {
      assert [] + [row] == [row] && [row][1..] == [];
    } else {
      assert (rows + [row])[1..] == rows[1..] + [row];
      CountsAdd(rows[1..], row);
    }
  }

  lemma {:induction false} TextAdds(names: seq<string>, rows: seq<Row>, name: string, row: Row)
    requires |names| == |rows|
    ensures Text(names + [name], rows + [row])
            == Text(names, rows) + (if rows == [] then "" else "\n") + Block(name, row)
  {
    hide Block;
    if rows == [] {
      assert names + [name] == [name] && rows + [row] == [row];
      assert "" + "" + Block(name, row) == Block(name, row) + "";
    } else {
      assert (rows + [row])[1..] == rows[1..] + [row] && (names + [name])[1..] == names[1..] + [name];
      TextAdds(names[1..], rows[1..], name, row);
      if |rows| == 1 {
        assert rows[1..] == [];
        assert Block(names[0], rows[0]) + ("\n" + ("" + "" + Block(name, row)))
               == Block(names[0], rows[0]) + "" + "\n" + Block(name, row);
      } else {
        var a, b := Block(names[0], rows[0]), Text(names[1..], rows[1..]);
        assert a + ("\n" + (b + "\n" + Block(name, row))) == (a + ("\n" + b)) + "\n" + Block(name, row);
      }
    }
  }

  lemma {:induction false} NoErrorSoFar(rows: seq<Row>, k: nat)
    requires k < |rows| && FirstError(rows[..k]) == None
    ensures FirstError(rows[..k + 1]) == if rows[k].Failed? then Some(rows[k].error) else None
    ensures rows[k].Failed? ==> FirstError(rows) == Some(rows[k].error)
  {
    if k == 0 {
      assert rows[..1] == [rows[0]] && [rows[0]][1..] == [];
    } else {
      assert rows[..k][1..] == rows[1..][..k - 1] && rows[..k + 1][1..] == rows[1..][..k]
             && rows[1..][k - 1] == rows[k];
      NoErrorSoFar(rows[1..], k - 1);
    }
  }

  /** The tail of `execute_sign_batch`: the rows as the workers returned them, turned into one report. */
  method MakeReport(names: seq<string>, returned: seq<Indexed>, ghost rows: seq<Row>, continueOnError: bool,
                    style: ExitStyle)
    returns (r: Report)
    requires |names| == |rows| && multiset(returned) == multiset(Enumerate(rows))
    ensures r == ReportOf(names, rows, continueOnError, style)
  {
    hide Text, CountSigned, CountFailed, FirstError, Block, Sort, ExitCode;
    SortedRows(returned, rows);
    var ordered := Sort(RowBefore, returned);
    var combined, successes, failures := "", 0, 0;
    NothingYet();
    for position := 0 to |ordered|
      invariant combined == Text(names[..position], rows[..position])
      invariant successes == CountSigned(rows[..position]) && failures == CountFailed(rows[..position])
      invariant !continueOnError ==> FirstError(rows[..position]) == None
    {
      var Indexed(idx, row) := ordered[position];
      assert rows[..position + 1] == rows[..position] + [row]
             && names[..position + 1] == names[..position] + [names[idx]];
      CountsAdd(rows[..position], row);
      TextAdds(names[..position], rows[..position], names[idx], row);
      if !continueOnError { NoErrorSoFar(rows, position); }
      if position > 0 { combined := combined + "\n"; }
      match row
      case Signed(block) =>
        successes := successes + 1;
        combined := combined + Block(names[idx], row);
      case Failed(error) =>
        if !continueOnError { return Aborted(error); }
        failures := failures + 1;
        combined := combined + Block(names[idx], row);
    }
    assert rows[..|rows|] == rows && names[..|rows|] == names;
    return Report(combined, ExitCode(style, successes, failures));
  }

  lemma NothingYet()
    ensures Text([], []) == "" && CountSigned([]) == 0 && CountFailed([]) == 0 && FirstError([]) == None
  {
  }

  lemma {:induction false} CountsCover(rows: seq<Row>)
    ensures CountSigned(rows) + CountFailed(rows) == |rows|
    ensures CountFailed(rows) == 0 <==> FirstError(rows) == None
  {
    if rows != [] { CountsCover(rows[1..]); }
  }

  /** The exit code of a report: by style, it tells whether some target failed, or all of them did. */
  lemma ExitCodeSays(names: seq<string>, rows: seq<Row>, continueOnError: bool, style: ExitStyle)
    requires |names| == |rows| && ReportOf(names, rows, continueOnError, style).Report?
    ensures ReportOf(names, rows, continueOnError, style).exit
            == if forall row <- rows :: row.Signed? then 0
               else if style == Signtool then 1
               else if exists row <- rows :: row.Signed? then 0x2000_0001
               else 0xA000_0002 - 0x1_0000_0000
  {
    CountsCover(rows);
    AllOfOneKind(rows);
  }

  /** One error ends the batch unless it goes on behind errors: that of the first target that failed. */
  lemma AbortsExactly(names: seq<string>, rows: seq<Row>, continueOnError: bool, style: ExitStyle, error: string)
    requires |names| == |rows|
    ensures ReportOf(names, rows, continueOnError, style) == Aborted(error)
            <==> !continueOnError
                 && exists k | 0 <= k < |rows| :: rows[k] == Failed(error) && forall j | 0 <= j < k :: rows[j].Signed?
    ensures ReportOf(names, rows, continueOnError, style).Aborted?
            <==> !continueOnError && exists row <- rows :: row.Failed?
  {
    FirstErrorIs(rows, error);
    CountsCover(rows);
    AllOfOneKind(rows);
    hide Text, FirstError;
    forall row <- rows ensures row.Signed? || row.Failed? {}
  }

  lemma {:induction false} FirstErrorIs(rows: seq<Row>, error: string)
    ensures FirstError(rows) == Some(error)
            <==> exists k | 0 <= k < |rows| :: rows[k] == Failed(error) && forall j | 0 <= j < k :: rows[j].Signed?
  {
    if rows != [] {
      FirstErrorIs(rows[1..], error);
      if k :| 0 <= k < |rows| && rows[k] == Failed(error) && forall j | 0 <= j < k :: rows[j].Signed? {
        if k > 0 { assert rows[1..][k - 1] == Failed(error) && forall j | 0 <= j < k - 1 :: rows[1..][j].Signed?; }
      }
      if k :| 0 <= k < |rows[1..]| && rows[1..][k] == Failed(error) && forall j | 0 <= j < k :: rows[1..][j].Signed? {
        if rows[0].Signed? {
          forall j | 0 <= j < k + 1 ensures rows[j].Signed? {
            if j > 0 { assert rows[j] == rows[1..][j - 1]; }
          }
          assert rows[k + 1] == Failed(error);
        }
      }
    }
  }

  /** What a report says of a target, on lines of its own. */
  predicate Tells(piece: string, name: string, row: Row, first: bool) {
    piece == (if first then "" else "\n")
             + match row case Signed(block) => block case Failed(error) => "Failed: " + name + ": " + error + "\n"
  }

  /** The text of a report says it of each target in turn. */
  lemma {:induction false} TextTells(names: seq<string>, rows: seq<Row>) returns (pieces: seq<string>)
    requires |names| == |rows|
    ensures Text(names, rows) == Flatten(pieces) && |pieces| == |rows|
    ensures forall k | 0 <= k < |rows| :: Tells(pieces[k], names[k], rows[k], k == 0)
  {
    hide Block, Tells;
    if rows == [] {
      pieces := [];
    } else {
      var n := |rows| - 1;
      var front := TextTells(names[..n], rows[..n]);
      TextAdds(names[..n], rows[..n], names[n], rows[n]);
      assert names[..n] + [names[n]] == names && rows[..n] + [rows[n]] == rows;
      var last := (if n == 0 then "" else "\n") + Block(names[n], rows[n]);
      assert Tells(last, names[n], rows[n], n == 0) by { BlockTells(names[n], rows[n], n == 0); }
      pieces := front + [last];
      FlattenAppend(front, [last]);
      FlattenSingle(last);
      assert Flatten(front) + (if n == 0 then "" else "\n") + Block(names[n], rows[n]) == Flatten(front) + last;
    }
  }

  lemma BlockTells(name: string, row: Row, first: bool)
    ensures Tells((if first then "" else "\n") + Block(name, row), name, row, first)
  {
  }

  lemma {:induction false} AllOfOneKind(rows: seq<Row>)
    ensures CountFailed(rows) == 0 <==> forall row <- rows :: row.Signed?
    ensures CountSigned(rows) == 0 <==> forall row <- rows :: row.Failed?
  {
    if rows != [] {
      AllOfOneKind(rows[1..]);
      assert rows[0] in rows;
      forall row <- rows[1..] ensures row in rows {}
      forall row <- rows ensures row == rows[0] || row in rows[1..] {}
    }
  }

  // ----- the whole batch -----

  /** `execute_sign_batch` one after the other. */
  method SignInOrder(disk: Disk, jobs: seq<Job>, sign: Signer) returns (rows: seq<Indexed>)
    modifies disk
    ensures var s := SignFrom(jobs, sign, Begin(old(disk.files), |jobs|), 0);
            disk.files == s.files && Complete(s) && rows == Enumerate(Rows(s))
  {
    hide Finish, SignFrom;
    rows := [];
    ghost var s := Begin(disk.files, |jobs|);
    for k := 0 to |jobs|
      invariant |s.pcs| == |jobs| && disk.files == s.files && |rows| == k
      invariant SignFrom(jobs, sign, Begin(old(disk.files), |jobs|), 0) == SignFrom(jobs, sign, s, k)
      invariant forall i | k <= i < |jobs| :: s.pcs[i] == Todo
      invariant forall i | 0 <= i < k :: s.pcs[i].Finished? && rows[i] == Indexed(i, s.pcs[i].row)
    {
      SignFromStep(jobs, sign, s, k);
      var row := disk.SignOne(jobs[k], k, sign);
      rows := rows + [Indexed(k, row)];
      s := State(disk.files, s.pcs[k := Finished(row)]);
    }
    SignFromEnd(jobs, sign, s);
    assert rows == Enumerate(Rows(s));
  }

  lemma SignFromStep(jobs: seq<Job>, sign: Signer, s: State, k: nat)
    requires k < |jobs| == |s.pcs|
    ensures var t := Finish(jobs[k], k, sign, s.files, s.pcs[k]);
            SignFrom(jobs, sign, s, k) == SignFrom(jobs, sign, State(t.files, s.pcs[k := t.pc]), k + 1)
  {
  }

  lemma SignFromEnd(jobs: seq<Job>, sign: Signer, s: State)
    requires |jobs| == |s.pcs|
    ensures SignFrom(jobs, sign, s, |jobs|) == s
  {
  }

  // ----- when targets are distinct -----

  function Targets(jobs: seq<Job>): seq<Path> {
    seq(|jobs|, i requires 0 <= i < |jobs| => jobs[i].target)
  }

  /** The files of a target that the source names after it: temporary outputs and the companion. */
  function SideFiles(job: Job): set<Path> {
    Footprint(job) - {job.target}
  }

  predicate SideFilesApart(jobs: seq<Job>) {
    forall i, j :: 0 <= i < |jobs| && 0 <= j < |jobs| && i != j ==> SideFiles(jobs[i]) !! Footprint(jobs[j])
  }

  /** What the check for duplicates buys: no file belongs to two targets. */
  lemma DistinctIsDisjoint(jobs: seq<Job>)
    requires AllDiffer(Targets(jobs)) && SideFilesApart(jobs)
    ensures Disjoint(jobs)
  {
    forall i, j | 0 <= i < j < |jobs| ensures Footprint(jobs[i]) !! Footprint(jobs[j]) {
      assert Targets(jobs)[i] != Targets(jobs)[j];
      assert SideFiles(jobs[i]) !! Footprint(jobs[j]) && SideFiles(jobs[j]) !! Footprint(jobs[i]);
      hide Footprint;
      assert Footprint(jobs[i]) <= SideFiles(jobs[i]) + {jobs[i].target};
      assert Footprint(jobs[j]) <= SideFiles(jobs[j]) + {jobs[j].target};
    }
  }

  /** The rows that came back, in target order. */
  function OrderedRows(returned: seq<Indexed>): seq<Row> {
    var sorted := Sort(RowBefore, returned);
    seq(|sorted|, i requires 0 <= i < |sorted| => sorted[i].row)
  }

  /** A parallel batch over distinct targets: whatever the interleaving of file operations and whatever order the
      rows come back in, files, ordered rows and report are those of the sequential batch. */
  lemma ParallelIsSequential(jobs: seq<Job>, sign: Signer, start: Files, schedule: seq<nat>, returned: seq<Indexed>,
                             names: seq<string>, continueOnError: bool, style: ExitStyle)
    requires AllDiffer(Targets(jobs)) && SideFilesApart(jobs) && |names| == |jobs|
    requires Complete(Run(jobs, sign, Begin(start, |jobs|), schedule))
    requires multiset(returned) == multiset(Enumerate(Rows(Run(jobs, sign, Begin(start, |jobs|), schedule))))
    ensures var parallel := Run(jobs, sign, Begin(start, |jobs|), schedule);
            var inOrder := SignFrom(jobs, sign, Begin(start, |jobs|), 0);
            && parallel.files == inOrder.files && Complete(inOrder) && |inOrder.pcs| == |names|
            && Sort(RowBefore, returned) == Enumerate(Rows(inOrder))
            && ReportOf(names, OrderedRows(returned), continueOnError, style)
               == ReportOf(names, Rows(inOrder), continueOnError, style)
  {
    DistinctIsDisjoint(jobs);
    hide Run, SignFrom, Disjoint, ReportOf, Sort, Targets, AllDiffer, SideFilesApart;
    AnyScheduleIsSequential(jobs, sign, start, schedule);
    RunLength(jobs, sign, Begin(start, |jobs|), schedule);
    var rows := Rows(Run(jobs, sign, Begin(start, |jobs|), schedule));
    SortedRows(returned, rows);
    assert OrderedRows(returned) == rows;
  }
}
