/**
 The accounting of disk storages under concurrency (common/body_storage.go, lines
 100-196; common/disk_cache_config.go, lines 108-122 and 169-177), one atomic
 operation at a time.

 Every storage moves through the phases below; a run is any interleaving of the
 steps of any number of storages.
 */
module DiskAccounting {
  import opened Numbers

  datatype Phase =
    | Admitted(announced: nat)      // the quota check passed
    | Written(size: nat)            // the file is complete, nothing is counted
    | FileCounted(size: nat)        // first half of IncrementDiskFiles
    | Open(size: nat)
    | Closing(size: nat)            // the closed flag was swapped
    | FileClamp(size: nat)          // the file counter came out negative
    | FileUncounted(size: nat)      // first half of DecrementDiskFiles
    | ByteClamp                     // the byte counter came out negative
    | Closed

  datatype State = State(files: int, bytes: int, storages: map<string, Phase>)

  datatype Step =
    | Admit(id: string, announced: nat)
    | Write(id: string, size: nat)
    | Fail(id: string)              // creating or writing the file fails, and it is removed
    | CountFile(id: string)
    | CountBytes(id: string)
    | Close(id: string)
    | UncountFile(id: string)
    | ClampFiles(id: string)
    | UncountBytes(id: string)
    | ClampBytes(id: string)

  const EMPTY := State(0, 0, map[])

  function Move(s: State, id: string, p: Phase): State {
    s.(storages := s.storages[id := p])
  }

  /** A step; one that is not enabled changes nothing. */
  function Next(s: State, step: Step, max: int): State {
    var id := step.id;
    if step.Admit? then
      if id !in s.storages && s.bytes + step.announced <= max then Move(s, id, Admitted(step.announced)) else s
    else if id !in s.storages then s
    else
      match (step, s.storages[id])
      case (Write(_, size), Admitted(_)) => Move(s, id, Written(size))
      case (Fail(_), Admitted(_)) => Move(s, id, Closed)
      case (Fail(_), Written(_)) => Move(s, id, Closed)
      case (CountFile(_), Written(size)) => Move(s, id, FileCounted(size)).(files := s.files + 1)
      case (CountBytes(_), FileCounted(size)) => Move(s, id, Open(size)).(bytes := s.bytes + size)
      case (Close(_), Open(size)) => Move(s, id, Closing(size))
      case (UncountFile(_), Closing(size)) =>
        Move(s, id, if s.files - 1 < 0 then FileClamp(size) else FileUncounted(size)).(files := s.files - 1)
      case (ClampFiles(_), FileClamp(size)) => Move(s, id, FileUncounted(size)).(files := 0)
      case (UncountBytes(_), FileUncounted(size)) =>
        Move(s, id, if s.bytes - size < 0 then ByteClamp else Closed).(bytes := s.bytes - size)
      case (ClampBytes(_), ByteClamp) => Move(s, id, Closed).(bytes := 0)
      case _ => s
  }

  function Run(s: State, steps: seq<Step>, max: int): State {
    if steps == [] then s
    else Next(Run(s, steps[..|steps| - 1], max), steps[|steps| - 1], max)
  }

  // ---------------------------------------------------------------- what counts

  function Files(p: Phase): nat {
    if p.FileCounted? || p.Open? || p.Closing? then 1 else 0
  }

  function Bytes(p: Phase): nat {
    match p
    case Open(size) => size
    case Closing(size) => size
    case FileClamp(size) => size
    case FileUncounted(size) => size
    case _ => 0
  }

  // ---------------------------------------------------------------- conservation

  /** The counters are the totals over the storages, and no clamp is pending. */
  ghost predicate Accounted(s: State) {
    && s.files == Total(s.storages, Files)
    && s.bytes == Total(s.storages, Bytes)
    && forall id :: id in s.storages ==> !s.storages[id].FileClamp? && !s.storages[id].ByteClamp?
  }

  lemma StepAccounted(s: State, step: Step, max: int)
    requires Accounted(s)
    ensures Accounted(Next(s, step, max))
  {
    var id, next := step.id, Next(s, step, max);
    if next.storages != s.storages {
      TotalMove(s.storages, id, next.storages[id], Files);
      TotalMove(s.storages, id, next.storages[id], Bytes);
      if id in s.storages {
        TotalWithout(s.storages, id, Files);
        TotalWithout(s.storages, id, Bytes);
      }
    }
  }

  /** In every interleaving the two counters are the number and the size of the
      storages that are counted, never negative, and the clamps at zero never
      fire. */
  lemma {:induction false} RunAccounted(steps: seq<Step>, max: int)
    ensures var s := Run(EMPTY, steps, max);
            Accounted(s) && s.files >= 0 && s.bytes >= 0
  {
    if steps != [] {
      var before := steps[..|steps| - 1];
      RunAccounted(before, max);
      StepAccounted(Run(EMPTY, before, max), steps[|steps| - 1], max);
    }
  }

  // ---------------------------------------------------------------- one storage

  lemma RunStep(s: State, steps: seq<Step>, last: Step, max: int)
    ensures Run(s, [], max) == s
    ensures Run(s, steps + [last], max) == Next(Run(s, steps, max), last, max)
  {
    assert (steps + [last])[..|steps|] == steps;
  }

  lemma RunTwo(s: State, a: Step, b: Step, max: int)
    ensures Run(s, [a, b], max) == Next(Next(s, a, max), b, max)
  {
    hide Run, Next;
    RunStep(s, [], a, max);
    RunStep(s, [a], b, max);
    assert [] + [a] == [a] && [a] + [b] == [a, b];
  }

  lemma RunFour(s: State, a: Step, b: Step, c: Step, d: Step, max: int)
    ensures Run(s, [a, b, c], max) == Next(Run(s, [a, b], max), c, max)
    ensures Run(s, [a, b, c, d], max) == Next(Run(s, [a, b, c], max), d, max)
  {
    hide Run, Next;
    RunStep(s, [a, b], c, max);
    RunStep(s, [a, b, c], d, max);
    assert [a, b] + [c] == [a, b, c] && [a, b, c] + [d] == [a, b, c, d];
  }

  /** Left alone, a creation that the quota admits counts one file and the bytes
      written, whatever length was announced; one that fails, before or after writing,
      counts nothing; and one that the quota does not admit leaves no trace. */
  lemma CreatedAlone(s: State, id: string, announced: nat, size: nat, max: int)
    requires id !in s.storages
    ensures Run(s, [Admit(id, announced), Write(id, size), CountFile(id), CountBytes(id)], max)
         == if s.bytes + announced > max then s
            else State(s.files + 1, s.bytes + size, s.storages[id := Open(size)])
    ensures Run(s, [Admit(id, announced), Fail(id)], max)
         == Run(s, [Admit(id, announced), Write(id, size), Fail(id)], max)
         == if s.bytes + announced > max then s else s.(storages := s.storages[id := Closed])
  {
    hide Run;
    var admit, write := Admit(id, announced), Write(id, size);
    RunTwo(s, admit, Fail(id), max);
    RunTwo(s, admit, write, max);
    RunFour(s, admit, write, Fail(id), Fail(id), max);
    RunFour(s, admit, write, CountFile(id), CountBytes(id), max);
    if s.bytes + announced <= max {
      assert Run(s, [admit, write], max) == s.(storages := s.storages[id := Written(size)]);
    }
  }

  /** Left alone, closing takes one file and the storage's bytes off the counters, and
      stops at zero. */
  lemma ClosedAlone(s: State, id: string, size: nat, max: int)
    requires id in s.storages && s.storages[id] == Open(size)
    ensures Run(s, [Close(id), UncountFile(id), ClampFiles(id), UncountBytes(id), ClampBytes(id)], max)
         == State(Max(0, s.files - 1), Max(0, s.bytes - size), s.storages[id := Closed])
  {
    hide Run, Next, Max;
    var files, bytes := [Close(id), UncountFile(id), ClampFiles(id)], [UncountBytes(id), ClampBytes(id)];
    FileUncountedAlone(s, id, size, max);
    BytesUncountedAlone(Run(s, files, max), id, size, max);
    RunStep(s, files, bytes[0], max);
    RunStep(s, files + [bytes[0]], bytes[1], max);
    RunTwo(Run(s, files, max), bytes[0], bytes[1], max);
    assert files + [bytes[0]] + [bytes[1]]
        == [Close(id), UncountFile(id), ClampFiles(id), UncountBytes(id), ClampBytes(id)];
  }

  lemma FileUncountedAlone(s: State, id: string, size: nat, max: int)
    requires id in s.storages && s.storages[id] == Open(size)
    ensures Run(s, [Close(id), UncountFile(id), ClampFiles(id)], max)
         == State(Max(0, s.files - 1), s.bytes, s.storages[id := FileUncounted(size)])
  {
    hide Run;
    RunTwo(s, Close(id), UncountFile(id), max);
    RunFour(s, Close(id), UncountFile(id), ClampFiles(id), ClampFiles(id), max);
  }

  lemma BytesUncountedAlone(s: State, id: string, size: nat, max: int)
    requires id in s.storages && s.storages[id] == FileUncounted(size)
    ensures Run(s, [UncountBytes(id), ClampBytes(id)], max)
         == State(s.files, Max(0, s.bytes - size), s.storages[id := Closed])
  {
    hide Run;
    RunTwo(s, UncountBytes(id), ClampBytes(id), max);
  }

  /** In every run the size of a storage is one that was written to it, and the length
      admitted one that was announced for it. */
  lemma {:induction false} SizesWritten(steps: seq<Step>, max: int, id: string)
    ensures var s := Run(EMPTY, steps, max);
            id in s.storages ==> Announced(steps, id, s.storages[id])
  {
    if steps != [] {
      var before, last := steps[..|steps| - 1], steps[|steps| - 1];
      SizesWritten(before, max, id);
      assert steps == before + [last];
      StepAnnounced(Run(EMPTY, before, max), before, last, max, id);
    }
  }

  predicate Announced(steps: seq<Step>, id: string, p: Phase) {
    match p
    case Admitted(announced) => Admit(id, announced) in steps
    case ByteClamp => true
    case Closed => true
    case _ => Write(id, p.size) in steps
  }

  lemma StepAnnounced(s: State, before: seq<Step>, last: Step, max: int, id: string)
    requires id in s.storages ==> Announced(before, id, s.storages[id])
    ensures var next := Next(s, last, max);
            id in next.storages ==> Announced(before + [last], id, next.storages[id])
  {
  }

  /** Between operations, when every storage is open, closed or not yet counted,
      the counters are exactly those of the open storages. */
  ghost predicate Quiet(s: State) {
    forall id :: id in s.storages ==>
      var p := s.storages[id]; p.Admitted? || p.Written? || p.Open? || p.Closed?
  }

  function OpenCount(p: Phase): nat {
    if p.Open? then 1 else 0
  }

  function OpenSize(p: Phase): nat {
    if p.Open? then p.size else 0
  }

  lemma QuietCounters(steps: seq<Step>, max: int)
    requires Quiet(Run(EMPTY, steps, max))
    ensures var s := Run(EMPTY, steps, max);
            s.files == Total(s.storages, OpenCount) && s.bytes == Total(s.storages, OpenSize)
  {
    var s := Run(EMPTY, steps, max);
    RunAccounted(steps, max);
    TotalSame(s.storages, Files, OpenCount);
    TotalSame(s.storages, Bytes, OpenSize);
  }

  // ---------------------------------------------------------------- the quota

  function InFlight(p: Phase): nat {
    if p.Admitted? || p.Written? || p.FileCounted? then 1 else 0
  }

  /** What a storage that is not counted yet will add. */
  function Pending(p: Phase): nat {
    match p
    case Admitted(announced) => announced
    case Written(size) => size
    case FileCounted(size) => size
    case _ => 0
  }

  /** The steps of callers that keep at most limit creations in flight and whose
      bodies are no longer than announced. */
  ghost predicate HonestStep(s: State, step: Step, limit: nat) {
    && (step.Admit? ==> Total(s.storages, InFlight) < limit)
    && (step.Write? && step.id in s.storages && s.storages[step.id].Admitted? ==>
          step.size <= s.storages[step.id].announced)
  }

  ghost predicate HonestRun(steps: seq<Step>, limit: nat, max: nat) {
    steps == [] ||
    var before := steps[..|steps| - 1];
    HonestRun(before, limit, max) && HonestStep(Run(EMPTY, before, max), steps[|steps| - 1], limit)
  }

  ghost predicate PendingWithin<K>(m: map<K, Phase>, max: nat) {
    forall k :: k in m ==> Pending(m[k]) <= max
  }

  /** What every honest run keeps. */
  ghost predicate WithinQuota(s: State, limit: nat, max: nat) {
    && Accounted(s)
    && Total(s.storages, InFlight) <= limit && PendingWithin(s.storages, max)
    && s.bytes + Total(s.storages, Pending) <= limit * max
  }

  lemma {:induction false} PendingBound<K>(m: map<K, Phase>, max: nat)
    requires PendingWithin(m, max)
    ensures Total(m, Pending) <= Total(m, InFlight) * max
    decreases |m|
  {
    if m == map[] {
      assert Total(m, InFlight) == 0 && Total(m, Pending) == 0;
    } else {
      var k :| k in m;
      TotalWithout(m, k, InFlight);
      TotalWithout(m, k, Pending);
      hide Total, InFlight, Pending;
      PendingBound(m - {k}, max);
      OnePending(m[k], max);
      var a, b := InFlight(m[k]), Total(m - {k}, InFlight);
      Distribute(a, b, max);
      assert Total(m, InFlight) * max == (a + b) * max;
    }
  }

  lemma OnePending(p: Phase, max: nat)
    requires Pending(p) <= max
    ensures Pending(p) <= InFlight(p) * max
  {
  }

  lemma Distribute(a: nat, b: nat, max: nat)
    ensures (a + b) * max == a * max + b * max
  {
  }

  lemma Monotone(a: nat, b: nat, max: nat)
    requires a <= b
    ensures a * max <= b * max
  {
  }

  lemma StepWithinQuota(s: State, step: Step, limit: nat, max: nat)
    requires WithinQuota(s, limit, max) && HonestStep(s, step, limit)
    ensures WithinQuota(Next(s, step, max), limit, max)
  {
    var id, next := step.id, Next(s, step, max);
    StepAccounted(s, step, max);
    if next.storages != s.storages {
      TotalMove(s.storages, id, next.storages[id], InFlight);
      TotalMove(s.storages, id, next.storages[id], Pending);
      if step.Admit? {
        var n := Total(s.storages, InFlight);
        PendingBound(s.storages, max);
        Distribute(n, 1, max);
        Monotone(n + 1, limit, max);
      }
    }
  }

  /** With at most limit creations in flight at a time, and bodies no longer than
      announced, what is counted and what is in flight together never exceed limit
      times the maximum; closing and failing may be interleaved in any way. */
  lemma {:induction false} QuotaBound(steps: seq<Step>, limit: nat, max: nat)
    requires HonestRun(steps, limit, max)
    ensures WithinQuota(Run(EMPTY, steps, max), limit, max)
    ensures Run(EMPTY, steps, max).bytes <= limit * max
  {
    if steps == [] {
      Monotone(0, limit, max);
    } else {
      var before := steps[..|steps| - 1];
      QuotaBound(before, limit, max);
      StepWithinQuota(Run(EMPTY, before, max), steps[|steps| - 1], limit, max);
    }
  }

  lemma RunSnoc(steps: seq<Step>, step: Step, limit: nat, max: nat)
    ensures Run(EMPTY, steps + [step], max) == Next(Run(EMPTY, steps, max), step, max)
    ensures HonestRun(steps, limit, max) && HonestStep(Run(EMPTY, steps, max), step, limit) ==>
              HonestRun(steps + [step], limit, max)
  {
    assert (steps + [step])[..|steps|] == steps;
  }

  /** Pairwise different names. */
  function Id(n: nat): string {
    seq(n, _ => 'x')
  }

  lemma IdDistinct(i: nat, j: nat)
    ensures Id(i) == Id(j) <==> i == j
  {
    assert |Id(i)| == i && |Id(j)| == j;
  }

  /** n creations whose checks have all passed, none of them counted. */
  ghost predicate AllAdmitted(s: State, from: nat, to: nat, max: nat) {
    && (forall i :: from <= i < to ==> Id(i) in s.storages && s.storages[Id(i)] == Admitted(max))
    && (forall i: nat :: i >= to ==> Id(i) !in s.storages)
  }

  lemma {:induction false} AdmitEach(n: nat, limit: nat, max: nat) returns (steps: seq<Step>)
    requires n <= limit
    ensures var s := Run(EMPTY, steps, max);
            && HonestRun(steps, limit, max) && s.bytes == 0
            && Total(s.storages, InFlight) == n && AllAdmitted(s, 0, n, max)
  {
    steps := [];
    if n > 0 {
      var before := AdmitEach(n - 1, limit, max);
      var step := Admit(Id(n - 1), max);
      steps := before + [step];
      RunSnoc(before, step, limit, max);
      var s := Run(EMPTY, before, max);
      TotalMove(s.storages, Id(n - 1), Admitted(max), InFlight);
      forall i: nat ensures Id(i) == Id(n - 1) <==> i == n - 1 {
        IdDistinct(i, n - 1);
      }
    }
  }

  /** One admitted creation runs to its end. */
  lemma FinishOne(before: seq<Step>, id: string, limit: nat, max: nat) returns (steps: seq<Step>)
    requires HonestRun(before, limit, max)
    requires id in Run(EMPTY, before, max).storages && Run(EMPTY, before, max).storages[id] == Admitted(max)
    ensures HonestRun(steps, limit, max)
    ensures var s, next := Run(EMPTY, before, max), Run(EMPTY, steps, max);
            && next.bytes == s.bytes + max && next.storages.Keys == s.storages.Keys
            && forall k :: k in s.storages && k != id ==> next.storages[k] == s.storages[k]
  {
    hide Run, HonestRun;
    var s1 := before + [Write(id, max)];
    var s2 := s1 + [CountFile(id)];
    steps := s2 + [CountBytes(id)];
    RunSnoc(before, Write(id, max), limit, max);
    RunSnoc(s1, CountFile(id), limit, max);
    RunSnoc(s2, CountBytes(id), limit, max);
  }

  lemma {:induction false} FinishEach(n: nat, limit: nat, max: nat) returns (steps: seq<Step>)
    requires n <= limit
    ensures HonestRun(steps, limit, max)
    ensures Run(EMPTY, steps, max).bytes == n * max && AllAdmitted(Run(EMPTY, steps, max), n, limit, max)
  {
    hide Run, HonestRun, Id;
    if n == 0 {
      steps := AdmitEach(limit, limit, max);
    } else {
      var before := FinishEach(n - 1, limit, max);
      steps := FinishOne(before, Id(n - 1), limit, max);
      Distribute(n - 1, 1, max);
      forall i: nat ensures Id(i) == Id(n - 1) <==> i == n - 1 {
        IdDistinct(i, n - 1);
      }
    }
  }

  /** The bound is attained: creations that all check before any of them is counted. */
  lemma QuotaAttained(limit: nat, max: nat) returns (steps: seq<Step>)
    ensures HonestRun(steps, limit, max) && Run(EMPTY, steps, max).bytes == limit * max
  {
    steps := FinishEach(limit, limit, max);
  }

  /** The disk quota is kept in every honest run if and only if creations run one
      at a time (or nothing is allowed at all). */
  lemma QuotaExactly(limit: nat, max: nat)
    ensures (forall steps :: HonestRun(steps, limit, max) ==> Run(EMPTY, steps, max).bytes <= max)
       <==> limit <= 1 || max == 0
  {
    if limit <= 1 || max == 0 {
      forall steps | HonestRun(steps, limit, max) ensures Run(EMPTY, steps, max).bytes <= max {
        QuotaBound(steps, limit, max);
        if limit <= 1 {
          Monotone(limit, 1, max);
        }
      }
    } else {
      var steps := QuotaAttained(limit, max);
      Monotone(2, limit, max);
    }
  }
}
