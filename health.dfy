/** The quick health check: three independent metrics, each classified as
    OK, WARN or UNKNOWN against a fixed threshold, folded into one overall
    verdict through a `healthy` flag that can only be switched off.

    The platform readings (load average, core count, heap figures, the
    capacity of every filesystem root) are parameters; the JVM's doubles are
    exact reals here. */
module Health {
  import opened Units

  const CPU_USAGE_WARN: real := 75.0
  const FREE_MEMORY_WARN_MB: int := 256
  const DISK_FREE_WARN_PERCENT: real := 15.0

  datatype Verdict = OK | WARN | UNKNOWN

  /** A figure that is either known or could not be obtained. */
  datatype Reading = Unavailable | Value(v: real)

  // ---------------------------------------------------------------- CPU

  /** The rough CPU estimate: one-minute load average per core, as a
      percentage, floored at zero. */
  function ApproxCpuUsage(systemLoad: real, cores: int): (usage: real)
    requires cores >= 1
    ensures usage >= 0.0
    ensures systemLoad >= 0.0 ==> usage * (cores as real) == systemLoad * 100.0
    ensures systemLoad <= 0.0 ==> usage == 0.0
  {
    var usage := systemLoad / (cores as real) * 100.0;
    if usage < 0.0 then 0.0 else usage
  }

  /** A negative load average means the platform does not report one. */
  function CpuVerdict(systemLoad: real, cores: int): Verdict
    requires cores >= 1
  {
    if systemLoad < 0.0 then UNKNOWN
    else if ApproxCpuUsage(systemLoad, cores) > CPU_USAGE_WARN then WARN
    else OK
  }

  /** The CPU verdict in terms of the raw readings alone. */
  lemma CpuVerdictIff(systemLoad: real, cores: int)
    requires cores >= 1
    ensures CpuVerdict(systemLoad, cores) == UNKNOWN <==> systemLoad < 0.0
    ensures CpuVerdict(systemLoad, cores) == WARN
        <==> systemLoad >= 0.0 && systemLoad * 100.0 > 75.0 * (cores as real)
    ensures CpuVerdict(systemLoad, cores) == OK
        <==> 0.0 <= systemLoad && systemLoad * 100.0 <= 75.0 * (cores as real)
  {
    if systemLoad >= 0.0 {
      var usage := ApproxCpuUsage(systemLoad, cores);
      var c := cores as real;
      assert usage * c == systemLoad * 100.0;
      if usage > CPU_USAGE_WARN {
        assert usage * c > 75.0 * c;
      } else {
        assert usage * c <= 75.0 * c;
      }
    }
  }

  /** Exactly 75 % is still OK. */
  lemma CpuAtThresholdIsOk(cores: int)
    requires cores >= 1
    ensures CpuVerdict(0.75 * (cores as real), cores) == OK
  {
    CpuVerdictIff(0.75 * (cores as real), cores);
  }

  // ------------------------------------------------------------- memory

  /** The three heap readings and the two differences the check computes
      fit in a `long`, so none of the subtractions wraps around. */
  predicate MemoryReadingsFit(totalMemory: int, freeMemory: int, maxMemory: int) {
    && IsLong(totalMemory) && IsLong(freeMemory) && IsLong(maxMemory)
    && IsLong(totalMemory - freeMemory)
    && IsLong(maxMemory - (totalMemory - freeMemory))
  }

  /** Heap headroom in bytes: what is left of the maximum once the used part
      of the allocated heap is taken away, floored at zero. */
  function RemainingMemory(totalMemory: int, freeMemory: int, maxMemory: int): (remaining: int)
    requires MemoryReadingsFit(totalMemory, freeMemory, maxMemory)
    ensures remaining >= 0 && IsLong(remaining)
    ensures totalMemory - freeMemory <= maxMemory ==>
              remaining + (totalMemory - freeMemory) == maxMemory
    ensures totalMemory - freeMemory >= maxMemory ==> remaining == 0
  {
    var used := totalMemory - freeMemory;
    var remaining := maxMemory - used;
    if remaining < 0 then 0 else remaining
  }

  /** Memory is WARN when fewer than 256 whole MB remain. */
  function MemoryVerdict(totalMemory: int, freeMemory: int, maxMemory: int): Verdict
    requires MemoryReadingsFit(totalMemory, freeMemory, maxMemory)
  {
    if BytesToMb(RemainingMemory(totalMemory, freeMemory, maxMemory)) < FREE_MEMORY_WARN_MB
    then WARN else OK
  }

  /** The memory verdict is never UNKNOWN, and the MB threshold is the byte
      threshold 256 * 1048576: exactly 256 MB of headroom is OK. */
  lemma MemoryVerdictIff(totalMemory: int, freeMemory: int, maxMemory: int)
    requires MemoryReadingsFit(totalMemory, freeMemory, maxMemory)
    ensures MemoryVerdict(totalMemory, freeMemory, maxMemory) != UNKNOWN
    ensures MemoryVerdict(totalMemory, freeMemory, maxMemory) == WARN
        <==> RemainingMemory(totalMemory, freeMemory, maxMemory) < 256 * 1_048_576
  {
    MbBelowIff(RemainingMemory(totalMemory, freeMemory, maxMemory), FREE_MEMORY_WARN_MB);
  }

  /** When the used heap reaches or exceeds the maximum the headroom is zero,
      so memory is WARN. */
  lemma MemoryExhaustedWarns(totalMemory: int, freeMemory: int, maxMemory: int)
    requires MemoryReadingsFit(totalMemory, freeMemory, maxMemory)
    requires totalMemory - freeMemory >= maxMemory
    ensures RemainingMemory(totalMemory, freeMemory, maxMemory) == 0
    ensures MemoryVerdict(totalMemory, freeMemory, maxMemory) == WARN
  {
    MemoryVerdictIff(totalMemory, freeMemory, maxMemory);
  }

  // --------------------------------------------------------------- disk

  /** One filesystem root as the health check sees it. */
  datatype Root = Root(totalSpace: int, freeSpace: int)

  /** Free space of a root with positive capacity, as a percentage. */
  function FreePercent(r: Root): real
    requires r.totalSpace > 0
  {
    (r.freeSpace as real) * 100.0 / (r.totalSpace as real)
  }

  /** The percentage test in cross-multiplied integers. */
  lemma FreePercentBelowIff(r: Root, limit: int)
    requires r.totalSpace > 0
    ensures FreePercent(r) < limit as real <==> r.freeSpace * 100 < limit * r.totalSpace
  {
    var t := r.totalSpace as real;
    var p := FreePercent(r);
    assert p * t == (r.freeSpace * 100) as real;
    if p < limit as real {
      assert p * t < (limit as real) * t;
    } else {
      assert p * t >= (limit as real) * t;
    }
  }

  /** Some root has positive capacity. */
  predicate HasDiskData(roots: seq<Root>) {
    exists x | x in roots :: x.totalSpace > 0
  }

  /** The running minimum of the disk loop after the given roots: it starts
      at 100 and is lowered by every root of positive capacity whose free
      percentage is smaller. */
  function MinFreePercent(roots: seq<Root>): real
    decreases |roots|
  {
    if roots == [] then 100.0
    else
      var m := MinFreePercent(roots[..|roots| - 1]);
      var last := roots[|roots| - 1];
      if last.totalSpace > 0 && FreePercent(last) < m then FreePercent(last) else m
  }

  /** The reduction is below 100 and below every root of positive capacity. */
  lemma {:induction false} MinFreeIsLowerBound(roots: seq<Root>)
    ensures MinFreePercent(roots) <= 100.0
    ensures forall x | x in roots && x.totalSpace > 0 :: MinFreePercent(roots) <= FreePercent(x)
    decreases |roots|
  {
    if roots != [] {
      var prefix := roots[..|roots| - 1];
      MinFreeIsLowerBound(prefix);
      assert roots == prefix + [roots[|roots| - 1]];
    }
  }

  /** The reduction is either the initial 100 or the percentage of a root of
      positive capacity. */
  lemma {:induction false} MinFreeIsAttained(roots: seq<Root>)
    ensures MinFreePercent(roots) == 100.0
         || exists x | x in roots && x.totalSpace > 0 :: MinFreePercent(roots) == FreePercent(x)
    decreases |roots|
  {
    if roots != [] {
      var prefix := roots[..|roots| - 1];
      MinFreeIsAttained(prefix);
      assert roots == prefix + [roots[|roots| - 1]];
    }
  }

  /** The reduction depends only on which roots of positive capacity are
      present: not on their order, repetitions or on roots of no capacity. */
  lemma MinFreeDependsOnlyOnPositiveRoots(a: seq<Root>, b: seq<Root>)
    requires forall x :: (x in a && x.totalSpace > 0) <==> (x in b && x.totalSpace > 0)
    ensures MinFreePercent(a) == MinFreePercent(b)
  {
    MinFreeIsLowerBound(a);
    MinFreeIsAttained(a);
    MinFreeIsLowerBound(b);
    MinFreeIsAttained(b);
  }

  /** What the disk part of the check found. */
  datatype DiskOutcome =
    | NoRoots                     // the platform listed no roots
    | NoUsableData                // every root has zero capacity
    | MinFree(percent: real)      // smallest free percentage over usable roots

  function DiskCheck(roots: seq<Root>): DiskOutcome {
    if roots == [] then NoRoots
    else if !HasDiskData(roots) then NoUsableData
    else MinFree(MinFreePercent(roots))
  }

  function DiskVerdict(roots: seq<Root>): Verdict {
    match DiskCheck(roots)
    case NoRoots => UNKNOWN
    case NoUsableData => UNKNOWN
    case MinFree(p) => if p < DISK_FREE_WARN_PERCENT then WARN else OK
  }

  /** Disk is UNKNOWN exactly when no root has positive capacity, and WARN
      exactly when some root of positive capacity has less than 15 % free
      (so exactly 15 % is OK). */
  lemma DiskVerdictIff(roots: seq<Root>)
    ensures DiskVerdict(roots) == UNKNOWN <==> !HasDiskData(roots)
    ensures DiskVerdict(roots) == WARN
        <==> exists x | x in roots && x.totalSpace > 0 :: x.freeSpace * 100 < 15 * x.totalSpace
  {
    MinFreeIsLowerBound(roots);
    MinFreeIsAttained(roots);
    var m := MinFreePercent(roots);
    if DiskVerdict(roots) == WARN {
      var x :| x in roots && x.totalSpace > 0 && m == FreePercent(x);
      FreePercentBelowIff(x, 15);
    }
    if exists x | x in roots && x.totalSpace > 0 :: x.freeSpace * 100 < 15 * x.totalSpace {
      var x :| x in roots && x.totalSpace > 0 && x.freeSpace * 100 < 15 * x.totalSpace;
      FreePercentBelowIff(x, 15);
    }
  }

  /** Inserting a root of zero (or negative) capacity anywhere never changes
      the disk verdict. */
  lemma ZeroCapacityRootIsIgnored(roots: seq<Root>, k: nat, r: Root)
    requires k <= |roots| && r.totalSpace <= 0
    ensures DiskVerdict(roots[..k] + [r] + roots[k..]) == DiskVerdict(roots)
  {
    var grown := roots[..k] + [r] + roots[k..];
    assert forall x :: x in grown <==> x in roots || x == r by {
      assert roots == roots[..k] + roots[k..];
    }
    MinFreeDependsOnlyOnPositiveRoots(grown, roots);
  }

  // ------------------------------------------------------------ overall

  /** The `healthy` flag after the given verdicts, starting from `healthy`:
      every WARN clears it and nothing sets it again. */
  function StillHealthy(healthy: bool, verdicts: seq<Verdict>): bool {
    if verdicts == [] then healthy
    else StillHealthy(healthy && verdicts[0] != WARN, verdicts[1..])
  }

  lemma {:induction false} StillHealthyIff(healthy: bool, verdicts: seq<Verdict>)
    ensures StillHealthy(healthy, verdicts) <==> healthy && WARN !in verdicts
  {
    if verdicts != [] {
      StillHealthyIff(healthy && verdicts[0] != WARN, verdicts[1..]);
      assert verdicts == [verdicts[0]] + verdicts[1..];
    }
  }

  /** The overall verdict of the fold started with `healthy = true`. */
  function Overall(verdicts: seq<Verdict>): Verdict {
    if StillHealthy(true, verdicts) then OK else WARN
  }

  /** Overall is WARN iff some metric is WARN; UNKNOWN metrics count as no
      evidence either way, and overall is never UNKNOWN. */
  lemma OverallIff(verdicts: seq<Verdict>)
    ensures Overall(verdicts) != UNKNOWN
    ensures Overall(verdicts) == WARN <==> WARN in verdicts
    ensures Overall(verdicts) == OK <==> forall v | v in verdicts :: v == OK || v == UNKNOWN
  {
    StillHealthyIff(true, verdicts);
  }

  // -------------------------------------------------------------- report

  datatype HealthReport = HealthReport(
    cpuUsage: Reading,          // the estimate printed, when the load is known
    cpu: Verdict,
    usedMb: int,                // "used ... MB of max ... MB"
    maxMb: int,
    memory: Verdict,
    disk: DiskOutcome,
    diskVerdict: Verdict,
    overall: Verdict)

  /** `runHealthCheck`, with the platform readings as parameters. */
  method RunHealthCheck(systemLoad: real, cores: int,
                        totalMemory: int, freeMemory: int, maxMemory: int,
                        roots: seq<Root>)
    returns (report: HealthReport)
    requires cores >= 1
    requires MemoryReadingsFit(totalMemory, freeMemory, maxMemory)
    ensures report.cpuUsage == if systemLoad < 0.0 then Unavailable
                               else Value(ApproxCpuUsage(systemLoad, cores))
    ensures report.cpu == CpuVerdict(systemLoad, cores)
    ensures report.usedMb == BytesToMb(totalMemory - freeMemory)
    ensures report.maxMb == BytesToMb(maxMemory)
    ensures report.memory == MemoryVerdict(totalMemory, freeMemory, maxMemory)
    ensures report.disk == DiskCheck(roots)
    ensures report.diskVerdict == DiskVerdict(roots)
    ensures report.overall == Overall([report.cpu, report.memory, report.diskVerdict])
    ensures report.overall == WARN
        <==> report.cpu == WARN || report.memory == WARN || report.diskVerdict == WARN
  {
    var healthy := true;

    // CPU
    var cpuUsage := Unavailable;
    var cpu := UNKNOWN;
    if systemLoad >= 0.0 {
      var approxCpuUsage := systemLoad / (cores as real) * 100.0;
      if approxCpuUsage < 0.0 {
        approxCpuUsage := 0.0;
      }
      cpuUsage := Value(approxCpuUsage);
      if approxCpuUsage > CPU_USAGE_WARN {
        cpu := WARN;
        healthy := false;
      } else {
        cpu := OK;
      }
    }

    // memory
    var usedMemory := totalMemory - freeMemory;
    var remainingMemory := maxMemory - usedMemory;
    if remainingMemory < 0 {
      remainingMemory := 0;
    }
    var remainingMemoryMb := BytesToMb(remainingMemory);
    var memory := OK;
    if remainingMemoryMb < FREE_MEMORY_WARN_MB {
      memory := WARN;
      healthy := false;
    }

    // disk: minimum free percentage across roots
    var disk := NoRoots;
    var diskVerdict := UNKNOWN;
    if |roots| != 0 {
      var minFreePercent := 100.0;
      var hasDiskData := false;
      for i := 0 to |roots|
        invariant minFreePercent == MinFreePercent(roots[..i])
        invariant hasDiskData <==> HasDiskData(roots[..i])
      {
        var root := roots[i];
        assert roots[..i + 1] == roots[..i] + [root];
        if root.totalSpace > 0 {
          var freePercent := (root.freeSpace as real) * 100.0 / (root.totalSpace as real);
          if freePercent < minFreePercent {
            minFreePercent := freePercent;
          }
          hasDiskData := true;
        }
      }
      assert roots[..|roots|] == roots;
      if !hasDiskData {
        disk := NoUsableData;
      } else {
        disk := MinFree(minFreePercent);
        if minFreePercent < DISK_FREE_WARN_PERCENT {
          diskVerdict := WARN;
          healthy := false;
        } else {
          diskVerdict := OK;
        }
      }
    }

    report := HealthReport(cpuUsage, cpu, BytesToMb(usedMemory), BytesToMb(maxMemory),
                           memory, disk, diskVerdict, if healthy then OK else WARN);
    StillHealthyIff(true, [cpu, memory, diskVerdict]);
  }

  // ----------------------------------------------------------- scenarios

  /** Two roots, one of zero capacity: the minimum is the other root's 5 %. */
  lemma ZeroCapacityRootScenario()
    ensures DiskCheck([Root(0, 0), Root(100, 5)]) == MinFree(5.0)
    ensures DiskVerdict([Root(0, 0), Root(100, 5)]) == WARN
  {
    assert Root(100, 5) in [Root(0, 0), Root(100, 5)];
    assert [Root(0, 0), Root(100, 5)][..1] == [Root(0, 0)];
    assert [Root(0, 0)][..0] == [];
    assert MinFreePercent([Root(0, 0)]) == 100.0;
  }

  /** Load average unavailable, 500 MB of headroom, 50 % free disk: the
      verdicts are UNKNOWN, OK, OK and the overall verdict is OK. */
  lemma UnavailableCpuScenario()
    ensures CpuVerdict(-1.0, 4) == UNKNOWN
    ensures MemoryVerdict(0, 0, 500 * BYTES_PER_MB) == OK
    ensures DiskVerdict([Root(200, 100)]) == OK
    ensures Overall([UNKNOWN, OK, OK]) == OK
  {
    MemoryVerdictIff(0, 0, 500 * BYTES_PER_MB);
    assert Root(200, 100) in [Root(200, 100)];
    assert [Root(200, 100)][..0] == [];
  }
}
