# SystemMonitorCli health check, modelled in Dafny

SystemMonitorCli is an interactive Java console tool. It reports CPU load,
JVM heap usage and filesystem capacity, and it runs a "quick health check".
The check classifies each of the three metrics as OK, WARN or UNKNOWN
against fixed thresholds: CPU usage above 75 %, less than 256 MB of heap
headroom, and less than 15 % free disk on some root. It then folds the three
verdicts into one overall OK/WARN through a `healthy` flag.

This project models that decision procedure, the integer unit conversions it
uses, and the menu dispatch of the command loop:

- `units.dfy` (module `Units`): the range of a Java `long` and Java's
  truncating integer division. It also holds `bytesToMb` and `bytesToGb`.
- `health.dfy` (module `Health`): the three classifications and the
  specification functions behind them. These are the running minimum of the
  disk loop (`MinFreePercent`) and the `healthy` fold (`StillHealthy`,
  `Overall`). The file also holds `runHealthCheck` itself as the method
  `RunHealthCheck`, which keeps the source's step-by-step form: the flag
  starts true and is only cleared, and the disk loop carries the invariants.
- `menu.dfy` (module `Menu`): Java's `String.trim`, the `switch` on the
  trimmed choice, and the `while (running)` loop as the method `Run`. `Run` is
  proved equal to the pure specification `Session`.

The platform readings are parameters: the load average, the number of
processors, the three heap figures and each root's total and free space.
The JVM's `double` arithmetic (`load / cores * 100.0` and
`free * 100.0 / total`) is modelled with exact reals. This is an
idealisation: IEEE-754 rounding is not modelled.

On these points the model follows the code:

- Memory is never UNKNOWN. The code has no "unavailable" path for the heap
  readings.
- Disk is UNKNOWN in two ways, which the report keeps apart: no roots at all
  (`NoRoots`), or only roots of zero capacity (`NoUsableData`).
- The CPU clamp at zero can never fire on exact reals. A negative load has
  already been routed to UNKNOWN, and a non-negative load divided by a
  positive core count is non-negative. `ApproxCpuUsage` states this.
- When standard input ends before option 5 is chosen, `Scanner.nextLine`
  throws and the program stops. `Run` reports this as `InputExhausted`.

## Model

| member | source | states |
|---|---|---|
| `Units.TruncDiv` | SystemMonitorCli.java:219-225 | Java's `/` on longs with a positive divisor: for a ≥ 0 the quotient q satisfies q·d ≤ a < (q+1)·d; for a ≤ 0, (q−1)·d < a ≤ q·d (rounding toward zero) |
| `Units.BytesToMb` | SystemMonitorCli.java:219-221 | `bytesToMb` stays within a long; for b ≥ 0 it is floor division by 1 048 576 (q·2^20 ≤ b < (q+1)·2^20); for negative b it truncates toward zero |
| `Units.BytesToGb` | SystemMonitorCli.java:223-225 | `bytesToGb` is the same bound with 1 073 741 824 |
| `Units.MbBelowIff` | SystemMonitorCli.java:160-164 | for b ≥ 0, the truncated MB figure is below k exactly when b < k·1 048 576 |
| `Health.ApproxCpuUsage` | SystemMonitorCli.java:135-138 | the CPU estimate is never negative; for load ≥ 0 it equals load·100/cores exactly (the clamp never fires); for load ≤ 0 it is 0 |
| `Health.CpuVerdict` | SystemMonitorCli.java:132-148 | the CPU classification; its meaning is proved in `CpuVerdictIff`: UNKNOWN iff load < 0, WARN iff load·100 > 75·cores, OK otherwise |
| `Health.CpuVerdictIff` | SystemMonitorCli.java:132-148 | CPU is UNKNOWN iff load < 0; WARN iff load ≥ 0 and load·100 > 75·cores; OK iff 0 ≤ load and load·100 ≤ 75·cores |
| `Health.CpuAtThresholdIsOk` | SystemMonitorCli.java:142 | a usage of exactly 75 % is OK |
| `Health.RemainingMemory` | SystemMonitorCli.java:150-159 | headroom is never negative and fits a long; when used ≤ max, headroom + used = max; when used ≥ max, headroom is 0 |
| `Health.MemoryVerdict` | SystemMonitorCli.java:160-169 | the memory classification; `MemoryVerdictIff` proves it is never UNKNOWN and WARN iff headroom < 256·1 048 576 bytes |
| `Health.MemoryVerdictIff` | SystemMonitorCli.java:160-169 | memory is never UNKNOWN; it is WARN iff headroom < 256·1 048 576 bytes, so exactly 256 MB is OK |
| `Health.MemoryExhaustedWarns` | SystemMonitorCli.java:153-166 | when used memory reaches or exceeds max (for example after racing reads), headroom is exactly 0 and memory is WARN |
| `Health.FreePercentBelowIff` | SystemMonitorCli.java:184 | a root's free percentage is below k iff free·100 < k·total (the cross-multiplied test) |
| `Health.MinFreePercent` | SystemMonitorCli.java:176-190 | the running minimum of the disk loop; `MinFreeIsLowerBound` and `MinFreeIsAttained` prove it is min(100, the smallest free percentage among roots with total > 0) |
| `Health.MinFreeIsLowerBound` | SystemMonitorCli.java:176-190 | after the loop, the minimum is ≤ 100 and ≤ the free percentage of every root with total > 0 |
| `Health.MinFreeIsAttained` | SystemMonitorCli.java:176-190 | after the loop, the minimum is either the initial 100 or the free percentage of some root with total > 0 |
| `Health.MinFreeDependsOnlyOnPositiveRoots` | SystemMonitorCli.java:179-190 | two root lists with the same roots of positive capacity give the same minimum, whatever the order, repetitions or zero-capacity roots |
| `Health.DiskCheck` | SystemMonitorCli.java:172-195 | what the disk part found: no roots, only zero-capacity roots, or the minimum free percentage; `DiskVerdictIff` characterises the verdict built on it |
| `Health.DiskVerdict` | SystemMonitorCli.java:172-205 | the disk classification; `DiskVerdictIff` proves UNKNOWN iff no root has total > 0 and WARN iff some such root has free·100 < 15·total |
| `Health.DiskVerdictIff` | SystemMonitorCli.java:172-205 | disk is UNKNOWN iff no root has total > 0 (this includes an empty list); WARN iff some root with total > 0 has free·100 < 15·total, so exactly 15 % is OK |
| `Health.ZeroCapacityRootIsIgnored` | SystemMonitorCli.java:183 | inserting a root of capacity ≤ 0 at any position never changes the disk verdict |
| `Health.StillHealthy` | SystemMonitorCli.java:125-200 | the `healthy` flag threaded through the verdicts; `StillHealthyIff` proves it ends true iff it started true and no verdict was WARN |
| `Health.StillHealthyIff` | SystemMonitorCli.java:125-200 | the `healthy` flag after a series of verdicts is true iff it started true and no verdict was WARN (it only ever goes from true to false) |
| `Health.Overall` | SystemMonitorCli.java:207-212 | the overall verdict from the flag; `OverallIff` proves it is never UNKNOWN and WARN iff some metric is WARN |
| `Health.OverallIff` | SystemMonitorCli.java:207-212 | overall is never UNKNOWN; it is WARN iff some metric is WARN, and OK iff every metric is OK or UNKNOWN |
| `Health.RunHealthCheck` | SystemMonitorCli.java:122-213 | the method's CPU, memory and disk results and the printed figures equal the specification functions above; the disk loop keeps `minFreePercent` = running minimum and `hasDiskData` ⇔ some processed root had total > 0; overall is WARN iff one of the three is WARN |
| `Health.ZeroCapacityRootScenario` | SystemMonitorCli.java:176-203 | roots (0,0) and (100,5) give a minimum of 5 %, not UNKNOWN, so disk is WARN |
| `Health.UnavailableCpuScenario` | SystemMonitorCli.java:132-212 | with no load average, 500 MB of headroom and 50 % free disk, the verdicts are UNKNOWN, OK, OK and overall is OK |
| `Menu.TrimStart` | SystemMonitorCli.java:26 | front half of `String.trim`; `TrimStartIsSuffix` proves it removes only characters ≤ U+0020 and keeps a suffix starting with a kept character |
| `Menu.TrimEnd` | SystemMonitorCli.java:26 | back half of `String.trim`; `TrimEndIsPrefix` proves it removes only characters ≤ U+0020 and keeps a prefix ending with a kept character |
| `Menu.TrimStartIsSuffix` | SystemMonitorCli.java:26 | front trimming removes only characters ≤ U+0020 and leaves a suffix that is empty or starts with a kept character |
| `Menu.TrimEndIsPrefix` | SystemMonitorCli.java:26 | back trimming removes only characters ≤ U+0020 and leaves a prefix that is empty or ends with a kept character |
| `Menu.Trim` | SystemMonitorCli.java:26 | the trimmed choice is no longer than the line and is empty or starts and ends with a kept character; `TrimIsSlice` adds that it is a slice of the line with only characters ≤ U+0020 cut off |
| `Menu.TrimIsSlice` | SystemMonitorCli.java:26 | the trimmed choice is a slice s[i..j] of the line, and everything cut off before i and after j is ≤ U+0020 |
| `Menu.TrimStartEmptyIff` | SystemMonitorCli.java:26 | a line trims to nothing from the front iff all its characters are ≤ U+0020 |
| `Menu.TrimIgnoresPadding` | SystemMonitorCli.java:26 | blank padding on either side of a line never changes the trimmed choice |
| `Menu.Select` | SystemMonitorCli.java:28-38 | the choice selects Exit iff it is "5"; it is an invalid option iff it is not one of "1" to "5" |
| `Menu.Dispatch` | SystemMonitorCli.java:26-28 | the action one input line selects: `Select` of the trimmed line, so `Select`'s and `TrimIgnoresPadding`'s contracts apply |
| `Menu.Session` | SystemMonitorCli.java:19-45 | the whole session on a list of input lines; `SessionFacts` characterises it completely |
| `Menu.SessionFacts` | SystemMonitorCli.java:19-45 | a session performs, in input order, the action each line selects; no action before the last is Exit; it ends Exited iff the last action is Exit; otherwise every line was consumed |
| `Menu.Run` | SystemMonitorCli.java:19-45 | the `while (running)` loop produces exactly the actions and the ending of `Session` on its input lines |
| `Menu.ExitScenario` | SystemMonitorCli.java:28-37 | input "abc", " 5 ", "1": an invalid option, then Exit; the third line is never read |
| `Menu.ExhaustedScenario` | SystemMonitorCli.java:28-37 | input "4", "9" without an exit: a health check, an invalid option, then the input runs out |

## Left out

- Console output is not modelled: the menu text, the report lines and
  `formatDouble` (`String.format("%.2f")`). `RunHealthCheck` returns the
  figures it would print (the CPU estimate, used and max MB, the disk
  outcome), not the text.
- `showCpuInfo`, `showMemoryInfo` and `showDiskInfo` are not modelled
  beyond what they share with the health check. They only print figures,
  using the CPU estimate (`ApproxCpuUsage`) and the conversions
  (`BytesToMb`, `BytesToGb`). `Run` records which action a line selects
  without running it.
- The platform queries are parameters: `ManagementFactory`,
  `Runtime.availableProcessors`, `totalMemory`, `freeMemory`, `maxMemory`
  and `File.listRoots`. A `null` root array takes the same branch as an
  empty one, so both are the empty sequence.
- Java `long` wrap-around in `total - free` and `max - used` is not modelled.
  `MemoryReadingsFit` requires both differences to fit in a long, which is
  exactly the no-overflow condition.
- IEEE-754 doubles are not modelled, including their rounding and NaN. The
  CPU estimate and the disk percentages are exact reals.
- `Scanner` mechanics are not modelled. Input is a sequence of lines, and
  end of input stands for the exception `nextLine` throws.
