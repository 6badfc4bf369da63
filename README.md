# Per-device I/O attribution monitors, modelled in Dafny

The repository holds Linux kernel modules that report which processes do
I/O on one block device. This project models and verifies their
bookkeeping in three parts.

- **The live attribution engine** (`tasksIO_for_oneDev/v2/io_monitorv2.c`).
  A kprobe on `submit_bio` credits each bio to the submitting process. The
  bio is credited only when it is on the rule's device and in a direction
  the rule tracks. The module keeps:
  - global read and write counters;
  - a 1024-bucket table with one record per pid;
  - one replaceable filter rule.

  `proc_show` prints the totals, then every record bucket by bucket.
  - Module `Attribution` describes this engine as values: the state, what
    one bio does to it (`Handle`), a run of bios (`Run`) and the report.
  - Class `IoMonitorV2.IoStatMonitor` keeps the same state in place: an
    array of buckets and fields for the counters and the rule. Each of its
    methods is proved to act as the matching function of `Attribution`.
- **The sampling rate estimator** (`tasksIO_for_oneDev/v1/io_monitor_0731.c`).
  A read of its proc file makes two passes over all processes.
  - The first pass records, in a 1024-bucket pid table, every process that
    has bytes on the target device. It stores each process's bytes and the
    clock reading.
  - The second pass looks each process up again. It prints bytes per
    millisecond: the growth of the counters divided by the whole
    milliseconds elapsed.
  - The table is emptied before and after the two passes.

  Module `RateSampling` describes the two passes as values. Class
  `IoMonitor0731.RateMonitor` runs them on an array of buckets.
- **The device-filtered snapshot** (`tasksIO_for_oneDev/v1/io_monitor.c`).
  It prints every process with its byte counts on the target device.
  Class `IoMonitorV1.IoMonitor` models it.

Both v1 monitors count bytes the same way (`get_dev_io_stats`), modelled
in `DevFilter`. Every thread that has a file table adds its accumulated
read and write bytes once for each of its open descriptors whose file is on
the target device. The method `DevFilter.DescriptorBytes` is that inner loop,
and both classes call it.

The kernel is replaced by inputs:
- A process is a `Kernel.Task`: its pid, its name, an optional parent and
  a sequence of threads. Each thread has an optional descriptor table and
  its I/O accounting. Each descriptor slot may hold a file, which may have
  an inode, which may have a superblock device.
- `for_each_process` becomes the sequence of processes a pass visits.
- Outcomes the modules cannot control are parameters:
  - the result of `kmalloc` (`allocOk`);
  - the result of `lookup_bdev` (`lookupRet`, `lookupDev`);
  - the result of `register_kprobe` (`registerRet`);
  - whether the proc entry was created (`procCreated`);
  - the `ktime_get_ns` reading of each `get_dev_io_stats` call (`Sample.ns`, `now`).
- A device number is a natural number. `MkDev` puts the major number above
  20 minor bits, so `Major` and `Minor` invert it.
- Records are values stored in the buckets, each bucket a sequence from its
  head. A pointer to a record becomes its position in the bucket.

## Model

| member | source | states |
|---|---|---|
| Kernel.MkDevRoundTrip | tasksIO_for_oneDev/v2/io_monitorv2.c:130 | MAJOR and MINOR recover the numbers a device number was built from with MKDEV |
| Kernel.MkDevInjective | tasksIO_for_oneDev/v1/io_monitor.c:85-88 | the major:minor pair a report prints determines the device |
| Kernel.CommCopy | tasksIO_for_oneDev/v1/io_monitor_0731.c:221-222 | a copied command name is the whole name when it is shorter than TASK_COMM_LEN, and otherwise exactly its first TASK_COMM_LEN - 1 characters |
| PidHash.EmptyTable | tasksIO_for_oneDev/v1/io_monitor_0731.c:45-52 | all 1024 buckets are empty |
| PidHash.Find | tasksIO_for_oneDev/v2/io_monitorv2.c:50-55 | the scan of a bucket from its head returns the first record with the pid, and none exactly when no record has it |
| PidHash.Lookup | tasksIO_for_oneDev/v1/io_monitor_0731.c:32-44 | a record is found only in bucket pid % 1024, has the pid searched for, and is missing exactly when that bucket has no such record |
| PidHash.AtMostOnePerPid | tasksIO_for_oneDev/v2/io_monitorv2.c:44-72 | in a well-formed table, two records with the same pid are the same record |
| PidHash.LookupExact | tasksIO_for_oneDev/v2/io_monitorv2.c:44-56 | in a well-formed table, a lookup returns the record the table holds for the pid |
| PidHash.PrependKeepsWellFormed | tasksIO_for_oneDev/v2/io_monitorv2.c:67-69 | adding a record for a new pid at the head of its bucket keeps one record per pid, and lookup then finds it |
| PidHash.ReplaceKeepsWellFormed | tasksIO_for_oneDev/v2/io_monitorv2.c:94 | updating a record's counters in place keeps one record per pid |
| PidHash.PrependOtherPid | tasksIO_for_oneDev/v2/io_monitorv2.c:68 | adding a record changes no other pid's lookup |
| PidHash.ReplaceOtherPid | tasksIO_for_oneDev/v2/io_monitorv2.c:97 | updating a record's counters changes no other pid's lookup |
| PidHash.FlattenMembership | tasksIO_for_oneDev/v2/io_monitorv2.c:135-142 | the walk over the buckets yields every record of the table and nothing else |
| PidHash.FlattenLength | tasksIO_for_oneDev/v2/io_monitorv2.c:135-142 | the walk yields as many lines as the buckets hold records |
| PidHash.FlattenOrdered | tasksIO_for_oneDev/v2/io_monitorv2.c:135 | in a well-formed table the walk visits buckets in ascending order and yields no pid twice |
| PidHash.FlattenEmpty | tasksIO_for_oneDev/v2/io_monitorv2.c:189-194 | a walk over emptied buckets yields nothing |
| DevFilter.DescriptorBytes | tasksIO_for_oneDev/v1/io_monitor_0731.c:108-128 | the descriptor loop adds the thread's read and write bytes once per slot holding a file whose inode's superblock is on the device |
| DevFilter.MatchingFdsZero | tasksIO_for_oneDev/v1/io_monitor.c:48-67 | a descriptor table contributes nothing exactly when no slot is on the device (closed slot, no inode, no superblock or another device), and it counts at most one match per slot |
| DevFilter.DevBytesAppend | tasksIO_for_oneDev/v1/io_monitor.c:41-71 | a process's count is the sum of its threads' contributions |
| DevFilter.ThreadBytesPositive | tasksIO_for_oneDev/v1/io_monitor.c:45-64 | a thread adds something exactly when it has a descriptor on the device and has moved bytes |
| DevFilter.DevBytesPositive | tasksIO_for_oneDev/v1/io_monitor.c:41-71 | a process's count is positive exactly when one of its threads contributes |
| DevFilter.DevBytesNeedsFileTable | tasksIO_for_oneDev/v1/io_monitor_0731.c:102-103 | threads without a file table contribute nothing, so a positive count implies some thread has one |
| Attribution.Add | tasksIO_for_oneDev/v2/io_monitorv2.c:94-97 | crediting a record adds the bytes to one direction and keeps its pid, name and other counter |
| Attribution.Classify | tasksIO_for_oneDev/v2/io_monitorv2.c:82-98 | a bio is attributed exactly when it has a block device equal to the installed rule's; it is counted in its own direction only if the rule tracks that direction |
| Attribution.GetOrCreate | tasksIO_for_oneDev/v2/io_monitorv2.c:44-72 | only bucket pid % 1024 changes; an existing record is returned with the table unchanged; otherwise a zeroed record with the task's name goes at the head; allocation failure returns none and changes nothing |
| Attribution.GetOrCreateFinds | tasksIO_for_oneDev/v2/io_monitorv2.c:44-72 | get_proc_stats keeps one record per pid, returns the record lookup finds, and changes no other pid's lookup |
| Attribution.RunSnoc | tasksIO_for_oneDev/v2/io_monitorv2.c:75-102 | a run followed by one more bio is the longer run |
| Attribution.SumFlatten | tasksIO_for_oneDev/v2/io_monitorv2.c:135-142 | the report lines add up to the table's sum |
| Attribution.HandleIgnored | tasksIO_for_oneDev/v2/io_monitorv2.c:82-88 | with no bio, no block device, no rule or another device, the hook changes nothing |
| Attribution.HandleKeepsRule | tasksIO_for_oneDev/v2/io_monitorv2.c:86 | the hook never changes the rule |
| Attribution.HandleTotals | tasksIO_for_oneDev/v2/io_monitorv2.c:88-98 | a global counter grows by the bio's size exactly when the bio is selected and its direction tracked; at most one direction grows per bio |
| Attribution.HandleRecords | tasksIO_for_oneDev/v2/io_monitorv2.c:88-98 | after a selected bio, the submitter's record is created (even for an untracked direction) and credited in the counted direction; other pids' records and the one-record-per-pid property are kept; a failed allocation leaves the table unchanged |
| Attribution.HandleBalance | tasksIO_for_oneDev/v2/io_monitorv2.c:92-97 | the per-process sum grows by exactly what the global counter grows by, unless the record could not be created |
| Attribution.RunBalance | tasksIO_for_oneDev/v2/io_monitorv2.c:75-102 | over any run of bios, allocation failures included, the table keeps one record per pid and the rule, and each global counter grows by what the per-process sum grows by plus the bytes whose record could not be allocated (Dropped) |
| Attribution.DroppedNone | tasksIO_for_oneDev/v2/io_monitorv2.c:59-60 | a run in which every kmalloc succeeds drops no bytes |
| Attribution.RunUniform | tasksIO_for_oneDev/v2/io_monitorv2.c:92-96 | N tracked bios of L bytes on the rule's device add N * L to that direction's global counter |
| Attribution.Fresh | tasksIO_for_oneDev/v2/io_monitorv2.c:151-156 | the state after init has zero totals, zero per-process sums and no record |
| Attribution.FreshRunAccounted | tasksIO_for_oneDev/v2/io_monitorv2.c:92-97 | from a fresh load with allocation succeeding, each global counter equals the sum of the per-process counters |
| Attribution.ReportComplete | tasksIO_for_oneDev/v2/io_monitorv2.c:126-144 | the report lists exactly the table's records, each pid once, in ascending bucket order, as many lines as records, and the lines sum to the table's sums |
| IoMonitorV2.IoStatMonitor.constructor | tasksIO_for_oneDev/v2/io_monitorv2.c:13-38 | on load the counters are zero, every bucket is empty and no rule is installed |
| IoMonitorV2.IoStatMonitor.GetProcStats | tasksIO_for_oneDev/v2/io_monitorv2.c:44-72 | the bucket scan and head insertion leave the table and result that GetOrCreate gives |
| IoMonitorV2.IoStatMonitor.SubmitBioEntryHandler | tasksIO_for_oneDev/v2/io_monitorv2.c:75-102 | returns 0, the in-place counters and table become Handle of the old state, and the table keeps one record per pid |
| IoMonitorV2.IoStatMonitor.AttributeBio | tasksIO_for_oneDev/v2/io_monitorv2.c:82-98 | the hook's body leaves the in-place counters and table as Handle of the old state |
| IoMonitorV2.IoStatMonitor.CreditRecord | tasksIO_for_oneDev/v2/io_monitorv2.c:94 | adding to one counter of a record in place leaves the table Credit of the old one |
| IoMonitorV2.IoStatMonitor.SubmitAll | tasksIO_for_oneDev/v2/io_monitorv2.c:75-102 | the hook called on each bio in turn leaves the state Run of the old state, with one record per pid |
| IoMonitorV2.IoStatMonitor.UpdateRule | tasksIO_for_oneDev/v2/io_monitorv2.c:106-123 | on allocation failure -ENOMEM with the rule kept; otherwise 0 and exactly the new rule; nothing else changes, the reported device included |
| IoMonitorV2.IoStatMonitor.ProcShow | tasksIO_for_oneDev/v2/io_monitorv2.c:126-144 | the nested bucket loop produces ReportOf the current state and changes nothing |
| IoMonitorV2.IoStatMonitor.IoStatInit | tasksIO_for_oneDev/v2/io_monitorv2.c:147-176 | every bucket is empty, the reported device is 8:3, the rule is (8:3, read, write) unless its allocation failed, and a negative registration result is returned |
| IoMonitorV2.IoStatMonitor.IoStatExit | tasksIO_for_oneDev/v2/io_monitorv2.c:179-198 | every bucket is empty, the rule is gone, and the counters and device are kept |
| IoMonitorV2.Session | tasksIO_for_oneDev/v2/io_monitorv2.c:147-198 | after load with the kprobe registered, any run of bios with allocation succeeding and a read of the report, the report shows 8:3 and per-process lines summing to the global counters; after exit it lists nothing |
| IoMonitorV1.RowOf | tasksIO_for_oneDev/v1/io_monitor.c:91-115 | a line carries the process's pid, name and device byte counts, with parent pid 0 and parent name "none" when there is no real parent |
| IoMonitorV1.IoMonitor.constructor | tasksIO_for_oneDev/v1/io_monitor.c:13-22 | on load the target is unresolved |
| IoMonitorV1.IoMonitor.GetDevIoStats | tasksIO_for_oneDev/v1/io_monitor.c:25-72 | the outputs are zero while the target is unresolved and otherwise the sum over threads of matching descriptors times the thread's bytes |
| IoMonitorV1.IoMonitor.IoMonitorShow | tasksIO_for_oneDev/v1/io_monitor.c:74-121 | the report names the device and its major:minor, and has one line per process in visiting order, each as RowOf gives it |
| IoMonitorV1.IoMonitor.IoMonitorInit | tasksIO_for_oneDev/v1/io_monitor.c:145-172 | an empty name gives -EINVAL and a failed lookup its own error, both leaving the target as it was; otherwise the target becomes (dev, valid), and the result is -ENOMEM without a proc entry, 0 with one |
| RateSampling.WrapSub64 | tasksIO_for_oneDev/v1/io_monitor_0731.c:207 | u64 subtraction is exact when nothing wraps and adds 2^64 when the first operand is smaller |
| RateSampling.ByteRate | tasksIO_for_oneDev/v1/io_monitor_0731.c:212-214 | the rate is the floor of the counter's growth over the elapsed milliseconds, zero when the counter did not grow, and never more than the counter |
| RateSampling.LookupInsert | tasksIO_for_oneDev/v1/io_monitor_0731.c:180-182 | after a head insertion, the new record is what lookup finds for its pid, and every other pid's lookup is unchanged |
| RateSampling.LatestActiveIndex | tasksIO_for_oneDev/v1/io_monitor_0731.c:165-184 | names the last sample of a pid with device bytes, and none exactly when the pid never had any |
| RateSampling.FirstPassLookup | tasksIO_for_oneDev/v1/io_monitor_0731.c:165-184 | after the first pass, a pid has a record exactly when one of its samples had device bytes; the record is that of the last such sample, with its counts and clock reading |
| RateSampling.RateRowSpec | tasksIO_for_oneDev/v1/io_monitor_0731.c:190-228 | a process is skipped exactly when it has no first-pass record, no device bytes now, or a zero nanosecond delta; a line has the process's pid, name, parent pid and copied parent name (0 and an empty name without a parent); rates are zero under one millisecond and otherwise the floor of growth per millisecond |
| RateSampling.LinesLength | tasksIO_for_oneDev/v1/io_monitor_0731.c:190-238 | a pass prints at most one line per process |
| RateSampling.LinesSound | tasksIO_for_oneDev/v1/io_monitor_0731.c:190-238 | every printed line is the line of a process the pass visited |
| RateSampling.LinesCover | tasksIO_for_oneDev/v1/io_monitor_0731.c:190-238 | every process that is not skipped has its line printed |
| RateSampling.ShowRowsTracked | tasksIO_for_oneDev/v1/io_monitor_0731.c:172-202 | a line is printed only for a pid that had device bytes in both passes |
| RateSampling.UnresolvedShowsNothing | tasksIO_for_oneDev/v1/io_monitor_0731.c:91-92 | while the target is unresolved the report has no line |
| RateSampling.ByteRateAgrees | tasksIO_for_oneDev/v1/io_monitor_0731.c:213-214 | where the counter did not go down, the rate as written equals the corrected rate |
| RateSampling.ClosingDescriptorLowersCount | tasksIO_for_oneDev/v1/io_monitor_0731.c:122-126 | a process's count drops from 200 to 100 when it closes one of two descriptors on the device |
| RateSampling.DecreasingCounterWraps | tasksIO_for_oneDev/v1/io_monitor_0731.c:213-214 | with a count going from 200 to 100 over 50 ms, the rate as written is (2^64 - 100) / 50 and the corrected rate is 0 |
| RateSampling.FirstPassAsWritten | tasksIO_for_oneDev/v1/io_monitor_0731.c:166-182 | the single reused record ends holding the last visited process's pid, and nothing is linked without samples |
| RateSampling.FindsOnlyLastVisited | tasksIO_for_oneDev/v1/io_monitor_0731.c:197-198 | as written, find_node finds a record only for the last process the first pass visited |
| RateSampling.StackRecordLost | tasksIO_for_oneDev/v1/io_monitor_0731.c:166-182 | two active processes, pids 1 and 2: as written pid 1 is not found, while with a record per process it is found with its count and time |
| RateSampling.StackRecordSpins | tasksIO_for_oneDev/v1/io_monitor_0731.c:36-41 | two active processes in one bucket, pids 1 and 1025: as written the record links to itself and find_node for pid 1 never returns |
| IoMonitor0731.RateMonitor.constructor | tasksIO_for_oneDev/v1/io_monitor_0731.c:20-29 | on load the target is unresolved and every bucket is empty |
| IoMonitor0731.RateMonitor.FindNode | tasksIO_for_oneDev/v1/io_monitor_0731.c:32-44 | the bucket scan returns what Lookup finds and changes nothing |
| IoMonitor0731.RateMonitor.InitHashHeads | tasksIO_for_oneDev/v1/io_monitor_0731.c:45-52 | all 1024 buckets become empty |
| IoMonitor0731.RateMonitor.ClearHashHeads | tasksIO_for_oneDev/v1/io_monitor_0731.c:53-70 | unlinking every record empties all 1024 buckets |
| IoMonitor0731.RateMonitor.GetDevIoStats | tasksIO_for_oneDev/v1/io_monitor_0731.c:73-135 | with a missing task or a null pointer nothing is written; otherwise the outputs are the device byte counts (zero while unresolved), and the time output takes the clock reading exactly when the target is resolved and some thread has a file table |
| IoMonitor0731.RateMonitor.IoMonitorShow | tasksIO_for_oneDev/v1/io_monitor_0731.c:137-244 | the report names the device and its major:minor; its lines are the second pass's lines against the first pass's table; the table is empty afterwards |
| IoMonitor0731.RateMonitor.RecordFirstPass | tasksIO_for_oneDev/v1/io_monitor_0731.c:165-184 | starting from empty buckets, the table becomes FirstPass of the samples |
| IoMonitor0731.RateMonitor.RateSecondPass | tasksIO_for_oneDev/v1/io_monitor_0731.c:190-238 | the lines printed are RateRows of the samples against the current table |
| IoMonitor0731.RateMonitor.SecondPassLine | tasksIO_for_oneDev/v1/io_monitor_0731.c:191-237 | one iteration prints the line RateRowOf gives, or nothing when it skips the process |
| IoMonitor0731.RateMonitor.IoMonitorInit | tasksIO_for_oneDev/v1/io_monitor_0731.c:268-306 | a name of DISK_NAME_LEN or more characters, or an empty one, gives -EINVAL, and a failed lookup its own error, with nothing changed; otherwise the target becomes (dev, valid), the buckets are emptied, and the result is -ENOMEM without a proc entry, 0 with one |
| IoMonitor0731.RateMonitor.IoMonitorExit | tasksIO_for_oneDev/v1/io_monitor_0731.c:308-318 | every bucket is empty |
| IoMonitor0731.ActiveTimestamp | tasksIO_for_oneDev/v1/io_monitor_0731.c:102-106 | a process with device bytes has a thread with a file table, so its clock reading was taken during this call |

## Left out

- Spinlocks, RCU (`rcu_read_lock`, `synchronize_rcu`, `kfree_rcu`) and the atomic counters are left out: the model is one sequential thread of control.
- IoMonitorV2.IoStatMonitor.GetProcStats: the race between lookup and creation is not modelled (two CPUs could both add a record for one pid), so the one-record-per-pid property holds for sequential use only.
- kprobe registration and reading the bio from the `di` register are left out. The hook's input is an `Attribution.Event`, and registration is the `registerRet` parameter.
- The procfs and seq_file plumbing is left out (`proc_create`, `single_open`, `remove_proc_entry`, the file operations). A report is a value holding the lines' fields; the text layout, column widths and separator lines are not modelled.
- IoMonitorV2.IoStatMonitor.IoStatInit: the result of `proc_create_single` is ignored by the source, so it is not a parameter.
- IoMonitorV2.IoStatMonitor.IoStatExit: the freeing of the records and of the rule is modelled as their removal.
- The `io_monitor_exit` of `v1/io_monitor.c` only removes the proc entry, so it is left out.
- IoMonitor0731.RateMonitor.IoMonitorShow: the null check of the seq_file pointer is left out, because a report value always exists.
- `msleep` between the two passes is left out. The second pass's processes and clock readings are independent inputs.
- Each `get_dev_io_stats` call takes one clock reading (`now` or `Sample.ns`). The source reads the clock once per thread with a file table and keeps the last reading; the model uses a single reading for the whole call.
- IoMonitor0731.RateMonitor.GetDevIoStats requires its three output pointers to be distinct when they are not null. Every caller in the source passes distinct variables.
- Byte counters are unbounded naturals: the 64-bit accumulators and the global counters do not wrap. The unsigned subtraction of the two clock readings is modelled exactly (`WrapSub64`).
- RateSampling.RateRowOf and IoMonitor0731.RateMonitor.SecondPassLine use the corrected byte delta of the first Finding (`ByteRate`, zero growth when a count went down). Where a count went down, the line they give differs from the one the source prints; the source's value is `ByteRateAsWritten`.
- RateSampling.ByteRate divides by the full number of elapsed milliseconds. `div_u64` takes a 32-bit divisor, so the source truncates it modulo 2^32 (and divides by zero at a nonzero multiple of 2^32). This needs about 49 days between the two passes of one read, which are 50 ms apart.
- The name length limit of `module_param_string` is left out: the kernel refuses a device parameter of DISK_NAME_LEN characters or more when the module is loaded. The name is taken as given, so the length check of `io_monitor_init` in `io_monitor_0731.c`, which that limit makes unreachable, is modelled as written.
- `get_task_comm` and `strncpy` into a TASK_COMM_LEN buffer are modelled as `CommCopy`, keeping at most 15 characters. Character encodings are not modelled.
- RateSampling.FirstPass gives each first-pass record its own storage. The code as written links one reused stack variable; that behaviour is modelled separately, under Findings.
- The freeing of stack memory by `clear_hlist_head` after the first pass as written is not modelled; it is undefined behaviour.
- `tasksIO_for_oneDev/io_monitor.c`, `module_proc_read/task_IO_read.c`, the user-space tool `v1/user_cmd/my_iostat.c`, `test_linux_module/hello.c` and the generated `*.mod.c` files are not part of this model. They print task fields, draw a terminal UI or hold build metadata.

## Findings

| source | as written | input that shows it | evidently intended | confidence | as-written member | corrected member |
|---|---|---|---|---|---|---|
| tasksIO_for_oneDev/v1/io_monitor_0731.c:213-214 | the rate subtracts the first-pass byte count from the second as u64; when the count went down (a descriptor on the device was closed between the passes) the subtraction wraps to nearly 2^64 | counts 200 then 100 over 50 ms: the rate printed is (2^64 - 100) / 50 bytes per ms | a count that did not grow gives a rate of 0 | not executed | RateSampling.DecreasingCounterWraps | RateSampling.ByteRate |
| tasksIO_for_oneDev/v1/io_monitor_0731.c:166-182 | the first pass links `first_stats`, a variable of the loop body, into the table; every iteration reuses it, so all buckets point to one record holding the last visited process | active pids 1 and 2: find_node(1) returns NULL. Active pids 1 and 1025 (same bucket): the record's next pointer points to itself and find_node(1) never returns | each active process keeps its own record until the second pass | not executed; the behaviour is undefined, and the row assumes the stack slot is reused from one iteration to the next and not shared with `second_stats` (if it is, find_node returns `second_stats` itself, the time delta is 0 and no line is printed) | RateSampling.StackRecordLost | RateSampling.FirstPassLookup |
