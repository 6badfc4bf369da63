/** The two-pass rate report of the sampling monitor (v1/io_monitor_0731.c)
    as values: the first pass records every process with device I/O in the
    pid hash table, the second pass turns the growth of each recorded
    process's bytes into bytes per millisecond. The class in IoMonitor0731
    is proved to follow these functions. */
module RateSampling {
  import opened Kernel
  import opened PidHash
  import opened DevFilter

  /** 2^64: u64 arithmetic wraps modulo this. */
  const U64Modulus: nat := 0x1_0000_0000_0000_0000
  const NsPerMs: nat := 1_000_000

  /** A first-pass record (struct task_io_stats as the first pass fills it):
      the pid, the bytes on the device, and the clock reading taken while
      counting them. */
  datatype TaskIoStats = TaskIoStats(pid: Pid, readBytes: nat, writeBytes: nat, recordTimeNs: nat)

  function PidOfStats(s: TaskIoStats): Pid
  {
    s.pid
  }

  /** One process as a pass visits it, and the ktime_get_ns reading its
      get_dev_io_stats call takes. */
  datatype Sample = Sample(task: Task, ns: nat)

  /** A report line: name, pid, parent name, parent pid, and the read and
      write rates in bytes per millisecond. */
  datatype RateRow = RateRow(comm: string, pid: Pid, parentComm: string, ppid: Pid, readBytesPms: nat, writeBytesPms: nat)

  /** What a read of the proc file shows: the device name, the target's
      major and minor numbers, and the rate lines. */
  datatype RateReport = RateReport(device: string, major: nat, minor: nat, rows: seq<RateRow>)

  /** A process is kept by a pass when it has read or written something on
      the device. */
  predicate Active(task: Task, info: DeviceInfo)
  {
    DevIoStats(task, info, Read) != 0 || DevIoStats(task, info, Write) != 0
  }

  function FirstRecord(s: Sample, info: DeviceInfo): TaskIoStats
  {
    TaskIoStats(s.task.pid, DevIoStats(s.task, info, Read), DevIoStats(s.task, info, Write), s.ns)
  }

  /** hlist_add_head into bucket pid % 1024. */
  function Insert(t: Table<TaskIoStats>, r: TaskIoStats): Table<TaskIoStats>
  {
    t[BucketOf(r.pid) := [r] + t[BucketOf(r.pid)]]
  }

  /** The table after the first pass over the processes, starting from
      empty buckets: each active process's record is put at the head of its
      bucket, inactive processes are skipped. */
  function FirstPass(samples: seq<Sample>, info: DeviceInfo): Table<TaskIoStats>
  {
    if samples == [] then EmptyTable()
    else
      var t := FirstPass(samples[..|samples| - 1], info);
      var s := samples[|samples| - 1];
      if Active(s.task, info) then Insert(t, FirstRecord(s, info)) else t
  }

  /** Sample i is the last active sample of pid p. */
  predicate LatestActive(samples: seq<Sample>, info: DeviceInfo, p: Pid, i: int)
  {
    && 0 <= i < |samples|
    && samples[i].task.pid == p
    && Active(samples[i].task, info)
    && forall j :: i < j < |samples| && samples[j].task.pid == p ==> !Active(samples[j].task, info)
  }

  /** u64 subtraction a - b: exact when b <= a, wrapping round 2^64 when
      a < b. */
  function WrapSub64(a: nat, b: nat): (r: nat)
    ensures r < U64Modulus
    ensures b <= a < b + U64Modulus ==> r == a - b
    ensures a < b <= a + U64Modulus ==> r == U64Modulus - (b - a)
  {
    (a - b) % U64Modulus
  }

  /** The growth of a byte counter, zero when it went down. */
  function Delta(now: nat, last: nat): nat
  {
    if now >= last then now - last else 0
  }

  /** q is x divided by m, rounded down. */
  predicate FloorDiv(q: nat, x: nat, m: nat)
  {
    q * m <= x < (q + 1) * m
  }

  /** Bytes per millisecond over ms milliseconds: the floor of the growth
      divided by ms; zero when the counter did not grow, and never more than
      the current counter. */
  function ByteRate(now: nat, last: nat, ms: nat): (r: nat)
    requires ms > 0
    ensures FloorDiv(r, Delta(now, last), ms)
    ensures now <= last ==> r == 0
    ensures r <= now
  {
    DeltaRate(now, last, ms);
    Delta(now, last) / ms
  }

  lemma DeltaRate(now: nat, last: nat, ms: nat)
    requires ms > 0
    ensures FloorDiv(Delta(now, last) / ms, Delta(now, last), ms)
    ensures Delta(now, last) / ms <= now
    ensures now <= last ==> Delta(now, last) / ms == 0
  {
    var x := Delta(now, last);
    DivFloor(x, ms);
    assert x <= now;
  }

  lemma DivFloor(x: nat, m: nat)
    requires m > 0
    ensures FloorDiv(x / m, x, m)
    ensures x / m <= x
  {
    var q, r := x / m, x % m;
    assert x == q * m + r && 0 <= r < m;
    MulStep(q, m);
    MulAtLeast(q, m);
  }

  lemma MulStep(q: nat, m: nat)
    ensures (q + 1) * m == q * m + m
  {
  }

  lemma MulAtLeast(q: nat, m: nat)
    requires m > 0
    ensures q <= q * m
  {
    MulStep(q, m - 1);
    assert q * m == q * (m - 1) + q;
  }

  /** The byte rate as io_monitor_show computes it: u64 subtraction of the
      two counters, then division. */
  function ByteRateAsWritten(now: nat, last: nat, ms: nat): nat
    requires ms > 0
  {
    WrapSub64(now, last) / ms
  }

  /** The line the second pass prints for one process, given the first-pass
      table; None when the process is skipped: no first-pass record, no I/O
      on the device now, or no time elapsed since its record. Less than a
      millisecond elapsed gives zero rates. */
  function RateRowOf(s: Sample, t: Table<TaskIoStats>, info: DeviceInfo): Option<RateRow>
  {
    match Lookup(t, PidOfStats, s.task.pid)
    case None => None
    case Some(last) =>
      if !Active(s.task, info) then None
      else
        var dns := WrapSub64(s.ns, last.recordTimeNs);
        if dns == 0 then None
        else
          var ms := dns / NsPerMs;
          var r, w := DevIoStats(s.task, info, Read), DevIoStats(s.task, info, Write);
          var ppid := if s.task.parent.Some? then s.task.parent.value.pid else 0;
          var pcomm := if s.task.parent.Some? then CommCopy(s.task.parent.value.comm) else "";
          if ms > 0 then
            Some(RateRow(CommCopy(s.task.comm), s.task.pid, pcomm, ppid,
                         ByteRate(r, last.readBytes, ms), ByteRate(w, last.writeBytes, ms)))
          else
            Some(RateRow(CommCopy(s.task.comm), s.task.pid, pcomm, ppid, 0, 0))
  }

  /** The lines a pass over xs prints when line gives the line of each
      element, or None to skip it: in the order of xs. */
  function Lines<S, R>(xs: seq<S>, line: S -> Option<R>): seq<R>
  {
    if xs == [] then []
    else
      var rows := Lines(xs[..|xs| - 1], line);
      match line(xs[|xs| - 1])
      case None => rows
      case Some(r) => rows + [r]
  }

  /** The lines of the second pass, in the order it visits the processes. */
  function RateRows(samples: seq<Sample>, t: Table<TaskIoStats>, info: DeviceInfo): seq<RateRow>
  {
    Lines(samples, s => RateRowOf(s, t, info))
  }

  // ---------------------------------------------------------------------
  // The first pass

  /** After putting a record at the head of its bucket, Lookup of its pid
      finds that record, and Lookup of every other pid is as before. */
  lemma LookupInsert(t: Table<TaskIoStats>, r: TaskIoStats, q: Pid)
    ensures Lookup(Insert(t, r), PidOfStats, q) == if q == r.pid then Some(r) else Lookup(t, PidOfStats, q)
  {
    if q != r.pid {
      PrependOtherPid(t, PidOfStats, r, q);
    }
  }

  /** The position of the last active sample of pid p, None when p has no
      active sample. */
  function LatestActiveIndex(samples: seq<Sample>, info: DeviceInfo, p: Pid): (r: Option<nat>)
    ensures r.Some? ==> LatestActive(samples, info, p, r.value)
    ensures r.None? <==>
      forall i :: 0 <= i < |samples| && samples[i].task.pid == p ==> !Active(samples[i].task, info)
  {
    if samples == [] then None
    else
      var n := |samples| - 1;
      if samples[n].task.pid == p && Active(samples[n].task, info) then Some(n)
      else
        var r := LatestActiveIndex(samples[..n], info, p);
        assert forall i :: 0 <= i < n ==> samples[..n][i] == samples[i];
        r
  }

  /** The first pass keeps a record for exactly the processes that were
      active, and the record Lookup finds for a pid is the one of its last
      active sample (the most recent one sits at the head of the bucket). */
  lemma {:induction false} FirstPassLookup(samples: seq<Sample>, info: DeviceInfo, p: Pid)
    ensures Lookup(FirstPass(samples, info), PidOfStats, p) ==
      match LatestActiveIndex(samples, info, p)
      case None => None
      case Some(i) => Some(FirstRecord(samples[i], info))
  {
    if samples == [] {
      assert Lookup(EmptyTable<TaskIoStats>(), PidOfStats, p).None?;
    } else {
      var n := |samples| - 1;
      var pre := samples[..n];
      var s := samples[n];
      FirstPassLookup(pre, info, p);
      var i := LatestActiveIndex(pre, info, p);
      if i.Some? {
        assert pre[i.value] == samples[i.value];
      }
      if Active(s.task, info) {
        LookupInsert(FirstPass(pre, info), FirstRecord(s, info), p);
      }
    }
  }

  // ---------------------------------------------------------------------
  // The second pass

  /** The second pass skips a process exactly when it has no first-pass
      record, is not active now, or no time passed since its record; a line
      it prints carries the process's own pid, name and parent, and rates
      that are the floor of each counter's growth per elapsed whole
      millisecond (zero under a millisecond), never above the counter. */
  lemma RateRowSpec(s: Sample, t: Table<TaskIoStats>, info: DeviceInfo)
    ensures RateRowOf(s, t, info).Some? <==>
      && Lookup(t, PidOfStats, s.task.pid).Some?
      && Active(s.task, info)
      && WrapSub64(s.ns, Lookup(t, PidOfStats, s.task.pid).value.recordTimeNs) != 0
    ensures RateRowOf(s, t, info).Some? ==>
      var row := RateRowOf(s, t, info).value;
      var last := Lookup(t, PidOfStats, s.task.pid).value;
      var ms := WrapSub64(s.ns, last.recordTimeNs) / NsPerMs;
      && row.pid == s.task.pid && row.comm == CommCopy(s.task.comm)
      && row.ppid == (if s.task.parent.Some? then s.task.parent.value.pid else 0)
      && (s.task.parent.None? ==> row.parentComm == "")
      && (s.task.parent.Some? ==> row.parentComm == CommCopy(s.task.parent.value.comm))
      && row.readBytesPms <= DevIoStats(s.task, info, Read)
      && row.writeBytesPms <= DevIoStats(s.task, info, Write)
      && (ms == 0 ==> row.readBytesPms == 0 && row.writeBytesPms == 0)
      && (ms > 0 ==>
            && FloorDiv(row.readBytesPms, Delta(DevIoStats(s.task, info, Read), last.readBytes), ms)
            && FloorDiv(row.writeBytesPms, Delta(DevIoStats(s.task, info, Write), last.writeBytes), ms))
  {
  }

  /** A pass prints at most one line per element. */
  lemma {:induction false} LinesLength<S, R>(xs: seq<S>, line: S -> Option<R>)
    ensures |Lines(xs, line)| <= |xs|
  {
    if xs != [] {
      LinesLength(xs[..|xs| - 1], line);
    }
  }

  /** Every line a pass prints is the line of one of its elements. */
  lemma {:induction false} LinesSound<S, R>(xs: seq<S>, line: S -> Option<R>, j: nat)
    requires j < |Lines(xs, line)|
    ensures exists k :: 0 <= k < |xs| && line(xs[k]) == Some(Lines(xs, line)[j])
  {
    var n := |xs| - 1;
    var pre := xs[..n];
    var rows0 := Lines(pre, line);
    if j < |rows0| {
      LinesSound(pre, line, j);
      var k :| 0 <= k < n && line(pre[k]) == Some(rows0[j]);
      assert pre[k] == xs[k];
    } else {
      assert line(xs[n]) == Some(Lines(xs, line)[j]);
    }
  }

  /** Every element whose line is not skipped has its line printed. */
  lemma {:induction false} LinesCover<S, R>(xs: seq<S>, line: S -> Option<R>, k: nat, r: R)
    requires k < |xs| && line(xs[k]) == Some(r)
    ensures r in Lines(xs, line)
  {
    var n := |xs| - 1;
    var pre := xs[..n];
    if k < n {
      assert pre[k] == xs[k];
      LinesCover(pre, line, k, r);
    }
  }

  /** A line appears only for a process that was active in both passes:
      its pid had an active first-pass sample and an active second-pass
      sample. */
  lemma ShowRowsTracked(first: seq<Sample>, second: seq<Sample>, info: DeviceInfo)
    ensures forall row :: row in RateRows(second, FirstPass(first, info), info) ==>
      && (exists i :: 0 <= i < |first| && first[i].task.pid == row.pid && Active(first[i].task, info))
      && (exists k :: 0 <= k < |second| && second[k].task.pid == row.pid && Active(second[k].task, info))
  {
    var t := FirstPass(first, info);
    var rows := RateRows(second, t, info);
    forall row | row in rows
      ensures exists i :: 0 <= i < |first| && first[i].task.pid == row.pid && Active(first[i].task, info)
      ensures exists k :: 0 <= k < |second| && second[k].task.pid == row.pid && Active(second[k].task, info)
    {
      var j :| 0 <= j < |rows| && rows[j] == row;
      LinesSound(second, s => RateRowOf(s, t, info), j);
      var k :| 0 <= k < |second| && RateRowOf(second[k], t, info) == Some(rows[j]);
      RateRowSpec(second[k], t, info);
      FirstPassLookup(first, info, row.pid);
    }
  }

  /** Before a device is resolved no process is active, so the report has
      no line. */
  lemma {:induction false} UnresolvedShowsNothing(samples: seq<Sample>, t: Table<TaskIoStats>, info: DeviceInfo)
    requires !info.valid
    ensures RateRows(samples, t, info) == []
  {
    if samples != [] {
      var n := |samples| - 1;
      UnresolvedShowsNothing(samples[..n], t, info);
      assert RateRowOf(samples[n], t, info).None?;
    }
  }

  // ---------------------------------------------------------------------
  // The unsigned byte delta

  /** Where a counter did not go down, the rate as written and the corrected
      rate agree. */
  lemma ByteRateAgrees(now: nat, last: nat, ms: nat)
    requires ms > 0 && last <= now < last + U64Modulus
    ensures ByteRateAsWritten(now, last, ms) == ByteRate(now, last, ms)
  {
  }

  /** A thread with 100 bytes read and two descriptors on the device counts
      200 bytes; after it closes one of them, 100. Between the passes a
      process's count can therefore go down. */
  lemma ClosingDescriptorLowersCount(dev: Dev)
    ensures var fd := Some(File(Some(Inode(Some(dev)))));
      var before := Thread(Some(FilesStruct(Some([fd, fd]))), IoAc(100, 0));
      var after := Thread(Some(FilesStruct(Some([fd, None]))), IoAc(100, 0));
      DevBytes([before], dev, Read) == 200 && DevBytes([after], dev, Read) == 100
  {
    var fd := Some(File(Some(Inode(Some(dev)))));
    assert [fd, fd][..1] == [fd] && [fd][..0] == [];
    assert [fd, None][..1] == [fd];
    assert MatchingFds([fd], dev) == 1;
    assert MatchingFds([fd, fd], dev) == 2;
    assert MatchingFds([fd, None], dev) == 1;
    var before := Thread(Some(FilesStruct(Some([fd, fd]))), IoAc(100, 0));
    var after := Thread(Some(FilesStruct(Some([fd, None]))), IoAc(100, 0));
    assert [before][..0] == [] && [after][..0] == [];
  }

  /** With the counts of ClosingDescriptorLowersCount and 50 ms between the
      passes, the rate as written is (2^64 - 100) / 50 bytes per
      millisecond, while the corrected rate is zero. */
  lemma DecreasingCounterWraps()
    ensures ByteRateAsWritten(100, 200, 50) == (U64Modulus - 100) / 50
    ensures ByteRateAsWritten(100, 200, 50) > 200
    ensures ByteRate(100, 200, 50) == 0
  {
  }

  // ---------------------------------------------------------------------
  // The first pass as written: one stack variable linked into the table

  /** What the first pass as written leaves behind when the record it links
      into a bucket is first_stats, a variable of the loop body that every
      iteration reuses: which buckets point at that one variable, what it
      holds at the end, and whether its next pointer points at itself. */
  datatype StackTable = StackTable(linked: seq<bool>, slot: TaskIoStats, selfLinked: bool)

  /** Each iteration clears the variable, fills in the pid and the counts,
      and, for an active process, sets its time and links it at the head of
      the process's bucket, its next pointer taking the bucket's old head. */
  function FirstPassAsWritten(samples: seq<Sample>, info: DeviceInfo): (st: StackTable)
    ensures |st.linked| == HashSize
    ensures samples == [] ==> forall b :: 0 <= b < HashSize ==> !st.linked[b]
    ensures samples != [] ==> st.slot.pid == samples[|samples| - 1].task.pid
  {
    if samples == [] then StackTable(seq(HashSize, _ => false), TaskIoStats(0, 0, 0, 0), false)
    else
      var st := FirstPassAsWritten(samples[..|samples| - 1], info);
      var s := samples[|samples| - 1];
      var cleared := TaskIoStats(s.task.pid, DevIoStats(s.task, info, Read), DevIoStats(s.task, info, Write), 0);
      if !Active(s.task, info) then st.(slot := cleared, selfLinked := false)
      else
        var b := BucketOf(s.task.pid);
        StackTable(st.linked[b := true], cleared.(recordTimeNs := s.ns), st.linked[b])
  }

  /** What find_node does on that table: Spins when it follows the
      variable's next pointer back to itself for ever. */
  datatype FindOutcome = Found(stats: TaskIoStats) | NotFound | Spins

  function FindNodeAsWritten(st: StackTable, target: Pid): FindOutcome
    requires |st.linked| == HashSize
  {
    var b := BucketOf(target);
    if !st.linked[b] then NotFound
    else if st.slot.pid == target then Found(st.slot)
    else if st.selfLinked then Spins
    else NotFound
  }

  /** As written, the second pass finds at most one process: the last one the
      first pass visited, active or not. */
  lemma FindsOnlyLastVisited(samples: seq<Sample>, info: DeviceInfo, p: Pid)
    requires FindNodeAsWritten(FirstPassAsWritten(samples, info), p).Found?
    ensures samples != [] && samples[|samples| - 1].task.pid == p
  {
  }

  /** A process with one thread that has read n bytes and has one file open
      on dev. */
  function OneFileTask(pid: Pid, dev: Dev, n: nat): Task
  {
    Task(pid, "app", None, [Thread(Some(FilesStruct(Some([Some(File(Some(Inode(Some(dev)))))]))), IoAc(n, 0))])
  }

  lemma OneFileTaskCounts(pid: Pid, dev: Dev, n: nat)
    ensures DevIoStats(OneFileTask(pid, dev, n), DeviceInfo(dev, true), Read) == n
    ensures DevIoStats(OneFileTask(pid, dev, n), DeviceInfo(dev, true), Write) == 0
  {
    var task := OneFileTask(pid, dev, n);
    var th := task.threads[0];
    assert task.threads == [th];
    var fds := FdsOf(th);
    assert fds[..0] == [];
    assert MatchingFds(fds, dev) == 1;
    assert [th][..0] == [];
    assert ThreadBytes(th, dev, Read) == n && ThreadBytes(th, dev, Write) == 0;
    assert DevBytes([th], dev, Read) == ThreadBytes(th, dev, Read);
    assert DevBytes([th], dev, Write) == ThreadBytes(th, dev, Write);
  }

  /** Two processes in different buckets, both reading from the device:
      the table as written no longer finds the first one, while the
      first pass with a record per process does. */
  lemma StackRecordLost(dev: Dev)
    ensures var info := DeviceInfo(dev, true);
      var samples := [Sample(OneFileTask(1, dev, 100), 10), Sample(OneFileTask(2, dev, 300), 20)];
      && FindNodeAsWritten(FirstPassAsWritten(samples, info), 1) == NotFound
      && Lookup(FirstPass(samples, info), PidOfStats, 1) == Some(TaskIoStats(1, 100, 0, 10))
  {
    var info := DeviceInfo(dev, true);
    var s1, s2 := Sample(OneFileTask(1, dev, 100), 10), Sample(OneFileTask(2, dev, 300), 20);
    var samples := [s1, s2];
    OneFileTaskCounts(1, dev, 100);
    OneFileTaskCounts(2, dev, 300);
    assert samples[..1] == [s1] && [s1][..0] == [];
    FirstPassLookup(samples, info, 1);
    assert LatestActiveIndex(samples, info, 1) == Some(0);
  }

  /** Two processes in the same bucket (pids 1 and 1025): the variable ends
      up linked to itself, and find_node as written for pid 1 never
      returns. */
  lemma StackRecordSpins(dev: Dev)
    ensures var samples := [Sample(OneFileTask(1, dev, 100), 10), Sample(OneFileTask(1025, dev, 300), 20)];
      FindNodeAsWritten(FirstPassAsWritten(samples, DeviceInfo(dev, true)), 1) == Spins
  {
    var s1, s2 := Sample(OneFileTask(1, dev, 100), 10), Sample(OneFileTask(1025, dev, 300), 20);
    OneFileTaskCounts(1, dev, 100);
    OneFileTaskCounts(1025, dev, 300);
    assert [s1, s2][..1] == [s1] && [s1][..0] == [];
  }
}
