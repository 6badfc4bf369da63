/** The sampling monitor (v1/io_monitor_0731.c) as one sequential object:
    the device parameter, the resolved target and the pid hash table of
    first-pass records, updated in place by init, show and exit. Each
    method is proved to act as the functions of RateSampling say, with one
    record kept per linked node. */
module IoMonitor0731 {
  import opened Kernel
  import opened PidHash
  import opened DevFilter
  import opened RateSampling

  /** A counter the caller passes by pointer to get_dev_io_stats. */
  class Slot {
    var value: nat

    constructor (v: nat)
      ensures value == v
    {
      value := v;
    }
  }

  class RateMonitor {
    /** The device module parameter (target_device). */
    const targetDevice: string
    /** target_dev_info. */
    var targetDevInfo: DeviceInfo
    /** task_io_stats_hash: bucket i lists its records from the head. */
    const taskIoStatsHash: array<seq<TaskIoStats>>

    ghost predicate Valid()
      reads this
    {
      taskIoStatsHash.Length == HashSize
    }

    /** The module as loaded with the given device parameter: the statics
        are zero, so the target is unresolved and every bucket is empty. */
    constructor (device: string)
      ensures Valid() && fresh(taskIoStatsHash)
      ensures targetDevice == device && targetDevInfo == DeviceInfo(0, false)
      ensures taskIoStatsHash[..] == EmptyTable()
    {
      targetDevice := device;
      targetDevInfo := DeviceInfo(0, false);
      taskIoStatsHash := new seq<TaskIoStats>[HashSize](_ => []);
      new;
      assert taskIoStatsHash[..] == EmptyTable();
    }

    /** find_node: scans bucket target % 1024 from its head and returns the
        first record with that pid; changes nothing. */
    method FindNode(target: Pid) returns (r: Option<TaskIoStats>)
      requires Valid()
      ensures r == Lookup(taskIoStatsHash[..], PidOfStats, target)
    {
      var key := BucketOf(target);
      var bucket := taskIoStatsHash[key];
      for i := 0 to |bucket|
        invariant forall j :: 0 <= j < i ==> bucket[j].pid != target
      {
        if bucket[i].pid == target {
          assert Find(bucket, PidOfStats, target) == Some(i);
          return Some(bucket[i]);
        }
      }
      r := None;
    }

    /** init_my_hlist_head: every bucket becomes empty. */
    method InitHashHeads()
      requires Valid()
      modifies taskIoStatsHash
      ensures taskIoStatsHash[..] == EmptyTable()
    {
      for i := 0 to HashSize
        invariant forall b :: 0 <= b < i ==> taskIoStatsHash[b] == []
      {
        taskIoStatsHash[i] := [];
      }
      assert taskIoStatsHash[..] == EmptyTable();
    }

    /** clear_hlist_head: unlinks and frees every record of every bucket. */
    method ClearHashHeads()
      requires Valid()
      modifies taskIoStatsHash
      ensures taskIoStatsHash[..] == EmptyTable()
    {
      for i := 0 to HashSize
        invariant forall b :: 0 <= b < i ==> taskIoStatsHash[b] == []
      {
        while taskIoStatsHash[i] != []
          invariant forall b :: 0 <= b < i ==> taskIoStatsHash[b] == []
          decreases |taskIoStatsHash[i]|
        {
          taskIoStatsHash[i] := taskIoStatsHash[i][1..];
        }
      }
      assert taskIoStatsHash[..] == EmptyTable();
    }

    /** get_dev_io_stats: with a missing task or a null output pointer it
        touches nothing. Otherwise both outputs end as the process's bytes on
        the target (zero while it is unresolved), and startNs takes the
        clock reading when the target is resolved and some thread has a file
        table, keeping its old value otherwise. */
    method GetDevIoStats(task: Option<Task>, readBytes: Slot?, writeBytes: Slot?, startNs: Slot?, now: nat)
      requires readBytes != writeBytes || readBytes == null
      requires readBytes != startNs || readBytes == null
      requires writeBytes != startNs || writeBytes == null
      modifies readBytes, writeBytes, startNs
      ensures task.None? || readBytes == null || writeBytes == null || startNs == null ==>
        && (readBytes != null ==> readBytes.value == old(readBytes.value))
        && (writeBytes != null ==> writeBytes.value == old(writeBytes.value))
        && (startNs != null ==> startNs.value == old(startNs.value))
      ensures task.Some? && readBytes != null && writeBytes != null && startNs != null ==>
        && readBytes.value == DevIoStats(task.value, targetDevInfo, Read)
        && writeBytes.value == DevIoStats(task.value, targetDevInfo, Write)
        && startNs.value ==
             if targetDevInfo.valid && HasFileTable(task.value.threads) then now else old(startNs.value)
    {
      if task.None? || readBytes == null || writeBytes == null || startNs == null {
        return;
      }
      readBytes.value := 0;
      writeBytes.value := 0;
      if !targetDevInfo.valid {
        return;
      }
      var dev := targetDevInfo.dev;
      var threads := task.value.threads;
      var totalRead, totalWrite := 0, 0;
      for k := 0 to |threads|
        invariant totalRead == DevBytes(threads[..k], dev, Read)
        invariant totalWrite == DevBytes(threads[..k], dev, Write)
        invariant startNs.value == if HasFileTable(threads[..k]) then now else old(startNs.value)
      {
        assert threads[..k + 1][..k] == threads[..k];
        HasFileTableStep(threads, k);
        var thread := threads[k];
        if thread.files.None? {
          continue;
        }
        startNs.value := now;
        var fdt := thread.files.value.fdt;
        if fdt.Some? {
          var r, w := DescriptorBytes(fdt.value, dev, thread.ioac);
          totalRead := totalRead + r;
          totalWrite := totalWrite + w;
        }
      }
      assert threads[..|threads|] == threads;
      readBytes.value := totalRead;
      writeBytes.value := totalWrite;
    }

    /** io_monitor_show: empties the table, records every active process of
        the first pass, prints a rate line for each process of the second
        pass as RateRowOf says, and empties the table again. The device
        header names the parameter and the target's major and minor
        numbers. */
    method IoMonitorShow(first: seq<Sample>, second: seq<Sample>) returns (report: RateReport)
      requires Valid()
      modifies taskIoStatsHash
      ensures report.device == targetDevice
      ensures MkDev(report.major, report.minor) == targetDevInfo.dev && report.minor < MinorLimit
      ensures report.rows == RateRows(second, FirstPass(first, targetDevInfo), targetDevInfo)
      ensures taskIoStatsHash[..] == EmptyTable()
    {
      InitHashHeads();
      RecordFirstPass(first);
      var rows := RateSecondPass(second);
      ClearHashHeads();
      report := RateReport(targetDevice, Major(targetDevInfo.dev), Minor(targetDevInfo.dev), rows);
    }

    /** The first loop of io_monitor_show, on empty buckets: each process
        with bytes on the target gets a record, with the clock reading of its
        count, at the head of its bucket. */
    method RecordFirstPass(first: seq<Sample>)
      requires Valid() && taskIoStatsHash[..] == EmptyTable()
      modifies taskIoStatsHash
      ensures taskIoStatsHash[..] == FirstPass(first, targetDevInfo)
    {
      var firstNs := new Slot(0);
      for k := 0 to |first|
        invariant taskIoStatsHash[..] == FirstPass(first[..k], targetDevInfo)
      {
        assert first[..k + 1][..k] == first[..k];
        var task := first[k].task;
        var r := new Slot(0);
        var w := new Slot(0);
        GetDevIoStats(Some(task), r, w, firstNs, first[k].ns);
        if r.value == 0 && w.value == 0 {
          continue;
        }
        ActiveTimestamp(task, targetDevInfo);
        var stats := TaskIoStats(task.pid, r.value, w.value, firstNs.value);
        var index := BucketOf(stats.pid);
        taskIoStatsHash[index] := [stats] + taskIoStatsHash[index];
      }
      assert first[..|first|] == first;
    }

    /** The second loop of io_monitor_show: a line per process as RateRowOf
        gives it against the records in the table; changes nothing. */
    method RateSecondPass(second: seq<Sample>) returns (rows: seq<RateRow>)
      requires Valid()
      ensures rows == RateRows(second, taskIoStatsHash[..], targetDevInfo)
    {
      var secondNs := new Slot(0);
      rows := [];
      for k := 0 to |second|
        invariant rows == RateRows(second[..k], taskIoStatsHash[..], targetDevInfo)
      {
        assert second[..k + 1][..k] == second[..k];
        var line := SecondPassLine(second[k], secondNs);
        if line.Some? {
          rows := rows + [line.value];
        }
      }
      assert second[..|second|] == second;
    }

    /** One iteration of the second loop: skip the process when find_node
        has no record for it, when it has no bytes on the target now, or when
        no time passed since its record; otherwise its rates over the whole
        milliseconds elapsed. The clock reading goes through secondNs. */
    method SecondPassLine(s: Sample, secondNs: Slot) returns (line: Option<RateRow>)
      requires Valid()
      modifies secondNs
      ensures line == RateRowOf(s, taskIoStatsHash[..], targetDevInfo)
    {
      var task := s.task;
      var ppid := if task.parent.Some? then task.parent.value.pid else 0;
      var last := FindNode(task.pid);
      if last.None? {
        return None;
      }
      var r := new Slot(0);
      var w := new Slot(0);
      GetDevIoStats(Some(task), r, w, secondNs, s.ns);
      if r.value == 0 && w.value == 0 {
        return None;
      }
      ActiveTimestamp(task, targetDevInfo);
      var deltaMs := WrapSub64(secondNs.value, last.value.recordTimeNs);
      if deltaMs == 0 {
        return None;
      }
      deltaMs := deltaMs / NsPerMs;
      var readPms, writePms := 0, 0;
      if deltaMs > 0 {
        readPms := ByteRate(r.value, last.value.readBytes, deltaMs);
        writePms := ByteRate(w.value, last.value.writeBytes, deltaMs);
      }
      var comm := CommCopy(task.comm);
      var parentComm := if task.parent.Some? then CommCopy(task.parent.value.comm) else "";
      line := Some(RateRow(comm, task.pid, parentComm, ppid, readPms, writePms));
    }

    /** io_monitor_init: a device name of DISK_NAME_LEN characters or more,
        or an empty one, gives -EINVAL; a failed lookup_bdev gives its own
        error; in those cases nothing changes. Otherwise the target becomes
        (dev, valid), the table is emptied, and the result is -ENOMEM if the
        proc entry cannot be created, 0 if it can. */
    method IoMonitorInit(lookupRet: int, lookupDev: Dev, procCreated: bool) returns (ret: int)
      requires Valid()
      modifies this`targetDevInfo, taskIoStatsHash
      ensures |targetDevice| >= DiskNameLen || |targetDevice| == 0 ==>
        ret == -EINVAL && targetDevInfo == old(targetDevInfo) && taskIoStatsHash[..] == old(taskIoStatsHash[..])
      ensures 0 < |targetDevice| < DiskNameLen && lookupRet != 0 ==>
        ret == lookupRet && targetDevInfo == old(targetDevInfo) && taskIoStatsHash[..] == old(taskIoStatsHash[..])
      ensures 0 < |targetDevice| < DiskNameLen && lookupRet == 0 ==>
        && targetDevInfo == DeviceInfo(lookupDev, true)
        && taskIoStatsHash[..] == EmptyTable()
        && ret == (if procCreated then 0 else -ENOMEM)
    {
      if |targetDevice| >= DiskNameLen {
        return -EINVAL;
      }
      if |targetDevice| == 0 {
        return -EINVAL;
      }
      ret := lookupRet;
      if ret != 0 {
        return ret;
      }
      targetDevInfo := DeviceInfo(lookupDev, true);
      InitHashHeads();
      if !procCreated {
        return -ENOMEM;
      }
      ret := 0;
    }

    /** io_monitor_exit: frees every record left in the table. */
    method IoMonitorExit()
      requires Valid()
      modifies taskIoStatsHash
      ensures taskIoStatsHash[..] == EmptyTable()
    {
      ClearHashHeads();
    }
  }

  /** A process get_dev_io_stats finds active has a thread with a file
      table, so its call took the clock reading. */
  lemma ActiveTimestamp(task: Task, info: DeviceInfo)
    requires DevIoStats(task, info, Read) != 0 || DevIoStats(task, info, Write) != 0
    ensures info.valid && HasFileTable(task.threads)
  {
    if DevIoStats(task, info, Read) != 0 {
      DevBytesNeedsFileTable(task.threads, info.dev, Read);
    } else {
      DevBytesNeedsFileTable(task.threads, info.dev, Write);
    }
  }
}
