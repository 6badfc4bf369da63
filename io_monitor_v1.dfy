/** The snapshot monitor (v1/io_monitor.c): on each read of its proc file it
    lists every process with the bytes get_dev_io_stats attributes to the
    target device. Its only state is the resolved target device. */
module IoMonitorV1 {
  import opened Kernel
  import opened DevFilter

  /** One line of the report: name, pid, parent name, parent pid, and the
      read and write bytes on the target device. */
  datatype TaskRow = TaskRow(comm: string, pid: Pid, parentComm: string, ppid: Pid, readBytes: nat, writeBytes: nat)

  /** The report line for one process: a process without a real parent is
      shown with parent pid 0 and parent name "none". */
  function RowOf(task: Task, info: DeviceInfo): (r: TaskRow)
    ensures r.pid == task.pid && r.comm == CommCopy(task.comm)
    ensures r.ppid == (if task.parent.Some? then task.parent.value.pid else 0)
    ensures task.parent.None? ==> r.parentComm == "none"
    ensures task.parent.Some? ==> r.parentComm == CommCopy(task.parent.value.comm)
    ensures r.readBytes == DevIoStats(task, info, Read) && r.writeBytes == DevIoStats(task, info, Write)
  {
    var (ppid, pcomm) := match task.parent
      case Some(p) => (p.pid, CommCopy(p.comm))
      case None => (0, "none");
    TaskRow(CommCopy(task.comm), task.pid, pcomm, ppid, DevIoStats(task, info, Read), DevIoStats(task, info, Write))
  }

  /** What a read of the proc file shows: the device name given at load
      time, the major and minor numbers of the target, and one line per
      process. */
  datatype Snapshot = Snapshot(device: string, major: nat, minor: nat, rows: seq<TaskRow>)

  class IoMonitor {
    /** The device module parameter (target_device). */
    const targetDevice: string
    /** target_dev_info. */
    var targetDevInfo: DeviceInfo

    /** The module as loaded with the given device parameter: target_dev_info
        is all zero. */
    constructor (device: string)
      ensures targetDevice == device && targetDevInfo == DeviceInfo(0, false)
    {
      targetDevice := device;
      targetDevInfo := DeviceInfo(0, false);
    }

    /** get_dev_io_stats: both outputs start at zero and stay zero unless the
        target was resolved; then each thread with a descriptor table adds
        its I/O bytes once per descriptor on the target device. */
    method GetDevIoStats(task: Task) returns (readBytes: nat, writeBytes: nat)
      ensures readBytes == DevIoStats(task, targetDevInfo, Read)
      ensures writeBytes == DevIoStats(task, targetDevInfo, Write)
    {
      readBytes, writeBytes := 0, 0;
      if !targetDevInfo.valid {
        return;
      }
      var dev := targetDevInfo.dev;
      var threads := task.threads;
      for k := 0 to |threads|
        invariant readBytes == DevBytes(threads[..k], dev, Read)
        invariant writeBytes == DevBytes(threads[..k], dev, Write)
      {
        var thread := threads[k];
        if thread.files.Some? && thread.files.value.fdt.Some? {
          var r, w := DescriptorBytes(thread.files.value.fdt.value, dev, thread.ioac);
          readBytes := readBytes + r;
          writeBytes := writeBytes + w;
        }
        assert threads[..k + 1][..k] == threads[..k];
      }
      assert threads[..|threads|] == threads;
    }

    /** io_monitor_show: the device header, then one line per process in
        the order for_each_process visits them; changes nothing. */
    method IoMonitorShow(tasks: seq<Task>) returns (shown: Snapshot)
      ensures shown.device == targetDevice
      ensures MkDev(shown.major, shown.minor) == targetDevInfo.dev && shown.minor < MinorLimit
      ensures |shown.rows| == |tasks|
      ensures forall i :: 0 <= i < |tasks| ==> shown.rows[i] == RowOf(tasks[i], targetDevInfo)
    {
      var rows := [];
      for k := 0 to |tasks|
        invariant |rows| == k
        invariant forall i :: 0 <= i < k ==> rows[i] == RowOf(tasks[i], targetDevInfo)
      {
        var task := tasks[k];
        var ppid := if task.parent.Some? then task.parent.value.pid else 0;
        var r, w := GetDevIoStats(task);
        var comm := CommCopy(task.comm);
        var parentComm := if task.parent.Some? then CommCopy(task.parent.value.comm) else "none";
        rows := rows + [TaskRow(comm, task.pid, parentComm, ppid, r, w)];
      }
      shown := Snapshot(targetDevice, Major(targetDevInfo.dev), Minor(targetDevInfo.dev), rows);
    }

    /** io_monitor_init: an empty device name gives -EINVAL and a failed
        lookup_bdev its own error, both leaving the target unresolved as it
        was; otherwise the target becomes (dev, valid), and the result is
        -ENOMEM if the proc entry cannot be created, 0 if it can. */
    method IoMonitorInit(lookupRet: int, lookupDev: Dev, procCreated: bool) returns (ret: int)
      modifies this`targetDevInfo
      ensures |targetDevice| == 0 ==> ret == -EINVAL && targetDevInfo == old(targetDevInfo)
      ensures |targetDevice| > 0 && lookupRet != 0 ==> ret == lookupRet && targetDevInfo == old(targetDevInfo)
      ensures |targetDevice| > 0 && lookupRet == 0 ==>
        && targetDevInfo == DeviceInfo(lookupDev, true)
        && ret == (if procCreated then 0 else -ENOMEM)
    {
      if |targetDevice| == 0 {
        return -EINVAL;
      }
      ret := lookupRet;
      if ret != 0 {
        return ret;
      }
      targetDevInfo := DeviceInfo(lookupDev, true);
      if !procCreated {
        return -ENOMEM;
      }
      ret := 0;
    }
  }
}
