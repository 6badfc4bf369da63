/** The device-filtered byte count both sampling monitors compute for a
    process (get_dev_io_stats): every thread that has a file table adds its
    accumulated I/O bytes once for each of its open descriptors whose file
    lives on the target device. */
module DevFilter {
  import opened Kernel

  /** The monitored device, and whether it was resolved (target_dev_info). */
  datatype DeviceInfo = DeviceInfo(dev: Dev, valid: bool)

  /** A descriptor slot counts when it holds a file whose inode has a
      superblock on dev; a closed slot, a file without an inode and an inode
      without a superblock do not. */
  predicate FdOnDevice(fd: Option<File>, dev: Dev)
  {
    && fd.Some?
    && fd.value.inode.Some?
    && fd.value.inode.value.sb.Some?
    && fd.value.inode.value.sb.value == dev
  }

  /** How many descriptor slots are on dev. */
  function MatchingFds(fds: seq<Option<File>>, dev: Dev): nat
  {
    if fds == [] then 0
    else MatchingFds(fds[..|fds| - 1], dev) + (if FdOnDevice(fds[|fds| - 1], dev) then 1 else 0)
  }

  /** The descriptor table the walk sees for a thread: none when the thread
      has no files_struct or files_fdtable gives no table. */
  function FdsOf(t: Thread): seq<Option<File>>
  {
    match t.files
    case None => []
    case Some(fs) =>
      match fs.fdt
      case None => []
      case Some(fds) => fds
  }

  /** A thread's contribution: its bytes in direction d, once per descriptor
      on dev. */
  function ThreadBytes(t: Thread, dev: Dev, d: Direction): nat
  {
    MatchingFds(FdsOf(t), dev) * Bytes(t.ioac, d)
  }

  /** The sum of the contributions of a process's threads. */
  function DevBytes(threads: seq<Thread>, dev: Dev, d: Direction): nat
  {
    if threads == [] then 0
    else DevBytes(threads[..|threads| - 1], dev, d) + ThreadBytes(threads[|threads| - 1], dev, d)
  }

  /** What get_dev_io_stats leaves in its output for direction d: zero when
      the target device was never resolved. */
  function DevIoStats(task: Task, info: DeviceInfo, d: Direction): nat
  {
    if info.valid then DevBytes(task.threads, info.dev, d) else 0
  }

  /** Some thread of the process has a file table. */
  predicate HasFileTable(threads: seq<Thread>)
  {
    exists i :: 0 <= i < |threads| && threads[i].files.Some?
  }

  /** One more descriptor slot adds the thread's bytes when it is on dev and
      nothing otherwise: the step of the walk over a descriptor table. */
  lemma MatchingFdsStep(fds: seq<Option<File>>, i: nat, dev: Dev, b: nat)
    requires i < |fds|
    ensures MatchingFds(fds[..i + 1], dev) * b ==
      MatchingFds(fds[..i], dev) * b + (if FdOnDevice(fds[i], dev) then b else 0)
  {
    assert fds[..i + 1][..i] == fds[..i];
    var m := MatchingFds(fds[..i], dev);
    assert (m + 1) * b == m * b + b;
  }

  /** The inner loop of get_dev_io_stats: for every slot of a thread's
      descriptor table that holds a file whose inode has a superblock on
      dev, the thread's read and write bytes are added once. */
  method DescriptorBytes(fds: seq<Option<File>>, dev: Dev, io: IoAc) returns (readBytes: nat, writeBytes: nat)
    ensures readBytes == MatchingFds(fds, dev) * io.readBytes
    ensures writeBytes == MatchingFds(fds, dev) * io.writeBytes
  {
    readBytes, writeBytes := 0, 0;
    for i := 0 to |fds|
      invariant readBytes == MatchingFds(fds[..i], dev) * io.readBytes
      invariant writeBytes == MatchingFds(fds[..i], dev) * io.writeBytes
    {
      MatchingFdsStep(fds, i, dev, io.readBytes);
      MatchingFdsStep(fds, i, dev, io.writeBytes);
      var file := fds[i];
      if file.None? {
        continue;
      }
      var inode := file.value.inode;
      if inode.None? || inode.value.sb.None? {
        continue;
      }
      if inode.value.sb.value == dev {
        readBytes := readBytes + io.readBytes;
        writeBytes := writeBytes + io.writeBytes;
      }
    }
    assert fds[..|fds|] == fds;
  }

  /** Extending the walked prefix of a thread list by one thread adds a file
      table exactly when that thread has one. */
  lemma HasFileTableStep(threads: seq<Thread>, k: nat)
    requires k < |threads|
    ensures HasFileTable(threads[..k + 1]) <==> HasFileTable(threads[..k]) || threads[k].files.Some?
  {
    assert forall i :: 0 <= i < k ==> threads[..k + 1][i] == threads[..k][i];
    if threads[k].files.Some? {
      assert threads[..k + 1][k] == threads[k];
    }
  }

  /** A descriptor table with no descriptor on dev contributes nothing, and
      one that has one contributes at least once: the count is zero exactly
      when no slot is on dev, and never exceeds the number of slots. */
  lemma {:induction false} MatchingFdsZero(fds: seq<Option<File>>, dev: Dev)
    ensures MatchingFds(fds, dev) <= |fds|
    ensures MatchingFds(fds, dev) == 0 <==> forall i :: 0 <= i < |fds| ==> !FdOnDevice(fds[i], dev)
  {
    if fds != [] {
      var n := |fds| - 1;
      MatchingFdsZero(fds[..n], dev);
      assert forall i :: 0 <= i < n ==> fds[..n][i] == fds[i];
    }
  }

  /** Adding threads adds their contributions: the count of a process is
      the sum over its threads, whatever way they are split. */
  lemma {:induction false} DevBytesAppend(a: seq<Thread>, b: seq<Thread>, dev: Dev, d: Direction)
    ensures DevBytes(a + b, dev, d) == DevBytes(a, dev, d) + DevBytes(b, dev, d)
  {
    if b != [] {
      var n := |b| - 1;
      assert (a + b)[..|a + b| - 1] == a + b[..n];
      DevBytesAppend(a, b[..n], dev, d);
    } else {
      assert a + b == a;
    }
  }

  /** A thread adds something exactly when it has a descriptor on dev and
      has moved bytes in direction d. */
  predicate Contributes(t: Thread, dev: Dev, d: Direction)
  {
    MatchingFds(FdsOf(t), dev) > 0 && Bytes(t.ioac, d) > 0
  }

  lemma ThreadBytesPositive(t: Thread, dev: Dev, d: Direction)
    ensures ThreadBytes(t, dev, d) > 0 <==> Contributes(t, dev, d)
  {
    var m, b := MatchingFds(FdsOf(t), dev), Bytes(t.ioac, d);
    if m > 0 && b > 0 {
      assert m * b >= b by { assert m * b == (m - 1) * b + b; }
    }
  }

  /** The count of a process is positive exactly when one of its threads
      contributes. */
  lemma {:induction false} DevBytesPositive(threads: seq<Thread>, dev: Dev, d: Direction)
    ensures DevBytes(threads, dev, d) > 0 <==>
      exists i :: 0 <= i < |threads| && Contributes(threads[i], dev, d)
  {
    if threads != [] {
      var n := |threads| - 1;
      DevBytesPositive(threads[..n], dev, d);
      ThreadBytesPositive(threads[n], dev, d);
      assert forall i :: 0 <= i < n ==> threads[..n][i] == threads[i];
    }
  }

  /** Only threads with a file table contribute: a positive count means some
      thread of the process has one. */
  lemma DevBytesNeedsFileTable(threads: seq<Thread>, dev: Dev, d: Direction)
    requires DevBytes(threads, dev, d) > 0
    ensures HasFileTable(threads)
  {
    DevBytesPositive(threads, dev, d);
    var i :| 0 <= i < |threads| && Contributes(threads[i], dev, d);
    assert threads[i].files.Some?;
  }
}
