/** The kernel objects the monitors read, reduced to the fields they use.
    Everything here is an input: the monitors never change a task, a thread
    or a file. */
module Kernel {

  datatype Option<+T> = None | Some(value: T)

  type Pid = nat

  /** A device number (dev_t). The kernel packs the major number above the
      low 20 bits, which hold the minor number. */
  type Dev = nat

  /** 2^20: the kernel keeps MINORBITS = 20 bits for the minor number. */
  const MinorLimit: nat := 0x10_0000

  function MkDev(major: nat, minor: nat): Dev
  {
    major * MinorLimit + minor
  }

  function Major(d: Dev): nat
  {
    d / MinorLimit
  }

  function Minor(d: Dev): nat
  {
    d % MinorLimit
  }

  /** Packing and unpacking a device number are inverse to each other. */
  lemma MkDevRoundTrip(major: nat, minor: nat)
    requires minor < MinorLimit
    ensures Major(MkDev(major, minor)) == major
    ensures Minor(MkDev(major, minor)) == minor
  {
    var d := MkDev(major, minor);
    assert d == major * MinorLimit + minor;
    DivModUnique(d, major, minor);
  }

  lemma DivModUnique(d: nat, q: nat, r: nat)
    requires r < MinorLimit && d == q * MinorLimit + r
    ensures d / MinorLimit == q && d % MinorLimit == r
  {
  }

  /** Two device numbers with the same major and minor numbers are equal. */
  lemma MkDevInjective(ma1: nat, mi1: nat, ma2: nat, mi2: nat)
    requires mi1 < MinorLimit && mi2 < MinorLimit
    requires MkDev(ma1, mi1) == MkDev(ma2, mi2)
    ensures ma1 == ma2 && mi1 == mi2
  {
    MkDevRoundTrip(ma1, mi1);
    MkDevRoundTrip(ma2, mi2);
  }

  datatype Direction = Read | Write

  /** A thread's I/O accounting (task_struct.ioac). */
  datatype IoAc = IoAc(readBytes: nat, writeBytes: nat)

  function Bytes(io: IoAc, d: Direction): nat
  {
    if d == Read then io.readBytes else io.writeBytes
  }

  /** An inode and the device of its superblock; sb is None when the inode
      has no superblock. */
  datatype Inode = Inode(sb: Option<Dev>)

  /** An open file; inode is None when the file has no inode. */
  datatype File = File(inode: Option<Inode>)

  /** A thread's files_struct; fdt is None when files_fdtable gives no
      table. Each slot of the table is None when that descriptor is closed. */
  datatype FilesStruct = FilesStruct(fdt: Option<seq<Option<File>>>)

  /** A thread: its file table (None when the thread has none) and its
      I/O accounting. */
  datatype Thread = Thread(files: Option<FilesStruct>, ioac: IoAc)

  /** The real parent of a process, as far as the reports use it. */
  datatype Parent = Parent(pid: Pid, comm: string)

  /** A process as for_each_process yields it: its pid, its command name,
      its real parent (None when it has none) and its threads, the group
      leader first. */
  datatype Task = Task(pid: Pid, comm: string, parent: Option<Parent>, threads: seq<Thread>)

  /** Error numbers the monitors return (negated). */
  const EINVAL: int := 22
  const ENOMEM: int := 12

  /** The size of a command-name buffer (TASK_COMM_LEN), terminator included. */
  const TaskCommLen: nat := 16
  /** The size of the device-name parameter buffer (DISK_NAME_LEN). */
  const DiskNameLen: nat := 32

  /** What get_task_comm, or strncpy followed by a terminator, leaves in a
      TASK_COMM_LEN buffer: at most TaskCommLen - 1 characters of the name. */
  function CommCopy(name: string): (c: string)
    ensures |c| < TaskCommLen
    ensures c <= name
    ensures |name| < TaskCommLen ==> c == name
    ensures |name| >= TaskCommLen ==> c == name[..TaskCommLen - 1]
  {
    if |name| < TaskCommLen then name else name[..TaskCommLen - 1]
  }
}
