/** The live attribution engine of the kprobe monitor as values: the
    per-process table, the global counters and the filter rule, and what one
    intercepted bio does to them. The class in IoMonitorV2 keeps this state
    in place and is proved to follow these functions. */
module Attribution {
  import opened Kernel
  import opened PidHash

  /** A per-process record (struct proc_io_stats): the pid, the name
      captured when the record was created, and the bytes counted so far. */
  datatype ProcStats = ProcStats(pid: Pid, comm: string, readBytes: nat, writeBytes: nat)

  function PidOf(p: ProcStats): Pid
  {
    p.pid
  }

  function Counter(p: ProcStats, d: Direction): nat
  {
    if d == Read then p.readBytes else p.writeBytes
  }

  /** The record with n more bytes in direction d. */
  function Add(p: ProcStats, d: Direction, n: nat): (q: ProcStats)
    ensures q.pid == p.pid && q.comm == p.comm
    ensures Counter(q, d) == Counter(p, d) + n
    ensures forall d' :: d' != d ==> Counter(q, d') == Counter(p, d')
  {
    if d == Read then p.(readBytes := p.readBytes + n) else p.(writeBytes := p.writeBytes + n)
  }

  /** The tracking rule (struct filter_rule). */
  datatype FilterRule = FilterRule(dev: Dev, trackRead: bool, trackWrite: bool)

  function Tracks(rule: FilterRule, d: Direction): bool
  {
    if d == Read then rule.trackRead else rule.trackWrite
  }

  /** The bio submit_bio receives: its block device's number (None when the
      bio has no block device), its direction and its size in bytes. */
  datatype Bio = Bio(bdev: Option<Dev>, dir: Direction, size: nat)

  /** One call of the submit_bio hook: the bio (None for a null pointer), the
      pid and name of the submitting task, and whether kmalloc succeeds if a
      record has to be created for it. */
  datatype Event = Event(bio: Option<Bio>, pid: Pid, comm: string, allocOk: bool)

  /** The engine's state: the table, the global read and write counters
      (total_read, total_write) and the current rule (None before one is
      installed). */
  datatype Engine = Engine(table: Table<ProcStats>, totalRead: nat, totalWrite: nat, rule: Option<FilterRule>)

  function Total(e: Engine, d: Direction): nat
  {
    if d == Read then e.totalRead else e.totalWrite
  }

  /** What the hook does with a bio: ignore it, or attribute it to the
      submitting process and count it in direction counted (None when the
      rule does not track the bio's direction). */
  datatype Decision = Ignore | Attribute(counted: Option<Direction>)

  function Classify(rule: Option<FilterRule>, bio: Option<Bio>): (c: Decision)
    ensures c.Attribute? <==>
      bio.Some? && bio.value.bdev.Some? && rule.Some? && bio.value.bdev.value == rule.value.dev
    ensures c.Attribute? && c.counted.Some? ==>
      c.counted.value == bio.value.dir && Tracks(rule.value, bio.value.dir)
    ensures c.Attribute? && c.counted.None? ==> !Tracks(rule.value, bio.value.dir)
  {
    if bio.None? || bio.value.bdev.None? then Ignore
    else if rule.Some? && bio.value.bdev.value == rule.value.dev then
      var b := bio.value;
      if b.dir == Read && rule.value.trackRead then Attribute(Some(Read))
      else if b.dir == Write && rule.value.trackWrite then Attribute(Some(Write))
      else Attribute(None)
    else Ignore
  }

  /** The record a newly seen process gets: zero counters and its name. */
  function NewRecord(pid: Pid, comm: string): ProcStats
  {
    ProcStats(pid, CommCopy(comm), 0, 0)
  }

  /** get_proc_stats: the position of pid's record in bucket pid % 1024,
      creating the record at the head of that bucket when there is none;
      None when the record would have to be created and kmalloc fails. */
  function GetOrCreate(t: Table<ProcStats>, pid: Pid, comm: string, allocOk: bool): (r: (Table<ProcStats>, Option<nat>))
    ensures forall c :: 0 <= c < HashSize && c != BucketOf(pid) ==> r.0[c] == t[c]
    ensures r.1.Some? ==> r.1.value < |r.0[BucketOf(pid)]| && r.0[BucketOf(pid)][r.1.value].pid == pid
    ensures Lookup(t, PidOf, pid).Some? ==>
      r.0 == t && r.1.Some? && t[BucketOf(pid)][r.1.value] == Lookup(t, PidOf, pid).value
    ensures Lookup(t, PidOf, pid).None? && allocOk ==>
      r.0[BucketOf(pid)] == [NewRecord(pid, comm)] + t[BucketOf(pid)] && r.1 == Some(0)
    ensures r.1.None? <==> Lookup(t, PidOf, pid).None? && !allocOk
    ensures r.1.None? ==> r.0 == t
  {
    var b := BucketOf(pid);
    match Find(t[b], PidOf, pid)
    case Some(i) => (t, Some(i))
    case None =>
      if allocOk then (t[b := [NewRecord(pid, comm)] + t[b]], Some(0)) else (t, None)
  }

  /** n bytes added in direction d to the record at position i of bucket b. */
  function Credit(t: Table<ProcStats>, b: nat, i: nat, d: Direction, n: nat): Table<ProcStats>
    requires b < HashSize && i < |t[b]|
  {
    t[b := t[b][i := Add(t[b][i], d, n)]]
  }

  /** submit_bio_entry_handler: the state after one intercepted bio. */
  function Handle(e: Engine, ev: Event): Engine
  {
    match Classify(e.rule, ev.bio)
    case Ignore => e
    case Attribute(counted) =>
      var (t1, stats) := GetOrCreate(e.table, ev.pid, ev.comm, ev.allocOk);
      match counted
      case None => e.(table := t1)
      case Some(d) =>
        var n := ev.bio.value.size;
        var t2 := if stats.None? then t1 else Credit(t1, BucketOf(ev.pid), stats.value, d, n);
        if d == Read then e.(table := t2, totalRead := e.totalRead + n)
        else e.(table := t2, totalWrite := e.totalWrite + n)
  }

  /** The state after a sequence of intercepted bios, in order. */
  function Run(e: Engine, evs: seq<Event>): Engine
    decreases |evs|
  {
    if evs == [] then e else Run(Handle(e, evs[0]), evs[1..])
  }

  /** Running a sequence and then one more bio is running the longer
      sequence. */
  lemma {:induction false} RunSnoc(e: Engine, evs: seq<Event>, ev: Event)
    ensures Run(e, evs + [ev]) == Handle(Run(e, evs), ev)
    decreases |evs|
  {
    if evs == [] {
      assert [ev][1..] == [];
    } else {
      assert (evs + [ev])[1..] == evs[1..] + [ev];
      RunSnoc(Handle(e, evs[0]), evs[1..], ev);
    }
  }

  /** The bytes a bio adds to the global counter of direction d. */
  function EventBytes(rule: Option<FilterRule>, ev: Event, d: Direction): nat
  {
    if Classify(rule, ev.bio) == Attribute(Some(d)) then ev.bio.value.size else 0
  }

  /** The record pid has after the bio, given the one it had (None if none). */
  function Attributed(old_: Option<ProcStats>, ev: Event, counted: Option<Direction>): ProcStats
    requires counted.Some? ==> ev.bio.Some?
  {
    var base := if old_.Some? then old_.value else NewRecord(ev.pid, ev.comm);
    match counted
    case None => base
    case Some(d) => Add(base, d, ev.bio.value.size)
  }

  /** The per-process counters of direction d, summed over a bucket. */
  function Sum(s: seq<ProcStats>, d: Direction): nat
  {
    if s == [] then 0 else Counter(s[0], d) + Sum(s[1..], d)
  }

  /** The per-process counters of direction d, summed over the table. */
  function TableSum(t: seq<seq<ProcStats>>, d: Direction): nat
  {
    if t == [] then 0 else TableSum(t[..|t| - 1], d) + Sum(t[|t| - 1], d)
  }

  // ---------------------------------------------------------------------
  // Sums

  lemma {:induction false} SumAppend(a: seq<ProcStats>, b: seq<ProcStats>, d: Direction)
    ensures Sum(a + b, d) == Sum(a, d) + Sum(b, d)
  {
    if a != [] {
      assert (a + b)[1..] == a[1..] + b;
      SumAppend(a[1..], b, d);
    } else {
      assert a + b == b;
    }
  }

  lemma {:induction false} SumUpdate(s: seq<ProcStats>, i: nat, x: ProcStats, d: Direction)
    requires i < |s|
    ensures Sum(s[i := x], d) + Counter(s[i], d) == Sum(s, d) + Counter(x, d)
  {
    if i > 0 {
      assert s[i := x][1..] == s[1..][i - 1 := x];
      SumUpdate(s[1..], i - 1, x, d);
    }
  }

  lemma {:induction false} TableSumUpdate(t: seq<seq<ProcStats>>, b: nat, x: seq<ProcStats>, d: Direction)
    requires b < |t|
    ensures TableSum(t[b := x], d) + Sum(t[b], d) == TableSum(t, d) + Sum(x, d)
  {
    var n := |t| - 1;
    if b < n {
      assert t[b := x][..n] == t[..n][b := x];
      TableSumUpdate(t[..n], b, x, d);
    } else {
      assert t[b := x][..n] == t[..n];
    }
  }

  /** The per-process lines of a report add up to the table's sum. */
  lemma {:induction false} SumFlatten(t: seq<seq<ProcStats>>, d: Direction)
    ensures Sum(Flatten(t), d) == TableSum(t, d)
  {
    if t != [] {
      SumFlatten(t[..|t| - 1], d);
      SumAppend(Flatten(t[..|t| - 1]), t[|t| - 1], d);
    }
  }

  // ---------------------------------------------------------------------
  // get_proc_stats

  /** get_proc_stats keeps the table well formed and leaves pid's record
      where Lookup finds it; a record that existed is returned unchanged, a
      new one carries zero counters and the submitting task's name. */
  lemma GetOrCreateFinds(t: Table<ProcStats>, pid: Pid, comm: string, allocOk: bool)
    requires WellFormed(t, PidOf)
    ensures var (t', stats) := GetOrCreate(t, pid, comm, allocOk);
      && WellFormed(t', PidOf)
      && (stats.Some? ==> Lookup(t', PidOf, pid) == Some(t'[BucketOf(pid)][stats.value]))
      && (stats.Some? ==>
            Lookup(t', PidOf, pid) ==
            Some(if Lookup(t, PidOf, pid).Some? then Lookup(t, PidOf, pid).value else NewRecord(pid, comm)))
      && (forall q :: q != pid ==> Lookup(t', PidOf, q) == Lookup(t, PidOf, q))
  {
    var (t', stats) := GetOrCreate(t, pid, comm, allocOk);
    var b := BucketOf(pid);
    if Lookup(t, PidOf, pid).None? && allocOk {
      PrependKeepsWellFormed(t, PidOf, NewRecord(pid, comm));
      forall q | q != pid ensures Lookup(t', PidOf, q) == Lookup(t, PidOf, q) {
        PrependOtherPid(t, PidOf, NewRecord(pid, comm), q);
      }
    } else if stats.Some? {
      LookupExact(t', PidOf, pid, b, stats.value);
    }
  }

  // ---------------------------------------------------------------------
  // The hook

  /** A bio the rule does not select (no bio, no block device, no rule, or
      another device) changes nothing at all. */
  lemma HandleIgnored(e: Engine, ev: Event)
    requires ev.bio.None? || ev.bio.value.bdev.None? || e.rule.None? || ev.bio.value.bdev.value != e.rule.value.dev
    ensures Handle(e, ev) == e
  {
  }

  /** The hook never changes the rule. */
  lemma HandleKeepsRule(e: Engine, ev: Event)
    ensures Handle(e, ev).rule == e.rule
  {
  }

  /** The global counter of direction d grows by the bio's size exactly when
      the rule selects the bio and tracks direction d, and by nothing
      otherwise; at most one direction grows per bio. */
  lemma HandleTotals(e: Engine, ev: Event)
    ensures forall d :: Total(Handle(e, ev), d) == Total(e, d) + EventBytes(e.rule, ev, d)
    ensures EventBytes(e.rule, ev, Read) == 0 || EventBytes(e.rule, ev, Write) == 0
  {
  }

  /** Other processes' records are untouched by a bio, the table stays well
      formed (one record per pid), and the submitting process's record is
      what Attributed says: created (with the task's name and zero counters)
      whenever the device matches, even for an untracked direction, and
      credited with the bio's size in the counted direction. When the record
      would have to be created and kmalloc fails, the process stays without
      one. */
  lemma HandleRecords(e: Engine, ev: Event)
    requires WellFormed(e.table, PidOf)
    ensures var e' := Handle(e, ev);
      && WellFormed(e'.table, PidOf)
      && (forall q :: q != ev.pid ==> Lookup(e'.table, PidOf, q) == Lookup(e.table, PidOf, q))
      && (Classify(e.rule, ev.bio).Ignore? ==> e'.table == e.table)
      && (Classify(e.rule, ev.bio).Attribute? && (Lookup(e.table, PidOf, ev.pid).Some? || ev.allocOk) ==>
            Lookup(e'.table, PidOf, ev.pid) ==
              Some(Attributed(Lookup(e.table, PidOf, ev.pid), ev, Classify(e.rule, ev.bio).counted)))
      && (Classify(e.rule, ev.bio).Attribute? && Lookup(e.table, PidOf, ev.pid).None? && !ev.allocOk ==>
            e'.table == e.table)
  {
    var c := Classify(e.rule, ev.bio);
    if c.Attribute? {
      var (t1, stats) := GetOrCreate(e.table, ev.pid, ev.comm, ev.allocOk);
      GetOrCreateFinds(e.table, ev.pid, ev.comm, ev.allocOk);
      if c.counted.Some? && stats.Some? {
        var b := BucketOf(ev.pid);
        var x := Add(t1[b][stats.value], c.counted.value, ev.bio.value.size);
        ReplaceKeepsWellFormed(t1, PidOf, b, stats.value, x);
        var t2 := Credit(t1, b, stats.value, c.counted.value, ev.bio.value.size);
        LookupExact(t2, PidOf, ev.pid, b, stats.value);
        forall q | q != ev.pid ensures Lookup(t2, PidOf, q) == Lookup(t1, PidOf, q) {
          ReplaceOtherPid(t1, PidOf, b, stats.value, x, q);
        }
      }
    }
  }

  /** Each counted bio adds the same bytes to the global counter and to the
      submitting process's record, unless that record could not be created:
      the global counter exceeds the sum of the records by exactly the bytes
      of bios whose attribution was dropped. */
  lemma HandleBalance(e: Engine, ev: Event, d: Direction)
    requires WellFormed(e.table, PidOf)
    ensures var e' := Handle(e, ev);
      var dropped := Lookup(e.table, PidOf, ev.pid).None? && !ev.allocOk;
      TableSum(e'.table, d) == TableSum(e.table, d) + (if dropped then 0 else EventBytes(e.rule, ev, d))
  {
    var c := Classify(e.rule, ev.bio);
    if c.Attribute? {
      var (t1, stats) := GetOrCreate(e.table, ev.pid, ev.comm, ev.allocOk);
      var b := BucketOf(ev.pid);
      if Lookup(e.table, PidOf, ev.pid).None? && ev.allocOk {
        TableSumUpdate(e.table, b, t1[b], d);
        assert t1 == e.table[b := t1[b]];
        assert Sum(t1[b], d) == Sum(e.table[b], d) by {
          assert t1[b][1..] == e.table[b];
        }
      }
      if c.counted.Some? && stats.Some? {
        var dc := c.counted.value;
        var x := Add(t1[b][stats.value], dc, ev.bio.value.size);
        TableSumUpdate(t1, b, t1[b][stats.value := x], d);
        SumUpdate(t1[b], stats.value, x, d);
      }
    }
  }

  // ---------------------------------------------------------------------
  // Sequences of bios

  /** The bytes of direction d whose attribution a run drops: those of each
      counted bio whose submitter had no record and whose record could not
      be allocated. */
  function Dropped(e: Engine, evs: seq<Event>, d: Direction): nat
    decreases |evs|
  {
    if evs == [] then 0
    else
      var lost := Lookup(e.table, PidOf, evs[0].pid).None? && !evs[0].allocOk;
      (if lost then EventBytes(e.rule, evs[0], d) else 0) + Dropped(Handle(e, evs[0]), evs[1..], d)
  }

  /** Over any sequence of bios the table keeps one record per pid and the
      rule is kept, and each global counter grows by exactly what the
      per-process sum grows by plus the bytes whose attribution was
      dropped. */
  lemma {:induction false} RunBalance(e: Engine, evs: seq<Event>, d: Direction)
    requires WellFormed(e.table, PidOf)
    ensures WellFormed(Run(e, evs).table, PidOf)
    ensures Run(e, evs).rule == e.rule
    ensures Total(Run(e, evs), d) + TableSum(e.table, d) ==
      Total(e, d) + TableSum(Run(e, evs).table, d) + Dropped(e, evs, d)
    decreases |evs|
  {
    if evs != [] {
      var e1 := Handle(e, evs[0]);
      HandleRecords(e, evs[0]);
      HandleTotals(e, evs[0]);
      HandleBalance(e, evs[0], d);
      RunBalance(e1, evs[1..], d);
    }
  }

  /** No bytes are dropped by a run in which every allocation succeeds. */
  lemma {:induction false} DroppedNone(e: Engine, evs: seq<Event>, d: Direction)
    requires forall k :: 0 <= k < |evs| ==> evs[k].allocOk
    ensures Dropped(e, evs, d) == 0
    decreases |evs|
  {
    if evs != [] {
      DroppedNone(Handle(e, evs[0]), evs[1..], d);
    }
  }

  /** N bios of L bytes each, all on the rule's device and in a direction it
      tracks, add N * L to that direction's global counter, whichever
      processes submit them. */
  lemma {:induction false} RunUniform(e: Engine, evs: seq<Event>, d: Direction, size: nat)
    requires e.rule.Some? && Tracks(e.rule.value, d)
    requires forall k :: 0 <= k < |evs| ==> evs[k].bio == Some(Bio(Some(e.rule.value.dev), d, size))
    ensures Total(Run(e, evs), d) == Total(e, d) + |evs| * size
    decreases |evs|
  {
    if evs != [] {
      var e1 := Handle(e, evs[0]);
      HandleTotals(e, evs[0]);
      assert EventBytes(e.rule, evs[0], d) == size;
      RunUniform(e1, evs[1..], d, size);
      assert |evs| * size == (|evs| - 1) * size + size;
    }
  }

  /** The engine as io_stat_init leaves it on a fresh load: an empty table,
      zero counters and the given rule. */
  function Fresh(rule: FilterRule): (e: Engine)
    ensures forall d :: Total(e, d) == 0 && TableSum(e.table, d) == 0
    ensures WellFormed(e.table, PidOf)
    ensures Flatten(e.table) == []
  {
    var e := Engine(EmptyTable(), 0, 0, Some(rule));
    FlattenEmpty(e.table);
    forall d ensures TableSum(e.table, d) == 0 {
      SumFlatten(e.table, d);
    }
    e
  }

  /** From a fresh load, as long as every needed record can be created, the
      global counters equal the sums of the per-process counters. */
  lemma FreshRunAccounted(rule: FilterRule, evs: seq<Event>, d: Direction)
    requires forall k :: 0 <= k < |evs| ==> evs[k].allocOk
    ensures Total(Run(Fresh(rule), evs), d) == TableSum(Run(Fresh(rule), evs).table, d)
  {
    RunBalance(Fresh(rule), evs, d);
    DroppedNone(Fresh(rule), evs, d);
  }

  // ---------------------------------------------------------------------
  // The report

  /** What proc_show prints: the target device, the global counters, and
      one line per record in the order of the walk over the buckets. */
  datatype Report = Report(targetDev: Dev, globalRead: nat, globalWrite: nat, entries: seq<ProcStats>)

  function ReportOf(e: Engine, targetDev: Dev): Report
  {
    Report(targetDev, e.totalRead, e.totalWrite, Flatten(e.table))
  }

  /** The report lists every record of the table, nothing else, each pid at
      most once, buckets in ascending order; its per-process lines add up to
      the table's sums. */
  lemma ReportComplete(e: Engine, targetDev: Dev)
    requires WellFormed(e.table, PidOf)
    ensures var r := ReportOf(e, targetDev);
      && (forall x :: x in r.entries <==> exists b :: 0 <= b < HashSize && x in e.table[b])
      && (forall i, j :: 0 <= i < j < |r.entries| ==>
            r.entries[i].pid != r.entries[j].pid && BucketOf(r.entries[i].pid) <= BucketOf(r.entries[j].pid))
      && |r.entries| == Count(e.table)
      && (forall d :: Sum(r.entries, d) == TableSum(e.table, d))
  {
    forall x ensures x in Flatten(e.table) <==> exists b :: 0 <= b < HashSize && x in e.table[b] {
      FlattenMembership(e.table, x);
    }
    FlattenOrdered(e.table, PidOf);
    FlattenLength(e.table);
    forall d ensures Sum(Flatten(e.table), d) == TableSum(e.table, d) {
      SumFlatten(e.table, d);
    }
  }
}
