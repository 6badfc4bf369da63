/** The kprobe-based live monitor (io_monitorv2.c) as one sequential object:
    the bucket array, the global counters, the current rule and the device
    the report names, updated in place by the hook, the rule update, init
    and exit. Each method is proved to act as the functions of Attribution
    say. */
module IoMonitorV2 {
  import opened Kernel
  import opened PidHash
  import opened Attribution

  class IoStatMonitor {
    /** The device the report names (target_dev). */
    var targetDev: Dev
    var totalRead: nat
    var totalWrite: nat
    /** current_rule; None while no rule is installed. */
    var currentRule: Option<FilterRule>
    /** proc_stats_table: bucket i lists its records from the head. */
    const procStatsTable: array<seq<ProcStats>>

    /** The bucket array has HashSize buckets. */
    ghost predicate Sized()
      reads this
    {
      procStatsTable.Length == HashSize
    }

    /** The bucket array has HashSize buckets, and the table holds one
        record per pid, each in the bucket its pid hashes to. */
    ghost predicate Valid()
      reads this, procStatsTable
    {
      Sized() && WellFormed(procStatsTable[..], PidOf)
    }

    /** The engine state the object holds. */
    ghost function State(): Engine
      reads this, procStatsTable
      requires Sized()
    {
      Engine(procStatsTable[..], totalRead, totalWrite, currentRule)
    }

    /** The module as loaded, before io_stat_init runs: the statics are zero,
        every bucket is empty and no rule is installed. */
    constructor ()
      ensures Valid() && fresh(procStatsTable)
      ensures State() == Engine(EmptyTable(), 0, 0, None) && targetDev == 0
    {
      targetDev := 0;
      totalRead, totalWrite := 0, 0;
      currentRule := None;
      procStatsTable := new seq<ProcStats>[HashSize](_ => []);
      new;
      assert procStatsTable[..] == EmptyTable();
      assert WellFormed(Fresh(FilterRule(0, true, true)).table, PidOf);
    }

    /** get_proc_stats: scans bucket pid % 1024 from its head; returns the
        position of pid's record, or creates one at the head of the bucket
        (None when kmalloc fails). */
    method GetProcStats(pid: Pid, comm: string, allocOk: bool) returns (stats: Option<nat>)
      requires Sized()
      modifies procStatsTable
      ensures (procStatsTable[..], stats) == GetOrCreate(old(procStatsTable[..]), pid, comm, allocOk)
    {
      var b := BucketOf(pid);
      var head := procStatsTable[b];
      var i := 0;
      while i < |head|
        invariant 0 <= i <= |head|
        invariant forall j :: 0 <= j < i ==> head[j].pid != pid
      {
        if head[i].pid == pid {
          assert Find(head, PidOf, pid) == Some(i);
          return Some(i);
        }
        i := i + 1;
      }
      if !allocOk {
        return None;
      }
      procStatsTable[b] := [NewRecord(pid, comm)] + head;
      stats := Some(0);
    }

    /** submit_bio_entry_handler: returns 0 and updates the counters and
        the table as Handle says, keeping one record per pid; the rule and
        the reported device are left alone. */
    method SubmitBioEntryHandler(ev: Event) returns (ret: int)
      requires Valid()
      modifies this`totalRead, this`totalWrite, procStatsTable
      ensures Valid()
      ensures ret == 0
      ensures State() == Handle(old(State()), ev)
    {
      HandleRecords(State(), ev);
      AttributeBio(ev);
      ret := 0;
    }

    /** The body of the hook: the bio's bytes go to the global counter and
        to the submitter's record, which is created if need be. */
    method AttributeBio(ev: Event)
      requires Sized()
      modifies this`totalRead, this`totalWrite, procStatsTable
      ensures Sized()
      ensures State() == Handle(old(State()), ev)
    {
      ghost var e0 := State();
      if ev.bio.None? || ev.bio.value.bdev.None? {
        return;
      }
      var bio := ev.bio.value;
      var bioDev := bio.bdev.value;
      var rule := currentRule;
      if rule.Some? && bioDev == rule.value.dev {
        var stats := GetProcStats(ev.pid, ev.comm, ev.allocOk);
        var bytes := bio.size;
        var b := BucketOf(ev.pid);
        if bio.dir == Read && rule.value.trackRead {
          totalRead := totalRead + bytes;
          if stats.Some? {
            CreditRecord(b, stats.value, Read, bytes);
          }
        } else if bio.dir == Write && rule.value.trackWrite {
          totalWrite := totalWrite + bytes;
          if stats.Some? {
            CreditRecord(b, stats.value, Write, bytes);
          }
        }
      }
    }

    /** The hook invoked on each bio of evs in turn. */
    method SubmitAll(evs: seq<Event>)
      requires Valid()
      modifies this`totalRead, this`totalWrite, procStatsTable
      ensures Valid()
      ensures State() == Run(old(State()), evs)
    {
      ghost var e0 := State();
      assert evs[..0] == [];
      for k := 0 to |evs|
        invariant Valid()
        invariant State() == Run(e0, evs[..k])
      {
        var _ := SubmitBioEntryHandler(evs[k]);
        RunSnoc(e0, evs[..k], evs[k]);
        assert evs[..k + 1] == evs[..k] + [evs[k]];
      }
      assert evs[..|evs|] == evs;
    }

    /** atomic64_add on one counter of the record at position i of bucket b. */
    method CreditRecord(b: nat, i: nat, d: Direction, n: nat)
      requires Sized() && b < HashSize && i < |procStatsTable[b]|
      modifies procStatsTable
      ensures procStatsTable[..] == Credit(old(procStatsTable[..]), b, i, d, n)
    {
      procStatsTable[b] := procStatsTable[b][i := Add(procStatsTable[b][i], d, n)];
    }

    /** update_rule: on kmalloc failure returns -ENOMEM and keeps the rule;
        otherwise installs exactly (newDev, trackR, trackW), discarding the
        old rule, and returns 0. The reported device is never changed. */
    method UpdateRule(newDev: Dev, trackR: bool, trackW: bool, allocOk: bool) returns (ret: int)
      modifies this`currentRule
      ensures !allocOk ==> ret == -ENOMEM && currentRule == old(currentRule)
      ensures allocOk ==> ret == 0 && currentRule == Some(FilterRule(newDev, trackR, trackW))
    {
      if !allocOk {
        return -ENOMEM;
      }
      currentRule := Some(FilterRule(newDev, trackR, trackW));
      ret := 0;
    }

    /** proc_show: walks the buckets 0 to 1023 and each bucket from its head;
        changes nothing. */
    method ProcShow() returns (report: Report)
      requires Valid()
      ensures report == ReportOf(State(), targetDev)
    {
      var lines: seq<ProcStats> := [];
      var i := 0;
      while i < HashSize
        invariant 0 <= i <= HashSize
        invariant lines == Flatten(procStatsTable[..i])
      {
        var bucket := procStatsTable[i];
        var j := 0;
        ghost var before := lines;
        while j < |bucket|
          invariant 0 <= j <= |bucket|
          invariant lines == before + bucket[..j]
        {
          lines := lines + [bucket[j]];
          j := j + 1;
        }
        assert bucket[..j] == bucket;
        assert procStatsTable[..i + 1][..i] == procStatsTable[..i];
        i := i + 1;
      }
      assert procStatsTable[..i] == procStatsTable[..];
      report := Report(targetDev, totalRead, totalWrite, lines);
    }

    /** io_stat_init: empties every bucket, sets the reported device to
        8:3 and installs the rule (8:3, read, write) through UpdateRule
        (whose failure is ignored); returns the kprobe registration's error
        when it is negative, 0 otherwise. */
    method IoStatInit(ruleAllocOk: bool, registerRet: int) returns (ret: int)
      requires Valid()
      modifies this, procStatsTable
      ensures Valid()
      ensures forall b :: 0 <= b < HashSize ==> procStatsTable[b] == []
      ensures targetDev == MkDev(8, 3)
      ensures currentRule == if ruleAllocOk then Some(FilterRule(MkDev(8, 3), true, true)) else old(currentRule)
      ensures totalRead == old(totalRead) && totalWrite == old(totalWrite)
      ensures ret == if registerRet < 0 then registerRet else 0
    {
      var i := 0;
      while i < HashSize
        invariant 0 <= i <= HashSize
        invariant forall b :: 0 <= b < i ==> procStatsTable[b] == []
        invariant totalRead == old(totalRead) && totalWrite == old(totalWrite)
        invariant currentRule == old(currentRule)
      {
        procStatsTable[i] := [];
        i := i + 1;
      }
      targetDev := MkDev(8, 3);
      var _ := UpdateRule(targetDev, true, true, ruleAllocOk);
      if registerRet < 0 {
        ret := registerRet;
      } else {
        ret := 0;
      }
    }

    /** io_stat_exit: removes every record from every bucket and releases
        the current rule. */
    method IoStatExit()
      requires Valid()
      modifies this`currentRule, procStatsTable
      ensures Valid()
      ensures forall b :: 0 <= b < HashSize ==> procStatsTable[b] == []
      ensures currentRule.None?
      ensures totalRead == old(totalRead) && totalWrite == old(totalWrite) && targetDev == old(targetDev)
    {
      var i := 0;
      while i < HashSize
        invariant 0 <= i <= HashSize
        invariant forall b :: 0 <= b < i ==> procStatsTable[b] == []
      {
        while procStatsTable[i] != []
          invariant forall b :: 0 <= b < i ==> procStatsTable[b] == []
          decreases |procStatsTable[i]|
        {
          procStatsTable[i] := procStatsTable[i][1..];
        }
        i := i + 1;
      }
      currentRule := None;
    }
  }

  /** A whole session on a fresh load: after init with the kprobe
      registered, any sequence of bios whose records can all be allocated,
      and a read of the report, the report shows the target 8:3 and
      per-process lines that add up to the global counters; after exit it
      lists no process. */
  method Session(register: int, evs: seq<Event>) returns (during: Report, after: Report)
    requires register >= 0
    requires forall k :: 0 <= k < |evs| ==> evs[k].allocOk
    ensures during.targetDev == MkDev(8, 3)
    ensures forall d :: Sum(during.entries, d) == (if d == Read then during.globalRead else during.globalWrite)
    ensures after.entries == []
  {
    var m := new IoStatMonitor();
    var _ := m.IoStatInit(true, register);
    assert m.procStatsTable[..] == EmptyTable();
    ghost var e0 := Fresh(FilterRule(MkDev(8, 3), true, true));
    assert m.State() == e0;
    m.SubmitAll(evs);
    during := m.ProcShow();
    forall d ensures Sum(during.entries, d) == (if d == Read then during.globalRead else during.globalWrite) {
      FreshRunAccounted(FilterRule(MkDev(8, 3), true, true), evs, d);
      ReportComplete(m.State(), m.targetDev);
    }
    m.IoStatExit();
    after := m.ProcShow();
    FlattenEmpty(m.procStatsTable[..]);
  }
}
