/** The fixed-size hash table keyed by pid that both monitor versions use:
    1024 buckets, a record lives in bucket pid % 1024, and a bucket is a
    list whose head is the most recently added record. The record type is a
    parameter; pidOf reads a record's pid. */
module PidHash {
  import opened Kernel

  /** HASHTABLE_SIZE in the live monitor, IO_STATS_HASH_SIZE in the sampler. */
  const HashSize: nat := 1024

  function BucketOf(pid: Pid): (b: nat)
    ensures b < HashSize
  {
    pid % HashSize
  }

  /** A table of exactly HashSize buckets. */
  type Table<T> = t: seq<seq<T>> | |t| == HashSize witness EmptyTable()

  /** The table with every bucket empty (INIT_HLIST_HEAD on each bucket). */
  function EmptyTable<T>(): (t: seq<seq<T>>)
    ensures |t| == HashSize
    ensures forall b :: 0 <= b < |t| ==> t[b] == []
  {
    seq(HashSize, _ => [])
  }

  /** The position of the first record in a bucket whose pid is pid, scanning
      from the head, or None when the bucket has no such record. */
  function Find<T>(bucket: seq<T>, pidOf: T -> Pid, pid: Pid): (r: Option<nat>)
    ensures r.Some? ==> r.value < |bucket| && pidOf(bucket[r.value]) == pid
    ensures r.Some? ==> forall j :: 0 <= j < r.value ==> pidOf(bucket[j]) != pid
    ensures r.None? <==> forall j :: 0 <= j < |bucket| ==> pidOf(bucket[j]) != pid
  {
    if bucket == [] then None
    else if pidOf(bucket[0]) == pid then Some(0)
    else match Find(bucket[1..], pidOf, pid)
      case None => None
      case Some(i) => Some(i + 1)
  }

  /** The record the table holds for pid: only bucket pid % HashSize is
      searched. */
  function Lookup<T>(t: Table<T>, pidOf: T -> Pid, pid: Pid): (r: Option<T>)
    ensures r.Some? ==> pidOf(r.value) == pid && r.value in t[BucketOf(pid)]
    ensures r.None? <==> forall j :: 0 <= j < |t[BucketOf(pid)]| ==> pidOf(t[BucketOf(pid)][j]) != pid
  {
    var bucket := t[BucketOf(pid)];
    match Find(bucket, pidOf, pid)
    case None => None
    case Some(i) => Some(bucket[i])
  }

  /** Every record sits in the bucket its pid hashes to, and no bucket holds
      two records with the same pid. */
  ghost predicate WellFormed<T>(t: Table<T>, pidOf: T -> Pid)
  {
    && (forall b, i :: 0 <= b < |t| && 0 <= i < |t[b]| ==> BucketOf(pidOf(t[b][i])) == b)
    && (forall b, i, j :: 0 <= b < |t| && 0 <= i < j < |t[b]| ==> pidOf(t[b][i]) != pidOf(t[b][j]))
  }

  /** In a well-formed table there is at most one record per pid in the whole
      table, whichever buckets are compared. */
  lemma AtMostOnePerPid<T>(t: Table<T>, pidOf: T -> Pid, b1: nat, i1: nat, b2: nat, i2: nat)
    requires WellFormed(t, pidOf)
    requires b1 < |t| && i1 < |t[b1]| && b2 < |t| && i2 < |t[b2]|
    requires pidOf(t[b1][i1]) == pidOf(t[b2][i2])
    ensures b1 == b2 && i1 == i2
  {
    assert b1 == BucketOf(pidOf(t[b1][i1])) == b2;
  }

  /** In a well-formed table, Lookup finds a record exactly when the table
      holds a record with that pid, and then it is that record. */
  lemma LookupExact<T>(t: Table<T>, pidOf: T -> Pid, pid: Pid, b: nat, i: nat)
    requires WellFormed(t, pidOf)
    requires b < |t| && i < |t[b]| && pidOf(t[b][i]) == pid
    ensures Lookup(t, pidOf, pid) == Some(t[b][i])
  {
    assert b == BucketOf(pid);
    var r := Find(t[b], pidOf, pid);
    assert r.Some?;
    AtMostOnePerPid(t, pidOf, b, i, b, r.value);
  }

  /** A record put at the head of its bucket, when the bucket had none with
      its pid, is what Lookup then finds; the table stays well formed. */
  lemma PrependKeepsWellFormed<T>(t: Table<T>, pidOf: T -> Pid, x: T)
    requires WellFormed(t, pidOf)
    requires Lookup(t, pidOf, pidOf(x)).None?
    ensures var b := BucketOf(pidOf(x));
      var t' := t[b := [x] + t[b]];
      WellFormed(t', pidOf) && Lookup(t', pidOf, pidOf(x)) == Some(x)
  {
    var b := BucketOf(pidOf(x));
    var t': Table<T> := t[b := [x] + t[b]];
    forall c, i | 0 <= c < |t'| && 0 <= i < |t'[c]|
      ensures BucketOf(pidOf(t'[c][i])) == c
    {
      if c == b && i > 0 { assert t'[c][i] == t[c][i - 1]; }
    }
    forall c, i, j | 0 <= c < |t'| && 0 <= i < j < |t'[c]|
      ensures pidOf(t'[c][i]) != pidOf(t'[c][j])
    {
      if c == b {
        assert t'[c][j] == t[c][j - 1];
        if i > 0 { assert t'[c][i] == t[c][i - 1]; }
      }
    }
  }

  /** Replacing a record by one with the same pid keeps the table well formed. */
  lemma ReplaceKeepsWellFormed<T>(t: Table<T>, pidOf: T -> Pid, b: nat, i: nat, x: T)
    requires WellFormed(t, pidOf)
    requires b < |t| && i < |t[b]| && pidOf(x) == pidOf(t[b][i])
    ensures WellFormed(t[b := t[b][i := x]], pidOf)
  {
  }

  /** Lookup of any other pid is unaffected by putting a record at the head
      of a bucket. */
  lemma PrependOtherPid<T>(t: Table<T>, pidOf: T -> Pid, x: T, q: Pid)
    requires q != pidOf(x)
    ensures var b := BucketOf(pidOf(x));
      Lookup(t[b := [x] + t[b]], pidOf, q) == Lookup(t, pidOf, q)
  {
    var b := BucketOf(pidOf(x));
    if BucketOf(q) == b {
      assert ([x] + t[b])[1..] == t[b];
    }
  }

  /** Lookup of any other pid is unaffected by replacing a record by one with
      the same pid. */
  lemma ReplaceOtherPid<T>(t: Table<T>, pidOf: T -> Pid, b: nat, i: nat, x: T, q: Pid)
    requires b < |t| && i < |t[b]| && pidOf(x) == pidOf(t[b][i]) && q != pidOf(x)
    ensures Lookup(t[b := t[b][i := x]], pidOf, q) == Lookup(t, pidOf, q)
  {
    if BucketOf(q) == b {
      var s, s' := t[b], t[b][i := x];
      var r, r' := Find(s, pidOf, q), Find(s', pidOf, q);
      if r.Some? {
        assert pidOf(s'[r.value]) == q;
      }
      if r'.Some? {
        assert pidOf(s[r'.value]) == q;
      }
    }
  }

  /** The records of all buckets, bucket 0 first, each bucket from its head:
      the order in which a walk over the table visits them. */
  function Flatten<T>(t: seq<seq<T>>): seq<T>
  {
    if t == [] then [] else Flatten(t[..|t| - 1]) + t[|t| - 1]
  }

  /** Every record of the table appears in Flatten, and nothing else does. */
  lemma {:induction false} FlattenMembership<T>(t: seq<seq<T>>, x: T)
    ensures x in Flatten(t) <==> exists b :: 0 <= b < |t| && x in t[b]
  {
    if t != [] {
      var n := |t| - 1;
      FlattenMembership(t[..n], x);
      if x in t[n] {
        assert x in Flatten(t);
      }
      if exists b :: 0 <= b < |t| && x in t[b] {
        var b :| 0 <= b < |t| && x in t[b];
        if b < n { assert t[..n][b] == t[b]; }
      }
      if exists b :: 0 <= b < n && x in t[..n][b] {
        var b :| 0 <= b < n && x in t[..n][b];
        assert x in t[b];
      }
    }
  }

  /** The walk yields as many records as the buckets hold together. */
  function Count<T>(t: seq<seq<T>>): nat
  {
    if t == [] then 0 else Count(t[..|t| - 1]) + |t[|t| - 1]|
  }

  lemma {:induction false} FlattenLength<T>(t: seq<seq<T>>)
    ensures |Flatten(t)| == Count(t)
  {
    if t != [] {
      FlattenLength(t[..|t| - 1]);
    }
  }

  /** A walk over a well-formed table visits records in bucket order (the
      bucket index of the records it yields never decreases) and yields no
      pid twice. */
  lemma FlattenOrdered<T>(t: Table<T>, pidOf: T -> Pid)
    requires WellFormed(t, pidOf)
    ensures var f := Flatten(t);
      forall i, j :: 0 <= i < j < |f| ==>
        BucketOf(pidOf(f[i])) <= BucketOf(pidOf(f[j])) && pidOf(f[i]) != pidOf(f[j])
  {
    PrefixOrdered(t, pidOf, |t|);
    assert t[..|t|] == t;
  }

  lemma {:induction false} PrefixOrdered<T>(t: Table<T>, pidOf: T -> Pid, n: nat)
    requires WellFormed(t, pidOf) && n <= |t|
    ensures forall i :: 0 <= i < |Flatten(t[..n])| ==> BucketOf(pidOf(Flatten(t[..n])[i])) < n
    ensures forall i, j :: 0 <= i < j < |Flatten(t[..n])| ==>
      && BucketOf(pidOf(Flatten(t[..n])[i])) <= BucketOf(pidOf(Flatten(t[..n])[j]))
      && pidOf(Flatten(t[..n])[i]) != pidOf(Flatten(t[..n])[j])
  {
    if n == 0 {
      assert t[..n] == [];
    } else {
      PrefixOrdered(t, pidOf, n - 1);
      assert t[..n][..n - 1] == t[..n - 1];
      var f0 := Flatten(t[..n - 1]);
      assert Flatten(t[..n]) == f0 + t[n - 1];
      var f := f0 + t[n - 1];
      forall i | 0 <= i < |f| ensures BucketOf(pidOf(f[i])) < n {
        if i >= |f0| {
          assert f[i] == t[n - 1][i - |f0|];
        } else {
          assert f[i] == f0[i];
        }
      }
      forall i, j | 0 <= i < j < |f|
        ensures BucketOf(pidOf(f[i])) <= BucketOf(pidOf(f[j])) && pidOf(f[i]) != pidOf(f[j])
      {
        if j >= |f0| {
          assert f[j] == t[n - 1][j - |f0|];
          if i >= |f0| { assert f[i] == t[n - 1][i - |f0|]; } else { assert f[i] == f0[i]; }
        } else {
          assert f[i] == f0[i] && f[j] == f0[j];
        }
      }
    }
  }

  /** The empty table holds nothing: a walk over it yields no record. */
  lemma {:induction false} FlattenEmpty<T>(t: seq<seq<T>>)
    requires forall b :: 0 <= b < |t| ==> t[b] == []
    ensures Flatten(t) == []
  {
    if t != [] {
      FlattenEmpty(t[..|t| - 1]);
    }
  }
}
