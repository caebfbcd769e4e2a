/**
 The disk section of the report (sbor.py, `creating_file`). The mounted
 partitions are an input, each with the outcome of its usage query. A
 partition whose query is refused for lack of permission is skipped and the
 loop goes on; a query that fails in any other way ends the loop, and the
 entries recorded up to that point are kept. Every recorded partition is
 keyed by its device, a later partition on the same device replacing an
 earlier one.
 */
module Disks {
  import SizeFormat

  /** The outcome of the usage query for one mount point. `percent` is the
      text of the used percentage as the operating system reports it. */
  datatype Usage =
    | Measured(total: nat, used: nat, free: nat, percent: string)
    | PermissionDenied
    | QueryFailed

  /** One mounted partition and the outcome of its usage query. */
  datatype Partition = Partition(device: string, mountpoint: string, fstype: string, usage: Usage)

  /** The entry kept for one partition; sizes are kept as the unit choice of
      the size formatter. */
  datatype DiskEntry = DiskEntry(
    filesystem: string,
    total: SizeFormat.Size,
    used: SizeFormat.Size,
    free: SizeFormat.Size,
    usagePercent: string)

  /** `s` is a unit choice for `n` bytes: whole bytes exactly when `n` is
      below 1024, and then the count itself. */
  predicate SizeOf(s: SizeFormat.Size, n: nat) {
    && (s.Bytes? <==> n < SizeFormat.Base)
    && (s.Bytes? ==> s.count == n)
  }

  /** The entry for a partition whose usage was measured: the file system
      type, the three sizes as the size formatter sees them, and the used
      percentage followed by '%'. */
  function Entry(p: Partition): (e: DiskEntry)
    requires p.usage.Measured?
    ensures e.filesystem == p.fstype
    ensures SizeOf(e.total, p.usage.total)
    ensures SizeOf(e.used, p.usage.used)
    ensures SizeOf(e.free, p.usage.free)
    ensures e.usagePercent == p.usage.percent + "%"
  {
    DiskEntry(
      p.fstype,
      SizeFormat.CorrectSize(p.usage.total),
      SizeFormat.CorrectSize(p.usage.used),
      SizeFormat.CorrectSize(p.usage.free),
      p.usage.percent + "%")
  }

  /** How many partitions the loop visits: all of them, or up to (not
      including) the first whose usage query failed with an error other
      than a permission refusal. */
  function Reached(parts: seq<Partition>): (r: nat)
    ensures r <= |parts|
    ensures forall j :: 0 <= j < r ==> !parts[j].usage.QueryFailed?
    ensures r < |parts| ==> parts[r].usage.QueryFailed?
  {
    if |parts| == 0 || parts[0].usage.QueryFailed? then 0
    else 1 + Reached(parts[1..])
  }

  /** Among the first `n` partitions, `i` is measured and no later measured
      partition shares its device. */
  ghost predicate IsLastMeasured(parts: seq<Partition>, n: int, i: int)
    requires n <= |parts|
  {
    && 0 <= i < n
    && parts[i].usage.Measured?
    && forall j :: i < j < n && parts[j].usage.Measured? ==> parts[j].device != parts[i].device
  }

  /** The devices recorded after visiting the first `n` partitions. */
  ghost function MeasuredDevices(parts: seq<Partition>, n: nat): set<string>
    requires n <= |parts|
  {
    set i | 0 <= i < n && parts[i].usage.Measured? :: parts[i].device
  }

  /** The partition loop. The keys are exactly the devices of the measured
      partitions before the first failed query; each holds the entry of the
      last such partition on that device. */
  method CollectDisks(parts: seq<Partition>) returns (disks: map<string, DiskEntry>)
    ensures disks.Keys == MeasuredDevices(parts, Reached(parts))
    ensures forall i :: IsLastMeasured(parts, Reached(parts), i) ==>
      parts[i].device in disks && disks[parts[i].device] == Entry(parts[i])
  {
    disks := map[];
    var n := 0;
    while n < |parts|
      invariant 0 <= n <= Reached(parts)
      invariant disks.Keys == MeasuredDevices(parts, n)
      invariant forall i :: IsLastMeasured(parts, n, i) ==>
        parts[i].device in disks && disks[parts[i].device] == Entry(parts[i])
    {
      var p := parts[n];
      if p.usage.QueryFailed? {
        assert n == Reached(parts);
        break;
      }
      ghost var before := disks;
      if p.usage.Measured? {
        disks := disks[p.device := Entry(p)];
      }
      MeasuredDevicesStep(parts, n);
      LastMeasuredStep(parts, n, before, disks);
      n := n + 1;
    }
    assert n == Reached(parts);
  }

  lemma MeasuredDevicesStep(parts: seq<Partition>, n: nat)
    requires n < |parts|
    ensures MeasuredDevices(parts, n + 1) ==
      MeasuredDevices(parts, n) + if parts[n].usage.Measured? then {parts[n].device} else {}
  {
  }

  /** Visiting `parts[n]` keeps every later-wins entry recorded so far. */
  lemma LastMeasuredStep(parts: seq<Partition>, n: nat, before: map<string, DiskEntry>, after: map<string, DiskEntry>)
    requires n < |parts|
    requires forall i :: IsLastMeasured(parts, n, i) ==>
      parts[i].device in before && before[parts[i].device] == Entry(parts[i])
    requires after == if parts[n].usage.Measured? then before[parts[n].device := Entry(parts[n])] else before
    ensures forall i :: IsLastMeasured(parts, n + 1, i) ==>
      parts[i].device in after && after[parts[i].device] == Entry(parts[i])
  {
    forall i | IsLastMeasured(parts, n + 1, i)
      ensures parts[i].device in after && after[parts[i].device] == Entry(parts[i])
    {
      if i < n {
        assert IsLastMeasured(parts, n, i);
      }
    }
  }

  /** Everything after a failed query is invisible to the loop: the
      partitions it visits are the same whatever follows the failure. */
  lemma {:induction false} ReachedStopsAtFailure(parts: seq<Partition>, rest: seq<Partition>)
    requires Reached(parts) < |parts|
    ensures Reached(parts + rest) == Reached(parts)
    decreases |parts|
  {
    if !parts[0].usage.QueryFailed? {
      assert (parts + rest)[1..] == parts[1..] + rest;
      ReachedStopsAtFailure(parts[1..], rest);
    }
  }

  /** A partition refused for lack of permission contributes nothing: unless
      a measured partition shares its device, its device is not a key of a
      map with the key set the partition loop produces. */
  lemma DeniedPartitionAbsent(parts: seq<Partition>, disks: map<string, DiskEntry>, i: int)
    requires disks.Keys == MeasuredDevices(parts, Reached(parts))
    requires 0 <= i < |parts| && parts[i].usage.PermissionDenied?
    requires forall j :: 0 <= j < |parts| && parts[j].usage.Measured? ==> parts[j].device != parts[i].device
    ensures parts[i].device !in disks
  {
  }

  /** Rendering the stored sizes gives exactly the texts `correct_size`
      returns for the three byte counts of the partition. */
  lemma EntryText(p: Partition, fixed2: real -> string)
    requires p.usage.Measured?
    ensures SizeFormat.Text(Entry(p).total, SizeFormat.DefaultEnding, fixed2)
      == SizeFormat.FormatSize(p.usage.total, SizeFormat.DefaultEnding, fixed2)
    ensures SizeFormat.Text(Entry(p).used, SizeFormat.DefaultEnding, fixed2)
      == SizeFormat.FormatSize(p.usage.used, SizeFormat.DefaultEnding, fixed2)
    ensures SizeFormat.Text(Entry(p).free, SizeFormat.DefaultEnding, fixed2)
      == SizeFormat.FormatSize(p.usage.free, SizeFormat.DefaultEnding, fixed2)
  {
  }
}
