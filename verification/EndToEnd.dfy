/** Reconciling two scans and then comparing them: the identity resolved is the identity compared. */
module EndToEnd {
  import opened Wrappers
  import opened Records
  import opened Inventory
  import opened InventoryView
  import opened Reachable
  import opened CompareRuns

  /** The observations a stored scan leaves. */
  function Recorded(t: Table, step: Step): seq<Observation>
    requires step.Scan?
  {
    Reconcile(t, step.scan, step.coverage, Some(step.run), step.observedAt).observations
  }

  /** The key under which a scan's host `i` is compared. */
  function HostKeyOf(t: Table, step: Step, i: nat): HostKey
    requires step.Scan? && i < |step.scan|
  {
    ByDevice(MergeAll(t, step.scan).at[i] + 1)
  }

  lemma SeenFirst(t: Table, step: Step)
    requires step.Scan?
    ensures Seen(Some(step.run), t, step.scan, step.observedAt) <= Recorded(t, step)
  {
  }

  lemma SeenIsSighted(run: Run, scan: seq<Sighting>, at: seq<nat>, observedAt: int, rows: seq<Observation>, i: nat)
    requires |at| == |scan| && i < |scan|
    requires PresentForAll(Some(run), scan, at, observedAt) <= rows
    ensures ByDevice(at[i] + 1) in SightedBy(rows)
  {
    PresentAt(run, scan, at, observedAt);
    PresentIsSighted(rows, i);
  }

  lemma SameRowSameKey(t: Table, first: Step, i: nat, u: Table, second: Step, j: nat)
    requires first.Scan? && second.Scan? && i < |first.scan| && j < |second.scan|
    requires MergeAll(t, first.scan).at[i] == MergeAll(u, second.scan).at[j]
    ensures HostKeyOf(t, first, i) == HostKeyOf(u, second, j)
  {
  }

  /** A host that was up is compared under the device it was resolved to. */
  lemma ScannedHostIsSighted(t: Table, step: Step, i: nat)
    requires step.Scan? && i < |step.scan|
    ensures HostKeyOf(t, step, i) in SightedBy(Recorded(t, step))
  {
    SeenFirst(t, step);
    SeenIsSighted(step.run, step.scan, MergeAll(t, step.scan).at, step.observedAt, Recorded(t, step), i);
  }

  /** The comparison of two stored scans, each met in its own table. */
  datatype Compared = Compared(result: Comparison, base: RunInfo, target: RunInfo, names: map<nat, string>)

  ghost predicate ComparesScans(c: Compared, t: Table, first: Step, u: Table, second: Step)
    requires first.Scan? && second.Scan?
  {
    c.result.comparable && Compares(c.result, c.base, c.target, Recorded(t, first), Recorded(u, second), c.names)
  }

  function ScanInputs(c: Compared, t: Table, first: Step, u: Table, second: Step): Inputs
    requires first.Scan? && second.Scan?
  {
    InputsOf(c.base, c.target, Recorded(t, first), Recorded(u, second), c.names)
  }

  /** `key` is listed as changed or counted as unchanged, and as nothing else. */
  ghost predicate OnlyChangedOrUnchanged(r: Comparison, c: Inputs, key: HostKey) {
    && key !in DeltaKeys(r.added) && key !in DeltaKeys(r.missing) && key !in DeltaKeys(r.outside)
    && key in ChangedKeys(c) + UnchangedKeys(c)
    && (key in DeltaKeys(r.changed) <==> key in ChangedKeys(c))
  }

  lemma SightedTwice(r: Comparison, c: Inputs, rows: seq<Observation>, others: seq<Observation>, key: HostKey)
    requires ListsClasses(r, c) && c.before == SightedBy(rows) && c.after == SightedBy(others)
    requires key in c.before && key in c.after
    ensures OnlyChangedOrUnchanged(r, c, key)
  {
    ListedKeys(r, c, rows, others);
    EveryKeyInOneClass(c);
  }

  lemma ComparedTwice(c: Compared, t: Table, first: Step, u: Table, second: Step, key: HostKey)
    requires first.Scan? && second.Scan?
    requires key in SightedBy(Recorded(t, first)) && key in SightedBy(Recorded(u, second))
    ensures ComparesScans(c, t, first, u, second) ==>
      OnlyChangedOrUnchanged(c.result, ScanInputs(c, t, first, u, second), key)
  {
    if ComparesScans(c, t, first, u, second) {
      SightedTwice(c.result, ScanInputs(c, t, first, u, second), Recorded(t, first), Recorded(u, second), key);
    }
  }

  lemma ResolvedAlike(c: Compared, t: Table, first: Step, i: nat, u: Table, second: Step, j: nat, key: HostKey)
    requires first.Scan? && second.Scan? && i < |first.scan| && j < |second.scan|
    ensures key == HostKeyOf(t, first, i) && key == HostKeyOf(u, second, j) && ComparesScans(c, t, first, u, second) ==>
      OnlyChangedOrUnchanged(c.result, ScanInputs(c, t, first, u, second), key)
  {
    ScannedHostIsSighted(t, first, i);
    ScannedHostIsSighted(u, second, j);
    if key == HostKeyOf(t, first, i) && key == HostKeyOf(u, second, j) {
      ComparedTwice(c, t, first, u, second, key);
    }
  }

  /**
   * Two stored scans, with any scans, pings, edits and removals between them: a host that answered both
   * under one MAC compares as changed or unchanged, whatever its addresses.
   */
  lemma SameMacComparesAsOne(c: Compared, t: Table, first: Step, i: nat, between: seq<Step>, u: Table, second: Step, j: nat)
    requires Consistent(t) && first.Scan? && second.Scan? && i < |first.scan| && j < |second.scan|
    requires Commits(t, first) && u == ApplyAll(Apply(t, first), between) && Commits(u, second)
    requires ComparesScans(c, t, first, u, second)
    requires first.scan[i].host.mac.Some? && first.scan[i].host.mac == second.scan[j].host.mac
    ensures OnlyChangedOrUnchanged(c.result, ScanInputs(c, t, first, u, second), HostKeyOf(t, first, i))
  {
    SameMacSameDevice(t, first, between, second, i, j);
    SameRowSameKey(t, first, i, u, second, j);
    ResolvedAlike(c, t, first, i, u, second, j, HostKeyOf(t, first, i));
  }

  /** Host `i` of the first scan and host `j` of the second are compared as one host. */
  ghost predicate ComparedAsOne(c: Compared, t: Table, first: Step, i: nat, u: Table, second: Step, j: nat)
    requires first.Scan? && second.Scan? && i < |first.scan| && j < |second.scan|
  {
    && HostKeyOf(t, first, i) == HostKeyOf(u, second, j)
    && OnlyChangedOrUnchanged(c.result, ScanInputs(c, t, first, u, second), HostKeyOf(t, first, i))
  }

  lemma DifferentRowsDifferentKeys(t: Table, first: Step, i: nat, u: Table, second: Step, j: nat)
    requires first.Scan? && second.Scan? && i < |first.scan| && j < |second.scan|
    requires MergeAll(t, first.scan).at[i] != MergeAll(u, second.scan).at[j]
    ensures HostKeyOf(t, first, i) != HostKeyOf(u, second, j)
  {
  }

  /**
   * Two scans stored in turn, with no other scan between them: a host first seen without
   * a MAC and then at the same address, still without one or with one never seen before, compares
   * as one host, changed or unchanged, exactly when no other host with a never-seen MAC took the
   * address in between.
   */
  lemma FirstMacComparesAsOneIff(c: Compared, t: Table, first: Step, i: nat, between: seq<Step>, u: Table, second: Step, j: nat)
    requires Consistent(t) && first.Scan? && second.Scan? && i < |first.scan| && j < |second.scan|
    requires Commits(t, first) && NoScans(between) && u == ApplyAll(Apply(t, first), between) && Commits(u, second)
    requires ComparesScans(c, t, first, u, second)
    requires SeenAgain(first.scan, i, u, second.scan, j)
    ensures ComparedAsOne(c, t, first, i, u, second, j) <==>
      LeftAlone(t, first.scan, i + 1, |first.scan|, first.scan[i].host.ip) && LeftAlone(u, second.scan, 0, j, first.scan[i].host.ip)
  {
    FirstMacSameDeviceIff(t, first, i, between, u, second.scan, j);
    if MergeAll(t, first.scan).at[i] == MergeAll(u, second.scan).at[j] {
      SameRowSameKey(t, first, i, u, second, j);
      ResolvedAlike(c, t, first, i, u, second, j, HostKeyOf(t, first, i));
    } else {
      DifferentRowsDifferentKeys(t, first, i, u, second, j);
    }
  }
}
