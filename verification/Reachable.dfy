/**
 * What one reconciled scan and whole histories of scans, pings and operator edits keep: the absence
 * sweep, the table's invariant, and the identity a MAC fixes for good.
 */
module Reachable {
  import opened Wrappers
  import opened Sequences
  import opened Records
  import opened Inventory
  import opened InventoryView
  import opened Rescan

  // ---------------------------------------------------------------- one scan

  /** How often a run recorded a device as absent. */
  function AbsentRows(observations: seq<Observation>, deviceId: nat): nat {
    if observations == [] then 0
    else (if !observations[0].present && observations[0].deviceId == Some(deviceId) then 1 else 0) + AbsentRows(observations[1..], deviceId)
  }

  predicate PresentRow(observations: seq<Observation>, deviceId: nat) {
    exists k :: 0 <= k < |observations| && observations[k].present && observations[k].deviceId == Some(deviceId)
  }

  lemma {:induction false} AbsentRowsConcat(a: seq<Observation>, b: seq<Observation>, deviceId: nat)
    ensures AbsentRows(a + b, deviceId) == AbsentRows(a, deviceId) + AbsentRows(b, deviceId)
  {
    if a == [] {
      assert a + b == b;
    } else {
      assert (a + b)[1..] == a[1..] + b;
      AbsentRowsConcat(a[1..], b, deviceId);
    }
  }

  lemma {:induction false} NoAbsentAmongPresent(observations: seq<Observation>, deviceId: nat)
    requires forall k :: 0 <= k < |observations| ==> observations[k].present
    ensures AbsentRows(observations, deviceId) == 0
  {
    if observations != [] {
      NoAbsentAmongPresent(observations[1..], deviceId);
    }
  }

  function RowsWithId(rows: seq<DeviceRow>, id: nat): nat {
    if rows == [] then 0 else (if rows[0].id == id then 1 else 0) + RowsWithId(rows[1..], id)
  }

  lemma {:induction false} AbsentRowsById(run: Run, rows: seq<DeviceRow>, observedAt: int, id: nat)
    ensures AbsentRows(MissingAll(run, rows, observedAt), id) == RowsWithId(rows, id)
  {
    if rows != [] {
      AbsentRowsById(run, rows[1..], observedAt, id);
      assert MissingAll(run, rows, observedAt)[1..] == MissingAll(run, rows[1..], observedAt);
    }
  }

  lemma {:induction false} RowsWithIdOneMore(rows: seq<DeviceRow>, row: DeviceRow, id: nat)
    ensures RowsWithId(rows + [row], id) == RowsWithId(rows, id) + if row.id == id then 1 else 0
  {
    if rows == [] {
      assert [] + [row] == [row] && [row][1..] == [];
    } else {
      assert (rows + [row])[1..] == rows[1..] + [row];
      RowsWithIdOneMore(rows[1..], row, id);
    }
  }

  lemma {:induction false} AbsentAmongOnce(rows: seq<DeviceRow>, n: nat, range: Range, scannedAt: int, i: nat)
    requires n <= |rows| && forall k :: 0 <= k < |rows| ==> rows[k].id == k + 1
    ensures RowsWithId(AbsentAmong(rows, n, range, scannedAt), i + 1)
      == if i < n && IsAbsent(rows[i], range, scannedAt) then 1 else 0
  {
    if n > 0 {
      var before := AbsentAmong(rows, n - 1, range, scannedAt);
      AbsentAmongOnce(rows, n - 1, range, scannedAt, i);
      assert before + [] == before;
      RowsWithIdOneMore(before, MarkAbsent(rows[n - 1], range, scannedAt), i + 1);
      assert rows[n - 1].id == n;
    }
  }

  /** Exactly one absent row for each absent device, none for the others. */
  lemma OneRowPerAbsentee(run: Run, rows: seq<DeviceRow>, range: Range, scannedAt: int, observedAt: int, i: nat)
    requires forall k :: 0 <= k < |rows| ==> rows[k].id == k + 1
    ensures AbsentRows(MissingAll(run, Absentees(rows, range, scannedAt), observedAt), i + 1)
      == if i < |rows| && IsAbsent(rows[i], range, scannedAt) then 1 else 0
  {
    AbsentRowsById(run, Absentees(rows, range, scannedAt), observedAt, i + 1);
    AbsentAmongOnce(rows, |rows|, range, scannedAt, i);
  }

  /** The fields only an operator writes, and the row's own history. */
  predicate OperatorFieldsKept(a: DeviceRow, b: DeviceRow) {
    a.id == b.id && a.name == b.name && a.deviceType == b.deviceType && a.notes == b.notes && a.firstSeen == b.firstSeen
  }

  /** What merging leaves of a row: all of it, or its operator fields, live, online and just seen. */
  lemma {:induction false} MergedRow(t: Table, scan: seq<Sighting>, i: nat)
    requires i < |MergeAll(t, scan).table.devices|
    ensures var merged := MergeAll(t, scan);
      var row := merged.table.devices[i];
      && (i < |t.devices| ==> OperatorFieldsKept(row, t.devices[i]))
      && (i < |t.devices| && i !in merged.at ==> row == t.devices[i])
      && (i >= |t.devices| ==> i in merged.at)
      && (i in merged.at ==> !row.isDeleted && row.status == Online && exists k :: 0 <= k < |scan| && merged.at[k] == i && row.lastSeen == scan[k].seenAt)
  {
    if scan != [] {
      var n := |scan| - 1;
      var before, merged := MergeAll(t, scan[..n]), MergeAll(t, scan);
      assert merged.at == before.at + [merged.at[n]];
      if i == merged.at[n] {
        if i < |before.table.devices| {
          MergedRow(t, scan[..n], i);
        }
        assert merged.table.devices[i].lastSeen == scan[n].seenAt;
      } else {
        MergedRow(t, scan[..n], i);
        assert merged.table.devices[i] == before.table.devices[i];
        if i in before.at {
          var k :| 0 <= k < n && before.at[k] == i && before.table.devices[i].lastSeen == scan[k].seenAt;
          assert merged.at[k] == i;
        }
      }
    }
  }

  /**
   * One reconciled scan with an absence sweep, for a scan that began no later than its first
   * merge: what becomes of device `i + 1`.
   */
  lemma SweptScan(t: Table, scan: seq<Sighting>, c: Coverage, run: Run, observedAt: int, i: nat)
    requires Identified(t.devices)
    requires forall k :: 0 <= k < |scan| ==> c.scannedAt <= scan[k].seenAt
    requires i < |Reconcile(t, scan, Some(c), Some(run), observedAt).table.devices|
    ensures var r := Reconcile(t, scan, Some(c), Some(run), observedAt);
      var matched := i in r.at;
      var silent := i < |t.devices| && !matched && !t.devices[i].isDeleted && c.range(t.devices[i].ip) && t.devices[i].lastSeen < c.scannedAt;
      && (matched <==> PresentRow(r.observations, i + 1))
      && AbsentRows(r.observations, i + 1) == (if silent then 1 else 0)
      && (matched ==> r.table.devices[i].status == Online && !r.table.devices[i].isDeleted)
      && (silent ==> r.table.devices[i] == t.devices[i].(status := Offline))
      && (!matched && !silent ==> i < |t.devices| && r.table.devices[i] == t.devices[i])
      && (i < |t.devices| ==> OperatorFieldsKept(r.table.devices[i], t.devices[i]))
      && r.created == |r.table.devices| - |t.devices|
  {
    var merged := MergeAll(t, scan);
    MergedRow(t, scan, i);
    SweepMarksEach(merged.table.devices, |merged.table.devices|, c.range, c.scannedAt);
    if i in merged.at {
      var k :| 0 <= k < |scan| && merged.at[k] == i && merged.table.devices[i].lastSeen == scan[k].seenAt;
      assert !IsAbsent(merged.table.devices[i], c.range, c.scannedAt);
    }
    SweptRows(t, scan, c, run, observedAt, i);
  }

  /** The rows a scan with a sweep records for device `i + 1`. */
  lemma SweptRows(t: Table, scan: seq<Sighting>, c: Coverage, run: Run, observedAt: int, i: nat)
    requires Identified(t.devices) && i < |MergeAll(t, scan).table.devices|
    ensures var r := Reconcile(t, scan, Some(c), Some(run), observedAt);
      && (i in r.at <==> PresentRow(r.observations, i + 1))
      && AbsentRows(r.observations, i + 1) == if IsAbsent(MergeAll(t, scan).table.devices[i], c.range, c.scannedAt) then 1 else 0
  {
    var merged := MergeAll(t, scan);
    MergeKeepsIdentified(t, scan);
    RecordedRows(merged.table.devices, run, scan, merged.at, c, observedAt, i);
  }

  lemma RecordedRows(rows: seq<DeviceRow>, run: Run, scan: seq<Sighting>, at: seq<nat>, c: Coverage, observedAt: int, i: nat)
    requires |at| == |scan| && i < |rows| && forall k :: 0 <= k < |rows| ==> rows[k].id == k + 1
    ensures var observations := PresentForAll(Some(run), scan, at, observedAt) + MissingAll(run, Absentees(rows, c.range, c.scannedAt), observedAt);
      && (i in at <==> PresentRow(observations, i + 1))
      && AbsentRows(observations, i + 1) == if IsAbsent(rows[i], c.range, c.scannedAt) then 1 else 0
  {
    var seen := PresentForAll(Some(run), scan, at, observedAt);
    var missing := MissingAll(run, Absentees(rows, c.range, c.scannedAt), observedAt);
    OneRowPerAbsentee(run, rows, c.range, c.scannedAt, observedAt, i);
    PresentIds(run, scan, at, observedAt);
    NoAbsentAmongPresent(seen, i + 1);
    AbsentRowsConcat(seen, missing, i + 1);
    MissingAllAbsent(run, Absentees(rows, c.range, c.scannedAt), observedAt);
    PresentRowsAreMatches(seen, at, missing, i);
  }

  lemma {:induction false} PresentIds(run: Run, scan: seq<Sighting>, at: seq<nat>, observedAt: int)
    requires |at| == |scan|
    ensures var seen := PresentForAll(Some(run), scan, at, observedAt);
      |seen| == |at| && forall k :: 0 <= k < |at| ==> seen[k].present && seen[k].deviceId == Some(at[k] + 1)
  {
    if scan != [] {
      PresentIds(run, scan[..|scan| - 1], at[..|scan| - 1], observedAt);
    }
  }

  lemma PresentRowsAreMatches(seen: seq<Observation>, at: seq<nat>, missing: seq<Observation>, i: nat)
    requires |at| == |seen| && forall k :: 0 <= k < |seen| ==> seen[k].present && seen[k].deviceId == Some(at[k] + 1)
    requires forall k :: 0 <= k < |missing| ==> !missing[k].present
    ensures PresentRow(seen + missing, i + 1) <==> i in at
  {
    var all := seen + missing;
    forall k | 0 <= k < |all| ensures all[k].present && all[k].deviceId == Some(i + 1) <==> k < |at| && at[k] == i {
      if k >= |at| {
        assert all[k] == missing[k - |at|];
      }
    }
    if i in at {
      var k :| 0 <= k < |at| && at[k] == i;
      assert all[k].present;
    }
  }

  // ---------------------------------------------------------------- histories

  datatype Step =
    | Scan(scan: seq<Sighting>, coverage: Option<Coverage>, run: Run, observedAt: int)
    | Edit(deviceId: nat, name: Option<Text>, deviceType: Option<Text>, notes: Option<Text>)
    | Remove(deviceId: nat, when: int)
    | Ping(deviceId: nat, answered: bool, when: int)

  /** A scan is stored when it keeps the port table's unique constraint; otherwise it is rolled back. */
  predicate Commits(t: Table, step: Step)
    requires step.Scan?
  {
    PortsUnique(MergeAll(t, step.scan).table.ports)
  }

  /** `_update_device_latency`, for the fields of the inventory. */
  function Pinged(row: DeviceRow, answered: bool, when: int): DeviceRow {
    if answered then row.(status := Online, lastSeen := when) else row.(status := Offline)
  }

  function Apply(t: Table, step: Step): Table {
    match step
    case Scan(scan, coverage, run, observedAt) =>
      if Commits(t, step) then Reconcile(t, scan, coverage, Some(run), observedAt).table else t
    case Edit(id, name, deviceType, notes) =>
      if 1 <= id <= |t.devices| && !t.devices[id - 1].isDeleted
      then t.(devices := t.devices[id - 1 := t.devices[id - 1].(name := name, deviceType := deviceType, notes := notes)])
      else t
    case Remove(id, when) =>
      if 1 <= id <= |t.devices|
      then t.(devices := t.devices[id - 1 := t.devices[id - 1].(isDeleted := true, deletedAt := Some(when))])
      else t
    case Ping(id, answered, when) =>
      if 1 <= id <= |t.devices| && !t.devices[id - 1].isDeleted
      then t.(devices := t.devices[id - 1 := Pinged(t.devices[id - 1], answered, when)])
      else t
  }

  function ApplyAll(t: Table, steps: seq<Step>): Table {
    if steps == [] then t else Apply(ApplyAll(t, steps[..|steps| - 1]), steps[|steps| - 1])
  }

  lemma {:induction false} SyncKeepsOwners(snapshot: seq<PortRow>, ports: seq<PortRow>, deviceId: nat, found: seq<ParsedPort>, now: int, devices: nat)
    requires |snapshot| <= |ports| && 1 <= deviceId <= devices
    requires forall i :: 0 <= i < |ports| ==> 1 <= ports[i].deviceId <= devices
    ensures var after := SyncFrom(snapshot, ports, deviceId, found, now);
      forall i :: 0 <= i < |after| ==> 1 <= after[i].deviceId <= devices
    decreases |found|
  {
    if found != [] {
      var next := SyncPort(snapshot, ports, deviceId, found[0], now);
      SyncKeepsOwners(snapshot, next, deviceId, found[1..], now, devices);
      assert SyncFrom(snapshot, ports, deviceId, found, now) == SyncFrom(snapshot, next, deviceId, found[1..], now);
    }
  }

  lemma UpsertKeepsOwners(t: Table, s: Sighting)
    requires PortsOwned(t)
    ensures PortsOwned(Upsert(t, s))
  {
    var next := Upsert(t, s);
    SyncKeepsOwners(t.ports, t.ports, Place(t.devices, s.host) + 1, s.host.ports, s.portsAt, |next.devices|);
    assert next.ports == SyncFrom(t.ports, t.ports, Place(t.devices, s.host) + 1, s.host.ports, s.portsAt);
  }

  lemma {:induction false} MergeKeepsOwners(t: Table, scan: seq<Sighting>)
    requires PortsOwned(t)
    ensures PortsOwned(MergeAll(t, scan).table)
  {
    if scan != [] {
      MergeKeepsOwners(t, scan[..|scan| - 1]);
      UpsertKeepsOwners(MergeAll(t, scan[..|scan| - 1]).table, scan[|scan| - 1]);
    }
  }

  lemma SweepKeepsKeys(rows: seq<DeviceRow>, range: Range, scannedAt: int)
    requires Identified(rows)
    ensures Identified(Sweep(rows, range, scannedAt))
    ensures |Sweep(rows, range, scannedAt)| == |rows|
    ensures forall i :: 0 <= i < |rows| ==> KeyOf(Sweep(rows, range, scannedAt)[i]) == KeyOf(rows[i])
  {
    SweepMarksEach(rows, |rows|, range, scannedAt);
  }

  lemma ApplyKeepsConsistent(t: Table, step: Step)
    requires Consistent(t)
    ensures Consistent(Apply(t, step))
  {
    match step {
      case Scan(scan, coverage, run, observedAt) =>
        if Commits(t, step) {
          MergeKeepsIdentified(t, scan);
          MergeKeepsOwners(t, scan);
          if coverage.Some? {
            SweepKeepsKeys(MergeAll(t, scan).table.devices, coverage.value.range, coverage.value.scannedAt);
          }
        }
      case Edit(id, _, _, _) =>
        assert forall i :: 0 <= i < |t.devices| ==> KeyOf(Apply(t, step).devices[i]) == KeyOf(t.devices[i]);
      case Ping(id, _, _) =>
        assert forall i :: 0 <= i < |t.devices| ==> KeyOf(Apply(t, step).devices[i]) == KeyOf(t.devices[i]);
      case Remove(id, _) =>
        assert forall i :: 0 <= i < |t.devices| ==> KeyOf(Apply(t, step).devices[i]) == KeyOf(t.devices[i]);
    }
  }

  /**
   * In every inventory that scans, pings, edits and removals can lead to, each MAC is on one row, each
   * address on one MAC-less row, each port once per device, and no port without its device.
   */
  lemma {:induction false} EveryHistoryIsConsistent(steps: seq<Step>)
    ensures Consistent(ApplyAll(Table([], []), steps))
  {
    if steps != [] {
      EveryHistoryIsConsistent(steps[..|steps| - 1]);
      ApplyKeepsConsistent(ApplyAll(Table([], []), steps[..|steps| - 1]), steps[|steps| - 1]);
    }
  }

  // ---------------------------------------------------------------- identity over histories

  lemma {:induction false} MergeKeepsMac(t: Table, scan: seq<Sighting>, at: nat)
    requires Identified(t.devices) && at < |t.devices| && t.devices[at].mac.Some?
    ensures MergeAll(t, scan).table.devices[at].mac == t.devices[at].mac
  {
    if scan != [] {
      var n := |scan| - 1;
      MergeKeepsMac(t, scan[..n], at);
      ResolveByKey(MergeAll(t, scan[..n]).table.devices, scan[n].host);
    }
  }

  lemma ApplyKeepsMac(t: Table, step: Step, at: nat)
    requires Consistent(t) && at < |t.devices| && t.devices[at].mac.Some?
    ensures at < |Apply(t, step).devices| && Apply(t, step).devices[at].mac == t.devices[at].mac
  {
    if step.Scan? {
      MergeKeepsMac(t, step.scan, at);
      if step.coverage.Some? {
        SweepMarksEach(MergeAll(t, step.scan).table.devices, |MergeAll(t, step.scan).table.devices|, step.coverage.value.range, step.coverage.value.scannedAt);
      }
    }
  }

  /** A row keeps its MAC whatever is scanned, pinged, edited or removed afterwards. */
  lemma {:induction false} MacIsForGood(t: Table, steps: seq<Step>, at: nat)
    requires Consistent(t) && at < |t.devices| && t.devices[at].mac.Some?
    ensures Consistent(ApplyAll(t, steps))
    ensures at < |ApplyAll(t, steps).devices| && ApplyAll(t, steps).devices[at].mac == t.devices[at].mac
  {
    if steps != [] {
      MacIsForGood(t, steps[..|steps| - 1], at);
      ApplyKeepsConsistent(ApplyAll(t, steps[..|steps| - 1]), steps[|steps| - 1]);
      ApplyKeepsMac(ApplyAll(t, steps[..|steps| - 1]), steps[|steps| - 1], at);
    }
  }

  /** The row of a merged host with a MAC still has that MAC when the scan is done. */
  lemma {:induction false} MergedHostKeepsMac(t: Table, scan: seq<Sighting>, k: nat)
    requires Identified(t.devices) && k < |scan| && scan[k].host.mac.Some?
    ensures MergeAll(t, scan).table.devices[MergeAll(t, scan).at[k]].mac == scan[k].host.mac
  {
    var n := |scan| - 1;
    var before := MergeAll(t, scan[..n]);
    if k == n {
      UpsertSettles(before.table.devices, scan[n]);
    } else {
      MergedHostKeepsMac(t, scan[..n], k);
      MergeKeepsIdentified(t, scan[..n]);
      MergeKeepsMac(before.table, [scan[n]], before.at[k]);
      assert MergeAll(before.table, [scan[n]]).table == MergeAll(t, scan).table by {
        MergeInTwo(t, scan[..n], [scan[n]]);
        assert scan[..n] + [scan[n]] == scan;
      }
    }
  }

  /** A host whose MAC is on a row is merged into that row. */
  lemma {:induction false} KnownMacIsFound(t: Table, scan: seq<Sighting>, k: nat, at: nat)
    requires Identified(t.devices) && k < |scan| && scan[k].host.mac.Some?
    requires at < |t.devices| && t.devices[at].mac == scan[k].host.mac
    ensures MergeAll(t, scan).at[k] == at
  {
    var n := |scan| - 1;
    if k == n {
      MergeKeepsMac(t, scan[..n], at);
      MergeKeepsIdentified(t, scan[..n]);
      SettledResolves(MergeAll(t, scan[..n]).table.devices, scan[n].host, at);
    } else {
      KnownMacIsFound(t, scan[..n], k, at);
    }
  }

  lemma ScanLeavesMac(t: Table, step: Step, k: nat)
    requires Consistent(t) && step.Scan? && Commits(t, step)
    requires k < |step.scan| && step.scan[k].host.mac.Some?
    ensures Consistent(Apply(t, step))
    ensures Apply(t, step).devices[MergeAll(t, step.scan).at[k]].mac == step.scan[k].host.mac
  {
    MergedHostKeepsMac(t, step.scan, k);
    ApplyKeepsConsistent(t, step);
    if step.coverage.Some? {
      SweepMarksEach(MergeAll(t, step.scan).table.devices, |MergeAll(t, step.scan).table.devices|, step.coverage.value.range, step.coverage.value.scannedAt);
    }
  }

  /**
   * A host answering two stored scans under one MAC is one device in both, whatever its addresses
   * and whatever was scanned, pinged, edited or removed in between.
   */
  lemma SameMacSameDevice(t: Table, first: Step, between: seq<Step>, second: Step, i: nat, j: nat)
    requires Consistent(t) && first.Scan? && second.Scan?
    requires i < |first.scan| && j < |second.scan|
    requires first.scan[i].host.mac.Some? && first.scan[i].host.mac == second.scan[j].host.mac
    requires Commits(t, first)
    ensures MergeAll(t, first.scan).at[i] == MergeAll(ApplyAll(Apply(t, first), between), second.scan).at[j]
  {
    var at := MergeAll(t, first.scan).at[i];
    ScanLeavesMac(t, first, i);
    MacIsForGood(Apply(t, first), between, at);
    KnownMacIsFound(ApplyAll(Apply(t, first), between), second.scan, j, at);
  }

  // ---------------------------------------------------------------- from address to MAC

  /** No scan among them. */
  predicate NoScans(steps: seq<Step>) {
    forall k :: 0 <= k < |steps| ==> !steps[k].Scan?
  }

  lemma {:induction false} OtherStepsKeepKeys(t: Table, steps: seq<Step>)
    requires Consistent(t) && NoScans(steps)
    ensures Consistent(ApplyAll(t, steps))
    ensures |ApplyAll(t, steps).devices| == |t.devices|
    ensures forall i :: 0 <= i < |t.devices| ==> KeyOf(ApplyAll(t, steps).devices[i]) == KeyOf(t.devices[i])
  {
    if steps != [] {
      OtherStepsKeepKeys(t, steps[..|steps| - 1]);
      ApplyKeepsConsistent(ApplyAll(t, steps[..|steps| - 1]), steps[|steps| - 1]);
    }
  }

  /** Host `k` of the scan answers at `ip` with a MAC nobody has shown before. */
  predicate TakesOver(t: Table, scan: seq<Sighting>, k: nat, ip: string)
    requires k < |scan|
  {
    scan[k].host.ip == ip && FirstSeenMac(t, scan, k)
  }

  /** No host from `start` up to `end` takes over the MAC-less row at `ip`. */
  predicate LeftAlone(t: Table, scan: seq<Sighting>, start: nat, end: nat, ip: string)
    requires end <= |scan|
  {
    forall k :: start <= k < end ==> !TakesOver(t, scan, k, ip)
  }

  lemma MergedPrefix(t: Table, scan: seq<Sighting>, n: nat)
    requires n < |scan|
    ensures MergeAll(t, scan[..n + 1]).table == Upsert(MergeAll(t, scan[..n]).table, scan[n])
    ensures MergeAll(t, scan[..n + 1]).at == MergeAll(t, scan[..n]).at + [Place(MergeAll(t, scan[..n]).table.devices, scan[n].host)]
  {
    OneMore(scan, n);
    MergeOneMoreSighting(t, scan[..n], scan[n]);
  }

  lemma PlacedInPrefix(t: Table, scan: seq<Sighting>, k: nat)
    requires k < |scan|
    ensures MergeAll(t, scan).at[k] == Place(MergeAll(t, scan[..k]).table.devices, scan[k].host)
  {
    Around(scan, k);
    OneMore(scan, k);
    MergedPrefix(t, scan, k);
    MergeInTwo(t, scan[..k + 1], scan[k + 1..]);
  }

  lemma SettledOneMore(t: Table, scan: seq<Sighting>, host: ParsedHost, at: nat, n: nat)
    requires Identified(t.devices) && n < |scan|
    requires Settled(MergeAll(t, scan[..n]).table.devices, host, at) && !TakesOver(t, scan, n, host.ip)
    ensures Settled(MergeAll(t, scan[..n + 1]).table.devices, host, at)
  {
    MergeKeepsIdentified(t, scan[..n]);
    if scan[n].host.mac.Some? {
      MergeCarries(t, scan[..n], scan[n].host.mac.value);
    }
    StaysSettled(MergeAll(t, scan[..n]).table.devices, host, at, scan[n]);
    MergedPrefix(t, scan, n);
  }

  /** A MAC-less host settled before host `start` is still settled before host `end`, if left alone. */
  lemma {:induction false} SettledWhileLeftAlone(t: Table, scan: seq<Sighting>, host: ParsedHost, at: nat, start: nat, end: nat)
    requires Identified(t.devices) && start <= end <= |scan|
    requires Settled(MergeAll(t, scan[..start]).table.devices, host, at)
    requires LeftAlone(t, scan, start, end, host.ip)
    ensures Settled(MergeAll(t, scan[..end]).table.devices, host, at)
    decreases end
  {
    if start < end {
      SettledWhileLeftAlone(t, scan, host, at, start, end - 1);
      SettledOneMore(t, scan, host, at, end - 1);
    }
  }

  lemma TakeoverGivesMac(t: Table, scan: seq<Sighting>, host: ParsedHost, at: nat, n: nat)
    requires Identified(t.devices) && n < |scan| && host.mac.None?
    requires Settled(MergeAll(t, scan[..n]).table.devices, host, at) && TakesOver(t, scan, n, host.ip)
    ensures HasMac(MergeAll(t, scan[..n + 1]).table.devices, at)
  {
    MergedPrefix(t, scan, n);
    MergeKeepsIdentified(t, scan[..n]);
    MergeCarries(t, scan[..n], scan[n].host.mac.value);
    UnseenMacAdopts(MergeAll(t, scan[..n]).table.devices, host, at, scan[n]);
  }

  lemma MacOneMore(t: Table, scan: seq<Sighting>, at: nat, n: nat)
    requires n < |scan| && HasMac(MergeAll(t, scan[..n]).table.devices, at)
    ensures HasMac(MergeAll(t, scan[..n + 1]).table.devices, at)
  {
    MergedPrefix(t, scan, n);
    MacStays(MergeAll(t, scan[..n]).table.devices, scan[n], at);
  }

  predicate HasMac(rows: seq<DeviceRow>, at: nat) {
    at < |rows| && rows[at].mac.Some?
  }

  /** If it is not left alone, its row has a MAC by then. */
  lemma {:induction false} TakenOverRowHasMac(t: Table, scan: seq<Sighting>, host: ParsedHost, at: nat, start: nat, end: nat)
    requires Identified(t.devices) && start <= end <= |scan| && host.mac.None?
    requires Settled(MergeAll(t, scan[..start]).table.devices, host, at)
    requires !LeftAlone(t, scan, start, end, host.ip)
    ensures HasMac(MergeAll(t, scan[..end]).table.devices, at)
    decreases end
  {
    var n := end - 1;
    if LeftAlone(t, scan, start, n, host.ip) {
      SettledWhileLeftAlone(t, scan, host, at, start, n);
      TakeoverGivesMac(t, scan, host, at, n);
    } else {
      TakenOverRowHasMac(t, scan, host, at, start, n);
      MacOneMore(t, scan, at, n);
    }
  }

  lemma JustSettled(t: Table, scan: seq<Sighting>, i: nat)
    requires i < |scan|
    ensures Settled(MergeAll(t, scan[..i + 1]).table.devices, scan[i].host, MergeAll(t, scan).at[i])
  {
    MergedPrefix(t, scan, i);
    PlacedInPrefix(t, scan, i);
    UpsertSettles(MergeAll(t, scan[..i]).table.devices, scan[i]);
  }

  /** What a stored scan and other steps after it leave of row keys is what its merge left. */
  lemma KeysAfterScan(t: Table, first: Step, between: seq<Step>, at: nat)
    requires Consistent(t) && first.Scan? && Commits(t, first) && NoScans(between)
    requires at < |MergeAll(t, first.scan).table.devices|
    ensures var u := ApplyAll(Apply(t, first), between);
      Consistent(u) && at < |u.devices| && KeyOf(u.devices[at]) == KeyOf(MergeAll(t, first.scan).table.devices[at])
  {
    MergeKeepsIdentified(t, first.scan);
    if first.coverage.Some? {
      SweepKeepsKeys(MergeAll(t, first.scan).table.devices, first.coverage.value.range, first.coverage.value.scannedAt);
    }
    ApplyKeepsConsistent(t, first);
    OtherStepsKeepKeys(Apply(t, first), between);
  }

  /** A host without a MAC, or with one not on any row, is not placed in a row that has one. */
  lemma NotPlacedUnderMac(rows: seq<DeviceRow>, host: ParsedHost, at: nat)
    requires at < |rows| && rows[at].mac.Some? && (host.mac.Some? ==> !Carries(rows, host.mac.value))
    ensures Place(rows, host) != at
  {
    ResolveByKey(rows, host);
  }

  /** A host at the address of a settled MAC-less one, itself without a MAC or with a new one, is placed there. */
  lemma PlacedWhereSettled(rows: seq<DeviceRow>, host: ParsedHost, at: nat, s: Sighting)
    requires Identified(rows) && Settled(rows, host, at) && host.mac.None?
    requires s.host.ip == host.ip && (s.host.mac.Some? ==> !Carries(rows, s.host.mac.value))
    ensures Place(rows, s.host) == at
  {
    if s.host.mac.Some? {
      UnseenMacAdopts(rows, host, at, s);
    } else {
      SettledResolves(rows, s.host, at);
    }
  }

  /**
   * Host `i` of the first scan had no MAC; host `j` of the second, met in table `u`, is at its
   * address, with no MAC or one never seen before.
   */
  predicate SeenAgain(first: seq<Sighting>, i: nat, u: Table, second: seq<Sighting>, j: nat)
    requires i < |first| && j < |second|
  {
    && first[i].host.mac.None? && second[j].host.ip == first[i].host.ip
    && (second[j].host.mac.Some? ==> FirstSeenMac(u, second, j))
  }

  lemma SecondScanPlaces(u: Table, scan: seq<Sighting>, j: nat, host: ParsedHost, at: nat)
    requires Identified(u.devices) && j < |scan| && host.mac.None? && scan[j].host.ip == host.ip
    requires scan[j].host.mac.Some? ==> FirstSeenMac(u, scan, j)
    requires Settled(u.devices, host, at) || HasMac(u.devices, at)
    ensures MergeAll(u, scan).at[j] == at <==> Settled(u.devices, host, at) && LeftAlone(u, scan, 0, j, host.ip)
  {
    var before := MergeAll(u, scan[..j]).table;
    PlacedInPrefix(u, scan, j);
    MergeKeepsIdentified(u, scan[..j]);
    assert scan[..0] == [];
    if scan[j].host.mac.Some? {
      MergeCarries(u, scan[..j], scan[j].host.mac.value);
    }
    if !Settled(u.devices, host, at) {
      MacsStay(u, scan[..j], at);
      NotPlacedUnderMac(before.devices, scan[j].host, at);
    } else if LeftAlone(u, scan, 0, j, host.ip) {
      SettledWhileLeftAlone(u, scan, host, at, 0, j);
      PlacedWhereSettled(before.devices, host, at, scan[j]);
    } else {
      TakenOverRowHasMac(u, scan, host, at, 0, j);
      NotPlacedUnderMac(before.devices, scan[j].host, at);
    }
  }

  /** The row of a MAC-less host after its scan: settled if left alone, under a MAC if not. */
  lemma FirstScanLeaves(t: Table, scan: seq<Sighting>, i: nat)
    requires Identified(t.devices) && i < |scan| && scan[i].host.mac.None?
    ensures var rows, at := MergeAll(t, scan).table.devices, MergeAll(t, scan).at[i];
      && at < |rows|
      && KeyOf(rows[at]).Addr? == LeftAlone(t, scan, i + 1, |scan|, scan[i].host.ip)
      && (KeyOf(rows[at]).Addr? ==> Settled(rows, scan[i].host, at))
  {
    var host, at := scan[i].host, MergeAll(t, scan).at[i];
    JustSettled(t, scan, i);
    assert scan[..|scan|] == scan;
    if LeftAlone(t, scan, i + 1, |scan|, host.ip) {
      SettledWhileLeftAlone(t, scan, host, at, i + 1, |scan|);
    } else {
      TakenOverRowHasMac(t, scan, host, at, i + 1, |scan|);
    }
  }

  /**
   * A host first seen without a MAC, then at the same address with none or with one never seen
   * before, is one device exactly when no other host with a never-seen MAC took the address in
   * between.
   */
  lemma FirstMacSameDeviceIff(t: Table, first: Step, i: nat, between: seq<Step>, u: Table, second: seq<Sighting>, j: nat)
    requires Consistent(t) && first.Scan? && Commits(t, first) && NoScans(between) && u == ApplyAll(Apply(t, first), between)
    requires i < |first.scan| && j < |second| && SeenAgain(first.scan, i, u, second, j)
    ensures MergeAll(t, first.scan).at[i] == MergeAll(u, second).at[j] <==>
      LeftAlone(t, first.scan, i + 1, |first.scan|, first.scan[i].host.ip) && LeftAlone(u, second, 0, j, first.scan[i].host.ip)
  {
    var at := MergeAll(t, first.scan).at[i];
    FirstScanLeaves(t, first.scan, i);
    KeysAfterScan(t, first, between, at);
    SecondScanPlaces(u, second, j, first.scan[i].host, at);
  }

  /** A MAC-less host whose address an unseen MAC takes over in the same scan is a new device the next time. */
  lemma TakeoverExample() returns (first: Step, second: seq<Sighting>)
    ensures first.Scan? && first.scan != [] && second != []
    ensures first.scan[0].host == second[0].host && Commits(Table([], []), first)
    ensures MergeAll(Table([], []), first.scan).at[0] != MergeAll(Apply(Table([], []), first), second).at[0]
  {
    var bare := Sighting(ParsedHost("10.0.0.5", None, None, None, true, []), 1, 1);
    var seen := Sighting(ParsedHost("10.0.0.5", Some("aa:00:00:00:00:01"), None, None, true, []), 2, 2);
    var t := Table([], []);
    first, second := Scan([bare, seen], None, Run(1, false), 3), [bare];
    PortlessScanStores(t, first.scan);
    assert TakesOver(t, first.scan, 1, "10.0.0.5") by {
      assert first.scan[..1] == [bare];
    }
    FirstMacSameDeviceIff(t, first, 0, [], Apply(t, first), second, 0);
  }

  lemma {:induction false} PortlessScanStores(t: Table, scan: seq<Sighting>)
    requires forall k :: 0 <= k < |scan| ==> scan[k].host.ports == []
    ensures MergeAll(t, scan).table.ports == t.ports
  {
    if scan != [] {
      PortlessScanStores(t, scan[..|scan| - 1]);
    }
  }
}
