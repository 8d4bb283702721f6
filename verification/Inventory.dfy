/**
 * Reconciling scans into the device table, on values (app/modules/discovery/service.py).
 *
 * Device rows are never removed from their table, so a row's id is its position counted from one.
 */
module Inventory {
  import opened Wrappers
  import opened Sequences
  import opened Records
  import opened Validation

  datatype Table = Table(devices: seq<DeviceRow>, ports: seq<PortRow>)

  // ---------------------------------------------------------------- identity

  function ByMac(rows: seq<DeviceRow>, mac: Text): Option<nat> {
    FirstIndex(rows, (row: DeviceRow) => row.mac == Some(mac))
  }

  /** Only rows without a MAC are found by address. */
  function ByAddress(rows: seq<DeviceRow>, ip: string): Option<nat> {
    FirstIndex(rows, (row: DeviceRow) => row.ip == ip && row.mac.None?)
  }

  /** The row an observed host belongs to: MAC first, then address. */
  function Resolve(rows: seq<DeviceRow>, host: ParsedHost): (r: Option<nat>)
    ensures r.Some? ==> r.value < |rows|
  {
    var known := if host.mac.Some? then ByMac(rows, host.mac.value) else None;
    if known.Some? then known else ByAddress(rows, host.ip)
  }

  // ---------------------------------------------------------------- merging a host

  function NewRow(id: nat, s: Sighting): DeviceRow {
    DeviceRow(id, None, None, s.host.ip, s.host.mac, None, None, None, Unknown, s.seenAt, s.seenAt, false, None)
  }

  function Refresh(row: DeviceRow, s: Sighting): DeviceRow {
    row.(ip := s.host.ip,
         mac := if s.host.mac.Some? then s.host.mac else row.mac,
         vendor := if s.host.vendor.Some? then s.host.vendor else row.vendor,
         hostname := if s.host.hostname.Some? then s.host.hostname else row.hostname,
         status := Online,
         lastSeen := s.seenAt,
         isDeleted := false,
         deletedAt := if row.isDeleted then None else row.deletedAt)
  }

  /** Where a merged host's row is: the one found, or the next free place. */
  function Place(rows: seq<DeviceRow>, host: ParsedHost): (at: nat)
    ensures at <= |rows|
  {
    match Resolve(rows, host)
    case Some(i) => i
    case None => |rows|
  }

  function UpsertDevice(rows: seq<DeviceRow>, s: Sighting): (r: seq<DeviceRow>)
    ensures |rows| <= |r| && Place(rows, s.host) < |r|
  {
    var at := Place(rows, s.host);
    if at < |rows| then rows[at := Refresh(rows[at], s)]
    else rows + [Refresh(NewRow(|rows| + 1, s), s)]
  }

  function PortAt(ports: seq<PortRow>, deviceId: nat, key: PortKey): Option<nat> {
    FirstIndex(ports, (row: PortRow) => row.deviceId == deviceId && row.key == key)
  }

  function RefreshPort(row: PortRow, found: ParsedPort, now: int): PortRow {
    row.(state := found.state,
         service := if found.service.Some? then found.service else row.service,
         lastSeen := now)
  }

  /** One turn of the port loop; `snapshot` is the table as read before the loop. */
  function SyncPort(snapshot: seq<PortRow>, ports: seq<PortRow>, deviceId: nat, found: ParsedPort, now: int): (r: seq<PortRow>)
    requires |snapshot| <= |ports|
    ensures |ports| <= |r|
  {
    match PortAt(snapshot, deviceId, found.key)
    case Some(i) => ports[i := RefreshPort(ports[i], found, now)]
    case None => ports + [PortRow(deviceId, found.key, found.state, found.service, now)]
  }

  function SyncFrom(snapshot: seq<PortRow>, ports: seq<PortRow>, deviceId: nat, found: seq<ParsedPort>, now: int): (r: seq<PortRow>)
    requires |snapshot| <= |ports|
    ensures |ports| <= |r|
    decreases |found|
  {
    if found == [] then ports
    else SyncFrom(snapshot, SyncPort(snapshot, ports, deviceId, found[0], now), deviceId, found[1..], now)
  }

  lemma SyncStep(snapshot: seq<PortRow>, ports: seq<PortRow>, deviceId: nat, found: seq<ParsedPort>, k: nat, now: int)
    requires |snapshot| <= |ports| && k < |found|
    ensures SyncFrom(snapshot, ports, deviceId, found[k..], now)
      == SyncFrom(snapshot, SyncPort(snapshot, ports, deviceId, found[k], now), deviceId, found[k + 1..], now)
  {
    assert found[k..][1..] == found[k + 1..];
  }

  function SyncPorts(ports: seq<PortRow>, deviceId: nat, found: seq<ParsedPort>, now: int): seq<PortRow> {
    SyncFrom(ports, ports, deviceId, found, now)
  }

  /** `upsert_device`. */
  function Upsert(t: Table, s: Sighting): Table {
    Table(UpsertDevice(t.devices, s), SyncPorts(t.ports, Place(t.devices, s.host) + 1, s.host.ports, s.portsAt))
  }

  /** `scan.up_hosts`. */
  function UpHosts(scan: seq<Sighting>): seq<Sighting> {
    Filter(scan, (s: Sighting) => s.host.isUp)
  }

  datatype Merged = Merged(table: Table, at: seq<nat>, created: nat)

  /** The first loop of `reconcile`. */
  function MergeAll(t: Table, scan: seq<Sighting>): (r: Merged)
    ensures |r.at| == |scan|
    ensures |r.table.devices| == |t.devices| + r.created
    ensures forall k :: 0 <= k < |r.at| ==> r.at[k] < |r.table.devices|
  {
    if scan == [] then Merged(t, [], 0)
    else
      var before, last := MergeAll(t, scan[..|scan| - 1]), scan[|scan| - 1];
      var at := Place(before.table.devices, last.host);
      Merged(Upsert(before.table, last), before.at + [at],
             if at == |before.table.devices| then before.created + 1 else before.created)
  }

  lemma MergeOneMoreSighting(t: Table, scan: seq<Sighting>, last: Sighting)
    ensures var before, merged := MergeAll(t, scan), MergeAll(t, scan + [last]);
      && merged.table == Upsert(before.table, last)
      && merged.at == before.at + [Place(before.table.devices, last.host)]
      && merged.created == before.created + if Resolve(before.table.devices, last.host).None? then 1 else 0
  {
    assert (scan + [last])[..|scan|] == scan;
  }

  // ---------------------------------------------------------------- absence

  /** Whether a stored address lies in a network; anything but an IPv4 address does not. */
  predicate AddressIn(ip: string, network: Cidr) {
    match ParseAddress(ip)
    case Some(a) => Contains(network, a)
    case None => false
  }

  /** Which stored addresses a scan covered; `CoverageOf` says so for a network. */
  type Range = string -> bool

  predicate IsAbsent(row: DeviceRow, range: Range, scannedAt: int) {
    !row.isDeleted && range(row.ip) && row.lastSeen < scannedAt
  }

  function MarkAbsent(row: DeviceRow, range: Range, scannedAt: int): DeviceRow {
    if IsAbsent(row, range, scannedAt) then row.(status := Offline) else row
  }

  /** The table after the first `n` turns of `mark_absent_devices_offline`. */
  function Sweeping(rows: seq<DeviceRow>, n: nat, range: Range, scannedAt: int): (r: seq<DeviceRow>)
    requires n <= |rows|
    ensures |r| == |rows|
  {
    if n == 0 then rows
    else Sweeping(rows, n - 1, range, scannedAt)[n - 1 := MarkAbsent(rows[n - 1], range, scannedAt)]
  }

  function Sweep(rows: seq<DeviceRow>, range: Range, scannedAt: int): (r: seq<DeviceRow>)
    ensures |r| == |rows|
  {
    Sweeping(rows, |rows|, range, scannedAt)
  }

  lemma {:induction false} SweepMarksEach(rows: seq<DeviceRow>, n: nat, range: Range, scannedAt: int)
    requires n <= |rows|
    ensures forall i :: 0 <= i < |rows| ==>
      Sweeping(rows, n, range, scannedAt)[i] == if i < n then MarkAbsent(rows[i], range, scannedAt) else rows[i]
  {
    if n > 0 {
      SweepMarksEach(rows, n - 1, range, scannedAt);
    }
  }

  /** The rows the first `n` turns found absent, in table order, as the sweep leaves them. */
  function AbsentAmong(rows: seq<DeviceRow>, n: nat, range: Range, scannedAt: int): seq<DeviceRow>
    requires n <= |rows|
  {
    if n == 0 then []
    else AbsentAmong(rows, n - 1, range, scannedAt) + AbsenteeOrNone(rows[n - 1], range, scannedAt)
  }

  function AbsenteeOrNone(row: DeviceRow, range: Range, scannedAt: int): seq<DeviceRow> {
    if IsAbsent(row, range, scannedAt) then [MarkAbsent(row, range, scannedAt)] else []
  }

  /** What `mark_absent_devices_offline` returns. */
  function Absentees(rows: seq<DeviceRow>, range: Range, scannedAt: int): seq<DeviceRow> {
    AbsentAmong(rows, |rows|, range, scannedAt)
  }

  // ---------------------------------------------------------------- observations

  datatype Run = Run(id: nat, scannedPorts: bool)

  function PortOrder(key: PortKey): int {
    (if key.protocol.Tcp? then 0 else 65536) + key.port
  }

  function ByPort(): ParsedPort -> int {
    (p: ParsedPort) => PortOrder(p.key)
  }

  function OpenPorts(ports: seq<ParsedPort>): seq<PortEntry> {
    if ports == [] then []
    else (if ports[0].state.Open? then [PortEntry(ports[0].key, ports[0].service)] else []) + OpenPorts(ports[1..])
  }

  /** `_observation`: what the scan saw of one host, by the device it was resolved to. */
  function Present(run: Run, deviceId: nat, host: ParsedHost, observedAt: int): Observation {
    Observation(run.id, Some(deviceId), true, host.ip, host.mac, host.hostname, host.vendor,
                if run.scannedPorts then Some(OpenPorts(SortBy(host.ports, ByPort()))) else None,
                observedAt)
  }

  function Missing(run: Run, row: DeviceRow, observedAt: int): Observation {
    Observation(run.id, Some(row.id), false, row.ip, row.mac, row.hostname, row.vendor, None, observedAt)
  }

  /** Nothing is recorded for a scan without a run. */
  function PresentFor(run: Option<Run>, at: nat, host: ParsedHost, observedAt: int): seq<Observation> {
    if run.Some? then [Present(run.value, at + 1, host, observedAt)] else []
  }

  function PresentForAll(run: Option<Run>, scan: seq<Sighting>, at: seq<nat>, observedAt: int): seq<Observation>
    requires |at| == |scan|
  {
    if scan == [] then []
    else
      var n := |scan| - 1;
      PresentForAll(run, scan[..n], at[..n], observedAt) + PresentFor(run, at[n], scan[n].host, observedAt)
  }

  lemma PresentOneMore(run: Option<Run>, scan: seq<Sighting>, at: seq<nat>, last: Sighting, row: nat, observedAt: int)
    requires |at| == |scan|
    ensures PresentForAll(run, scan + [last], at + [row], observedAt)
      == PresentForAll(run, scan, at, observedAt) + PresentFor(run, row, last.host, observedAt)
  {
    assert (scan + [last])[..|scan|] == scan && (at + [row])[..|at|] == at;
  }

  /** The rows the first loop records. */
  function Seen(run: Option<Run>, t: Table, scan: seq<Sighting>, observedAt: int): seq<Observation> {
    PresentForAll(run, scan, MergeAll(t, scan).at, observedAt)
  }

  /** What the first loop of `reconcile` has done after `n` turns. */
  datatype Progress = Progress(table: Table, created: nat, observations: seq<Observation>)

  function MergeFirst(run: Option<Run>, t: Table, up: seq<Sighting>, n: nat, observedAt: int): Progress
    requires n <= |up|
  {
    if n == 0 then Progress(t, 0, [])
    else
      var before := MergeFirst(run, t, up, n - 1, observedAt);
      var host := up[n - 1].host;
      Progress(Upsert(before.table, up[n - 1]),
               if Resolve(before.table.devices, host).None? then before.created + 1 else before.created,
               before.observations + PresentFor(run, Place(before.table.devices, host), host, observedAt))
  }

  lemma {:induction false} LoopIsMergeAll(run: Option<Run>, t: Table, up: seq<Sighting>, n: nat, observedAt: int)
    requires n <= |up|
    ensures var done := MergeAll(t, up[..n]);
      MergeFirst(run, t, up, n, observedAt) == Progress(done.table, done.created, Seen(run, t, up[..n], observedAt))
  {
    if n > 0 {
      LoopIsMergeAll(run, t, up, n - 1, observedAt);
      OneMore(up, n - 1);
      MergeOneMoreSighting(t, up[..n - 1], up[n - 1]);
      var before := MergeAll(t, up[..n - 1]);
      PresentOneMore(run, up[..n - 1], before.at, up[n - 1], Place(before.table.devices, up[n - 1].host), observedAt);
    }
  }

  lemma LoopDone(run: Option<Run>, t: Table, up: seq<Sighting>, observedAt: int)
    ensures MergeFirst(run, t, up, |up|, observedAt)
      == Progress(MergeAll(t, up).table, MergeAll(t, up).created, Seen(run, t, up, observedAt))
  {
    LoopIsMergeAll(run, t, up, |up|, observedAt);
    assert up[..|up|] == up;
  }

  /** A recorded scan has one present row a host, in the scan's order. */
  lemma {:induction false} PresentAt(run: Run, scan: seq<Sighting>, at: seq<nat>, observedAt: int)
    requires |at| == |scan|
    ensures var rows := PresentForAll(Some(run), scan, at, observedAt);
      |rows| == |scan| && forall k :: 0 <= k < |scan| ==> rows[k] == Present(run, at[k] + 1, scan[k].host, observedAt)
  {
    if scan != [] {
      var n := |scan| - 1;
      PresentAt(run, scan[..n], at[..n], observedAt);
    }
  }

  function MissingAll(run: Run, rows: seq<DeviceRow>, observedAt: int): seq<Observation> {
    if rows == [] then [] else [Missing(run, rows[0], observedAt)] + MissingAll(run, rows[1..], observedAt)
  }

  lemma {:induction false} MissingAllAbsent(run: Run, rows: seq<DeviceRow>, observedAt: int)
    ensures forall k :: 0 <= k < |MissingAll(run, rows, observedAt)| ==> !MissingAll(run, rows, observedAt)[k].present
  {
    if rows != [] {
      MissingAllAbsent(run, rows[1..], observedAt);
    }
  }

  datatype Coverage = Coverage(range: Range, scannedAt: int)

  function CoverageOf(network: Cidr, scannedAt: int): Coverage {
    Coverage((ip: string) => AddressIn(ip, network), scannedAt)
  }

  datatype Reconciled = Reconciled(table: Table, observations: seq<Observation>, at: seq<nat>, created: nat)

  function MissingFor(run: Option<Run>, absent: seq<DeviceRow>, observedAt: int): seq<Observation> {
    if run.Some? then MissingAll(run.value, absent, observedAt) else []
  }

  /** The first half of `reconcile`, for the hosts that were up; no run, no observations. */
  function MergeScan(t: Table, scan: seq<Sighting>, run: Option<Run>, observedAt: int): Reconciled {
    var merged := MergeAll(t, scan);
    Reconciled(merged.table, Seen(run, t, scan, observedAt), merged.at, merged.created)
  }

  /** The second half. */
  function SweepScan(r: Reconciled, c: Coverage, run: Option<Run>, observedAt: int): Reconciled {
    var swept := Sweep(r.table.devices, c.range, c.scannedAt);
    r.(table := r.table.(devices := swept),
       observations := r.observations + MissingFor(run, Absentees(r.table.devices, c.range, c.scannedAt), observedAt))
  }

  /** `reconcile`: no coverage, no sweep. */
  function Reconcile(t: Table, scan: seq<Sighting>, coverage: Option<Coverage>, run: Option<Run>, observedAt: int): Reconciled {
    var merged := MergeScan(t, scan, run, observedAt);
    if coverage.Some? then SweepScan(merged, coverage.value, run, observedAt) else merged
  }

  // ---------------------------------------------------------------- the invariant

  datatype Key = Mac(mac: Text) | Addr(ip: string)

  function KeyOf(row: DeviceRow): Key {
    if row.mac.Some? then Mac(row.mac.value) else Addr(row.ip)
  }

  /** Each MAC occurs once, and each address once among the rows without a MAC. */
  predicate Identified(rows: seq<DeviceRow>) {
    && (forall i :: 0 <= i < |rows| ==> rows[i].id == i + 1)
    && (forall i, j :: 0 <= i < j < |rows| ==> KeyOf(rows[i]) != KeyOf(rows[j]))
  }

  predicate SamePort(a: PortRow, b: PortRow) {
    a.deviceId == b.deviceId && a.key == b.key
  }

  /** The table's unique constraint on (device, port, protocol). */
  predicate PortsUnique(ports: seq<PortRow>) {
    forall i, j :: 0 <= i < j < |ports| ==> !SamePort(ports[i], ports[j])
  }

  predicate DistinctPorts(found: seq<ParsedPort>) {
    forall i, j :: 0 <= i < j < |found| ==> found[i].key != found[j].key
  }

  /** `Resolve` by key: a row is found when it carries the host's MAC, else when its key is the address. */
  lemma ResolveByKey(rows: seq<DeviceRow>, host: ParsedHost)
    ensures host.mac.Some? && (exists i :: 0 <= i < |rows| && KeyOf(rows[i]) == Mac(host.mac.value)) ==>
      Resolve(rows, host).Some? && KeyOf(rows[Resolve(rows, host).value]) == Mac(host.mac.value)
    ensures !(host.mac.Some? && exists i :: 0 <= i < |rows| && KeyOf(rows[i]) == Mac(host.mac.value)) ==>
      (Resolve(rows, host).Some? <==> exists i :: 0 <= i < |rows| && KeyOf(rows[i]) == Addr(host.ip))
      && (Resolve(rows, host).Some? ==> KeyOf(rows[Resolve(rows, host).value]) == Addr(host.ip))
  {
  }

  lemma UpsertKeepsIdentified(rows: seq<DeviceRow>, s: Sighting)
    requires Identified(rows)
    ensures Identified(UpsertDevice(rows, s))
  {
    ResolveByKey(rows, s.host);
  }
}
