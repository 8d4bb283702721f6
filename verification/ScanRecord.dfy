/**
 * What a scan writes down, in the fields of the hosts it saw and of the rows it did not: one
 * observation a host, and one for each device of the scanned range that stayed silent
 * (app/modules/discovery/service.py).
 */
module ScanRecord {
  import opened Wrappers
  import opened Sequences
  import opened Records
  import opened Validation
  import opened Inventory
  import opened InventoryView
  import opened Reachable
  import History

  // ---------------------------------------------------------------- the hosts and the rows

  /** `up` are the hosts at the places `at`: in order, exactly those of the first `n` that were up. */
  ghost predicate UpAt(up: seq<Sighting>, scan: seq<Sighting>, n: nat, at: seq<nat>)
    requires n <= |scan|
  {
    && |up| == |at|
    && (forall k :: 0 <= k < |at| ==> at[k] < n && scan[at[k]].host.isUp && up[k] == scan[at[k]])
    && (forall i, j :: 0 <= i < j < |at| ==> at[i] < at[j])
    && (forall i: nat :: i < n && scan[i].host.isUp ==> i in at)
  }

  lemma UpOneMore(up: seq<Sighting>, scan: seq<Sighting>, n: nat, at: seq<nat>)
    requires n < |scan| && UpAt(up, scan, n, at)
    ensures scan[n].host.isUp ==> UpAt(up + [scan[n]], scan, n + 1, at + [n])
    ensures !scan[n].host.isUp ==> UpAt(up, scan, n + 1, at)
  {
    assert forall i :: i in at + [n] <==> i in at || i == n;
  }

  lemma UpHostsOneMore(scan: seq<Sighting>, n: nat)
    requires n < |scan|
    ensures scan[n].host.isUp ==> UpHosts(scan[..n + 1]) == UpHosts(scan[..n]) + [scan[n]]
    ensures !scan[n].host.isUp ==> UpHosts(scan[..n + 1]) == UpHosts(scan[..n])
  {
    var before, one := UpHosts(scan[..n]), [scan[n]];
    OneMore(scan, n);
    FilterConcat(scan[..n], one, (s: Sighting) => s.host.isUp);
    assert before + [] == before && one[1..] == [] && one + [] == one;
  }

  lemma {:induction false} UpHostsOf(scan: seq<Sighting>, n: nat) returns (at: seq<nat>)
    requires n <= |scan|
    ensures UpAt(UpHosts(scan[..n]), scan, n, at)
  {
    at := [];
    if n > 0 {
      var before := UpHosts(scan[..n - 1]);
      at := UpHostsOf(scan, n - 1);
      UpOneMore(before, scan, n - 1, at);
      UpHostsOneMore(scan, n - 1);
      if scan[n - 1].host.isUp {
        at := at + [n - 1];
      }
    }
  }

  /** The hosts merged are those that were up, in the scan's order. */
  lemma UpHostsInOrder(scan: seq<Sighting>) returns (at: seq<nat>)
    ensures UpAt(UpHosts(scan), scan, |scan|, at)
  {
    at := UpHostsOf(scan, |scan|);
    assert scan[..|scan|] == scan;
  }

  /**
   * The row of a merged host: what the host reports, and what it does not report as it was; a row
   * found keeps the operator's fields, a new one starts without them.
   */
  lemma UpsertedRow(rows: seq<DeviceRow>, s: Sighting)
    ensures var at, next := Place(rows, s.host), UpsertDevice(rows, s);
      var row := next[at];
      && |next| == (if at < |rows| then |rows| else |rows| + 1)
      && (forall j :: 0 <= j < |rows| && j != at ==> next[j] == rows[j])
      && row.ip == s.host.ip && row.status == Online && row.lastSeen == s.seenAt && !row.isDeleted
      && (s.host.mac.Some? ==> row.mac == s.host.mac) && (s.host.vendor.Some? ==> row.vendor == s.host.vendor)
      && (s.host.hostname.Some? ==> row.hostname == s.host.hostname)
      && (at < |rows| ==>
            && OperatorFieldsKept(rows[at], row)
            && (s.host.mac.None? ==> row.mac == rows[at].mac) && (s.host.vendor.None? ==> row.vendor == rows[at].vendor)
            && (s.host.hostname.None? ==> row.hostname == rows[at].hostname)
            && row.deletedAt == if rows[at].isDeleted then None else rows[at].deletedAt)
      && (at == |rows| ==>
            && row.id == |rows| + 1 && row.firstSeen == s.seenAt && row.mac == s.host.mac && row.vendor == s.host.vendor
            && row.hostname == s.host.hostname && row.name == None && row.deviceType == None && row.notes == None && row.deletedAt == None)
  {
  }

  // ---------------------------------------------------------------- the ports of an observation

  /** The services listed for one port, in the order listed. */
  function ServicesAt(entries: seq<PortEntry>, key: PortKey): seq<Option<string>> {
    if entries == [] then []
    else (if entries[0].key == key then [entries[0].service] else []) + ServicesAt(entries[1..], key)
  }

  /** The services of the open findings for one port, in the order found. */
  function OpenServicesAt(found: seq<ParsedPort>, key: PortKey): seq<Option<string>> {
    if found == [] then []
    else (if found[0].key == key && found[0].state == Open then [found[0].service] else []) + OpenServicesAt(found[1..], key)
  }

  /** TCP before UDP, then by number. */
  predicate InPortOrder(entries: seq<PortEntry>) {
    forall i, j :: 0 <= i < j < |entries| ==> !History.EarlierPort(entries[j].key, entries[i].key)
  }

  /** Exactly the open ports a host was found with, in port order, each as often as it was found. */
  ghost predicate ListsOpen(entries: seq<PortEntry>, found: seq<ParsedPort>) {
    InPortOrder(entries) && forall key :: ServicesAt(entries, key) == OpenServicesAt(found, key)
  }

  lemma OneServiceAt(p: ParsedPort, key: PortKey)
    ensures OpenServicesAt([p], key) == if p.key == key && p.state == Open then [p.service] else []
  {
    assert [p][1..] == [];
  }

  lemma {:induction false} InsertKeepsServices(p: ParsedPort, sorted: seq<ParsedPort>, rank: ParsedPort -> int, key: PortKey)
    requires rank == ByPort()
    ensures OpenServicesAt(Insert(p, sorted, rank), key) == OpenServicesAt([p], key) + OpenServicesAt(sorted, key)
  {
    var here := OpenServicesAt([p], key);
    if sorted == [] || rank(p) <= rank(sorted[0]) {
      assert ([p] + sorted)[1..] == sorted;
      assert here + [] == here;
    } else {
      var first := OpenServicesAt([sorted[0]], key);
      InsertKeepsServices(p, sorted[1..], rank, key);
      assert ([sorted[0]] + Insert(p, sorted[1..], rank))[1..] == Insert(p, sorted[1..], rank);
      assert p.key != sorted[0].key;
      OneServiceAt(p, key);
      OneServiceAt(sorted[0], key);
      Associative(first, here, OpenServicesAt(sorted[1..], key));
      assert first + here == here + first;
      Associative(here, first, OpenServicesAt(sorted[1..], key));
    }
  }

  lemma {:induction false} SortKeepsServices(found: seq<ParsedPort>, rank: ParsedPort -> int, key: PortKey)
    requires rank == ByPort()
    ensures OpenServicesAt(SortBy(found, rank), key) == OpenServicesAt(found, key)
  {
    if found != [] {
      SortKeepsServices(found[1..], rank, key);
      OneServiceAt(found[0], key);
      InsertKeepsServices(found[0], SortBy(found[1..], rank), rank, key);
    }
  }

  lemma {:induction false} OpenPortsServices(found: seq<ParsedPort>, key: PortKey)
    ensures ServicesAt(OpenPorts(found), key) == OpenServicesAt(found, key)
  {
    if found != [] {
      OpenPortsServices(found[1..], key);
      var rest := OpenPorts(found[1..]);
      if found[0].state.Open? {
        assert OpenPorts(found)[1..] == rest;
      } else {
        assert [] + rest == rest;
      }
    }
  }

  lemma {:induction false} OpenPortsAreFound(found: seq<ParsedPort>, e: PortEntry)
    requires e in OpenPorts(found)
    ensures exists p :: p in found && p.key == e.key
  {
    if found[0].state.Open? && e == PortEntry(found[0].key, found[0].service) {
      assert found[0] in found;
    } else {
      OpenPortsAreFound(found[1..], e);
      var p :| p in found[1..] && p.key == e.key;
      assert p in found;
    }
  }

  lemma PrependInOrder(e: PortEntry, rest: seq<PortEntry>)
    requires InPortOrder(rest) && forall x :: x in rest ==> !History.EarlierPort(x.key, e.key)
    ensures InPortOrder([e] + rest)
  {
    assert forall k :: 0 <= k < |rest| ==> rest[k] in rest;
  }

  lemma {:induction false} OpenPortsInOrder(found: seq<ParsedPort>, rank: ParsedPort -> int)
    requires rank == ByPort() && SortedBy(found, rank)
    ensures InPortOrder(OpenPorts(found))
  {
    if found != [] {
      var rest := OpenPorts(found[1..]);
      OpenPortsInOrder(found[1..], rank);
      forall e | e in rest ensures !History.EarlierPort(e.key, found[0].key) {
        OpenPortsAreFound(found[1..], e);
        var p :| p in found[1..] && p.key == e.key;
        assert rank(found[0]) <= rank(p);
      }
      if found[0].state.Open? {
        PrependInOrder(PortEntry(found[0].key, found[0].service), rest);
      } else {
        assert [] + rest == rest;
      }
    }
  }

  /** `_observation` lists the open ports when the scan checked ports, and otherwise says nothing of them. */
  ghost predicate Saw(o: Observation, run: Run, deviceId: nat, host: ParsedHost, observedAt: int) {
    && o.runId == run.id && o.deviceId == Some(deviceId) && o.present && o.observedAt == observedAt
    && o.ip == host.ip && o.mac == host.mac && o.hostname == host.hostname && o.vendor == host.vendor
    && (o.ports.Some? <==> run.scannedPorts)
    && (o.ports.Some? ==> ListsOpen(o.ports.value, host.ports))
  }

  lemma PortsListed(found: seq<ParsedPort>)
    ensures ListsOpen(OpenPorts(SortBy(found, ByPort())), found)
  {
    var sorted := SortBy(found, ByPort());
    SortByArranges(found, ByPort());
    OpenPortsInOrder(sorted, ByPort());
    forall key ensures ServicesAt(OpenPorts(sorted), key) == OpenServicesAt(found, key) {
      OpenPortsServices(sorted, key);
      SortKeepsServices(found, ByPort(), key);
    }
  }

  lemma PresentSaw(run: Run, deviceId: nat, host: ParsedHost, observedAt: int)
    ensures Saw(Present(run, deviceId, host, observedAt), run, deviceId, host, observedAt)
  {
    PortsListed(host.ports);
  }

  // ---------------------------------------------------------------- the devices of a scanned network

  /** A live device of the network that no host was resolved to and that was last seen before the scan began. */
  ghost predicate Silent(devices: seq<DeviceRow>, at: seq<nat>, network: Cidr, scannedAt: int, i: nat) {
    && i < |devices| && i !in at
    && !devices[i].isDeleted && devices[i].lastSeen < scannedAt
    && exists a :: ParseAddress(devices[i].ip) == Some(a) && Contains(network, a)
  }

  lemma AbsentIff(row: DeviceRow, network: Cidr, scannedAt: int)
    ensures IsAbsent(row, CoverageOf(network, scannedAt).range, scannedAt)
      <==> !row.isDeleted && row.lastSeen < scannedAt && exists a :: ParseAddress(row.ip) == Some(a) && Contains(network, a)
  {
  }

  /**
   * One scan of a network, recorded and swept: a device no host was resolved to goes offline, and is
   * recorded as absent once, exactly when it is silent; one outside the network keeps its row.
   */
  lemma SweptNetwork(t: Table, scan: seq<Sighting>, network: Cidr, scannedAt: int, run: Run, observedAt: int, i: nat)
    requires Identified(t.devices)
    requires forall k :: 0 <= k < |scan| ==> scannedAt <= scan[k].seenAt
    requires i < |Reconcile(t, scan, Some(CoverageOf(network, scannedAt)), Some(run), observedAt).table.devices|
    ensures var r := Reconcile(t, scan, Some(CoverageOf(network, scannedAt)), Some(run), observedAt);
      var silent := Silent(t.devices, r.at, network, scannedAt, i);
      && AbsentRows(r.observations, i + 1) == (if silent then 1 else 0)
      && (silent ==> r.table.devices[i] == t.devices[i].(status := Offline))
      && (i !in r.at && !silent ==> i < |t.devices| && r.table.devices[i] == t.devices[i])
      && (i in r.at <==> PresentRow(r.observations, i + 1))
      && (i in r.at ==> r.table.devices[i].status == Online && !r.table.devices[i].isDeleted)
  {
    SweptScan(t, scan, CoverageOf(network, scannedAt), run, observedAt, i);
    if i < |t.devices| {
      AbsentIff(t.devices[i], network, scannedAt);
    }
  }

  /** What a silent device is recorded with: its own fields, and nothing about ports. */
  predicate RecordsSilence(o: Observation, run: Run, row: DeviceRow, observedAt: int) {
    && o.runId == run.id && o.deviceId == Some(row.id) && !o.present && o.observedAt == observedAt
    && o.ip == row.ip && o.mac == row.mac && o.hostname == row.hostname && o.vendor == row.vendor && o.ports == None
  }

  lemma {:induction false} MissingRecordSilence(run: Run, rows: seq<DeviceRow>, observedAt: int, k: nat)
    requires k < |MissingAll(run, rows, observedAt)|
    ensures exists row :: row in rows && RecordsSilence(MissingAll(run, rows, observedAt)[k], run, row, observedAt)
  {
    if k == 0 {
      assert rows[0] in rows && RecordsSilence(Missing(run, rows[0], observedAt), run, rows[0], observedAt);
    } else {
      MissingRecordSilence(run, rows[1..], observedAt, k - 1);
      assert MissingAll(run, rows, observedAt)[k] == MissingAll(run, rows[1..], observedAt)[k - 1];
    }
  }

  lemma {:induction false} AbsenteeIsRow(rows: seq<DeviceRow>, n: nat, range: Range, scannedAt: int, row: DeviceRow)
    requires n <= |rows| && row in AbsentAmong(rows, n, range, scannedAt)
    ensures exists i :: 0 <= i < n && IsAbsent(rows[i], range, scannedAt) && row == rows[i].(status := Offline)
  {
    if row !in AbsentAmong(rows, n - 1, range, scannedAt) {
      assert row in AbsenteeOrNone(rows[n - 1], range, scannedAt);
    } else {
      AbsenteeIsRow(rows, n - 1, range, scannedAt, row);
    }
  }

  lemma AbsenteesAreRows(run: Run, rows: seq<DeviceRow>, range: Range, scannedAt: int, observedAt: int, k: nat) returns (i: nat)
    requires k < |MissingAll(run, Absentees(rows, range, scannedAt), observedAt)|
    ensures i < |rows| && IsAbsent(rows[i], range, scannedAt)
    ensures RecordsSilence(MissingAll(run, Absentees(rows, range, scannedAt), observedAt)[k], run, rows[i], observedAt)
  {
    var absent := Absentees(rows, range, scannedAt);
    MissingRecordSilence(run, absent, observedAt, k);
    var row :| row in absent && RecordsSilence(MissingAll(run, absent, observedAt)[k], run, row, observedAt);
    AbsenteeIsRow(rows, |rows|, range, scannedAt, row);
    i :| 0 <= i < |rows| && IsAbsent(rows[i], range, scannedAt) && row == rows[i].(status := Offline);
  }

  lemma SilenceEach(t: Table, scan: seq<Sighting>, network: Cidr, scannedAt: int, run: Run, observedAt: int, k: nat) returns (i: nat)
    requires forall j :: 0 <= j < |scan| ==> scannedAt <= scan[j].seenAt
    requires k < |MissingAll(run, Absentees(MergeAll(t, scan).table.devices, CoverageOf(network, scannedAt).range, scannedAt), observedAt)|
    ensures Silent(t.devices, MergeAll(t, scan).at, network, scannedAt, i)
    ensures RecordsSilence(MissingAll(run, Absentees(MergeAll(t, scan).table.devices, CoverageOf(network, scannedAt).range, scannedAt), observedAt)[k],
                           run, t.devices[i], observedAt)
  {
    i := AbsenteesAreRows(run, MergeAll(t, scan).table.devices, CoverageOf(network, scannedAt).range, scannedAt, observedAt, k);
    AbsentIsSilent(t, scan, network, scannedAt, i);
  }

  /** The rows of both halves, one after the other. */
  lemma BothHalves(t: Table, scan: seq<Sighting>, c: Coverage, run: Run, observedAt: int)
    ensures var r := Reconcile(t, scan, Some(c), Some(run), observedAt);
      && r.at == MergeAll(t, scan).at
      && r.observations == Seen(Some(run), t, scan, observedAt)
        + MissingAll(run, Absentees(MergeAll(t, scan).table.devices, c.range, c.scannedAt), observedAt)
  {
  }

  /** Each host as it was seen, in the scan's order and under the device it was resolved to. */
  ghost predicate RecordsHosts(rows: seq<Observation>, scan: seq<Sighting>, at: seq<nat>, run: Run, observedAt: int) {
    |at| == |scan| <= |rows| && forall k :: 0 <= k < |scan| ==> Saw(rows[k], run, at[k] + 1, scan[k].host, observedAt)
  }

  /** The observation of one silent device. */
  ghost predicate OfSilent(o: Observation, devices: seq<DeviceRow>, at: seq<nat>, network: Cidr, scannedAt: int, run: Run, observedAt: int) {
    exists i: nat :: Silent(devices, at, network, scannedAt, i) && RecordsSilence(o, run, devices[i], observedAt)
  }

  /** From place `start` on, only silent devices, each with its own fields. */
  ghost predicate RecordsSilent(rows: seq<Observation>, start: nat, devices: seq<DeviceRow>, at: seq<nat>, network: Cidr, scannedAt: int, run: Run, observedAt: int) {
    forall k :: start <= k < |rows| ==> OfSilent(rows[k], devices, at, network, scannedAt, run, observedAt)
  }

  lemma HalvesInOrder(devices: seq<DeviceRow>, scan: seq<Sighting>, seen: seq<Observation>, missing: seq<Observation>, at: seq<nat>,
                      network: Cidr, scannedAt: int, run: Run, observedAt: int)
    requires RecordsHosts(seen, scan, at, run, observedAt) && |seen| == |scan|
    requires RecordsSilent(missing, 0, devices, at, network, scannedAt, run, observedAt)
    ensures RecordsHosts(seen + missing, scan, at, run, observedAt)
    ensures RecordsSilent(seen + missing, |scan|, devices, at, network, scannedAt, run, observedAt)
  {
    assert forall k :: |scan| <= k < |seen + missing| ==> (seen + missing)[k] == missing[k - |scan|];
  }

  lemma AllSilence(t: Table, scan: seq<Sighting>, network: Cidr, scannedAt: int, run: Run, observedAt: int, missing: seq<Observation>)
    requires forall j :: 0 <= j < |scan| ==> scannedAt <= scan[j].seenAt
    requires missing == MissingAll(run, Absentees(MergeAll(t, scan).table.devices, CoverageOf(network, scannedAt).range, scannedAt), observedAt)
    ensures RecordsSilent(missing, 0, t.devices, MergeAll(t, scan).at, network, scannedAt, run, observedAt)
  {
    forall k: nat | k < |missing| ensures OfSilent(missing[k], t.devices, MergeAll(t, scan).at, network, scannedAt, run, observedAt) {
      var i := SilenceEach(t, scan, network, scannedAt, run, observedAt, k);
    }
  }

  lemma RowsSaw(scan: seq<Sighting>, at: seq<nat>, run: Run, observedAt: int)
    requires |at| == |scan|
    ensures RecordsHosts(PresentForAll(Some(run), scan, at, observedAt), scan, at, run, observedAt)
    ensures |PresentForAll(Some(run), scan, at, observedAt)| == |scan|
  {
    PresentAt(run, scan, at, observedAt);
    forall k: nat | k < |scan| ensures Saw(Present(run, at[k] + 1, scan[k].host, observedAt), run, at[k] + 1, scan[k].host, observedAt) {
      PresentSaw(run, at[k] + 1, scan[k].host, observedAt);
    }
  }

  lemma AllSeen(t: Table, scan: seq<Sighting>, run: Run, observedAt: int, seen: seq<Observation>)
    requires seen == Seen(Some(run), t, scan, observedAt)
    ensures RecordsHosts(seen, scan, MergeAll(t, scan).at, run, observedAt) && |seen| == |scan|
  {
    RowsSaw(scan, MergeAll(t, scan).at, run, observedAt);
  }

  /**
   * The observations of such a scan, one by one: first each host as it was seen, in the scan's order
   * and under the device it was resolved to; then only silent devices, each with its own fields.
   */
  lemma RecordedObservations(t: Table, scan: seq<Sighting>, network: Cidr, scannedAt: int, run: Run, observedAt: int)
    requires forall j :: 0 <= j < |scan| ==> scannedAt <= scan[j].seenAt
    ensures var r := Reconcile(t, scan, Some(CoverageOf(network, scannedAt)), Some(run), observedAt);
      && RecordsHosts(r.observations, scan, r.at, run, observedAt)
      && RecordsSilent(r.observations, |scan|, t.devices, r.at, network, scannedAt, run, observedAt)
  {
    var c := CoverageOf(network, scannedAt);
    BothHalves(t, scan, c, run, observedAt);
    var seen := Seen(Some(run), t, scan, observedAt);
    var missing := MissingAll(run, Absentees(MergeAll(t, scan).table.devices, c.range, scannedAt), observedAt);
    AllSeen(t, scan, run, observedAt, seen);
    AllSilence(t, scan, network, scannedAt, run, observedAt, missing);
    HalvesInOrder(t.devices, scan, seen, missing, MergeAll(t, scan).at, network, scannedAt, run, observedAt);
  }

  /** A merged row the sweep finds absent was not touched by the merge. */
  lemma AbsentIsSilent(t: Table, scan: seq<Sighting>, network: Cidr, scannedAt: int, i: nat)
    requires forall j :: 0 <= j < |scan| ==> scannedAt <= scan[j].seenAt
    requires i < |MergeAll(t, scan).table.devices| && IsAbsent(MergeAll(t, scan).table.devices[i], CoverageOf(network, scannedAt).range, scannedAt)
    ensures Silent(t.devices, MergeAll(t, scan).at, network, scannedAt, i) && MergeAll(t, scan).table.devices[i] == t.devices[i]
  {
    MergedRow(t, scan, i);
    AbsentIff(MergeAll(t, scan).table.devices[i], network, scannedAt);
  }
}
