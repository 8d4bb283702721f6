/**
 * The session's row objects, updated in place (app/modules/discovery/service.py). Every method is
 * proved to do to the rows what its counterpart in `Inventory` does to their values.
 */
module InventoryStore {
  import opened Wrappers
  import opened Sequences
  import opened Records
  import Inventory

  class Device {
    const id: nat
    var name: Option<Text>
    var hostname: Option<Text>
    var ip: string
    var mac: Option<Text>
    var vendor: Option<Text>
    var deviceType: Option<Text>
    var notes: Option<Text>
    var status: Status
    var firstSeen: int
    var lastSeen: int
    var isDeleted: bool
    var deletedAt: Option<int>

    constructor (id: nat, ip: string, mac: Option<Text>, now: int)
      ensures Row() == DeviceRow(id, None, None, ip, mac, None, None, None, Unknown, now, now, false, None)
    {
      this.id, this.ip, this.mac := id, ip, mac;
      name, hostname, vendor, deviceType, notes, deletedAt := None, None, None, None, None, None;
      status, firstSeen, lastSeen, isDeleted := Unknown, now, now, false;
    }

    function Row(): DeviceRow
      reads this
    {
      DeviceRow(id, name, hostname, ip, mac, vendor, deviceType, notes, status, firstSeen, lastSeen, isDeleted, deletedAt)
    }

    /** The field updates of `upsert_device`. */
    method Refresh(s: Sighting)
      modifies this
      ensures Row() == Inventory.Refresh(old(Row()), s)
      ensures ip == s.host.ip && status == Online && lastSeen == s.seenAt && !isDeleted
      ensures mac == (if s.host.mac.Some? then s.host.mac else old(mac))
      ensures vendor == (if s.host.vendor.Some? then s.host.vendor else old(vendor))
      ensures hostname == (if s.host.hostname.Some? then s.host.hostname else old(hostname))
      ensures deletedAt == (if old(isDeleted) then None else old(deletedAt))
      ensures name == old(name) && deviceType == old(deviceType) && notes == old(notes)
    {
      var host := s.host;
      ip := host.ip;
      if host.mac.Some? {
        mac := host.mac;
      }
      if host.vendor.Some? {
        vendor := host.vendor;
      }
      if host.hostname.Some? {
        hostname := host.hostname;
      }
      status := Online;
      lastSeen := s.seenAt;
      if isDeleted {
        isDeleted := false;
        deletedAt := None;
      }
    }

    /** One turn of the absence sweep. */
    method MarkAbsent(range: Inventory.Range, scannedAt: int) returns (absent: bool)
      modifies this
      ensures Row() == Inventory.MarkAbsent(old(Row()), range, scannedAt)
      ensures absent <==> !isDeleted && range(ip) && lastSeen < scannedAt
      ensures status == (if absent then Offline else old(status))
    {
      absent := Inventory.IsAbsent(Row(), range, scannedAt);
      if absent && status != Offline {
        status := Offline;
      }
    }
  }

  class DevicePort {
    const rowId: nat
    const deviceId: nat
    const key: PortKey
    var state: PortState
    var service: Option<Text>
    var lastSeen: int

    constructor (rowId: nat, deviceId: nat, found: ParsedPort, now: int)
      ensures this.rowId == rowId && Row() == PortRow(deviceId, found.key, found.state, found.service, now)
    {
      this.rowId := rowId;
      this.deviceId, key, state, service, lastSeen := deviceId, found.key, found.state, found.service, now;
    }

    function Row(): PortRow
      reads this
    {
      PortRow(deviceId, key, state, service, lastSeen)
    }

    method Refresh(found: ParsedPort, now: int)
      modifies this
      ensures Row() == Inventory.RefreshPort(old(Row()), found, now)
      ensures state == found.state && lastSeen == now
      ensures service == (if found.service.Some? then found.service else old(service))
    {
      state := found.state;
      if found.service.Some? {
        service := found.service;
      }
      lastSeen := now;
    }
  }

  function Rows(devices: seq<Device>): (r: seq<DeviceRow>)
    reads devices
    ensures |r| == |devices|
    ensures forall i :: 0 <= i < |devices| ==> r[i] == devices[i].Row()
  {
    if devices == [] then [] else Rows(devices[..|devices| - 1]) + [devices[|devices| - 1].Row()]
  }

  function PortRows(ports: seq<DevicePort>): (r: seq<PortRow>)
    reads ports
    ensures |r| == |ports|
    ensures forall i :: 0 <= i < |ports| ==> r[i] == ports[i].Row()
  {
    if ports == [] then [] else PortRows(ports[..|ports| - 1]) + [ports[|ports| - 1].Row()]
  }

  /** These objects, all in `objects`, hold these rows, and their primary keys count from one. */
  ghost predicate DevicesHold(objects: set<Device>, devices: seq<Device>, rows: seq<DeviceRow>)
    reads objects
  {
    |devices| == |rows| && forall i :: 0 <= i < |rows| ==> devices[i] in objects && devices[i].id == i + 1 && devices[i].Row() == rows[i]
  }

  ghost predicate PortsHold(objects: set<DevicePort>, ports: seq<DevicePort>, rows: seq<PortRow>)
    reads objects
  {
    |ports| == |rows| && forall i :: 0 <= i < |rows| ==> ports[i] in objects && ports[i].rowId == i + 1 && ports[i].Row() == rows[i]
  }

  /** What the sweep makes of a row: offline when live, in range and not seen since the scan began. */
  predicate SweptRow(before: DeviceRow, after: DeviceRow, range: Inventory.Range, scannedAt: int) {
    after == if !before.isDeleted && range(before.ip) && before.lastSeen < scannedAt then before.(status := Offline) else before
  }

  class Tables {
    var devices: seq<Device>
    var ports: seq<DevicePort>
    var observations: seq<Observation>

    /** The values of the rows, and the objects that hold them. */
    ghost var table: Inventory.Table
    ghost var deviceObjects: set<Device>
    ghost var portObjects: set<DevicePort>

    ghost predicate Valid()
      reads this, deviceObjects, portObjects
    {
      DevicesHold(deviceObjects, devices, table.devices) && PortsHold(portObjects, ports, table.ports)
    }

    constructor ()
      ensures Valid() && table == Inventory.Table([], []) && observations == []
    {
      devices, ports, observations, table := [], [], [], Inventory.Table([], []);
      deviceObjects, portObjects := {}, {};
    }

    /** One turn of the port loop: `existing` has the row, or a row is added. */
    method SyncPort(existing: seq<PortRow>, deviceId: nat, parsed: ParsedPort, now: int)
      requires PortsHold(portObjects, ports, table.ports) && |existing| <= |ports|
      modifies this`ports, this`table, this`portObjects, portObjects
      ensures fresh(portObjects - old(portObjects)) && PortsHold(portObjects, ports, table.ports)
      ensures table == old(table).(ports := Inventory.SyncPort(existing, old(table).ports, deviceId, parsed, now))
    {
      var current := Inventory.PortAt(existing, deviceId, parsed.key);
      if current.None? {
        var row := new DevicePort(|ports| + 1, deviceId, parsed, now);
        ports := ports + [row];
        portObjects := portObjects + {row};
      } else {
        ports[current.value].Refresh(parsed, now);
      }
      table := table.(ports := Inventory.SyncPort(existing, table.ports, deviceId, parsed, now));
    }

    /** `_sync_ports`: `existing` is read once, before the loop. */
    method SyncPorts(deviceId: nat, found: seq<ParsedPort>, now: int)
      requires PortsHold(portObjects, ports, table.ports)
      modifies this`ports, this`table, this`portObjects, portObjects
      ensures fresh(portObjects - old(portObjects)) && PortsHold(portObjects, ports, table.ports)
      ensures table == old(table).(ports := Inventory.SyncPorts(old(table).ports, deviceId, found, now))
    {
      if found == [] {
        return;
      }
      var existing := PortRows(ports);
      assert existing == table.ports;
      for k := 0 to |found|
        invariant fresh(portObjects - old(portObjects)) && PortsHold(portObjects, ports, table.ports)
        invariant |existing| <= |ports| && table.devices == old(table).devices
        invariant Inventory.SyncFrom(existing, table.ports, deviceId, found[k..], now) == Inventory.SyncPorts(existing, deviceId, found, now)
      {
        Inventory.SyncStep(existing, table.ports, deviceId, found, k, now);
        SyncPort(existing, deviceId, found[k], now);
      }
    }

    /** A new row for a host that belongs to none. */
    method AddDevice(s: Sighting) returns (device: Device)
      requires DevicesHold(deviceObjects, devices, table.devices) && Inventory.Resolve(table.devices, s.host).None?
      modifies this`devices, this`table, this`deviceObjects
      ensures fresh(deviceObjects - old(deviceObjects)) && DevicesHold(deviceObjects, devices, table.devices)
      ensures table == old(table).(devices := Inventory.UpsertDevice(old(table).devices, s))
      ensures device.id == |old(table).devices| + 1
    {
      device := new Device(|devices| + 1, s.host.ip, s.host.mac, s.seenAt);
      devices := devices + [device];
      deviceObjects := deviceObjects + {device};
      device.Refresh(s);
      table := table.(devices := Inventory.UpsertDevice(table.devices, s));
    }

    /** The row found for a host, brought up to date. */
    method RefreshDevice(at: nat, s: Sighting) returns (device: Device)
      requires DevicesHold(deviceObjects, devices, table.devices) && Inventory.Resolve(table.devices, s.host) == Some(at)
      modifies this`table, deviceObjects
      ensures DevicesHold(deviceObjects, devices, table.devices)
      ensures table == old(table).(devices := Inventory.UpsertDevice(old(table).devices, s))
      ensures device.id == at + 1
    {
      device := devices[at];
      device.Refresh(s);
      table := table.(devices := Inventory.UpsertDevice(table.devices, s));
    }

    /** The row a host belongs to, found or added, with its fields brought up to date. */
    method FindOrAdd(s: Sighting) returns (device: Device, isNew: bool)
      requires DevicesHold(deviceObjects, devices, table.devices)
      modifies this`devices, this`table, this`deviceObjects, deviceObjects
      ensures fresh(deviceObjects - old(deviceObjects)) && DevicesHold(deviceObjects, devices, table.devices)
      ensures table == old(table).(devices := Inventory.UpsertDevice(old(table).devices, s))
      ensures device.id == Inventory.Place(old(table).devices, s.host) + 1
      ensures isNew <==> Inventory.Resolve(old(table).devices, s.host).None?
    {
      assert Rows(devices) == table.devices;
      var found := Inventory.Resolve(Rows(devices), s.host);
      isNew := found.None?;
      if found.None? {
        device := AddDevice(s);
      } else {
        device := RefreshDevice(found.value, s);
      }
    }

    /** `upsert_device`. */
    method Upsert(s: Sighting) returns (device: Device, isNew: bool)
      requires Valid()
      modifies this`devices, this`ports, this`table, this`deviceObjects, this`portObjects, deviceObjects, portObjects
      ensures Valid() && fresh(deviceObjects - old(deviceObjects)) && fresh(portObjects - old(portObjects))
      ensures table == Inventory.Upsert(old(table), s)
      ensures device.id == Inventory.Place(old(table).devices, s.host) + 1
      ensures isNew <==> Inventory.Resolve(old(table).devices, s.host).None?
    {
      device, isNew := FindOrAdd(s);
      assert PortsHold(portObjects, ports, table.ports);
      SyncPorts(device.id, s.host.ports, s.portsAt);
      assert DevicesHold(deviceObjects, devices, table.devices);
    }

    /** Where the first loop of `reconcile` stands after `k` turns from `start`. */
    ghost predicate Merging(start: Inventory.Table, before: seq<Observation>, run: Option<Inventory.Run>, up: seq<Sighting>, k: nat, observedAt: int, created: nat)
      requires k <= |up|
      reads this
    {
      var done := Inventory.MergeFirst(run, start, up, k, observedAt);
      table == done.table && created == done.created && observations == before + done.observations
    }

    /** One turn of that loop. */
    method MergeHost(ghost start: Inventory.Table, ghost before: seq<Observation>, run: Option<Inventory.Run>, up: seq<Sighting>, k: nat, observedAt: int, created: nat)
      returns (more: nat)
      requires Valid() && k < |up| && Merging(start, before, run, up, k, observedAt, created)
      modifies this, deviceObjects, portObjects
      ensures Valid() && fresh(deviceObjects - old(deviceObjects)) && fresh(portObjects - old(portObjects))
      ensures Merging(start, before, run, up, k + 1, observedAt, more)
    {
      ghost var done := Inventory.MergeFirst(run, start, up, k, observedAt);
      var device, isNew := Upsert(up[k]);
      more := if isNew then created + 1 else created;
      var seen := Inventory.PresentFor(run, device.id - 1, up[k].host, observedAt);
      Associative(before, done.observations, seen);
      observations := observations + seen;
    }

    method MergeHosts(up: seq<Sighting>, run: Option<Inventory.Run>, observedAt: int) returns (created: nat)
      requires Valid()
      modifies this, deviceObjects, portObjects
      ensures Valid() && fresh(deviceObjects - old(deviceObjects)) && fresh(portObjects - old(portObjects))
      ensures table == Inventory.MergeAll(old(table), up).table && created == Inventory.MergeAll(old(table), up).created
      ensures observations == old(observations) + Inventory.Seen(run, old(table), up, observedAt)
    {
      created := 0;
      for k := 0 to |up|
        invariant Valid() && fresh(deviceObjects - old(deviceObjects)) && fresh(portObjects - old(portObjects))
        invariant Merging(old(table), old(observations), run, up, k, observedAt, created)
      {
        created := MergeHost(old(table), old(observations), run, up, k, observedAt, created);
      }
      Inventory.LoopDone(run, old(table), up, observedAt);
    }

    /** One turn of the absence sweep over `rows`, after `i` turns. */
    method SweepOne(ghost rows: seq<DeviceRow>, i: nat, range: Inventory.Range, scannedAt: int, absent: seq<DeviceRow>) returns (more: seq<DeviceRow>)
      requires i < |rows| && DevicesHold(deviceObjects, devices, table.devices)
      requires table.devices == Inventory.Sweeping(rows, i, range, scannedAt)
      modifies this`table, deviceObjects
      ensures DevicesHold(deviceObjects, devices, table.devices)
      ensures table == old(table).(devices := Inventory.Sweeping(rows, i + 1, range, scannedAt))
      ensures more == absent + Inventory.AbsenteeOrNone(rows[i], range, scannedAt)
    {
      Inventory.SweepMarksEach(rows, i, range, scannedAt);
      var silent := devices[i].MarkAbsent(range, scannedAt);
      var row := devices[i].Row();
      more := if silent then absent + [row] else absent;
      table := table.(devices := table.devices[i := row]);
    }

    /** `mark_absent_devices_offline`; the rows it returns are read as they stand. */
    method MarkAbsentOffline(range: Inventory.Range, scannedAt: int) returns (absent: seq<DeviceRow>)
      requires DevicesHold(deviceObjects, devices, table.devices)
      modifies this`table, deviceObjects
      ensures DevicesHold(deviceObjects, devices, table.devices)
      ensures table == old(table).(devices := Inventory.Sweep(old(table).devices, range, scannedAt))
      ensures absent == Inventory.Absentees(old(table).devices, range, scannedAt)
      ensures |table.devices| == |old(table).devices| && forall i :: 0 <= i < |table.devices| ==>
        SweptRow(old(table).devices[i], table.devices[i], range, scannedAt)
    {
      ghost var start := table;
      absent := [];
      for i := 0 to |devices|
        invariant DevicesHold(deviceObjects, devices, table.devices)
        invariant table == start.(devices := Inventory.Sweeping(start.devices, i, range, scannedAt))
        invariant absent == Inventory.AbsentAmong(start.devices, i, range, scannedAt)
      {
        absent := SweepOne(start.devices, i, range, scannedAt, absent);
      }
      Inventory.SweepMarksEach(start.devices, |start.devices|, range, scannedAt);
    }

    /** The second half of `reconcile`. */
    method RecordAbsent(c: Inventory.Coverage, run: Option<Inventory.Run>, observedAt: int)
      requires Valid()
      modifies this`table, this`observations, deviceObjects
      ensures Valid() && table == old(table).(devices := Inventory.Sweep(old(table).devices, c.range, c.scannedAt))
      ensures observations == old(observations) + Inventory.MissingFor(run, Inventory.Absentees(old(table).devices, c.range, c.scannedAt), observedAt)
    {
      var absent := MarkAbsentOffline(c.range, c.scannedAt);
      observations := observations + Inventory.MissingFor(run, absent, observedAt);
    }

    /** `reconcile`, for the readings of the hosts that are up; observations only for a recorded run. */
    method Reconcile(scan: seq<Sighting>, coverage: Option<Inventory.Coverage>, run: Option<Inventory.Run>, observedAt: int) returns (found: nat, created: nat)
      requires Valid()
      modifies this, deviceObjects, portObjects
      ensures Valid() && found == |Inventory.UpHosts(scan)|
      ensures var r := Inventory.Reconcile(old(table), Inventory.UpHosts(scan), coverage, run, observedAt);
        table == r.table && created == r.created && observations == old(observations) + r.observations
    {
      var up := Inventory.UpHosts(scan);
      found := |up|;
      created := MergeHosts(up, run, observedAt);
      if coverage.Some? {
        Associative(old(observations), Inventory.Seen(run, old(table), up, observedAt),
                    Inventory.MissingFor(run, Inventory.Absentees(table.devices, coverage.value.range, coverage.value.scannedAt), observedAt));
        RecordAbsent(coverage.value, run, observedAt);
      }
    }
  }
}
