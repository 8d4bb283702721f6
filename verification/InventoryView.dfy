/**
 * The row table refines a map keyed by `Mac(m)`, or `Addr(ip)` for rows without a MAC; on that
 * map, merging hosts that share no address and no MAC commutes.
 */
module InventoryView {
  import opened Wrappers
  import opened Sequences
  import opened Records
  import opened Inventory

  // ---------------------------------------------------------------- port rows

  function PortIds(ports: seq<PortRow>): (r: seq<(nat, PortKey)>)
    ensures |r| == |ports|
    ensures forall i :: 0 <= i < |ports| ==> r[i] == (ports[i].deviceId, ports[i].key)
  {
    seq(|ports|, i requires 0 <= i < |ports| => (ports[i].deviceId, ports[i].key))
  }

  /** The keys the loop adds rows for: those the snapshot did not have. */
  function Unknown(snapshot: seq<PortRow>, deviceId: nat, found: seq<ParsedPort>): (r: seq<(nat, PortKey)>)
    ensures forall x :: x in r ==> x !in PortIds(snapshot)
    ensures forall x :: x in r ==> exists p :: p in found && x == (deviceId, p.key)
  {
    if found == [] then []
    else
      assert found == [found[0]] + found[1..];
      (if PortAt(snapshot, deviceId, found[0].key).None? then [(deviceId, found[0].key)] else [])
      + Unknown(snapshot, deviceId, found[1..])
  }

  lemma StepAppendsUnknown(snapshot: seq<PortRow>, ports: seq<PortRow>, deviceId: nat, found: ParsedPort, now: int)
    requires |snapshot| <= |ports|
    ensures PortIds(SyncPort(snapshot, ports, deviceId, found, now))
      == PortIds(ports) + if PortAt(snapshot, deviceId, found.key).None? then [(deviceId, found.key)] else []
  {
  }

  lemma {:induction false} SyncAppendsUnknown(snapshot: seq<PortRow>, ports: seq<PortRow>, deviceId: nat, found: seq<ParsedPort>, now: int)
    requires |snapshot| <= |ports|
    ensures PortIds(SyncFrom(snapshot, ports, deviceId, found, now)) == PortIds(ports) + Unknown(snapshot, deviceId, found)
    decreases |found|
  {
    if found != [] {
      var next := SyncPort(snapshot, ports, deviceId, found[0], now);
      StepAppendsUnknown(snapshot, ports, deviceId, found[0], now);
      SyncAppendsUnknown(snapshot, next, deviceId, found[1..], now);
    }
  }

  /** Some unknown port is listed twice; the snapshot then misses both times. */
  ghost predicate RepeatsUnknown(ports: seq<PortRow>, deviceId: nat, found: seq<ParsedPort>) {
    exists i, j :: 0 <= i < j < |found| && found[i].key == found[j].key && PortAt(ports, deviceId, found[i].key).None?
  }

  lemma {:induction false} UnknownRepeatsIff(ports: seq<PortRow>, deviceId: nat, found: seq<ParsedPort>)
    ensures NoDuplicates(Unknown(ports, deviceId, found)) <==> !RepeatsUnknown(ports, deviceId, found)
  {
    if found != [] {
      var first, rest := found[0], found[1..];
      UnknownRepeatsIff(ports, deviceId, rest);
      UnknownHolds(ports, deviceId, rest, first.key);
      var tail := Unknown(ports, deviceId, rest);
      assert RepeatsUnknown(ports, deviceId, found) <==>
        RepeatsUnknown(ports, deviceId, rest)
        || (PortAt(ports, deviceId, first.key).None? && exists j :: 0 <= j < |rest| && rest[j].key == first.key) by {
        RepeatsSplit(ports, deviceId, found);
      }
      if PortAt(ports, deviceId, first.key).None? {
        PrependDistinct((deviceId, first.key), tail);
        assert Unknown(ports, deviceId, found) == [(deviceId, first.key)] + tail;
      } else {
        assert Unknown(ports, deviceId, found) == [] + tail == tail;
      }
    }
  }

  lemma RepeatsSplit(ports: seq<PortRow>, deviceId: nat, found: seq<ParsedPort>)
    requires found != []
    ensures RepeatsUnknown(ports, deviceId, found) <==>
      RepeatsUnknown(ports, deviceId, found[1..])
      || (PortAt(ports, deviceId, found[0].key).None? && exists j :: 0 <= j < |found[1..]| && found[1..][j].key == found[0].key)
  {
    var rest := found[1..];
    assert forall j :: 0 <= j < |rest| ==> rest[j] == found[j + 1];
    if RepeatsUnknown(ports, deviceId, found) {
      var i, j :| 0 <= i < j < |found| && found[i].key == found[j].key && PortAt(ports, deviceId, found[i].key).None?;
      assert rest[j - 1] == found[j];
      if i > 0 {
        assert rest[i - 1] == found[i];
      }
    }
    if RepeatsUnknown(ports, deviceId, rest) {
      var i, j :| 0 <= i < j < |rest| && rest[i].key == rest[j].key && PortAt(ports, deviceId, rest[i].key).None?;
      assert found[i + 1].key == found[j + 1].key;
    }
  }

  lemma PrependDistinct<T>(x: T, s: seq<T>)
    ensures NoDuplicates([x] + s) <==> NoDuplicates(s) && x !in s
  {
    var t := [x] + s;
    assert forall i :: 0 <= i < |s| ==> t[i + 1] == s[i];
    if NoDuplicates(t) {
      forall i, j | 0 <= i < j < |s| ensures s[i] != s[j] {
        assert t[i + 1] != t[j + 1];
      }
      forall i | 0 <= i < |s| ensures s[i] != x {
        assert t[0] != t[i + 1];
      }
    }
  }

  lemma {:induction false} UnknownHolds(ports: seq<PortRow>, deviceId: nat, found: seq<ParsedPort>, key: PortKey)
    ensures (deviceId, key) in Unknown(ports, deviceId, found) <==>
      PortAt(ports, deviceId, key).None? && exists j :: 0 <= j < |found| && found[j].key == key
  {
    if found != [] {
      UnknownHolds(ports, deviceId, found[1..], key);
      assert forall j :: 0 <= j < |found[1..]| ==> found[1..][j] == found[j + 1];
      if j :| 0 <= j < |found| && found[j].key == key {
        if j > 0 {
          assert found[1..][j - 1].key == key;
        }
      }
    }
  }

  lemma UniqueIds(ports: seq<PortRow>)
    ensures PortsUnique(ports) <==> NoDuplicates(PortIds(ports))
  {
  }

  lemma ConcatDistinct<T>(a: seq<T>, b: seq<T>)
    requires NoDuplicates(a) && forall x :: x in b ==> x !in a
    ensures NoDuplicates(a + b) <==> NoDuplicates(b)
  {
    if NoDuplicates(a + b) {
      forall i, j | 0 <= i < j < |b| ensures b[i] != b[j] {
        assert (a + b)[|a| + i] != (a + b)[|a| + j];
      }
    }
    if NoDuplicates(b) {
      forall i, j | 0 <= i < j < |a + b| ensures (a + b)[i] != (a + b)[j] {
        assert j >= |a| ==> (a + b)[j] in b;
      }
    }
  }

  /**
   * The unique constraint survives merging a host exactly when no port the device did not have
   * is listed twice; otherwise the flush is rejected and the whole scan with it.
   */
  lemma PortsStayUniqueIff(ports: seq<PortRow>, deviceId: nat, found: seq<ParsedPort>, now: int)
    requires PortsUnique(ports)
    ensures PortsUnique(SyncPorts(ports, deviceId, found, now)) <==> !RepeatsUnknown(ports, deviceId, found)
  {
    SyncAppendsUnknown(ports, ports, deviceId, found, now);
    UniqueIds(ports);
    UniqueIds(SyncPorts(ports, deviceId, found, now));
    ConcatDistinct(PortIds(ports), Unknown(ports, deviceId, found));
    UnknownRepeatsIff(ports, deviceId, found);
  }

  /** A host that lists one new port twice breaks the constraint. */
  lemma RepeatedPortExample() returns (found: seq<ParsedPort>)
    ensures |found| == 2 && found[0] == found[1]
    ensures PortsUnique([]) && !PortsUnique(SyncPorts([], 1, found, 0))
  {
    var port := ParsedPort(PortKey(22, Tcp), Open, None);
    found := [port, port];
    assert RepeatsUnknown([], 1, found) by {
      assert found[0].key == found[1].key && PortAt([], 1, found[0].key).None?;
    }
    PortsStayUniqueIff([], 1, found, 0);
  }

  lemma SamePortAt(a: seq<PortRow>, b: seq<PortRow>, deviceId: nat, key: PortKey)
    requires |a| <= |b|
    requires forall i :: 0 <= i < |a| ==> SamePort(a[i], b[i])
    requires forall i :: |a| <= i < |b| ==> b[i].deviceId != deviceId || b[i].key != key
    ensures PortAt(a, deviceId, key) == PortAt(b, deviceId, key)
  {
    var p := (row: PortRow) => row.deviceId == deviceId && row.key == key;
    assert forall i :: 0 <= i < |a| && SamePort(a[i], b[i]) ==> p(a[i]) == p(b[i]);
  }

  /** The loop without its snapshot: each port looked up in the table as it now is. */
  function SyncInTurn(ports: seq<PortRow>, deviceId: nat, found: seq<ParsedPort>, now: int): seq<PortRow>
    decreases |found|
  {
    if found == [] then ports
    else SyncInTurn(SyncPort(ports, ports, deviceId, found[0], now), deviceId, found[1..], now)
  }

  /** When one host's port keys are distinct the snapshot never goes stale. */
  lemma {:induction false} SnapshotNeverStale(snapshot: seq<PortRow>, ports: seq<PortRow>, deviceId: nat, found: seq<ParsedPort>, now: int)
    requires DistinctPorts(found)
    requires |snapshot| <= |ports|
    requires forall p :: p in found ==> PortAt(ports, deviceId, p.key) == PortAt(snapshot, deviceId, p.key)
    ensures SyncFrom(snapshot, ports, deviceId, found, now) == SyncInTurn(ports, deviceId, found, now)
    decreases |found|
  {
    if found != [] {
      var first, rest := found[0], found[1..];
      assert found == [first] + rest;
      var next := SyncPort(snapshot, ports, deviceId, first, now);
      forall p | p in rest ensures PortAt(next, deviceId, p.key) == PortAt(snapshot, deviceId, p.key) {
        assert p.key != first.key;
        SamePortAt(ports, next, deviceId, p.key);
      }
      SnapshotNeverStale(snapshot, next, deviceId, rest, now);
    }
  }

  // ---------------------------------------------------------------- the map

  datatype PortInfo = PortInfo(state: PortState, service: Option<Text>, lastSeen: int)

  type PortMap = map<PortKey, PortInfo>

  function InfoOf(row: PortRow): PortInfo {
    PortInfo(row.state, row.service, row.lastSeen)
  }

  /** One device's rows by port key. */
  function PortsOf(ports: seq<PortRow>, deviceId: nat): PortMap {
    if ports == [] then map[]
    else
      var rest, last := PortsOf(ports[..|ports| - 1], deviceId), ports[|ports| - 1];
      if last.deviceId == deviceId then rest[last.key := InfoOf(last)] else rest
  }

  /** A device without its row number, with its ports. */
  datatype Entry = Entry(device: DeviceRow, ports: PortMap)

  type View = map<Key, Entry>

  /** Every port row belongs to a device. */
  predicate PortsOwned(t: Table) {
    forall i :: 0 <= i < |t.ports| ==> 1 <= t.ports[i].deviceId <= |t.devices|
  }

  predicate Consistent(t: Table) {
    Identified(t.devices) && PortsUnique(t.ports) && PortsOwned(t)
  }

  function EntryOf(t: Table, i: nat): Entry
    requires i < |t.devices|
  {
    Entry(t.devices[i].(id := 0), PortsOf(t.ports, i + 1))
  }

  function ViewOf(t: Table): View
    requires Consistent(t)
  {
    map i | 0 <= i < |t.devices| :: KeyOf(t.devices[i]) := EntryOf(t, i)
  }

  // What merging means on the map.

  function RecordPort(ports: PortMap, found: ParsedPort, now: int): PortMap {
    var kept := if found.service.None? && found.key in ports then ports[found.key].service else found.service;
    ports[found.key := PortInfo(found.state, kept, now)]
  }

  function RecordPorts(ports: PortMap, found: seq<ParsedPort>, now: int): PortMap
    decreases |found|
  {
    if found == [] then ports else RecordPorts(RecordPort(ports, found[0], now), found[1..], now)
  }

  /** The key a host is stored under once it has been merged. */
  function HostKey(host: ParsedHost): Key {
    if host.mac.Some? then Mac(host.mac.value) else Addr(host.ip)
  }

  /** The key it is found under: its own, or its address if its MAC has never been seen. */
  function FoundUnder(view: View, host: ParsedHost): Option<Key> {
    if HostKey(host) in view then Some(HostKey(host))
    else if Addr(host.ip) in view then Some(Addr(host.ip))
    else None
  }

  function UpsertView(view: View, s: Sighting): View {
    var before := match FoundUnder(view, s.host)
                  case Some(k) => view[k]
                  case None => Entry(NewRow(0, s), map[]);
    var after := Entry(Refresh(before.device, s), RecordPorts(before.ports, s.host.ports, s.portsAt));
    match FoundUnder(view, s.host)
    case Some(k) => (view - {k})[HostKey(s.host) := after]
    case None => view[HostKey(s.host) := after]
  }

  function MergeView(view: View, scan: seq<Sighting>): View {
    if scan == [] then view
    else UpsertView(MergeView(view, scan[..|scan| - 1]), scan[|scan| - 1])
  }

  // ---------------------------------------------------------------- refinement

  lemma {:induction false} PortsOfHolds(ports: seq<PortRow>, i: nat)
    requires PortsUnique(ports) && i < |ports|
    ensures ports[i].key in PortsOf(ports, ports[i].deviceId)
    ensures PortsOf(ports, ports[i].deviceId)[ports[i].key] == InfoOf(ports[i])
  {
    var n := |ports| - 1;
    if i < n {
      PortsOfHolds(ports[..n], i);
      assert !SamePort(ports[i], ports[n]);
    }
  }

  lemma {:induction false} PortsOfOnly(ports: seq<PortRow>, deviceId: nat, key: PortKey)
    requires key in PortsOf(ports, deviceId)
    ensures PortAt(ports, deviceId, key).Some?
  {
    var n := |ports| - 1;
    if ports[n].deviceId == deviceId && ports[n].key == key {
    } else {
      PortsOfOnly(ports[..n], deviceId, key);
      var i := PortAt(ports[..n], deviceId, key).value;
      assert ports[i] == ports[..n][i];
    }
  }

  /** Rewriting a row in place rewrites its one map entry. */
  lemma {:induction false} UpdateRefines(ports: seq<PortRow>, i: nat, row: PortRow, other: nat)
    requires PortsUnique(ports) && i < |ports| && SamePort(ports[i], row)
    ensures PortsOf(ports[i := row], other)
      == if other == row.deviceId then PortsOf(ports, other)[row.key := InfoOf(row)] else PortsOf(ports, other)
  {
    var n := |ports| - 1;
    if i == n {
      assert ports[i := row][..n] == ports[..n];
    } else {
      assert ports[i := row][..n] == ports[..n][i := row];
      UpdateRefines(ports[..n], i, row, other);
      assert !SamePort(ports[i], ports[n]);
    }
  }

  lemma AppendRefines(ports: seq<PortRow>, row: PortRow, other: nat)
    ensures PortsOf(ports + [row], other)
      == if other == row.deviceId then PortsOf(ports, other)[row.key := InfoOf(row)] else PortsOf(ports, other)
  {
    assert (ports + [row])[..|ports|] == ports;
  }

  ghost predicate OthersKept(before: seq<PortRow>, after: seq<PortRow>, deviceId: nat) {
    && (forall other: nat :: other != deviceId ==> PortsOf(after, other) == PortsOf(before, other))
    && (forall i :: 0 <= i < |after| ==> after[i].deviceId == deviceId || (i < |before| && after[i] == before[i]))
  }

  lemma PortStepRefines(ports: seq<PortRow>, deviceId: nat, found: ParsedPort, now: int)
    requires PortsUnique(ports)
    ensures var next := SyncPort(ports, ports, deviceId, found, now);
      && PortsUnique(next)
      && PortsOf(next, deviceId) == RecordPort(PortsOf(ports, deviceId), found, now)
      && OthersKept(ports, next, deviceId)
  {
    match PortAt(ports, deviceId, found.key) {
      case Some(i) =>
        PortsOfHolds(ports, i);
        forall other: nat {
          UpdateRefines(ports, i, RefreshPort(ports[i], found, now), other);
        }
      case None =>
        if found.key in PortsOf(ports, deviceId) {
          PortsOfOnly(ports, deviceId, found.key);
        }
        forall other: nat {
          AppendRefines(ports, PortRow(deviceId, found.key, found.state, found.service, now), other);
        }
    }
  }

  lemma {:induction false} PortsRefine(ports: seq<PortRow>, deviceId: nat, found: seq<ParsedPort>, now: int)
    requires PortsUnique(ports)
    ensures var next := SyncInTurn(ports, deviceId, found, now);
      && PortsUnique(next)
      && PortsOf(next, deviceId) == RecordPorts(PortsOf(ports, deviceId), found, now)
      && OthersKept(ports, next, deviceId)
    decreases |found|
  {
    if found != [] {
      PortStepRefines(ports, deviceId, found[0], now);
      PortsRefine(SyncPort(ports, ports, deviceId, found[0], now), deviceId, found[1..], now);
    }
  }

  lemma UpsertSyncsInTurn(t: Table, s: Sighting)
    requires DistinctPorts(s.host.ports)
    ensures Upsert(t, s).ports == SyncInTurn(t.ports, Place(t.devices, s.host) + 1, s.host.ports, s.portsAt)
  {
    SnapshotNeverStale(t.ports, t.ports, Place(t.devices, s.host) + 1, s.host.ports, s.portsAt);
  }

  lemma PortsAfterUpsert(t: Table, s: Sighting)
    requires PortsUnique(t.ports) && DistinctPorts(s.host.ports)
    ensures var next, at := Upsert(t, s), Place(t.devices, s.host);
      && PortsUnique(next.ports)
      && PortsOf(next.ports, at + 1) == RecordPorts(PortsOf(t.ports, at + 1), s.host.ports, s.portsAt)
      && OthersKept(t.ports, next.ports, at + 1)
  {
    UpsertSyncsInTurn(t, s);
    PortsRefine(t.ports, Place(t.devices, s.host) + 1, s.host.ports, s.portsAt);
  }

  lemma UpsertKeepsConsistent(t: Table, s: Sighting)
    requires Consistent(t) && DistinctPorts(s.host.ports)
    ensures Consistent(Upsert(t, s))
  {
    UpsertKeepsIdentified(t.devices, s);
    PortsAfterUpsert(t, s);
  }

  lemma {:induction false} NoPortsBeyond(ports: seq<PortRow>, deviceId: nat)
    requires forall i :: 0 <= i < |ports| ==> ports[i].deviceId != deviceId
    ensures PortsOf(ports, deviceId) == map[]
  {
    if ports != [] {
      NoPortsBeyond(ports[..|ports| - 1], deviceId);
    }
  }

  lemma DevicesAfterUpsert(rows: seq<DeviceRow>, s: Sighting)
    ensures var next, at := UpsertDevice(rows, s), Place(rows, s.host);
      && KeyOf(next[at]) == HostKey(s.host)
      && next[at] == Refresh(if at < |rows| then rows[at] else NewRow(|rows| + 1, s), s)
      && forall j :: 0 <= j < |rows| && j != at ==> next[j] == rows[j]
  {
    ResolveByKey(rows, s.host);
  }

  lemma MergedEntry(t: Table, s: Sighting)
    requires Consistent(t) && DistinctPorts(s.host.ports)
    ensures var next, at := Upsert(t, s), Place(t.devices, s.host);
      var before := if at < |t.devices| then EntryOf(t, at) else Entry(NewRow(0, s), map[]);
      EntryOf(next, at) == Entry(Refresh(before.device, s), RecordPorts(before.ports, s.host.ports, s.portsAt))
  {
    PortsAfterUpsert(t, s);
    DevicesAfterUpsert(t.devices, s);
    if Place(t.devices, s.host) == |t.devices| {
      NoPortsBeyond(t.ports, |t.devices| + 1);
    }
  }

  lemma OtherEntry(t: Table, s: Sighting, j: nat)
    requires Consistent(t) && DistinctPorts(s.host.ports) && j < |t.devices| && j != Place(t.devices, s.host)
    ensures EntryOf(Upsert(t, s), j) == EntryOf(t, j)
  {
    PortsAfterUpsert(t, s);
    DevicesAfterUpsert(t.devices, s);
  }

  /** Where the merged host's row ends up, and that no other row's entry moves. */
  lemma EntriesAfterUpsert(t: Table, s: Sighting)
    requires Consistent(t) && DistinctPorts(s.host.ports)
    ensures var next, at := Upsert(t, s), Place(t.devices, s.host);
      var before := if at < |t.devices| then EntryOf(t, at) else Entry(NewRow(0, s), map[]);
      && KeyOf(next.devices[at]) == HostKey(s.host)
      && EntryOf(next, at) == Entry(Refresh(before.device, s), RecordPorts(before.ports, s.host.ports, s.portsAt))
      && forall j :: 0 <= j < |t.devices| && j != at ==> KeyOf(next.devices[j]) == KeyOf(t.devices[j]) && EntryOf(next, j) == EntryOf(t, j)
  {
    MergedEntry(t, s);
    DevicesAfterUpsert(t.devices, s);
    forall j | 0 <= j < |t.devices| && j != Place(t.devices, s.host) ensures EntryOf(Upsert(t, s), j) == EntryOf(t, j) {
      OtherEntry(t, s, j);
    }
  }

  lemma ViewHas(t: Table, k: Key)
    requires Consistent(t)
    ensures k in ViewOf(t) <==> exists i :: 0 <= i < |t.devices| && KeyOf(t.devices[i]) == k
  {
  }

  lemma FoundWhereResolved(t: Table, host: ParsedHost)
    requires Consistent(t)
    ensures Resolve(t.devices, host).None? <==> FoundUnder(ViewOf(t), host).None?
    ensures Resolve(t.devices, host).Some? ==>
      FoundUnder(ViewOf(t), host) == Some(KeyOf(t.devices[Resolve(t.devices, host).value]))
  {
    ResolveByKey(t.devices, host);
    ViewHas(t, HostKey(host));
    ViewHas(t, Addr(host.ip));
  }

  lemma ViewAt(t: Table, i: nat)
    requires Consistent(t) && i < |t.devices|
    ensures KeyOf(t.devices[i]) in ViewOf(t) && ViewOf(t)[KeyOf(t.devices[i])] == EntryOf(t, i)
  {
  }

  /** A map with the same keys and values as a table's rows is its view. */
  lemma ViewIs(t: Table, view: View)
    requires Consistent(t)
    requires forall i :: 0 <= i < |t.devices| ==> KeyOf(t.devices[i]) in view && view[KeyOf(t.devices[i])] == EntryOf(t, i)
    requires forall k :: k in view ==> exists i :: 0 <= i < |t.devices| && KeyOf(t.devices[i]) == k
    ensures ViewOf(t) == view
  {
    forall k | k in view ensures k in ViewOf(t) && ViewOf(t)[k] == view[k] {
      var i :| 0 <= i < |t.devices| && KeyOf(t.devices[i]) == k;
      ViewAt(t, i);
    }
  }

  lemma MergedRowInView(t: Table, s: Sighting)
    requires Consistent(t) && DistinctPorts(s.host.ports)
    ensures var next, at := Upsert(t, s), Place(t.devices, s.host);
      var want := UpsertView(ViewOf(t), s);
      KeyOf(next.devices[at]) in want && want[KeyOf(next.devices[at])] == EntryOf(next, at)
  {
    var at := Place(t.devices, s.host);
    FoundWhereResolved(t, s.host);
    EntriesAfterUpsert(t, s);
    if at < |t.devices| {
      ViewAt(t, at);
    }
  }

  lemma OtherRowInView(t: Table, s: Sighting, j: nat)
    requires Consistent(t) && DistinctPorts(s.host.ports)
    requires j < |t.devices| && j != Place(t.devices, s.host)
    ensures var next := Upsert(t, s);
      var want := UpsertView(ViewOf(t), s);
      KeyOf(next.devices[j]) in want && want[KeyOf(next.devices[j])] == EntryOf(next, j)
  {
    var next, at := Upsert(t, s), Place(t.devices, s.host);
    FoundWhereResolved(t, s.host);
    EntriesAfterUpsert(t, s);
    UpsertKeepsIdentified(t.devices, s);
    ViewAt(t, j);
    assert KeyOf(next.devices[j]) != KeyOf(next.devices[at]);
    if at < |t.devices| {
      assert KeyOf(t.devices[j]) != KeyOf(t.devices[at]);
    }
  }

  lemma ViewKeyHasRow(t: Table, s: Sighting, k: Key)
    requires Consistent(t) && DistinctPorts(s.host.ports)
    requires k in UpsertView(ViewOf(t), s)
    ensures exists j :: 0 <= j < |Upsert(t, s).devices| && KeyOf(Upsert(t, s).devices[j]) == k
  {
    var next, at := Upsert(t, s), Place(t.devices, s.host);
    FoundWhereResolved(t, s.host);
    EntriesAfterUpsert(t, s);
    if k == HostKey(s.host) {
      assert KeyOf(next.devices[at]) == k;
    } else {
      ViewHas(t, k);
      var j :| 0 <= j < |t.devices| && KeyOf(t.devices[j]) == k;
      assert KeyOf(next.devices[j]) == k;
    }
  }

  /** Merging one host into the table is merging it into the map. */
  lemma UpsertRefines(t: Table, s: Sighting)
    requires Consistent(t) && DistinctPorts(s.host.ports)
    ensures Consistent(Upsert(t, s))
    ensures ViewOf(Upsert(t, s)) == UpsertView(ViewOf(t), s)
  {
    var next, at := Upsert(t, s), Place(t.devices, s.host);
    var want := UpsertView(ViewOf(t), s);
    UpsertKeepsConsistent(t, s);
    forall j | 0 <= j < |next.devices|
      ensures KeyOf(next.devices[j]) in want && want[KeyOf(next.devices[j])] == EntryOf(next, j)
    {
      if j == at {
        MergedRowInView(t, s);
      } else {
        OtherRowInView(t, s, j);
      }
    }
    forall k | k in want ensures exists j :: 0 <= j < |next.devices| && KeyOf(next.devices[j]) == k {
      ViewKeyHasRow(t, s, k);
    }
    ViewIs(next, want);
  }

  predicate WellFormed(scan: seq<Sighting>) {
    forall k :: 0 <= k < |scan| ==> DistinctPorts(scan[k].host.ports)
  }

  /** Merging a whole scan into the table is merging it into the map. */
  lemma {:induction false} MergeRefines(t: Table, scan: seq<Sighting>)
    requires Consistent(t) && WellFormed(scan)
    ensures Consistent(MergeAll(t, scan).table)
    ensures ViewOf(MergeAll(t, scan).table) == MergeView(ViewOf(t), scan)
  {
    if scan != [] {
      var n := |scan| - 1;
      MergeRefines(t, scan[..n]);
      UpsertRefines(MergeAll(t, scan[..n]).table, scan[n]);
    }
  }

  // ---------------------------------------------------------------- order independence

  /** Two hosts share neither an address nor a MAC. */
  predicate Apart(a: ParsedHost, b: ParsedHost) {
    a.ip != b.ip && (a.mac.None? || a.mac != b.mac)
  }

  predicate PairwiseApart(scan: seq<Sighting>) {
    forall i, j :: 0 <= i < j < |scan| ==> Apart(scan[i].host, scan[j].host)
  }

  /** Merging a host apart from this one does not change where this one is found. */
  lemma FoundApart(view: View, a: Sighting, b: Sighting)
    requires Apart(a.host, b.host)
    ensures FoundUnder(UpsertView(view, a), b.host) == FoundUnder(view, b.host)
    ensures FoundUnder(view, b.host).Some? ==> UpsertView(view, a)[FoundUnder(view, b.host).value] == view[FoundUnder(view, b.host).value]
  {
  }

  lemma UpsertsCommute(view: View, a: Sighting, b: Sighting)
    requires Apart(a.host, b.host)
    ensures UpsertView(UpsertView(view, a), b) == UpsertView(UpsertView(view, b), a)
  {
    var ab, ba := UpsertView(UpsertView(view, a), b), UpsertView(UpsertView(view, b), a);
    FoundApart(view, a, b);
    FoundApart(view, b, a);
    assert forall k :: k in ab <==> k in ba;
  }

  lemma MergeOneMore(view: View, scan: seq<Sighting>, x: Sighting)
    ensures MergeView(view, scan + [x]) == UpsertView(MergeView(view, scan), x)
  {
    assert (scan + [x])[..|scan|] == scan;
  }

  lemma {:induction false} MoveToEnd(view: View, before: seq<Sighting>, x: Sighting, after: seq<Sighting>)
    requires forall y :: y in after ==> Apart(x.host, y.host)
    ensures MergeView(view, before + [x] + after) == MergeView(view, before + after + [x])
  {
    if after == [] {
      assert before + [x] + after == before + after + [x];
    } else {
      var rest, last := after[..|after| - 1], after[|after| - 1];
      assert before + [x] + after == before + [x] + rest + [last];
      assert before + after == before + rest + [last];
      MergeOneMore(view, before + [x] + rest, last);
      MoveToEnd(view, before, x, rest);
      MergeOneMore(view, before + rest, x);
      UpsertsCommute(MergeView(view, before + rest), x, last);
      MergeOneMore(view, before + rest, last);
      MergeOneMore(view, before + after, x);
    }
  }

  /** Takes one occurrence of `x` out of `ys`. */
  lemma TakeOut<T(!new)>(ys: seq<T>, x: T) returns (before: seq<T>, after: seq<T>)
    requires x in ys
    ensures ys == before + [x] + after
    ensures multiset(before + after) == multiset(ys) - multiset{x}
  {
    var i :| 0 <= i < |ys| && ys[i] == x;
    before, after := ys[..i], ys[i + 1..];
    assert ys == before + [x] + after;
  }

  lemma LastElsewhere(rest: seq<Sighting>, x: Sighting, ys: seq<Sighting>) returns (before: seq<Sighting>, after: seq<Sighting>)
    requires multiset(rest + [x]) == multiset(ys) && PairwiseApart(rest + [x])
    ensures ys == before + [x] + after
    ensures multiset(before + after) == multiset(rest)
    ensures forall y :: y in after ==> Apart(x.host, y.host)
  {
    SameElements(rest + [x], ys);
    assert x in rest + [x];
    before, after := TakeOut(ys, x);
    SameElements(rest, before + after);
    forall y | y in after ensures Apart(x.host, y.host) {
      assert y in before + after;
      var j :| 0 <= j < |rest| && rest[j] == y;
      assert Apart((rest + [x])[j].host, (rest + [x])[|rest|].host);
    }
  }

  lemma {:induction false} AnyOrder(view: View, xs: seq<Sighting>, ys: seq<Sighting>)
    requires multiset(xs) == multiset(ys) && PairwiseApart(xs)
    ensures MergeView(view, xs) == MergeView(view, ys)
    decreases |xs|
  {
    if xs == [] {
      SameElements(xs, ys);
    } else {
      var rest, x := xs[..|xs| - 1], xs[|xs| - 1];
      assert xs == rest + [x];
      var before, after := LastElsewhere(rest, x, ys);
      MoveToEnd(view, before, x, after);
      AnyOrder(view, rest, before + after);
      MergeOneMore(view, before + after, x);
    }
  }

  /** Hosts with pairwise distinct addresses and MACs leave the same inventory in any order. */
  lemma MergeOrderDoesNotMatter(t: Table, xs: seq<Sighting>, ys: seq<Sighting>)
    requires Consistent(t) && WellFormed(xs)
    requires multiset(xs) == multiset(ys) && PairwiseApart(xs)
    ensures Consistent(MergeAll(t, xs).table) && Consistent(MergeAll(t, ys).table)
    ensures ViewOf(MergeAll(t, xs).table) == ViewOf(MergeAll(t, ys).table)
  {
    SameElements(xs, ys);
    forall k | 0 <= k < |ys| ensures DistinctPorts(ys[k].host.ports) {
      assert ys[k] in xs;
    }
    MergeRefines(t, xs);
    MergeRefines(t, ys);
    AnyOrder(ViewOf(t), xs, ys);
  }
}
